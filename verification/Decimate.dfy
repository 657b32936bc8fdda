/**
 Folding minute readings into at most n chart points so that every extreme survives.

 Bucket limits are truncated products of a floating-point step. The products are parameters, required
 only to be near the exact ones, and everything below holds for all of them. The readings are cut into
 buckets; of each bucket the chart keeps the first minute, the highest of the maxima and the lowest of
 the minima, where there are any.
 */
module Decimate {
  import opened Arithmetic
  import opened Bytes

  /** A minute's reading; either extreme may be absent. */
  datatype Point = Point(minute: int, maxC: Option<real>, minC: Option<real>)

  function Value(up: bool, p: Point): Option<real> {
    if up then p.maxC else p.minC
  }

  predicate Beyond(up: bool, a: real, b: real) {
    if up then a > b else a < b
  }

  // ----- extremes -----

  /** v is the largest (or smallest) value present in the rows, or absent if none has one. */
  ghost predicate Extreme(up: bool, v: Option<real>, rows: seq<Point>) {
    && (v.Some? ==> exists i :: 0 <= i < |rows| && Value(up, rows[i]) == v)
    && (forall i :: 0 <= i < |rows| && Value(up, rows[i]).Some? ==>
          v.Some? && !Beyond(up, Value(up, rows[i]).value, v.value))
  }

  lemma ExtremeUnique(up: bool, v: Option<real>, w: Option<real>, rows: seq<Point>)
    requires Extreme(up, v, rows) && Extreme(up, w, rows)
    ensures v == w
  {
    if v.Some? {
      var i :| 0 <= i < |rows| && Value(up, rows[i]) == v;
    }
    if w.Some? {
      var j :| 0 <= j < |rows| && Value(up, rows[j]) == w;
    }
  }

  function Better(up: bool, v: Option<real>, w: Option<real>): Option<real> {
    if w.Some? && (v.None? || Beyond(up, w.value, v.value)) then w else v
  }

  lemma ExtremeJoin(up: bool, v: Option<real>, a: seq<Point>, w: Option<real>, b: seq<Point>)
    requires Extreme(up, v, a) && Extreme(up, w, b)
    ensures Extreme(up, Better(up, v, w), a + b)
  {
    var all, x := a + b, Better(up, v, w);
    if x.Some? {
      if x == v {
        var i :| 0 <= i < |a| && Value(up, a[i]) == v;
        assert all[i] == a[i];
      } else {
        var i :| 0 <= i < |b| && Value(up, b[i]) == w;
        assert all[|a| + i] == b[i];
      }
    }
    forall i | 0 <= i < |all| && Value(up, all[i]).Some?
        ensures x.Some? && !Beyond(up, Value(up, all[i]).value, x.value) {
      assert if i < |a| then all[i] == a[i] else all[i] == b[i - |a|];
    }
  }

  lemma ExtremeOne(up: bool, p: Point)
    ensures Extreme(up, Value(up, p), [p])
  {
    assert [p][0] == p;
  }

  // ----- cuts -----

  /** The products of the step with 0, 1, .., n - 1 are near i * rows / n: exact for 0, else within 1 / (2n). */
  predicate Near(product: nat -> real, total: nat, n: nat)
    requires n > 0
  {
    && product(0) == 0.0
    && forall i: nat :: i < n ==> NearMultiple(product(i), i as real, total as real, n as real)
  }

  predicate NearMultiple(p: real, i: real, total: real, n: real) {
    -1.0 <= 2.0 * (n * p - i * total) <= 1.0
  }

  /** Where bucket i starts; the last one ends with the rows. */
  function Cut(product: nat -> real, total: nat, n: nat, i: nat): int {
    if i >= n then total else product(i).Floor
  }

  /** The products without rounding. */
  function Exact(total: nat, n: nat): nat -> real
    requires n > 0
  {
    (i: nat) => i as real * (total as real / n as real)
  }

  lemma ExactIsNear(total: nat, n: nat)
    requires n > 0
    ensures Near(Exact(total, n), total, n)
  {
    var e := Exact(total, n);
    forall i: nat | i < n ensures NearMultiple(e(i), i as real, total as real, n as real) {
      ScaleBack(i as real, total as real, n as real);
    }
  }

  lemma ScaleBack(i: real, total: real, n: real)
    requires n > 0.0
    ensures n * (i * (total / n)) == i * total
  {
    var q := total / n;
    assert n * q == total;
    assert n * (i * q) == i * (n * q);
  }

  lemma FloorApart(a: real, b: real)
    requires b >= a + 1.0
    ensures b.Floor > a.Floor
  {
  }

  lemma Sign(n: real, d: real)
    requires n > 0.0
    ensures n * d >= 0.0 ==> d >= 0.0
    ensures n * d > 0.0 ==> d > 0.0
    ensures d >= 0.0 ==> n * d >= 0.0
  {
  }

  lemma Spread(n: real, i: real, total: real, p: real, q: real)
    requires n > 0.0 && total >= n + 1.0
    requires NearMultiple(p, i, total, n) && NearMultiple(q, i + 1.0, total, n)
    ensures q >= p + 1.0
  {
    var a, b, c := n * p, n * q, i * total;
    assert (i + 1.0) * total == c + total;
    assert b - a >= total - 1.0;
    assert n * (q - p - 1.0) == b - a - n;
    Sign(n, q - p - 1.0);
  }

  /** The cuts start at 0, end with the rows, and strictly increase: no bucket is empty. */
  lemma CutsIncrease(product: nat -> real, total: nat, n: nat, i: nat)
    requires 0 < n < total && Near(product, total, n) && i < n
    ensures Cut(product, total, n, 0) == 0 && Cut(product, total, n, n) == total
    ensures 0 <= Cut(product, total, n, i) < Cut(product, total, n, i + 1) <= total
  {
    CutBelow(product, total, n, i);
    if i + 1 < n {
      CutBelow(product, total, n, i + 1);
      var p, q := product(i), product(i + 1);
      var r, t, m := i as real, total as real, n as real;
      assert (i + 1) as real == r + 1.0;
      Spread(m, r, t, p, q);
      FloorApart(p, q);
    }
  }

  lemma CutBelow(product: nat -> real, total: nat, n: nat, i: nat)
    requires 0 < n < total && Near(product, total, n) && i < n
    ensures 0 <= Cut(product, total, n, i) < total
  {
    var r, t, m, p := i as real, total as real, n as real, product(i);
    if i == 0 {
    } else {
      AtLeast(r, t, m, p);
    }
    Within(r, t, m, p);
  }

  lemma AtLeast(i: real, total: real, n: real, p: real)
    requires i >= 1.0 && total >= n >= 1.0 && NearMultiple(p, i, total, n)
    ensures p >= 0.0
  {
    Sign(total, i - 1.0);
    assert total * (i - 1.0) == i * total - total;
    Sign(n, p);
  }

  lemma Within(i: real, total: real, n: real, p: real)
    requires i <= n - 1.0 && total >= n + 1.0 && n >= 1.0 && NearMultiple(p, i, total, n)
    ensures p < total
  {
    Sign(total, n - 1.0 - i);
    assert total * (n - 1.0 - i) == n * total - total - i * total;
    assert n * (total - p) == n * total - n * p;
    Sign(n, total - p);
  }

  /** The rows of bucket i. */
  function Bucket(rows: seq<Point>, product: nat -> real, n: nat, i: nat): seq<Point> {
    var lo, hi := Cut(product, |rows|, n, i), Cut(product, |rows|, n, i + 1);
    if 0 <= lo <= hi <= |rows| then rows[lo..hi] else []
  }

  function Buckets(rows: seq<Point>, product: nat -> real, n: nat, k: nat): seq<Point> {
    if k == 0 then [] else Buckets(rows, product, n, k - 1) + Bucket(rows, product, n, k - 1)
  }

  /** The first k buckets together are the rows up to the next cut: all of them cover every row once, in order. */
  lemma {:induction false} BucketsCover(rows: seq<Point>, product: nat -> real, n: nat, k: nat)
    requires 0 < n < |rows| && Near(product, |rows|, n) && k <= n
    ensures 0 <= Cut(product, |rows|, n, k) <= |rows|
    ensures Buckets(rows, product, n, k) == rows[..Cut(product, |rows|, n, k)]
  {
    hide Near, Cut;
    if k == 0 {
      CutsIncrease(product, |rows|, n, 0);
    } else {
      CutsIncrease(product, |rows|, n, k - 1);
      BucketsCover(rows, product, n, k - 1);
      var lo, hi := Cut(product, |rows|, n, k - 1), Cut(product, |rows|, n, k);
      assert rows[..lo] + rows[lo..hi] == rows[..hi];
    }
  }

  // ----- decimation -----

  /** A chart point stands for its bucket: the first minute, and both extremes. */
  ghost predicate StandsFor(p: Point, bucket: seq<Point>) {
    && bucket != [] && p.minute == bucket[0].minute
    && Extreme(true, p.maxC, bucket) && Extreme(false, p.minC, bucket)
  }

  ghost predicate Decimated(rows: seq<Point>, product: nat -> real, n: nat, out: seq<Point>) {
    && |out| == n
    && forall i :: 0 <= i < n ==> StandsFor(out[i], Bucket(rows, product, n, i))
  }

  /**
   One chart point, read off the readings from where its product of the step falls up to where the next one does:
   the first minute, and the highest and lowest of the values there are.
   */
  lemma ChartPoint(rows: seq<Point>, product: nat -> real, n: nat, out: seq<Point>, i: nat)
    requires 0 < n < |rows| && Near(product, |rows|, n) && Decimated(rows, product, n, out) && i < n
    ensures var lo, hi := product(i).Floor, if i + 1 < n then product(i + 1).Floor else |rows|;
      && 0 <= lo < hi <= |rows| && out[i].minute == rows[lo].minute
      && (forall j :: lo <= j < hi && rows[j].maxC.Some? ==>
            out[i].maxC.Some? && rows[j].maxC.value <= out[i].maxC.value)
      && (forall j :: lo <= j < hi && rows[j].minC.Some? ==>
            out[i].minC.Some? && rows[j].minC.value >= out[i].minC.value)
      && (out[i].maxC.Some? ==> exists j :: lo <= j < hi && rows[j].maxC == out[i].maxC)
      && (out[i].minC.Some? ==> exists j :: lo <= j < hi && rows[j].minC == out[i].minC)
  {
    hide Near;
    CutsIncrease(product, |rows|, n, i);
    var lo, hi := Cut(product, |rows|, n, i), Cut(product, |rows|, n, i + 1);
    var bucket := Bucket(rows, product, n, i);
    assert StandsFor(out[i], bucket) && bucket == rows[lo..hi];
    assert forall j :: lo <= j < hi ==> rows[j] == bucket[j - lo];
    assert forall k :: 0 <= k < hi - lo ==> bucket[k] == rows[lo + k];
  }

  method DecimateThermalPoints(rows: seq<Point>, n: int, product: nat -> real) returns (out: seq<Point>)
    requires 0 < n < |rows| ==> Near(product, |rows|, n)
    ensures rows == [] || n <= 0 ==> out == []
    ensures rows != [] && |rows| <= n ==> out == rows
    ensures 0 < n < |rows| ==> Decimated(rows, product, n, out)
  {
    hide Near, Extreme, Better;
    if rows == [] || n <= 0 {
      return [];
    }
    if |rows| <= n {
      return rows;
    }
    out := [];
    for i := 0 to n
      invariant |out| == i
      invariant forall k :: 0 <= k < i ==> StandsFor(out[k], Bucket(rows, product, n, k))
    {
      CutsIncrease(product, |rows|, n, i);
      var lo := product(i).Floor;
      var hi := |rows|;
      if i < n - 1 && product(i + 1).Floor <= |rows| {
        hi := product(i + 1).Floor;
      }
      if lo >= hi {
        lo := hi - 1;
      }
      assert Bucket(rows, product, n, i) == rows[lo..hi];
      var b := FoldBucket(rows[lo..hi]);
      out := out + [b];
    }
  }

  method FoldBucket(bucket: seq<Point>) returns (b: Point)
    requires bucket != []
    ensures StandsFor(b, bucket)
  {
    hide Extreme, Beyond;
    b := Point(bucket[0].minute, None, None);
    NoExtremes();
    assert bucket[..0] == [];
    for i := 0 to |bucket|
      invariant b.minute == bucket[0].minute
      invariant Extreme(true, b.maxC, bucket[..i]) && Extreme(false, b.minC, bucket[..i])
    {
      var p := bucket[i];
      ExtremeOne(true, p);
      ExtremeJoin(true, b.maxC, bucket[..i], p.maxC, [p]);
      ExtremeOne(false, p);
      ExtremeJoin(false, b.minC, bucket[..i], p.minC, [p]);
      assert bucket[..i + 1] == bucket[..i] + [p];
      b := b.(maxC := Better(true, b.maxC, p.maxC), minC := Better(false, b.minC, p.minC));
    }
    assert bucket[..|bucket|] == bucket;
  }

  lemma NoExtremes()
    ensures Extreme(true, None, []) && Extreme(false, None, [])
  {
  }

  /** Some extreme always exists. */
  function Best(up: bool, rows: seq<Point>): (v: Option<real>)
    ensures Extreme(up, v, rows)
  {
    if rows == [] then None else
    var front, last := rows[..|rows| - 1], rows[|rows| - 1];
    assert rows == front + [last];
    ExtremeOne(up, last);
    ExtremeJoin(up, Best(up, front), front, Value(up, last), [last]);
    Better(up, Best(up, front), Value(up, last))
  }

  lemma BestNone(up: bool)
    ensures Best(up, []) == None
  {
  }

  lemma BestSnoc(up: bool, rows: seq<Point>, p: Point)
    ensures Best(up, rows + [p]) == Better(up, Best(up, rows), Value(up, p))
  {
    hide Extreme;
    assert (rows + [p])[..|rows|] == rows;
  }

  /** The first k chart points have the extremes of the first k buckets. */
  lemma {:induction false} PrefixExtremes(rows: seq<Point>, product: nat -> real, n: nat, out: seq<Point>, up: bool,
      k: nat)
    requires Decimated(rows, product, n, out) && k <= n
    ensures Extreme(up, Best(up, out[..k]), Buckets(rows, product, n, k))
  {
    hide Extreme, Best, Better, Bucket;
    if k == 0 {
      NoExtremes();
      assert out[..0] == [];
      BestNone(up);
    } else {
      PrefixExtremes(rows, product, n, out, up, k - 1);
      var p := out[k - 1];
      assert StandsFor(p, Bucket(rows, product, n, k - 1));
      var before := Best(up, out[..k - 1]);
      ExtremeJoin(up, before, Buckets(rows, product, n, k - 1), Value(up, p), Bucket(rows, product, n, k - 1));
      BestSnoc(up, out[..k - 1], p);
      assert out[..k] == out[..k - 1] + [p];
    }
  }

  /** A value is the maximum (or minimum) of the chart exactly when it is that of the readings. */
  lemma ExtremesSurvive(
      rows: seq<Point>, product: nat -> real, n: nat, out: seq<Point>, up: bool, v: Option<real>)
    requires 0 < n < |rows| && Near(product, |rows|, n) && Decimated(rows, product, n, out)
    ensures Extreme(up, v, out) <==> Extreme(up, v, rows)
  {
    hide Extreme, Near, Decimated;
    PrefixExtremes(rows, product, n, out, up, DecimatedSize(rows, product, n, out));
    BucketsCover(rows, product, n, n);
    assert out[..n] == out && rows[..|rows|] == rows;
    var best := Best(up, out);
    if Extreme(up, v, out) {
      ExtremeUnique(up, v, best, out);
    }
    if Extreme(up, v, rows) {
      ExtremeUnique(up, v, best, rows);
    }
  }

  ghost function DecimatedSize(rows: seq<Point>, product: nat -> real, n: nat, out: seq<Point>): (k: nat)
    requires Decimated(rows, product, n, out)
    ensures k == n == |out|
  {
    n
  }

  /** The chart runs forward in time if the readings do. */
  lemma {:induction false} MinutesIncrease(rows: seq<Point>, product: nat -> real, n: nat, out: seq<Point>, i: nat,
      j: nat)
    requires 0 < n < |rows| && Near(product, |rows|, n) && Decimated(rows, product, n, out)
    requires forall a, b :: 0 <= a < b < |rows| ==> rows[a].minute < rows[b].minute
    requires i < j < n
    ensures out[i].minute < out[j].minute
    decreases j
  {
    hide Near, Extreme, Cut, Bucket, StandsFor;
    CutsIncrease(product, |rows|, n, j - 1);
    CutsIncrease(product, |rows|, n, j);
    FirstMinute(rows, product, n, out, j - 1);
    FirstMinute(rows, product, n, out, j);
    if i < j - 1 {
      MinutesIncrease(rows, product, n, out, i, j - 1);
    }
  }

  lemma FirstMinute(rows: seq<Point>, product: nat -> real, n: nat, out: seq<Point>, i: nat)
    requires 0 < n < |rows| && Near(product, |rows|, n) && Decimated(rows, product, n, out) && i < n
    ensures 0 <= Cut(product, |rows|, n, i) < |rows|
    ensures out[i].minute == rows[Cut(product, |rows|, n, i)].minute
  {
    hide Near, Extreme, Cut;
    CutsIncrease(product, |rows|, n, i);
    assert StandsFor(out[i], Bucket(rows, product, n, i));
  }

  /** In exact arithmetic every bucket holds rows / n readings, rounded down or up. */
  lemma ExactBucketSize(total: nat, n: nat, i: nat)
    requires 0 < n < total && i < n
    ensures var size := Cut(Exact(total, n), total, n, i + 1) - Cut(Exact(total, n), total, n, i);
      size == total / n || (size == total / n + 1 && total % n != 0)
  {
    hide Cut;
    ExactCut(total, n, i);
    ExactCut(total, n, i + 1);
    var a := i * total;
    assert (i + 1) * total == a + total;
    SumQuotient(a, n, total / n, total % n);
    assert total == n * (total / n) + total % n;
  }

  lemma SumQuotient(a: nat, n: nat, q: nat, r: nat)
    requires n > 0 && r < n
    ensures var d := (a + n * q + r) / n - a / n;
      d == q || (d == q + 1 && r != 0)
  {
    var b, c := a / n, a % n;
    assert a == n * b + c;
    if c + r < n {
      assert n * (b + q) == n * b + n * q;
      Divided(a + n * q + r, b + q, c + r, n);
    } else {
      assert n * (b + q + 1) == n * b + n * q + n;
      Divided(a + n * q + r, b + q + 1, c + r - n, n);
    }
  }

  lemma ExactCut(total: nat, n: nat, i: nat)
    requires n > 0 && i <= n
    ensures Cut(Exact(total, n), total, n, i) == i * total / n
  {
    if i == n {
      Divided(n * total, total, 0, n);
    }
    var x := i as real * (total as real / n as real);
    ScaleBack(i as real, total as real, n as real);
    assert n as real * x == (i * total) as real;
    FloorQuotient(x, i * total, n);
  }

  lemma FloorQuotient(x: real, a: nat, n: nat)
    requires n > 0 && n as real * x == a as real
    ensures x.Floor == a / n
  {
    var q, r := a / n, a % n;
    assert a == n * q + r;
    RealProduct(n, q);
    assert a as real == (n * q) as real + r as real;
    Between(n as real, q as real, r as real, x);
    FloorIs(x, q);
  }

  lemma RealProduct(a: int, b: int)
    ensures (a * b) as real == a as real * b as real
  {
  }

  lemma FloorIs(x: real, q: int)
    requires q as real <= x < q as real + 1.0
    ensures x.Floor == q
  {
  }

  lemma Between(m: real, k: real, r: real, x: real)
    requires m > 0.0 && 0.0 <= r < m && m * x == m * k + r
    ensures k <= x < k + 1.0
  {
    assert m * (x - k) == r && m * (k + 1.0 - x) == m - r;
    Sign(m, x - k);
    Sign(m, k + 1.0 - x);
  }
}

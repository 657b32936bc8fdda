/**
 Zone filtering: the ray-casting test and what it means.  Coordinates are real numbers; rounding of
 64-bit floats is not part of this model.
 */
module Polygon {

  datatype Point = Point(x: real, y: real)

  // ----- the test -----

  predicate Straddles(y: real, a: Point, b: Point) {
    (a.y > y) != (b.y > y)
  }

  /** Where the line through a and b meets height y; asked only when the heights of a and b differ. */
  function MeetsAt(y: real, a: Point, b: Point): real
    requires a.y != b.y
  {
    (b.x - a.x) * (y - a.y) / (b.y - a.y) + a.x
  }

  /** The horizontal ray from p to the right crosses the edge between a and b. */
  predicate Crosses(p: Point, a: Point, b: Point) {
    Straddles(p.y, a, b) && p.x < MeetsAt(p.y, a, b)
  }

  /** Parity of the crossings along an open path. */
  function Chain(p: Point, vs: seq<Point>): bool {
    if |vs| < 2 then false else Crosses(p, vs[1], vs[0]) != Chain(p, vs[1..])
  }

  /** Parity of the crossings along the closed boundary. */
  function Inside(p: Point, polygon: seq<Point>): bool {
    polygon != [] && Chain(p, polygon + [polygon[0]])
  }

  /** The program's loop; the division in it is never by zero. */
  method PointInPolygon(p: Point, polygon: seq<Point>) returns (inside: bool)
    ensures inside == Inside(p, polygon)
  {
    if |polygon| < 3 {
      Degenerate(p, polygon);
      return false;
    }
    inside := false;
    var n := |polygon|;
    var j := n - 1;
    for i := 0 to n
      invariant j == if i == 0 then n - 1 else i - 1
      invariant inside == if i == 0 then false
                          else Crosses(p, polygon[0], polygon[n - 1]) != Chain(p, polygon[..i])
    {
      var a, b := polygon[i], polygon[j];
      if (a.y > p.y) != (b.y > p.y) && p.x < MeetsAt(p.y, a, b) {
        inside := !inside;
      }
      if i > 0 {
        ChainSnoc(p, polygon[..i], a);
        assert polygon[..i + 1] == polygon[..i] + [a];
      }
      j := i;
    }
    assert polygon[..n] == polygon;
    ChainSnoc(p, polygon, polygon[0]);
  }

  // ----- paths -----

  /** Extending a path adds its last edge. */
  lemma {:induction false} ChainSnoc(p: Point, vs: seq<Point>, v: Point)
    requires vs != []
    ensures Chain(p, vs + [v]) == (Chain(p, vs) != Crosses(p, v, vs[|vs| - 1]))
    decreases |vs|
  {
    if |vs| > 1 {
      assert (vs + [v])[1..] == vs[1..] + [v];
      ChainSnoc(p, vs[1..], v);
    } else {
      assert (vs + [v])[1..] == [v];
    }
  }

  /** Two paths that meet in a vertex. */
  lemma {:induction false} ChainConcat(p: Point, a: seq<Point>, v: Point, b: seq<Point>)
    ensures Chain(p, a + [v] + b) == (Chain(p, a + [v]) != Chain(p, [v] + b))
    decreases |a|
  {
    if a == [] {
      assert [] + [v] + b == [v] + b && [] + [v] == [v];
    } else {
      assert (a + [v] + b)[1..] == a[1..] + [v] + b;
      assert (a + [v])[1..] == a[1..] + [v];
      ChainConcat(p, a[1..], v, b);
    }
  }

  lemma Degenerate(p: Point, polygon: seq<Point>)
    requires |polygon| < 3
    ensures !Inside(p, polygon)
  {
    if |polygon| == 2 {
      var a, b := polygon[0], polygon[1];
      assert polygon + [a] == [a, b, a];
      assert [a, b, a][1..] == [b, a] && [b, a][1..] == [a];
      assert Chain(p, [b, a]) == Crosses(p, a, b);
      CrossesSymmetric(p, a, b);
    } else if |polygon| == 1 {
      var a := polygon[0];
      assert polygon + [a] == [a, a] && [a, a][1..] == [a];
      assert !Chain(p, [a]) && !Crosses(p, a, a);
    }
  }

  // ----- one edge: crossing is a question of sides -----

  /** Twice the signed area of a, b, p: positive when p lies to the left of the way from a to b. */
  function Side(a: Point, b: Point, p: Point): real {
    (b.x - a.x) * (p.y - a.y) - (b.y - a.y) * (p.x - a.x)
  }

  lemma SideSwap(a: Point, b: Point, p: Point)
    ensures Side(b, a, p) == -Side(a, b, p)
  {
  }

  /** A straddling edge is crossed when p lies to the left of it, looking upwards along it. */
  lemma CrossesBySide(p: Point, a: Point, b: Point)
    requires Straddles(p.y, a, b)
    ensures a.y < b.y ==> (Crosses(p, a, b) <==> Side(a, b, p) > 0.0)
    ensures a.y > b.y ==> (Crosses(p, a, b) <==> Side(a, b, p) < 0.0)
  {
    var d := b.y - a.y;
    var n := (b.x - a.x) * (p.y - a.y);
    var t := n / d;
    assert t * d == n;
    var w := p.x - a.x;
    assert Side(a, b, p) == n - d * w;
    assert MeetsAt(p.y, a, b) == t + a.x;
    Scale(w, t, d);
  }

  lemma Scale(w: real, t: real, d: real)
    ensures d > 0.0 ==> (w < t <==> d * w < t * d)
    ensures d < 0.0 ==> (w < t <==> d * w > t * d)
  {
    assert t * d - d * w == d * (t - w);
    Signs(d, t - w);
  }

  lemma Signs(a: real, b: real)
    ensures a * b > 0.0 <==> (a > 0.0 && b > 0.0) || (a < 0.0 && b < 0.0)
    ensures a * b == 0.0 <==> a == 0.0 || b == 0.0
  {
    if a > 0.0 && b > 0.0 {
      assert a * b > 0.0;
    } else if a < 0.0 && b < 0.0 {
      assert a * b == (-a) * (-b);
      assert a * b > 0.0;
    } else if a > 0.0 && b < 0.0 {
      assert a * b == -(a * (-b));
      assert a * (-b) > 0.0;
    } else if a < 0.0 && b > 0.0 {
      assert a * b == -((-a) * b);
      assert (-a) * b > 0.0;
    }
  }

  lemma CrossesSymmetric(p: Point, a: Point, b: Point)
    ensures Crosses(p, a, b) == Crosses(p, b, a)
  {
    if Straddles(p.y, a, b) {
      CrossesBySide(p, a, b);
      CrossesBySide(p, b, a);
      SideSwap(a, b, p);
    }
  }

  // ----- rotation, reversal, chords -----

  /** The starting vertex does not matter. */
  lemma RotationInvariant(p: Point, a: seq<Point>, b: seq<Point>)
    ensures Inside(p, a + b) == Inside(p, b + a)
  {
    if a == [] || b == [] {
      assert a + b == b + a;
    } else {
      var u, v := a[0], b[0];
      // a + b + [u] and b + a + [v], both cut at u and at v.
      ChainConcat(p, a, v, b[1..] + [u]);
      assert (a + b) + [u] == a + [v] + (b[1..] + [u]);
      ChainConcat(p, b, u, a[1..] + [v]);
      assert (b + a) + [v] == b + [u] + (a[1..] + [v]);
      assert [v] + (b[1..] + [u]) == b + [u];
      assert [u] + (a[1..] + [v]) == a + [v];
      assert (a + b)[0] == u && (b + a)[0] == v;
    }
  }

  function Reverse(s: seq<Point>): (r: seq<Point>)
    ensures |r| == |s|
  {
    if s == [] then [] else Reverse(s[1..]) + [s[0]]
  }

  lemma {:induction false} ChainReverse(p: Point, vs: seq<Point>)
    ensures Chain(p, Reverse(vs)) == Chain(p, vs)
    ensures vs != [] ==> Reverse(vs)[|vs| - 1] == vs[0]
    decreases |vs|
  {
    if |vs| > 1 {
      ChainReverse(p, vs[1..]);
      ChainSnoc(p, Reverse(vs[1..]), vs[0]);
      CrossesSymmetric(p, vs[0], vs[1]);
    } else if |vs| == 1 {
      assert Reverse(vs) == [vs[0]];
    }
  }

  lemma {:induction false} ReverseSnoc(s: seq<Point>, v: Point)
    ensures Reverse(s + [v]) == [v] + Reverse(s)
  {
    if s == [] {
      assert [] + [v] == [v] && [v][1..] == [];
    } else {
      assert (s + [v])[1..] == s[1..] + [v];
      ReverseSnoc(s[1..], v);
    }
  }

  /** The direction of the boundary does not matter. */
  lemma ReversalInvariant(p: Point, polygon: seq<Point>)
    ensures Inside(p, Reverse(polygon)) == Inside(p, polygon)
  {
    if polygon != [] {
      var u := polygon[0];
      var rest := Reverse(polygon[1..]);
      assert Reverse(polygon) == rest + [u];
      RotationInvariant(p, rest, [u]);
      ReverseSnoc(polygon, u);
      ChainReverse(p, polygon + [u]);
      assert [u] + Reverse(polygon) == ([u] + rest) + [u];
    }
  }

  /** Cutting along a chord: a point is inside the whole when it is inside exactly one piece. */
  lemma ChordSplit(p: Point, u: Point, a: seq<Point>, v: Point, b: seq<Point>)
    ensures Inside(p, [u] + a + [v] + b) == (Inside(p, [u] + a + [v]) != Inside(p, [v] + b + [u]))
  {
    var left, right := [u] + a + [v], [v] + b + [u];
    var whole := [u] + a + [v] + b;
    ChainConcat(p, [u] + a, v, b + [u]);
    assert whole + [u] == ([u] + a) + [v] + (b + [u]);
    assert [v] + (b + [u]) == right;
    ChainSnoc(p, left, u);
    ChainSnoc(p, right, v);
    CrossesSymmetric(p, u, v);
  }

  /** Parity of the triangles of the fan around the first vertex that contain p. */
  function FanParity(p: Point, polygon: seq<Point>): bool
    decreases |polygon|
  {
    if |polygon| < 3 then false
    else Inside(p, [polygon[0], polygon[1], polygon[2]]) != FanParity(p, [polygon[0]] + polygon[2..])
  }

  /** The test on a polygon is the parity over a fan triangulation. */
  lemma {:induction false} FanTriangulation(p: Point, polygon: seq<Point>)
    ensures Inside(p, polygon) == FanParity(p, polygon)
    decreases |polygon|
  {
    if |polygon| < 3 {
      Degenerate(p, polygon);
    } else {
      var u, w, v, rest := polygon[0], polygon[1], polygon[2], polygon[3..];
      ChordSplit(p, u, [w], v, rest);
      assert [u] + [w] + [v] + rest == polygon;
      assert [u] + [w] + [v] == [u, w, v];
      var cut := [u] + polygon[2..];
      assert cut == [u] + ([v] + rest);
      RotationInvariant(p, [u], [v] + rest);
      assert ([v] + rest) + [u] == [v] + rest + [u];
      FanTriangulation(p, cut);
    }
  }

  // ----- triangles: the test is containment -----

  /**
   The side of an edge that counts as inside: its left, and the edge itself where it leads downwards
   or, level, to the right.
   */
  predicate LeftOf(a: Point, b: Point, p: Point) {
    Side(a, b, p) > 0.0 || (Side(a, b, p) == 0.0 && (a.y > b.y || (a.y == b.y && a.x < b.x)))
  }

  /** The triangle with its left and lower boundary, and without the right and upper one; empty if it has no area. */
  predicate HalfOpenIn(p: Point, a: Point, b: Point, c: Point) {
    || (Side(a, b, c) > 0.0 && LeftOf(a, b, p) && LeftOf(b, c, p) && LeftOf(c, a, p))
    || (Side(a, b, c) < 0.0 && LeftOf(b, a, p) && LeftOf(c, b, p) && LeftOf(a, c, p))
  }

  predicate StrictlyIn(p: Point, a: Point, b: Point, c: Point) {
    || (Side(a, b, p) > 0.0 && Side(b, c, p) > 0.0 && Side(c, a, p) > 0.0)
    || (Side(a, b, p) < 0.0 && Side(b, c, p) < 0.0 && Side(c, a, p) < 0.0)
  }

  /** Off the lines through its edges, that is the interior. */
  lemma InteriorAgrees(p: Point, a: Point, b: Point, c: Point)
    requires Side(a, b, p) != 0.0 && Side(b, c, p) != 0.0 && Side(c, a, p) != 0.0
    ensures HalfOpenIn(p, a, b, c) <==> StrictlyIn(p, a, b, c)
  {
    hide Side;
    SidesAdd(p, a, b, c);
    SideSwap(a, b, p);
    SideSwap(b, c, p);
    SideSwap(c, a, p);
  }

  /** The sides of p add up to the area, from whichever vertex that is taken. */
  lemma SidesAdd(p: Point, a: Point, b: Point, c: Point)
    ensures Side(a, b, p) + Side(b, c, p) + Side(c, a, p) == Side(a, b, c)
    ensures Side(b, c, a) == Side(a, b, c) == Side(c, a, b)
  {
  }

  lemma TriangleParity(p: Point, a: Point, b: Point, c: Point)
    ensures Inside(p, [a, b, c]) == (Crosses(p, b, a) != (Crosses(p, c, b) != Crosses(p, a, c)))
  {
    var vs := [a, b, c, a];
    assert [a, b, c] + [a] == vs;
    assert vs[1..] == [b, c, a] && [b, c, a][1..] == [c, a] && [c, a][1..] == [a];
    assert Chain(p, [c, a]) == Crosses(p, a, c);
    assert Chain(p, [b, c, a]) == (Crosses(p, c, b) != Crosses(p, a, c));
  }

  /** The sides weigh the vertex heights to zero around p. */
  lemma Balance(p: Point, a: Point, b: Point, c: Point)
    ensures Side(b, c, p) * (a.y - p.y) + Side(c, a, p) * (b.y - p.y) + Side(a, b, p) * (c.y - p.y) == 0.0
  {
    var u, v, w := Point(a.x - p.x, a.y - p.y), Point(b.x - p.x, b.y - p.y), Point(c.x - p.x, c.y - p.y);
    SideFromOrigin(p, a, b);
    SideFromOrigin(p, b, c);
    SideFromOrigin(p, c, a);
    Determinant(u.x, u.y, v.x, v.y, w.x, w.y);
  }

  lemma SideFromOrigin(p: Point, a: Point, b: Point)
    ensures Side(a, b, p) == (a.x - p.x) * (b.y - p.y) - (b.x - p.x) * (a.y - p.y)
  {
  }

  lemma Determinant(ux: real, uy: real, vx: real, vy: real, wx: real, wy: real)
    ensures (vx * wy - wx * vy) * uy + (wx * uy - ux * wy) * vy + (ux * vy - vx * uy) * wy == 0.0
  {
    assert (vx * wy - wx * vy) * uy == vx * wy * uy - wx * vy * uy;
    assert (wx * uy - ux * wy) * vy == wx * uy * vy - ux * wy * vy;
    assert (ux * vy - vx * uy) * wy == ux * vy * wy - vx * uy * wy;
    assert vx * wy * uy == vx * uy * wy && wx * vy * uy == wx * uy * vy && ux * wy * vy == ux * vy * wy;
  }

  /** For any point and any triangle, the test says exactly whether the half-open triangle contains the point. */
  lemma TriangleExact(p: Point, a: Point, b: Point, c: Point)
    ensures Inside(p, [a, b, c]) <==> HalfOpenIn(p, a, b, c)
  {
    hide Side, LeftOf, Inside;
    SidesAdd(p, a, b, c);
    var ha, hb, hc := a.y > p.y, b.y > p.y, c.y > p.y;
    if ha == hb == hc {
      TriangleParity(p, a, b, c);
      if ha {
        AllAbove(p, a, b, c);
      } else {
        AllBelow(p, a, b, c);
      }
    } else if hb == hc {
      ApexExact(p, a, b, c);
    } else if hc == ha {
      RotationInvariant(p, [a], [b, c]);
      assert [a] + [b, c] == [a, b, c] && [b, c] + [a] == [b, c, a];
      ApexExact(p, b, c, a);
    } else {
      RotationInvariant(p, [a, b], [c]);
      assert [a, b] + [c] == [a, b, c] && [c] + [a, b] == [c, a, b];
      ApexExact(p, c, a, b);
    }
  }

  /** The signs of three products that add up to zero. */
  lemma Weights(bc: real, ca: real, ab: real, ha: real, hb: real, hc: real)
    requires bc * ha + ca * hb + ab * hc == 0.0
    ensures ha > 0.0 && hb > 0.0 && hc > 0.0 && bc >= 0.0 && ca >= 0.0 && ab >= 0.0 ==> bc == ca == ab == 0.0
    ensures ha > 0.0 && hb > 0.0 && hc > 0.0 && bc <= 0.0 && ca <= 0.0 && ab <= 0.0 ==> bc == ca == ab == 0.0
    ensures ha <= 0.0 && hb <= 0.0 && hc <= 0.0 ==>
      ((bc >= 0.0 && ca >= 0.0 && ab >= 0.0) || (bc <= 0.0 && ca <= 0.0 && ab <= 0.0)) ==>
      (bc == 0.0 || ha == 0.0) && (ca == 0.0 || hb == 0.0) && (ab == 0.0 || hc == 0.0)
  {
    Signs(bc, ha);
    Signs(ca, hb);
    Signs(ab, hc);
  }

  /** All vertices above p: it is outside. */
  lemma AllAbove(p: Point, a: Point, b: Point, c: Point)
    requires a.y > p.y && b.y > p.y && c.y > p.y
    ensures !HalfOpenIn(p, a, b, c)
  {
    hide Side;
    Balance(p, a, b, c);
    SidesAdd(p, a, b, c);
    SideSwap(a, b, p);
    SideSwap(b, c, p);
    SideSwap(c, a, p);
    Weights(Side(b, c, p), Side(c, a, p), Side(a, b, p), a.y - p.y, b.y - p.y, c.y - p.y);
  }

  /** No vertex above p: at best it lies on the upper boundary, which is outside. */
  lemma AllBelow(p: Point, a: Point, b: Point, c: Point)
    requires a.y <= p.y && b.y <= p.y && c.y <= p.y
    ensures !HalfOpenIn(p, a, b, c)
  {
    hide Side;
    Balance(p, a, b, c);
    SidesAdd(p, a, b, c);
    SideSwap(a, b, p);
    SideSwap(b, c, p);
    SideSwap(c, a, p);
    Weights(Side(b, c, p), Side(c, a, p), Side(a, b, p), a.y - p.y, b.y - p.y, c.y - p.y);
    TopVertex(a, b, c);
    TopVertex(b, c, a);
    TopVertex(c, a, b);
  }

  /** The area of a triangle whose vertex a is as high as any: what the directions at a say of its sign. */
  lemma TopVertex(a: Point, b: Point, c: Point)
    ensures a.y >= b.y && a.y == c.y && c.x < a.x ==> Side(a, b, c) <= 0.0
    ensures a.y >= b.y && a.y == c.y && c.x > a.x ==> Side(a, b, c) >= 0.0
    ensures a.y == b.y >= c.y && a.x < b.x ==> Side(a, b, c) <= 0.0
    ensures a.y == b.y >= c.y && a.x > b.x ==> Side(a, b, c) >= 0.0
    ensures a.y == b.y == c.y ==> Side(a, b, c) == 0.0
  {
    Product(a.y - b.y, a.x - c.x);
    Product(a.y - c.y, a.x - b.x);
    if a.y == c.y {
      assert Side(a, b, c) == 0.0 - (a.y - b.y) * (a.x - c.x);
    }
    if a.y == b.y {
      assert Side(a, b, c) == (a.y - c.y) * (a.x - b.x);
    }
  }

  lemma Product(x: real, y: real)
    ensures x >= 0.0 && y >= 0.0 ==> x * y >= 0.0
    ensures x >= 0.0 && y <= 0.0 ==> x * y <= 0.0
    ensures x == 0.0 ==> x * y == 0.0
  {
    Signs(x, y);
  }

  /** The vertex a alone on its side of the height of p. */
  lemma ApexExact(p: Point, a: Point, b: Point, c: Point)
    requires (a.y > p.y) != (b.y > p.y) && (b.y > p.y) == (c.y > p.y)
    ensures Inside(p, [a, b, c]) <==> HalfOpenIn(p, a, b, c)
  {
    hide Side, Inside, MeetsAt;
    TriangleParity(p, a, b, c);
    CrossesBySide(p, b, a);
    CrossesBySide(p, a, c);
    SideSwap(a, b, p);
    SideSwap(b, c, p);
    SideSwap(c, a, p);
    Balance(p, a, b, c);
    SidesAdd(p, a, b, c);
    LevelBase(a, b, c);
    var bc, ca, ab := Side(b, c, p), Side(c, a, p), Side(a, b, p);
    assert !Crosses(p, c, b);
    if a.y > p.y {
      ApexUp(bc, ca, ab, a.y - p.y, b.y - p.y, c.y - p.y);
    } else {
      ApexDown(bc, ca, ab, a.y - p.y, b.y - p.y, c.y - p.y);
    }
  }

  /** Over a level base the area has the sign of its direction. */
  lemma LevelBase(a: Point, b: Point, c: Point)
    ensures b.y == c.y && a.y > b.y ==> (Side(a, b, c) > 0.0 <==> b.x < c.x) && (Side(a, b, c) < 0.0 <==> c.x < b.x)
  {
    if b.y == c.y {
      assert Side(a, b, c) == (c.x - b.x) * (a.y - b.y);
      Signs(c.x - b.x, a.y - b.y);
    }
  }

  lemma ApexUp(bc: real, ca: real, ab: real, ha: real, hb: real, hc: real)
    requires bc * ha + ca * hb + ab * hc == 0.0 && ha > 0.0 && hb <= 0.0 && hc <= 0.0
    ensures var area := ab + bc + ca;
      && (((ab < 0.0) != (ca > 0.0)) <==>
            (area > 0.0 && ab >= 0.0 && ca > 0.0) || (area < 0.0 && ab < 0.0 && ca <= 0.0))
      && (ab >= 0.0 && ca > 0.0 ==> bc > 0.0 || (bc == 0.0 && hb == 0.0))
      && (ab < 0.0 && ca <= 0.0 ==> bc < 0.0 || (bc == 0.0 && hc == 0.0))
  {
    Signs(bc, ha);
    Signs(ca, hb);
    Signs(ab, hc);
  }

  lemma ApexDown(bc: real, ca: real, ab: real, ha: real, hb: real, hc: real)
    requires bc * ha + ca * hb + ab * hc == 0.0 && ha <= 0.0 && hb > 0.0 && hc > 0.0
    ensures var area := ab + bc + ca;
      && (((ab > 0.0) != (ca < 0.0)) <==>
            (area > 0.0 && ab > 0.0 && ca >= 0.0) || (area < 0.0 && ab <= 0.0 && ca < 0.0))
      && (ab > 0.0 && ca >= 0.0 ==> bc > 0.0)
      && (ab <= 0.0 && ca < 0.0 ==> bc < 0.0)
  {
    Signs(bc, ha);
    Signs(ca, hb);
    Signs(ab, hc);
  }

  /** Parity of the half-open fan triangles from the k-th one on that contain p. */
  ghost function Covering(p: Point, polygon: seq<Point>, k: nat): bool
    requires k >= 1
    decreases |polygon| - k
  {
    if k + 1 >= |polygon| then false
    else HalfOpenIn(p, polygon[0], polygon[k], polygon[k + 1]) != Covering(p, polygon, k + 1)
  }

  lemma {:induction false} FanCovering(p: Point, polygon: seq<Point>, k: nat)
    requires 1 <= k < |polygon|
    ensures FanParity(p, [polygon[0]] + polygon[k..]) == Covering(p, polygon, k)
    decreases |polygon| - k
  {
    hide HalfOpenIn, Inside;
    var cut := [polygon[0]] + polygon[k..];
    if k + 1 < |polygon| {
      TriangleExact(p, polygon[0], polygon[k], polygon[k + 1]);
      assert [cut[0]] + cut[2..] == [polygon[0]] + polygon[k + 1..];
      FanCovering(p, polygon, k + 1);
    }
  }

  /**
   What the test means, for any polygon and any point: it is true exactly when an odd number of the
   half-open triangles spanned by the first vertex and an edge contain the point.
   */
  lemma InsideMeansCovered(p: Point, polygon: seq<Point>)
    ensures Inside(p, polygon) <==> Covering(p, polygon, 1)
  {
    FanTriangulation(p, polygon);
    if |polygon| > 1 {
      FanCovering(p, polygon, 1);
      assert [polygon[0]] + polygon[1..] == polygon;
    }
  }

  // ----- outside the bounding box -----

  /** A straddling edge meets the height of p between its end points. */
  lemma MeetsBetween(y: real, a: Point, b: Point)
    requires Straddles(y, a, b)
    ensures MeetsAt(y, a, b) <= (if a.x >= b.x then a.x else b.x)
    ensures MeetsAt(y, a, b) >= (if a.x <= b.x then a.x else b.x)
  {
    var d, n, w := b.y - a.y, y - a.y, b.x - a.x;
    var s := n / d;
    Fraction(s, d, n);
    var t := w * n / d;
    Cancel(t, w * s, d) by {
      assert w * s * d == w * (s * d) == w * n;
    }
    Between(w, s);
    assert MeetsAt(y, a, b) == t + a.x == w * s + a.x;
  }

  lemma Fraction(s: real, d: real, n: real)
    requires d != 0.0 && s * d == n
    requires (0.0 <= n <= d) || (d <= n <= 0.0)
    ensures 0.0 <= s <= 1.0
  {
    Signs(s, d);
    Signs(s - 1.0, d);
    assert (s - 1.0) * d == n - d;
  }

  lemma Cancel(t: real, u: real, d: real)
    requires d != 0.0 && t * d == u * d
    ensures t == u
  {
    assert (t - u) * d == 0.0;
    Signs(t - u, d);
  }

  lemma Between(w: real, s: real)
    requires 0.0 <= s <= 1.0
    ensures w >= 0.0 ==> 0.0 <= w * s <= w
    ensures w <= 0.0 ==> w <= w * s <= 0.0
  {
    var r := 1.0 - s;
    assert w * r == w - w * s;
    Signs(w, s);
    Signs(w, r);
  }

  predicate CrossesAt(p: Point, vs: seq<Point>, i: nat)
    requires i + 1 < |vs|
  {
    Crosses(p, vs[i + 1], vs[i])
  }

  predicate StraddlesAt(p: Point, vs: seq<Point>, i: nat)
    requires i + 1 < |vs|
  {
    Straddles(p.y, vs[i + 1], vs[i])
  }

  lemma {:induction false} NoCrossing(p: Point, vs: seq<Point>)
    requires forall i :: 0 <= i < |vs| - 1 ==> !CrossesAt(p, vs, i)
    ensures !Chain(p, vs)
    decreases |vs|
  {
    if |vs| >= 2 {
      assert !CrossesAt(p, vs, 0);
      assert forall i :: 0 <= i < |vs[1..]| - 1 ==> CrossesAt(p, vs[1..], i) == CrossesAt(p, vs, i + 1);
      NoCrossing(p, vs[1..]);
    }
  }

  /** When every straddling edge is crossed, only the two ends of the path decide the parity. */
  lemma {:induction false} EveryCrossing(p: Point, vs: seq<Point>)
    requires vs != []
    requires forall i :: 0 <= i < |vs| - 1 ==> CrossesAt(p, vs, i) == StraddlesAt(p, vs, i)
    ensures Chain(p, vs) == Straddles(p.y, vs[0], vs[|vs| - 1])
    decreases |vs|
  {
    if |vs| >= 2 {
      var rest := vs[1..];
      assert CrossesAt(p, vs, 0) == StraddlesAt(p, vs, 0);
      forall i | 0 <= i < |rest| - 1
        ensures CrossesAt(p, rest, i) == StraddlesAt(p, rest, i)
      {
        assert CrossesAt(p, vs, i + 1) == StraddlesAt(p, vs, i + 1);
      }
      EveryCrossing(p, rest);
    }
  }

  /** p lies outside the half-open bounding box of the vertices. */
  ghost predicate OutsideBox(p: Point, polygon: seq<Point>) {
    || (forall v :: v in polygon ==> p.x >= v.x)
    || (forall v :: v in polygon ==> p.x < v.x)
    || (forall v :: v in polygon ==> p.y >= v.y)
    || (forall v :: v in polygon ==> p.y < v.y)
  }

  /** No point to the left, right, above or below all vertices is inside. */
  lemma OutsideBoxIsOut(p: Point, polygon: seq<Point>)
    requires OutsideBox(p, polygon)
    ensures !Inside(p, polygon)
  {
    if polygon != [] {
      var vs := polygon + [polygon[0]];
      assert forall v :: v in vs <==> v in polygon;
      if forall v :: v in polygon ==> p.x < v.x {
        forall i | 0 <= i < |vs| - 1
          ensures CrossesAt(p, vs, i) == StraddlesAt(p, vs, i)
        {
          if Straddles(p.y, vs[i + 1], vs[i]) {
            MeetsBetween(p.y, vs[i + 1], vs[i]);
          }
        }
        EveryCrossing(p, vs);
      } else {
        forall i | 0 <= i < |vs| - 1
          ensures !CrossesAt(p, vs, i)
        {
          assert vs[i + 1] in polygon && vs[i] in polygon;
          if Straddles(p.y, vs[i + 1], vs[i]) {
            MeetsBetween(p.y, vs[i + 1], vs[i]);
          }
        }
        NoCrossing(p, vs);
      }
    }
  }

  /** On an axis-aligned rectangle the test is the half-open box. */
  lemma RectangleExact(p: Point, x0: real, y0: real, x1: real, y1: real)
    requires x0 <= x1 && y0 <= y1
    ensures Inside(p, [Point(x0, y0), Point(x1, y0), Point(x1, y1), Point(x0, y1)])
       <==> x0 <= p.x < x1 && y0 <= p.y < y1
  {
    var a, b, c, d := Point(x0, y0), Point(x1, y0), Point(x1, y1), Point(x0, y1);
    assert [a, b, c, d] == [a] + [b] + [c] + [d];
    ChordSplit(p, a, [b], c, [d]);
    assert [a] + [b] + [c] == [a, b, c] && [c] + [d] + [a] == [c, d, a];
    TriangleParity(p, a, b, c);
    TriangleParity(p, c, d, a);
    CrossesSymmetric(p, a, c);
    Vertical(p, b, c);
    Vertical(p, d, a);
  }

  lemma Vertical(p: Point, a: Point, b: Point)
    requires a.x == b.x
    ensures Crosses(p, a, b) <==> Straddles(p.y, a, b) && p.x < a.x
  {
    if Straddles(p.y, a, b) {
      MeetsBetween(p.y, a, b);
    }
    CrossesSymmetric(p, a, b);
  }

  // ----- filtering detections -----

  datatype Detection = Detection(x1: real, y1: real, x2: real, y2: real, tag: nat)

  datatype Zone = Zone(name: string, points: seq<Point>)

  function Centre(d: Detection): Point {
    Point((d.x1 + d.x2) / 2.0, (d.y1 + d.y2) / 2.0)
  }

  predicate InSomeZone(d: Detection, zones: seq<Zone>) {
    exists i :: 0 <= i < |zones| && Inside(Centre(d), zones[i].points)
  }

  /** The detections to keep, in order. */
  function Kept(detections: seq<Detection>, zones: seq<Zone>): seq<Detection> {
    if detections == [] then [] else KeepOne(detections[0], zones) + Kept(detections[1..], zones)
  }

  function KeepOne(d: Detection, zones: seq<Zone>): seq<Detection> {
    if InSomeZone(d, zones) then [d] else []
  }

  lemma {:induction false} KeptSnoc(ds: seq<Detection>, d: Detection, zones: seq<Zone>)
    ensures Kept(ds + [d], zones) == Kept(ds, zones) + KeepOne(d, zones)
  {
    if ds == [] {
      assert [] + [d] == [d] && [d][1..] == [];
    } else {
      hide KeepOne;
      assert (ds + [d])[1..] == ds[1..] + [d];
      KeptSnoc(ds[1..], d, zones);
    }
  }

  /** Keeping neither invents, loses nor duplicates: it keeps exactly the detections in a zone. */
  lemma {:induction false} KeptCounts(ds: seq<Detection>, zones: seq<Zone>)
    ensures forall d :: multiset(Kept(ds, zones))[d] == if InSomeZone(d, zones) then multiset(ds)[d] else 0
  {
    if ds != [] {
      KeptCounts(ds[1..], zones);
      assert ds == [ds[0]] + ds[1..];
    }
  }

  /** A detection is kept exactly if it was listed, and the point in the middle of its box lies in some zone. */
  lemma {:induction false} KeptExact(ds: seq<Detection>, zones: seq<Zone>, d: Detection, middle: Point)
    requires middle.x - d.x1 == d.x2 - middle.x && middle.y - d.y1 == d.y2 - middle.y
    ensures d in Kept(ds, zones) <==> d in ds && exists i :: 0 <= i < |zones| && Inside(middle, zones[i].points)
  {
    assert Centre(d) == middle;
    KeptCounts(ds, zones);
    assert d in Kept(ds, zones) <==> d in multiset(Kept(ds, zones));
    assert d in ds <==> d in multiset(ds);
  }

  method FilterDetectionsByZone(detections: seq<Detection>, zones: seq<Zone>) returns (kept: seq<Detection>)
    ensures kept == if zones == [] then detections else Kept(detections, zones)
  {
    if |zones| == 0 {
      return detections;
    }
    kept := [];
    for i := 0 to |detections|
      invariant kept == Kept(detections[..i], zones)
    {
      var d := detections[i];
      var k := 0;
      while k < |zones|
        invariant 0 <= k <= |zones|
        invariant kept == Kept(detections[..i], zones)
        invariant forall m :: 0 <= m < k ==> !Inside(Centre(d), zones[m].points)
      {
        var hit := PointInPolygon(Centre(d), zones[k].points);
        if hit {
          kept := kept + [d];
          break;
        }
        k := k + 1;
      }
      KeptSnoc(detections[..i], d, zones);
      assert detections[..i + 1] == detections[..i] + [d];
    }
    assert detections[..|detections|] == detections;
  }
}

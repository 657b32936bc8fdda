/**
 Folding short segments into one file per time window: grouping rows into windows, splitting a window into
 runs of like segments, and replacing each run's rows by one. Files, merger and database answer from outside.
 */
module TierMerge {
  import opened Arithmetic
  import opened Bytes

  type Path = string

  /** A recording row; times count from the zero time of the clock. */
  datatype Row = Row(id: nat, start: nat, ended: int, size: nat, path: Path)

  // ----- windows -----

  /** Truncate: the start of the window an instant falls into. */
  function WindowOf(start: nat, window: nat): (k: nat)
    requires window > 0
    ensures k <= start < k + window
    ensures k % window == 0
  {
    var k := start - start % window;
    assert start == window * (start / window) + start % window;
    Divided(k, start / window, 0, window);
    k
  }

  /** The row, if it is of the window. */
  function IfIn(r: Row, window: nat, k: nat): seq<Row>
    requires window > 0
  {
    if WindowOf(r.start, window) == k then [r] else []
  }

  /** The rows of one window, in order. */
  function InWindow(rows: seq<Row>, window: nat, k: nat): seq<Row>
    requires window > 0
  {
    if rows == [] then []
    else IfIn(rows[0], window, k) + InWindow(rows[1..], window, k)
  }

  lemma InWindowFirst(rows: seq<Row>, window: nat, k: nat)
    requires window > 0
    ensures InWindow(rows, window, k)
            == if rows == [] then [] else IfIn(rows[0], window, k) + InWindow(rows[1..], window, k)
  {
    hide WindowOf;
  }

  lemma {:induction false} InWindowSnoc(rows: seq<Row>, r: Row, window: nat, k: nat)
    requires window > 0
    ensures InWindow(rows + [r], window, k) == InWindow(rows, window, k) + IfIn(r, window, k)
  {
    hide InWindow, IfIn;
    InWindowFirst(rows, window, k);
    InWindowFirst(rows + [r], window, k);
    if rows == [] {
      InWindowFirst([], window, k);
      assert (rows + [r])[1..] == [] && (rows + [r])[0] == r;
    } else {
      assert (rows + [r])[1..] == rows[1..] + [r];
      InWindowSnoc(rows[1..], r, window, k);
    }
  }

  /** A row is in the bucket of its own window, as often as it is listed, and in no other. */
  lemma {:induction false} InWindowCounts(rows: seq<Row>, window: nat, k: nat)
    requires window > 0
    ensures forall r :: multiset(InWindow(rows, window, k))[r]
                        == (if WindowOf(r.start, window) == k then multiset(rows)[r] else 0)
  {
    if rows != [] {
      InWindowCounts(rows[1..], window, k);
      assert rows == [rows[0]] + rows[1..];
    }
  }

  predicate Increasing(keys: seq<nat>) {
    forall i, j :: 0 <= i < j < |keys| ==> keys[i] < keys[j]
  }

  /** Puts a new key where it belongs among the sorted ones. */
  function InsertKey(keys: seq<nat>, k: nat): seq<nat> {
    if keys == [] then [k]
    else if keys[|keys| - 1] < k then keys + [k]
    else InsertKey(keys[..|keys| - 1], k) + [keys[|keys| - 1]]
  }

  lemma {:induction false} InsertKeySorts(keys: seq<nat>, k: nat)
    requires Increasing(keys) && k !in keys
    ensures Increasing(InsertKey(keys, k)) && forall x :: x in InsertKey(keys, k) <==> x in keys || x == k
    decreases |keys|
  {
    if keys != [] {
      var front, last := keys[..|keys| - 1], keys[|keys| - 1];
      assert keys == front + [last] && last in keys;
      if last < k {
        SnocIncreases(keys, k);
      } else {
        InsertKeySorts(front, k);
        SnocIncreases(InsertKey(front, k), last);
      }
    }
  }

  lemma SnocIncreases(keys: seq<nat>, k: nat)
    requires Increasing(keys) && forall x :: x in keys ==> x < k
    ensures Increasing(keys + [k])
  {
    assert forall i :: 0 <= i < |keys| ==> keys[i] in keys;
  }

  /** The buckets hold, for each window that has rows, exactly its rows in their order. */
  ghost predicate Grouped(rows: seq<Row>, window: nat, buckets: map<nat, seq<Row>>)
    requires window > 0
  {
    forall k :: InWindow(rows, window, k) == if k in buckets then buckets[k] else []
  }

  lemma GroupOne(rows: seq<Row>, r: Row, window: nat, buckets: map<nat, seq<Row>>)
    requires window > 0 && Grouped(rows, window, buckets)
    ensures var k := WindowOf(r.start, window);
      Grouped(rows + [r], window, buckets[k := (if k in buckets then buckets[k] else []) + [r]])
  {
    var k := WindowOf(r.start, window);
    var now := buckets[k := (if k in buckets then buckets[k] else []) + [r]];
    forall q ensures InWindow(rows + [r], window, q) == if q in now then now[q] else [] {
      InWindowSnoc(rows, r, window, q);
      assert InWindow(rows, window, q) == if q in buckets then buckets[q] else [];
    }
  }

  /**
   Groups the rows by window: one bucket for each window that has rows, oldest window first, each
   bucket its window's rows in their order.
   */
  method GroupByWindow(rows: seq<Row>, window: nat) returns (keys: seq<nat>, buckets: map<nat, seq<Row>>)
    requires window > 0
    ensures Increasing(keys) && forall k :: k in keys <==> k in buckets
    ensures Grouped(rows, window, buckets) && forall k :: k in buckets ==> buckets[k] != []
  {
    hide InWindow, WindowOf, InsertKey;
    keys, buckets := [], map[];
    assert Grouped([], window, map[]) by { NoRows(window); }
    for i := 0 to |rows|
      invariant Increasing(keys) && forall k :: k in keys <==> k in buckets
      invariant Grouped(rows[..i], window, buckets) && forall k :: k in buckets ==> buckets[k] != []
    {
      var r := rows[i];
      var k := WindowOf(r.start, window);
      GroupOne(rows[..i], r, window, buckets);
      assert rows[..i + 1] == rows[..i] + [r];
      if k !in buckets {
        InsertKeySorts(keys, k);
        keys := InsertKey(keys, k);
        buckets := buckets[k := [r]];
      } else {
        buckets := buckets[k := buckets[k] + [r]];
      }
    }
    assert rows[..|rows|] == rows;
  }

  lemma NoRows(window: nat)
    requires window > 0
    ensures Grouped([], window, map[])
  {
  }

  // ----- runs -----

  datatype Info = Info(codec: seq<Byte>, sps: seq<Byte>, pps: seq<Byte>, vps: seq<Byte>)

  /** What is hashed to compare two segments: the four parts back to back. */
  function Key(info: Info): seq<Byte> {
    info.codec + info.sps + info.pps + info.vps
  }

  /** Nothing marks where one part ends: segments with one key are alike exactly when their parts are of one length. */
  lemma KeyExact(a: Info, b: Info)
    requires Key(a) == Key(b)
    ensures a == b <==> SameLengths(a, b)
  {
    hide Key;
    if SameLengths(a, b) {
      KeyParts(a);
      KeyParts(b);
    }
  }

  lemma KeyParts(info: Info)
    ensures var c, s, p := |info.codec|, |info.sps|, |info.pps|;
      && |Key(info)| >= c + s + p
      && info == Info(Key(info)[..c], Key(info)[c..c + s], Key(info)[c + s..c + s + p], Key(info)[c + s + p..])
  {
  }

  const H264: seq<Byte> := [0x68, 0x32, 0x36, 0x34]

  /** Two H.264 segments with different parameter sets and one key: a byte moves from one set to the other. */
  lemma KeysCanAgree(sps: seq<Byte>, b: Byte, pps: seq<Byte>)
    ensures var x, y := Info(H264, sps + [b], pps, []), Info(H264, sps, [b] + pps, []);
      x != y && Key(x) == Key(y)
  {
    assert sps + [b] + pps == sps + ([b] + pps);
    assert H264 + (sps + [b]) + pps + [] == H264 + sps + ([b] + pps) + [];
    assert |sps + [b]| != |sps|;
  }

  datatype Run = Run(infos: seq<Info>, rows: seq<Row>)

  function AllInfos(runs: seq<Run>): seq<Info> {
    if runs == [] then [] else AllInfos(runs[..|runs| - 1]) + runs[|runs| - 1].infos
  }

  function AllRows(runs: seq<Run>): seq<Row> {
    if runs == [] then [] else AllRows(runs[..|runs| - 1]) + runs[|runs| - 1].rows
  }

  /** A nonempty stretch of segments with one key. */
  ghost predicate Uniform(run: Run) {
    && run.infos != [] && |run.infos| == |run.rows|
    && forall i :: 0 <= i < |run.infos| ==> Key(run.infos[i]) == Key(run.infos[0])
  }

  /** The runs are uniform, and no two neighbours could be one. */
  ghost predicate Maximal(runs: seq<Run>) {
    && (forall i :: 0 <= i < |runs| ==> Uniform(runs[i]))
    && (forall i :: 0 < i < |runs| ==> Key(runs[i - 1].infos[0]) != Key(runs[i].infos[0]))
  }

  /** Adds a segment to the last run if the keys agree, else starts a new one. */
  function Extend(runs: seq<Run>, info: Info, row: Row): seq<Run>
    requires runs != [] ==> runs[|runs| - 1].infos != []
  {
    var n := |runs|;
    if n > 0 && Key(runs[n - 1].infos[0]) == Key(info)
    then runs[..n - 1] + [Run(runs[n - 1].infos + [info], runs[n - 1].rows + [row])]
    else runs + [Run([info], [row])]
  }

  lemma {:induction false} ExtendKeeps(runs: seq<Run>, info: Info, row: Row)
    requires Maximal(runs)
    ensures runs != [] ==> Uniform(runs[|runs| - 1])
    ensures Maximal(Extend(runs, info, row))
    ensures AllInfos(Extend(runs, info, row)) == AllInfos(runs) + [info]
    ensures AllRows(Extend(runs, info, row)) == AllRows(runs) + [row]
  {
    hide Key, AllInfos, AllRows, Maximal, Uniform;
    if runs != [] {
      LastUniform(runs);
      LongerRun(runs, info, row);
      if Key(runs[|runs| - 1].infos[0]) == Key(info) {
        LongerMaximal(runs, info, row);
      } else {
        FreshMaximal(runs, info, row);
      }
    } else {
      FreshMaximal(runs, info, row);
    }
    FreshRun(runs, info, row);
  }

  lemma LongerMaximal(runs: seq<Run>, info: Info, row: Row)
    requires Maximal(runs) && runs != [] && Uniform(runs[|runs| - 1]) && Key(runs[|runs| - 1].infos[0]) == Key(info)
    ensures Maximal(runs[..|runs| - 1] + [Run(runs[|runs| - 1].infos + [info], runs[|runs| - 1].rows + [row])])
  {
    hide Key;
    var n := |runs| - 1;
    var last := Run(runs[n].infos + [info], runs[n].rows + [row]);
    var grown := runs[..n] + [last];
    assert Uniform(last) && last.infos[0] == runs[n].infos[0];
    forall i | 0 <= i < |grown| ensures Uniform(grown[i]) {
      assert i < n ==> grown[i] == runs[i];
    }
    forall i | 0 < i < |grown| ensures Key(grown[i - 1].infos[0]) != Key(grown[i].infos[0]) {
      assert grown[i - 1] == runs[i - 1] && grown[i].infos[0] == runs[i].infos[0];
    }
  }

  lemma FreshMaximal(runs: seq<Run>, info: Info, row: Row)
    requires Maximal(runs)
        && (runs != [] ==> runs[|runs| - 1].infos != [] && Key(runs[|runs| - 1].infos[0]) != Key(info))
    ensures Maximal(runs + [Run([info], [row])])
  {
    hide Key;
    var grown := runs + [Run([info], [row])];
    assert Uniform(Run([info], [row]));
    forall i | 0 <= i < |grown| ensures Uniform(grown[i]) {
      assert i < |runs| ==> grown[i] == runs[i];
    }
    forall i | 0 < i < |grown| ensures Key(grown[i - 1].infos[0]) != Key(grown[i].infos[0]) {
      assert grown[i - 1] == runs[i - 1] && (i < |runs| ==> grown[i] == runs[i]);
    }
  }

  /** The program's runs. */
  function Split(infos: seq<Info>, rows: seq<Row>): (runs: seq<Run>)
    requires |infos| == |rows|
    ensures Maximal(runs)
    decreases |infos|
  {
    if infos == [] then [] else
    var n := |infos| - 1;
    ExtendKeeps(Split(infos[..n], rows[..n]), infos[n], rows[n]);
    Extend(Split(infos[..n], rows[..n]), infos[n], rows[n])
  }

  /** The runs are maximal and concatenate back to what was split. */
  lemma {:induction false} SplitConcat(infos: seq<Info>, rows: seq<Row>)
    requires |infos| == |rows|
    ensures AllInfos(Split(infos, rows)) == infos && AllRows(Split(infos, rows)) == rows
    decreases |infos|
  {
    hide *;
    if infos == [] {
      NoRuns();
    } else {
      var n := |infos| - 1;
      SplitConcat(infos[..n], rows[..n]);
      SplitStep(infos, rows);
      ExtendKeeps(Split(infos[..n], rows[..n]), infos[n], rows[n]);
      Snoc(infos);
      Snoc(rows);
    }
  }

  lemma Snoc<T>(s: seq<T>)
    requires s != []
    ensures s == s[..|s| - 1] + [s[|s| - 1]]
  {
  }

  lemma SplitStep(infos: seq<Info>, rows: seq<Row>)
    requires |infos| == |rows| > 0
    ensures var n := |infos| - 1; var front := Split(infos[..n], rows[..n]);
      && (front != [] ==> front[|front| - 1].infos != [])
      && Split(infos, rows) == Extend(front, infos[n], rows[n])
  {
    hide Key, AllInfos, AllRows, Extend;
    var n := |infos| - 1;
    ExtendKeeps(Split(infos[..n], rows[..n]), infos[n], rows[n]);
  }

  /** Any maximal cutting is the program's: its result is determined by being maximal. */
  lemma {:induction false} SplitUnique(infos: seq<Info>, rows: seq<Row>, runs: seq<Run>)
    requires |infos| == |rows|
    requires Maximal(runs) && AllInfos(runs) == infos && AllRows(runs) == rows
    ensures runs == Split(infos, rows)
  {
    SplitConcat(infos, rows);
    MaximalUnique(runs, Split(infos, rows));
  }

  /** A run holds one parameter set exactly when its segments' codecs, SPS and PPS are of one length each. */
  lemma RunAlikeExact(infos: seq<Info>, rows: seq<Row>, k: nat)
    requires |infos| == |rows| && k < |Split(infos, rows)|
    ensures var part := Split(infos, rows)[k].infos;
      (forall i :: 0 <= i < |part| ==> part[i] == part[0]) <==>
      (forall i :: 0 <= i < |part| ==> SameLengths(part[i], part[0]))
  {
    hide Key, Split;
    var run := Split(infos, rows)[k];
    assert Uniform(run);
    forall i | 0 <= i < |run.infos| ensures run.infos[i] == run.infos[0] <==> SameLengths(run.infos[i], run.infos[0]) {
      KeyExact(run.infos[i], run.infos[0]);
    }
  }

  predicate SameLengths(a: Info, b: Info) {
    |a.codec| == |b.codec| && |a.sps| == |b.sps| && |a.pps| == |b.pps|
  }

  method SplitTierRuns(infos: seq<Info>, rows: seq<Row>) returns (runs: seq<Run>)
    requires |infos| == |rows|
    ensures runs == Split(infos, rows)
  {
    hide Split, Key;
    runs := [];
    NoRuns();
    for i := 0 to |infos|
      invariant runs == Split(infos[..i], rows[..i])
    {
      assert infos[..i + 1][..i] == infos[..i] && rows[..i + 1][..i] == rows[..i];
      SplitStep(infos[..i + 1], rows[..i + 1]);
      var n := |runs|;
      if n > 0 && Key(runs[n - 1].infos[0]) == Key(infos[i]) {
        runs := runs[n - 1 := Run(runs[n - 1].infos + [infos[i]], runs[n - 1].rows + [rows[i]])];
        assert runs == runs[..n - 1] + [runs[n - 1]];
      } else {
        runs := runs + [Run([infos[i]], [rows[i]])];
      }
    }
    assert infos[..|infos|] == infos && rows[..|rows|] == rows;
  }

  lemma NoRuns()
    ensures Split([], []) == [] && AllInfos([]) == [] && AllRows([]) == []
  {
  }

  lemma LongerRun(runs: seq<Run>, info: Info, row: Row)
    requires runs != []
    ensures var last := Run(runs[|runs| - 1].infos + [info], runs[|runs| - 1].rows + [row]);
      var grown := runs[..|runs| - 1] + [last];
      AllInfos(grown) == AllInfos(runs) + [info] && AllRows(grown) == AllRows(runs) + [row]
  {
    var last := Run(runs[|runs| - 1].infos + [info], runs[|runs| - 1].rows + [row]);
    var grown := runs[..|runs| - 1] + [last];
    assert grown[..|runs| - 1] == runs[..|runs| - 1];
  }

  lemma FreshRun(runs: seq<Run>, info: Info, row: Row)
    ensures var grown := runs + [Run([info], [row])];
      AllInfos(grown) == AllInfos(runs) + [info] && AllRows(grown) == AllRows(runs) + [row]
  {
    assert (runs + [Run([info], [row])])[..|runs|] == runs;
  }

  /** There is only one way to cut a list into maximal runs. */
  lemma {:induction false} MaximalUnique(a: seq<Run>, b: seq<Run>)
    requires Maximal(a) && Maximal(b)
    requires AllInfos(a) == AllInfos(b) && AllRows(a) == AllRows(b)
    ensures a == b
    decreases |a|
  {
    hide *;
    NonEmptyRuns(a);
    NonEmptyRuns(b);
    if a != [] {
      var fa, x, fb, y := a[..|a| - 1], a[|a| - 1], b[..|b| - 1], b[|b| - 1];
      LastRun(a);
      LastRun(b);
      LastRunStart(a);
      LastRunStart(b);
      SameStart(AllInfos(a), |AllInfos(a)| - |x.infos|, |AllInfos(a)| - |y.infos|);
      TailsAgree(AllInfos(fa), x.infos, AllInfos(fb), y.infos);
      TailsAgree(AllRows(fa), x.rows, AllRows(fb), y.rows);
      MaximalUnique(fa, fb);
      Snoc(a);
      Snoc(b);
    }
  }

  lemma LastRun(runs: seq<Run>)
    requires Maximal(runs) && runs != []
    ensures var front, last := runs[..|runs| - 1], runs[|runs| - 1];
      && Maximal(front) && |last.infos| == |last.rows|
      && AllInfos(runs) == AllInfos(front) + last.infos && AllRows(runs) == AllRows(front) + last.rows
  {
    hide Key;
    assert Uniform(runs[|runs| - 1]);
  }

  /** The last stretch of one key can only start in one place. */
  lemma SameStart(all: seq<Info>, p: int, q: int)
    requires LastStretch(all, p) && LastStretch(all, q)
    ensures p == q
  {
    hide Key;
  }

  ghost predicate LastStretch(all: seq<Info>, at: int) {
    && 0 <= at < |all|
    && (forall j :: at <= j < |all| ==> Key(all[j]) == Key(all[|all| - 1]))
    && (at > 0 ==> Key(all[at - 1]) != Key(all[|all| - 1]))
  }

  lemma NonEmptyRuns(runs: seq<Run>)
    requires Maximal(runs)
    ensures runs == [] <==> AllInfos(runs) == []
  {
    if runs != [] {
      assert Uniform(runs[|runs| - 1]);
    }
  }

  /** Where the last run starts: as far back as the last key reaches. */
  lemma LastRunStart(runs: seq<Run>)
    requires Maximal(runs) && runs != []
    ensures LastStretch(AllInfos(runs), |AllInfos(runs)| - |runs[|runs| - 1].infos|)
  {
    hide Key, AllInfos, Maximal;
    var front, last := runs[..|runs| - 1], runs[|runs| - 1];
    LastRun(runs);
    NonEmptyRuns(front);
    LastUniform(runs);
    if front != [] {
      LastUniform(front);
      LastRun(front);
      Neighbours(runs);
    }
    Stretch(AllInfos(front), last.infos);
  }

  lemma LastUniform(runs: seq<Run>)
    requires Maximal(runs) && runs != []
    ensures Uniform(runs[|runs| - 1]) && runs[|runs| - 1].infos != []
  {
  }

  lemma Neighbours(runs: seq<Run>)
    requires Maximal(runs) && |runs| > 1
    ensures runs[|runs| - 2].infos != [] && runs[|runs| - 1].infos != []
    ensures Key(runs[|runs| - 2].infos[0]) != Key(runs[|runs| - 1].infos[0])
  {
    hide Key;
    assert Uniform(runs[|runs| - 2]) && Uniform(runs[|runs| - 1]);
  }

  lemma Stretch(before: seq<Info>, last: seq<Info>)
    requires last != [] && forall i :: 0 <= i < |last| ==> Key(last[i]) == Key(last[0])
    requires before != [] ==> Key(before[|before| - 1]) != Key(last[0])
    ensures LastStretch(before + last, |before|)
  {
    hide Key;
    var all := before + last;
    assert forall j :: |before| <= j < |all| ==> all[j] == last[j - |before|];
  }

  lemma TailsAgree<T>(p: seq<T>, x: seq<T>, q: seq<T>, y: seq<T>)
    requires p + x == q + y && |x| == |y|
    ensures p == q && x == y
  {
    assert p == (p + x)[..|p|] && q == (q + y)[..|q|];
    assert x == (p + x)[|p|..] && y == (q + y)[|q|..];
  }

  // ----- folding -----

  /** How a batch delete of rows can end; with a lost reply the rows are gone but an error is seen. */
  datatype Deletion = Deleted | Kept | LostReply

  /** The contents of a file; they are only ever compared. */
  type Media = nat

  /**
   How merging a run can end: with a product of a size that is looked up afterwards, which has the
   segments at the included positions (those with a keyframe) and no others; refused before the output
   file is touched; or broken off after it was created anew.
   */
  datatype Merge = Merged(size: nat, media: Media, included: seq<nat>) | Refused | Broken(junk: Media)

  /**
   What the outside answers, and the settings of the command. A row is looked at and probed once, so its
   answers are its own; a removal is one of a batch of rows, or follows a failed merge of them.
   */
  datatype Env = Env(
    execute: bool,
    minSegs: nat,
    keepNewest: int,
    now: int,
    statOk: Row -> bool,                   // an existing file can also fail to be looked at
    probe: Row -> Option<Info>,
    outPath: Row -> Path,                  // derived from the first row of a run
    mkdirOk: Path -> bool,
    merge: seq<Row> -> Merge,
    delete: seq<Row> -> Deletion,
    removeOk: (seq<Row>, Path) -> bool,
    newId: seq<Row> -> Option<nat>)        // the product row's ID, or a failed insert

  /** A run that was merged, the size of its product, and which of its rows that holds. */
  datatype Fold = Fold(rows: seq<Row>, size: nat, included: seq<nat>)

  datatype State = State(db: map<nat, Row>, files: map<Path, Media>, folds: seq<Fold>, failed: nat, skipped: nat)

  function Ids(rows: seq<Row>): set<nat> {
    set i | 0 <= i < |rows| :: rows[i].id
  }

  function Paths(rows: seq<Row>): set<Path> {
    set i | 0 <= i < |rows| :: rows[i].path
  }

  /** Rows first, in one batch; their files only if that reported success. */
  function DeleteRows(env: Env, st: State, rows: seq<Row>): State {
    match env.delete(rows)
    case Kept => st
    case LostReply => st.(db := st.db - Ids(rows))
    case Deleted =>
      st.(db := st.db - Ids(rows),
          files := map p | p in st.files && !(p in Paths(rows) && env.removeOk(rows, p)) :: st.files[p])
  }

  /** Deleting rows: what goes from the table whatever is reported, and from the disk after a success only. */
  lemma DeletionExact(env: Env, st: State, rows: seq<Row>, r: Row)
    ensures var b := DeleteRows(env, st, rows);
      && (r in rows && !env.delete(rows).Kept? ==> r.id !in b.db)
      && (r in rows && env.delete(rows).Deleted? && env.removeOk(rows, r.path) ==> r.path !in b.files)
      && (env.delete(rows).Kept? ==> b.db == st.db) && (!env.delete(rows).Deleted? ==> b.files == st.files)
      && (r.id in st.db && (forall x :: x in rows ==> x.id != r.id) ==> r.id in b.db && b.db[r.id] == st.db[r.id])
      && (r.path in st.files && ((forall x :: x in rows ==> x.path != r.path) || !env.removeOk(rows, r.path)) ==>
            r.path in b.files && b.files[r.path] == st.files[r.path])
      && b.folds == st.folds && b.failed == st.failed && b.skipped == st.skipped
  {
    if r in rows {
      var i :| 0 <= i < |rows| && rows[i] == r;
      assert r.id in Ids(rows) && r.path in Paths(rows);
    }
    assert forall i :: 0 <= i < |rows| ==> rows[i] in rows;
  }

  function Product(env: Env, rows: seq<Row>, id: nat, size: nat): Row
    requires rows != []
  {
    Row(id, rows[0].start, rows[|rows| - 1].ended, size, env.outPath(rows[0]))
  }

  /** The product's row, unless its insert fails. */
  function Inserted(env: Env, st: State, rows: seq<Row>, size: nat): State
    requires rows != []
  {
    match env.newId(rows)
    case None => st
    case Some(id) => if id in st.db then st else st.(db := st.db[id := Product(env, rows, id, size)])
  }

  /** A failed merge removes whatever lies at the output path. */
  function MergeFailed(env: Env, st: State, rows: seq<Row>, out: Path): State {
    st.(failed := st.failed + 1, files := if env.removeOk(rows, out) then st.files - {out} else st.files)
  }

  function FoldRun(env: Env, st: State, rows: seq<Row>): State
    requires rows != []
  {
    if |rows| < env.minSegs || !env.execute then st else
    var out := env.outPath(rows[0]);
    if !env.mkdirOk(out) then st.(failed := st.failed + 1) else
    match env.merge(rows)
    case Refused => MergeFailed(env, st, rows, out)
    case Broken(junk) => MergeFailed(env, st.(files := st.files[out := junk]), rows, out)
    case Merged(size, media, included) =>
      var st1 := DeleteRows(env, st.(files := st.files[out := media]), rows);
      var st2 := Inserted(env, st1, rows, size);
      st2.(folds := st2.folds + [Fold(rows, size, included)])
  }

  /**
   A run that is too short, or only planned, changes nothing. One that cannot be merged keeps its rows and counts
   as failed; whatever lies at its output path is removed, if that works.
   */
  lemma RunFailureExact(env: Env, st: State, rows: seq<Row>)
    requires rows != []
    ensures var b, out := FoldRun(env, st, rows), env.outPath(rows[0]);
      if |rows| < env.minSegs || !env.execute then b == st
      else if !env.mkdirOk(out) then b == st.(failed := st.failed + 1)
      else env.merge(rows).Merged? ||
           (&& b.db == st.db && b.folds == st.folds && b.failed == st.failed + 1 && b.skipped == st.skipped
            && (forall p :: p != out ==>
                  (p in b.files <==> p in st.files) && (p in b.files ==> b.files[p] == st.files[p]))
            && (env.removeOk(rows, out) ==> out !in b.files))
  {
  }

  function FoldRuns(env: Env, st: State, runs: seq<Run>): State
    requires forall i :: 0 <= i < |runs| ==> runs[i].rows != []
    decreases |runs|
  {
    if runs == [] then st else FoldRuns(env, FoldRun(env, st, runs[0].rows), runs[1..])
  }

  /** A row whose file can be seen. */
  predicate Present(env: Env, files: map<Path, Media>, r: Row) {
    r.path in files && env.statOk(r)
  }

  datatype Probed = Probed(infos: seq<Info>, found: seq<Row>, missing: seq<Row>)

  /** Looks at every row in order; one failed probe gives up the window. */
  function Probe(env: Env, files: map<Path, Media>, rows: seq<Row>, sofar: Probed): (r: Option<Probed>)
    requires |sofar.infos| == |sofar.found|
    ensures r.Some? ==> |r.value.infos| == |r.value.found|
    decreases |rows|
  {
    if rows == [] then Some(sofar) else
    if !Present(env, files, rows[0]) then
      Probe(env, files, rows[1..], sofar.(missing := sofar.missing + [rows[0]]))
    else
    match env.probe(rows[0])
    case None => None
    case Some(info) =>
      Probe(env, files, rows[1..], sofar.(infos := sofar.infos + [info], found := sofar.found + [rows[0]]))
  }

  predicate Fresh(env: Env, rows: seq<Row>)
    requires rows != []
  {
    env.keepNewest > 0 && env.now - rows[|rows| - 1].ended < env.keepNewest
  }

  lemma SplitNonEmpty(infos: seq<Info>, rows: seq<Row>)
    requires |infos| == |rows|
    ensures forall i :: 0 <= i < |Split(infos, rows)| ==> Split(infos, rows)[i].rows != []
  {
    assert forall i :: 0 <= i < |Split(infos, rows)| ==> Uniform(Split(infos, rows)[i]);
  }

  /** One window. */
  function FoldWindow(env: Env, st: State, rows: seq<Row>): State
    requires rows != []
  {
    if Fresh(env, rows) || |rows| < env.minSegs then st.(skipped := st.skipped + 1) else
    match Probe(env, st.files, rows, Probed([], [], []))
    case None => st.(failed := st.failed + 1)
    case Some(p) =>
      // The check for nothing probed comes first, and it also catches a window of missing files.
      if p.infos == [] then st.(failed := st.failed + 1) else
      SplitNonEmpty(p.infos, p.found);
      var st1 := FoldRuns(env, st, Split(p.infos, p.found));
      if env.execute && p.missing != [] then DeleteRows(env, st1, p.missing) else st1
  }

  function FoldAll(env: Env, st: State, windows: seq<seq<Row>>): State
    requires forall i :: 0 <= i < |windows| ==> windows[i] != []
    decreases |windows|
  {
    if windows == [] then st else FoldAll(env, FoldWindow(env, st, windows[0]), windows[1..])
  }

  // ----- what is conserved -----

  /** Rows of a list that had no file to be seen, in order. */
  function Missing(env: Env, files: map<Path, Media>, rows: seq<Row>): seq<Row> {
    if rows == [] then []
    else (if Present(env, files, rows[0]) then [] else [rows[0]]) + Missing(env, files, rows[1..])
  }

  function Found(env: Env, files: map<Path, Media>, rows: seq<Row>): seq<Row> {
    if rows == [] then []
    else (if Present(env, files, rows[0]) then [rows[0]] else []) + Found(env, files, rows[1..])
  }

  lemma {:induction false} ProbeSplits(env: Env, files: map<Path, Media>, rows: seq<Row>, sofar: Probed)
    requires |sofar.infos| == |sofar.found|
    ensures var p := Probe(env, files, rows, sofar); p.Some? ==>
      && p.value.found == sofar.found + Found(env, files, rows)
      && p.value.missing == sofar.missing + Missing(env, files, rows)
    decreases |rows|
  {
    if rows != [] {
      if !Present(env, files, rows[0]) {
        ProbeSplits(env, files, rows[1..], sofar.(missing := sofar.missing + [rows[0]]));
      } else if env.probe(rows[0]).Some? {
        var info := env.probe(rows[0]).value;
        ProbeSplits(env, files, rows[1..], sofar.(infos := sofar.infos + [info], found := sofar.found + [rows[0]]));
      }
    }
  }

  /** The rows of the folds from number n on. */
  function FoldedIds(folds: seq<Fold>, n: nat): set<nat> {
    set i, j | n <= i < |folds| && 0 <= j < |folds[i].rows| :: folds[i].rows[j].id
  }

  /** The state went from a to b by folding; rows left the table only as named. */
  ghost predicate Progress(a: State, b: State, dropped: set<nat>) {
    && |a.folds| <= |b.folds| && b.folds[..|a.folds|] == a.folds
    && (forall id :: id in a.db && (id !in b.db || b.db[id] != a.db[id]) ==>
          id in FoldedIds(b.folds, |a.folds|) || id in dropped)
  }

  lemma ProgressTrans(a: State, b: State, c: State, d1: set<nat>, d2: set<nat>)
    requires Progress(a, b, d1) && Progress(b, c, d2)
    ensures Progress(a, c, d1 + d2)
  {
    assert c.folds[..|a.folds|] == b.folds[..|a.folds|] == a.folds by {
      assert b.folds == c.folds[..|b.folds|];
    }
    forall id | id in a.db && (id !in c.db || c.db[id] != a.db[id])
      ensures id in FoldedIds(c.folds, |a.folds|) || id in d1 + d2
    {
      if id in b.db && b.db[id] == a.db[id] {
        assert id in FoldedIds(c.folds, |b.folds|) || id in d2;
      } else if id !in d1 {
        assert id in FoldedIds(b.folds, |a.folds|);
        var i, j :| |a.folds| <= i < |b.folds| && 0 <= j < |b.folds[i].rows| && b.folds[i].rows[j].id == id;
        assert c.folds[..|b.folds|][i] == c.folds[i];
      }
    }
  }

  /** What one run adds to the folds: itself if it was long enough and merged. */
  function Made(env: Env, rows: seq<Row>): seq<Fold>
    requires rows != []
  {
    if |rows| < env.minSegs || !env.execute || !env.mkdirOk(env.outPath(rows[0])) || !env.merge(rows).Merged? then []
    else [Fold(rows, env.merge(rows).size, env.merge(rows).included)]
  }

  function MadeRuns(env: Env, runs: seq<Run>): seq<Fold>
    requires forall i :: 0 <= i < |runs| ==> runs[i].rows != []
  {
    if runs == [] then [] else Made(env, runs[0].rows) + MadeRuns(env, runs[1..])
  }

  lemma FoldRunProgress(env: Env, st: State, rows: seq<Row>)
    requires rows != []
    ensures Progress(st, FoldRun(env, st, rows), {})
    ensures FoldRun(env, st, rows).folds == st.folds + Made(env, rows)
    ensures !env.execute ==> FoldRun(env, st, rows) == st
  {
    var b := FoldRun(env, st, rows);
    if Made(env, rows) != [] {
      var n := |st.folds|;
      assert b.folds == st.folds + [Fold(rows, env.merge(rows).size, env.merge(rows).included)];
      forall id | id in st.db && (id !in b.db || b.db[id] != st.db[id]) ensures id in FoldedIds(b.folds, n) {
        assert id in Ids(rows);
        var j :| 0 <= j < |rows| && rows[j].id == id;
        assert b.folds[n].rows[j].id == id;
      }
    }
  }

  /** The folds of a window are its runs that were long enough and merged, in order; no other row goes. */
  lemma {:induction false} FoldRunsProgress(env: Env, st: State, runs: seq<Run>)
    requires forall i :: 0 <= i < |runs| ==> runs[i].rows != []
    ensures Progress(st, FoldRuns(env, st, runs), {})
    ensures FoldRuns(env, st, runs).folds == st.folds + MadeRuns(env, runs)
    ensures !env.execute ==> FoldRuns(env, st, runs) == st
    decreases |runs|
  {
    hide Made, FoldRun, Progress;
    if runs == [] {
      NoProgress(st, {});
    } else {
      var st1 := FoldRun(env, st, runs[0].rows);
      FoldRunProgress(env, st, runs[0].rows);
      FoldRunsProgress(env, st1, runs[1..]);
      var none: set<nat> := {};
      ProgressTrans(st, st1, FoldRuns(env, st, runs), none, none);
      assert none + none == none;
    }
  }

  lemma NoProgress(st: State, d: set<nat>)
    ensures Progress(st, st, d)
  {
  }

  lemma DeleteProgress(env: Env, st: State, rows: seq<Row>)
    ensures Progress(st, DeleteRows(env, st, rows), Ids(rows))
    ensures DeleteRows(env, st, rows).folds == st.folds
  {
  }

  predicate Skipped(env: Env, rows: seq<Row>)
    requires rows != []
  {
    Fresh(env, rows) || |rows| < env.minSegs
  }

  /** Whether a window gets as far as folding: every file that can be seen probes, and there is one. */
  predicate Usable(env: Env, files: map<Path, Media>, rows: seq<Row>) {
    && Found(env, files, rows) != []
    && forall i :: 0 <= i < |rows| && Present(env, files, rows[i]) ==> env.probe(rows[i]).Some?
  }

  lemma {:induction false} UsableExact(env: Env, files: map<Path, Media>, rows: seq<Row>, sofar: Probed)
    requires |sofar.infos| == |sofar.found|
    ensures Probe(env, files, rows, sofar).Some? <==>
      (forall i :: 0 <= i < |rows| && Present(env, files, rows[i]) ==> env.probe(rows[i]).Some?)
    decreases |rows|
  {
    if rows != [] {
      var rest := rows[1..];
      assert forall i :: 0 <= i < |rest| ==> rest[i] == rows[i + 1];
      assert forall i :: 0 < i < |rows| ==> rows[i] == rest[i - 1];
      if !Present(env, files, rows[0]) {
        UsableExact(env, files, rest, sofar.(missing := sofar.missing + [rows[0]]));
      } else if env.probe(rows[0]).Some? {
        var info := env.probe(rows[0]).value;
        UsableExact(env, files, rest, sofar.(infos := sofar.infos + [info], found := sofar.found + [rows[0]]));
      }
    }
  }

  lemma {:induction false} FoundSeen(env: Env, files: map<Path, Media>, rows: seq<Row>)
    ensures forall r :: r in Found(env, files, rows) <==> r in rows && r.path in files && env.statOk(r)
    ensures forall r :: r in Missing(env, files, rows) <==> r in rows && !(r.path in files && env.statOk(r))
  {
    if rows != [] {
      FoundSeen(env, files, rows[1..]);
      assert forall r :: r in rows <==> r == rows[0] || r in rows[1..];
    }
  }

  /**
   A window that is skipped keeps every row and file. So does one with a file that does not probe, and
   one whose files are all missing: the branch meant to drop such rows comes after the check for
   nothing probed and is never reached, so they count as failed.
   */
  lemma UnusableKept(env: Env, st: State, rows: seq<Row>)
    requires rows != []
    ensures var newest := rows[|rows| - 1];
      var skip := |rows| < env.minSegs || (env.keepNewest > 0 && env.now - newest.ended < env.keepNewest);
      var unknown := exists r :: r in rows && r.path in st.files && env.statOk(r) && env.probe(r).None?;
      var allMissing := forall r :: r in rows ==> !(r.path in st.files && env.statOk(r));
      && (skip ==> FoldWindow(env, st, rows) == st.(skipped := st.skipped + 1))
      && (!skip && (unknown || allMissing) ==> FoldWindow(env, st, rows) == st.(failed := st.failed + 1))
      && (Skipped(env, rows) <==> skip) && (Usable(env, st.files, rows) <==> !unknown && !allMissing)
  {
    UsableSeen(env, st.files, rows);
    hide Usable;
    NotFolded(env, st, rows);
    hide FoldWindow;
  }

  lemma NotFolded(env: Env, st: State, rows: seq<Row>)
    requires rows != []
    ensures Skipped(env, rows) ==> FoldWindow(env, st, rows) == st.(skipped := st.skipped + 1)
    ensures !Skipped(env, rows) && !Usable(env, st.files, rows) ==>
      FoldWindow(env, st, rows) == st.(failed := st.failed + 1)
  {
    var none := Probed([], [], []);
    UsableExact(env, st.files, rows, none);
    ProbeSplits(env, st.files, rows, none);
  }

  lemma UsableSeen(env: Env, files: map<Path, Media>, rows: seq<Row>)
    ensures Usable(env, files, rows) <==>
      && (forall r :: r in rows && r.path in files && env.statOk(r) ==> env.probe(r).Some?)
      && exists r :: r in rows && r.path in files && env.statOk(r)
  {
    FoundSeen(env, files, rows);
    hide Found;
    var found := Found(env, files, rows);
    if found != [] {
      assert found[0] in found;
    }
    assert forall i :: 0 <= i < |rows| ==> rows[i] in rows;
  }

  /** What a window with files drops: the rows that have none. */
  function Dropped(env: Env, st: State, rows: seq<Row>): set<nat>
    requires rows != []
  {
    if env.execute && !Skipped(env, rows) && Usable(env, st.files, rows)
    then Ids(Missing(env, st.files, rows)) else {}
  }

  /** Rows of a window leave the table only by being folded, or for having no file in a window that has some. */
  lemma FoldWindowProgress(env: Env, st: State, rows: seq<Row>)
    requires rows != []
    ensures Progress(st, FoldWindow(env, st, rows), Dropped(env, st, rows))
    ensures !env.execute ==> FoldWindow(env, st, rows).db == st.db && FoldWindow(env, st, rows).files == st.files
  {
    hide FoldRuns, Progress, DeleteRows, Ids, Split, Probe;
    if Skipped(env, rows) || !Usable(env, st.files, rows) {
      UnusableKept(env, st, rows);
      CountersOnly(st, FoldWindow(env, st, rows), Dropped(env, st, rows));
    } else {
      var none := Probed([], [], []);
      UsableExact(env, st.files, rows, none);
      ProbeSplits(env, st.files, rows, none);
      var p := Probe(env, st.files, rows, none).value;
      assert p.missing == Missing(env, st.files, rows);
      SplitNonEmpty(p.infos, p.found);
      var runs := Split(p.infos, p.found);
      var st1 := FoldRuns(env, st, runs);
      FoldRunsProgress(env, st, runs);
      NoProgress(st1, Dropped(env, st, rows));
      DeleteProgress(env, st1, p.missing);
      ProgressTrans(st, st1, FoldWindow(env, st, rows), {}, Dropped(env, st, rows));
      assert {} + Dropped(env, st, rows) == Dropped(env, st, rows);
    }
  }

  lemma CountersOnly(a: State, b: State, d: set<nat>)
    requires a.db == b.db && a.folds == b.folds
    ensures Progress(a, b, d)
  {
  }

  function AllDropped(env: Env, st: State, windows: seq<seq<Row>>): set<nat>
    requires forall i :: 0 <= i < |windows| ==> windows[i] != []
    decreases |windows|
  {
    if windows == [] then {}
    else Dropped(env, st, windows[0]) + AllDropped(env, FoldWindow(env, st, windows[0]), windows[1..])
  }

  /**
   The whole command: a row leaves the table only because its run was folded, or because its file was
   missing when its window was folded. Without the execute flag nothing changes at all.
   */
  lemma {:induction false} RunConserves(env: Env, st: State, windows: seq<seq<Row>>)
    requires forall i :: 0 <= i < |windows| ==> windows[i] != []
    ensures Progress(st, FoldAll(env, st, windows), AllDropped(env, st, windows))
    ensures !env.execute ==> FoldAll(env, st, windows).db == st.db && FoldAll(env, st, windows).files == st.files
    decreases |windows|
  {
    hide FoldWindow, Progress, Dropped;
    if windows == [] {
      NoProgress(st, {});
    } else {
      var st1 := FoldWindow(env, st, windows[0]);
      FoldWindowProgress(env, st, windows[0]);
      RunConserves(env, st1, windows[1..]);
      ProgressTrans(st, st1, FoldAll(env, st, windows),
                    Dropped(env, st, windows[0]), AllDropped(env, st1, windows[1..]));
    }
  }

  /** The product's row spans every row of its run, if the rows are in order of time. */
  lemma ProductSpansRun(env: Env, rows: seq<Row>, id: nat, size: nat, i: nat)
    requires i < |rows|
    requires forall a, b :: 0 <= a < b < |rows| ==> rows[a].start <= rows[b].start && rows[a].ended <= rows[b].ended
    ensures var p := Product(env, rows, id, size);
      && p.start <= rows[i].start && rows[i].ended <= p.ended
      && (i == 0 ==> p.start == rows[i].start) && (i == |rows| - 1 ==> p.ended == rows[i].ended)
  {
  }

  // ----- totals -----

  function SumSizes(rows: seq<Row>): nat {
    if rows == [] then 0 else SumSizes(rows[..|rows| - 1]) + rows[|rows| - 1].size
  }

  function SourceRows(folds: seq<Fold>): nat {
    if folds == [] then 0 else SourceRows(folds[..|folds| - 1]) + |folds[|folds| - 1].rows|
  }

  function SourceBytes(folds: seq<Fold>): nat {
    if folds == [] then 0 else SourceBytes(folds[..|folds| - 1]) + SumSizes(folds[|folds| - 1].rows)
  }

  function OutBytes(folds: seq<Fold>): nat {
    if folds == [] then 0 else OutBytes(folds[..|folds| - 1]) + folds[|folds| - 1].size
  }

  lemma TotalsSnoc(folds: seq<Fold>, f: Fold)
    ensures SourceRows(folds + [f]) == SourceRows(folds) + |f.rows|
    ensures SourceBytes(folds + [f]) == SourceBytes(folds) + SumSizes(f.rows)
    ensures OutBytes(folds + [f]) == OutBytes(folds) + f.size
  {
    assert (folds + [f])[..|folds|] == folds;
  }

  /** The command at work on the table and the files, with its counters. */
  class Folder {
    var db: map<nat, Row>
    var files: map<Path, Media>
    var mergedWindows: nat
    var failedWindows: nat
    var skippedWindows: nat
    var srcRows: nat
    var srcBytes: nat
    var outBytes: nat
    ghost var folds: seq<Fold>

    ghost function View(): State
      reads this
    {
      State(db, files, folds, failedWindows, skippedWindows)
    }

    /** The totals are those of the folds made. */
    ghost predicate Valid()
      reads this
    {
      && mergedWindows == |folds| && srcRows == SourceRows(folds)
      && srcBytes == SourceBytes(folds) && outBytes == OutBytes(folds)
    }

    constructor (db: map<nat, Row>, files: map<Path, Media>)
      ensures Valid() && View() == State(db, files, [], 0, 0)
    {
      this.db, this.files := db, files;
      mergedWindows, failedWindows, skippedWindows, srcRows, srcBytes, outBytes := 0, 0, 0, 0, 0, 0;
      folds := [];
    }

    method DeleteTierRows(env: Env, rows: seq<Row>)
      modifies this`db, this`files
      ensures View() == DeleteRows(env, old(View()), rows)
    {
      var answer := env.delete(rows);
      if answer != Kept {
        db := db - Ids(rows);
      }
      if answer != Deleted {
        return;
      }
      ghost var start := files;
      ghost var left := db;
      for i := 0 to |rows|
        invariant db == left
        invariant files == map p | p in start && !(p in Paths(rows[..i]) && env.removeOk(rows, p)) :: start[p]
      {
        PathsSnoc(rows, i);
        if env.removeOk(rows, rows[i].path) {
          files := files - {rows[i].path};
        }
      }
      assert rows[..|rows|] == rows;
      assert files == map p | p in start && !(p in Paths(rows) && env.removeOk(rows, p)) :: start[p];
    }

    method FoldOneRun(env: Env, rows: seq<Row>)
      requires rows != [] && Valid()
      modifies this
      ensures Valid() && View() == FoldRun(env, old(View()), rows)
    {
      hide DeleteRows, Valid, SumSizes;
      if |rows| < env.minSegs {
        return;
      }
      var out := env.outPath(rows[0]);
      var srcN := SumOf(rows);
      if !env.execute {
        return;
      }
      if !env.mkdirOk(out) {
        Fail();
        return;
      }
      var merged := env.merge(rows);
      if merged.Broken? {
        PutFiles(files[out := merged.junk]);
      }
      if !merged.Merged? {
        PutFiles(if env.removeOk(rows, out) then files - {out} else files);
        Fail();
        return;
      }
      PutFiles(files[out := merged.media]);
      DropRows(env, rows);
      Insert(env, rows, merged.size);
      Count(Fold(rows, merged.size, merged.included), |rows|, merged.size, srcN);
    }

    method SumOf(rows: seq<Row>) returns (n: nat)
      ensures n == SumSizes(rows)
    {
      n := 0;
      for i := 0 to |rows|
        invariant n == SumSizes(rows[..i])
      {
        assert rows[..i + 1][..i] == rows[..i];
        n := n + rows[i].size;
      }
      assert rows[..|rows|] == rows;
    }

    method PutFiles(now: map<Path, Media>)
      requires Valid()
      modifies this`files
      ensures Valid() && View() == old(View()).(files := now)
    {
      files := now;
    }

    /** The product's row, unless the insert fails. */
    method Insert(env: Env, rows: seq<Row>, size: nat)
      requires rows != [] && Valid()
      modifies this`db
      ensures Valid()
      ensures View() == Inserted(env, old(View()), rows, size)
    {
      var first, last := rows[0], rows[|rows| - 1];
      var id := env.newId(rows);
      if id.Some? && id.value !in db {
        db := db[id.value := Row(id.value, first.start, last.ended, size, env.outPath(first))];
      }
    }

    method Count(ghost fold: Fold, rowsN: nat, outSize: nat, srcN: nat)
      requires Valid() && rowsN == |fold.rows| && outSize == fold.size && srcN == SumSizes(fold.rows)
      modifies this`folds, this`mergedWindows, this`srcRows, this`srcBytes, this`outBytes
      ensures Valid() && View() == old(View()).(folds := old(folds) + [fold])
    {
      hide SumSizes, SourceRows, SourceBytes, OutBytes;
      TotalsSnoc(folds, fold);
      folds := folds + [fold];
      mergedWindows := mergedWindows + 1;
      srcRows := srcRows + rowsN;
      srcBytes := srcBytes + srcN;
      outBytes := outBytes + outSize;
    }

    method ProbeWindow(env: Env, rows: seq<Row>)
        returns (ok: bool, infos: seq<Info>, foldRows: seq<Row>, missingRows: seq<Row>)
      ensures |infos| == |foldRows|
      ensures var p := Probe(env, files, rows, Probed([], [], []));
        if ok then p == Some(Probed(infos, foldRows, missingRows)) else p == None && infos == []
    {
      infos, foldRows, missingRows := [], [], [];
      for i := 0 to |rows|
        invariant |infos| == |foldRows|
        invariant Probe(env, files, rows[i..], Probed(infos, foldRows, missingRows))
                  == Probe(env, files, rows, Probed([], [], []))
      {
        var r := rows[i];
        assert rows[i..][0] == r && rows[i..][1..] == rows[i + 1..];
        if !(r.path in files && env.statOk(r)) {
          missingRows := missingRows + [r];
        } else {
          var info := env.probe(r);
          if info.None? {
            return false, [], [], [];
          }
          infos := infos + [info.value];
          foldRows := foldRows + [r];
        }
      }
      ok := true;
    }

    method FoldOneWindow(env: Env, rows: seq<Row>)
      requires rows != [] && Valid()
      modifies this
      ensures Valid() && View() == FoldWindow(env, old(View()), rows)
    {
      hide FoldRun, DeleteRows, Probe, Split, Valid;
      var newest := rows[|rows| - 1];
      if env.keepNewest > 0 && env.now - newest.ended < env.keepNewest {
        Skip();
        return;
      }
      if |rows| < env.minSegs {
        Skip();
        return;
      }
      var ok, infos, foldRows, missingRows := ProbeWindow(env, rows);
      if infos == [] {
        Fail();
        return;
      }
      var runs := SplitTierRuns(infos, foldRows);
      SplitNonEmpty(infos, foldRows);
      for i := 0 to |runs|
        invariant Valid()
        invariant FoldRuns(env, View(), runs[i..]) == FoldRuns(env, old(View()), runs)
      {
        assert runs[i..][0] == runs[i] && runs[i..][1..] == runs[i + 1..];
        FoldOneRun(env, runs[i].rows);
      }
      if env.execute && |missingRows| > 0 {
        DropRows(env, missingRows);
      }
    }

    method Skip()
      requires Valid()
      modifies this`skippedWindows
      ensures Valid() && View() == old(View()).(skipped := old(View()).skipped + 1)
    {
      skippedWindows := skippedWindows + 1;
    }

    method Fail()
      requires Valid()
      modifies this`failedWindows
      ensures Valid() && View() == old(View()).(failed := old(View()).failed + 1)
    {
      failedWindows := failedWindows + 1;
    }

    method DropRows(env: Env, rows: seq<Row>)
      requires Valid()
      modifies this`db, this`files
      ensures Valid() && View() == DeleteRows(env, old(View()), rows)
    {
      DeleteTierRows(env, rows);
    }

    /** Groups the rows and folds window after window, oldest first. */
    method RunTierMerge(env: Env, recs: seq<Row>, window: nat) returns (keys: seq<nat>)
      requires window > 0 && Valid()
      modifies this
      ensures Valid()
      ensures Increasing(keys) && forall k :: k in keys <==> InWindow(recs, window, k) != []
      ensures View() == FoldAll(env, old(View()), Windows(recs, window, keys))
    {
      hide FoldWindow, InWindow, WindowOf, Increasing, Valid, Grouped;
      var buckets: map<nat, seq<Row>>;
      keys, buckets := GroupByWindow(recs, window);
      WindowsAreBuckets(recs, window, keys, buckets);
      ghost var windows := Windows(recs, window, keys);
      for i := 0 to |keys|
        invariant Valid()
        invariant FoldAll(env, View(), windows[i..]) == FoldAll(env, old(View()), windows)
      {
        assert windows[i..][0] == windows[i] && windows[i..][1..] == windows[i + 1..];
        FoldOneWindow(env, buckets[keys[i]]);
      }
    }
  }

  lemma WindowsAreBuckets(recs: seq<Row>, window: nat, keys: seq<nat>, buckets: map<nat, seq<Row>>)
    requires window > 0 && Grouped(recs, window, buckets)
    requires (forall k :: k in keys <==> k in buckets) && forall k :: k in buckets ==> buckets[k] != []
    ensures forall k :: k in keys <==> InWindow(recs, window, k) != []
    ensures var windows := Windows(recs, window, keys);
      forall i :: 0 <= i < |keys| ==> keys[i] in buckets && windows[i] == buckets[keys[i]]
  {
    hide InWindow;
    forall i | 0 <= i < |keys| ensures keys[i] in buckets {
      assert keys[i] in keys;
    }
  }

  /** The windows' rows, in the order of their keys. */
  function Windows(recs: seq<Row>, window: nat, keys: seq<nat>): (windows: seq<seq<Row>>)
    requires window > 0 && forall k :: k in keys ==> InWindow(recs, window, k) != []
    ensures |windows| == |keys|
    ensures forall i :: 0 <= i < |windows| ==> windows[i] != [] && windows[i] == InWindow(recs, window, keys[i])
  {
    seq(|keys|, i requires 0 <= i < |keys| => assert keys[i] in keys; InWindow(recs, window, keys[i]))
  }

  lemma PathsSnoc(rows: seq<Row>, i: nat)
    requires i < |rows|
    ensures Paths(rows[..i + 1]) == Paths(rows[..i]) + {rows[i].path}
  {
    var a, b := rows[..i + 1], rows[..i];
    assert a[i] == rows[i];
    forall p | p in Paths(b) ensures p in Paths(a) {
      var j :| 0 <= j < |b| && b[j].path == p;
      assert a[j] == b[j];
    }
    forall p | p in Paths(a) ensures p in Paths(b) + {rows[i].path} {
      var j :| 0 <= j < |a| && a[j].path == p;
      assert j < i ==> b[j] == a[j];
    }
  }
}

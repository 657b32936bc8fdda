/**
 What a whole tier merge does to the media of the rows it found: which keep the file they had, and which
 lose it. Every run of the command and every answer of the outside is covered; what is assumed of the
 paths and IDs is in Tidy and Own.
 */
module TierMedia {
  import opened Bytes
  import opened TierMerge

  // ----- looking at one row and one path -----

  function Look<K, V>(m: map<K, V>, k: K): Option<V> {
    if k in m then Some(m[k]) else None
  }

  /** What the table has under a row's ID, and the disk under its path. */
  datatype Spot = Spot(row: Option<Row>, media: Option<Media>)

  function At(st: State, r: Row): Spot {
    Spot(Look(st.db, r.id), Look(st.files, r.path))
  }

  /** If the row is still there, it has the media it had. */
  predicate SpotKept(before: Spot, after: Spot, r: Row) {
    after.row == Some(r) && before.media.Some? ==> after.media == before.media
  }

  /** Every row of a that is still in b as it was has the media it had. */
  ghost predicate MediaKept(a: State, b: State) {
    forall id :: id in a.db ==> SpotKept(At(a, a.db[id]), At(b, a.db[id]), a.db[id])
  }

  // ----- what is assumed -----

  predicate InTable(a: State, rows: seq<Row>) {
    forall i :: 0 <= i < |rows| ==> rows[i].id in a.db && a.db[rows[i].id] == rows[i]
  }

  /** Rows are filed under their IDs. */
  predicate Filed(a: State) {
    forall id :: id in a.db ==> a.db[id].id == id
  }

  /** The ID for the product of these rows is not in the table. */
  predicate NewId(env: Env, a: State, rows: seq<Row>) {
    env.newId(rows).Some? ==> env.newId(rows).value !in a.db
  }

  /** Rows are filed under their IDs, no two share a path, and the IDs given to products are new. */
  ghost predicate Tidy(env: Env, a: State) {
    && Filed(a)
    && (forall i, j :: i in a.db && j in a.db && a.db[i].path == a.db[j].path ==> i == j)
    && forall rows :: NewId(env, a, rows)
  }

  /** A product made of a run that starts with this row lands on no row's path, unless it is the row's own. */
  ghost predicate Own(env: Env, a: State, r: Row) {
    forall id :: id in a.db && a.db[id].path == env.outPath(r) ==> id == r.id
  }

  predicate DistinctIds(rows: seq<Row>) {
    forall i, j :: 0 <= i < j < |rows| ==> rows[i].id != rows[j].id
  }

  /** The listing: rows of the table, each once, with products off other rows' paths. */
  ghost predicate Listing(env: Env, a: State, rows: seq<Row>) {
    Tidy(env, a) && InTable(a, rows) && DistinctIds(rows) && forall r :: r in rows ==> Own(env, a, r)
  }

  lemma ListedInTable(a: State, rows: seq<Row>, r: Row)
    requires InTable(a, rows) && r in rows
    ensures r.id in a.db && a.db[r.id] == r && r.id in Ids(rows) && r.path in Paths(rows)
  {
    var i :| 0 <= i < |rows| && rows[i] == r;
  }

  // ----- one run -----

  /** The run gets as far as the merger. */
  predicate Attempted(env: Env, rows: seq<Row>)
    requires rows != []
  {
    |rows| >= env.minSegs && env.execute && env.mkdirOk(env.outPath(rows[0]))
  }

  /** The file at p is removed with the rows. */
  predicate Swept(env: Env, rows: seq<Row>, p: Path) {
    env.delete(rows).Deleted? && p in Paths(rows) && env.removeOk(rows, p)
  }

  /**
   What a run does to a row that stays in the table: it removes or replaces the file at the row's path,
   as the run's output or, for a row that shares its path with one of the run's, as a source.
   */
  predicate Harms(env: Env, files: map<Path, Media>, rows: seq<Row>, r: Row)
    requires rows != []
  {
    && Attempted(env, rows) && r.path in files
    && match env.merge(rows)
       case Refused => env.outPath(rows[0]) == r.path && env.removeOk(rows, r.path)
       case Broken(junk) =>
         env.outPath(rows[0]) == r.path && (env.removeOk(rows, r.path) || junk != files[r.path])
       case Merged(_, media, _) =>
         && (r.id in Ids(rows) ==> env.delete(rows).Kept?)
         && (Swept(env, rows, r.path) || (env.outPath(rows[0]) == r.path && media != files[r.path]))
  }

  /** A run leaves a row of the table with the media it had exactly if it does not harm it. */
  lemma RunEffect(env: Env, a: State, st: State, rows: seq<Row>, r: Row)
    requires rows != [] && NewId(env, a, rows)
    requires r.id in a.db && a.db[r.id] == r && At(st, r) == At(a, r)
    ensures SpotKept(At(a, r), At(FoldRun(env, st, rows), r), r) <==> !Harms(env, a.files, rows, r)
  {
    hide Ids, Paths;
  }

  /**
   One run, exactly, in any state: every row that is still there has the media it had, if and only if the
   run harms none. In particular a merge that fails destroys an earlier product at its output path.
   */
  lemma RunKeepsMediaExact(env: Env, st: State, rows: seq<Row>)
    requires rows != [] && Filed(st) && NewId(env, st, rows)
    ensures MediaKept(st, FoldRun(env, st, rows)) <==>
      forall id :: id in st.db ==> !Harms(env, st.files, rows, st.db[id])
  {
    hide FoldRun, Harms, SpotKept;
    forall id | id in st.db
      ensures SpotKept(At(st, st.db[id]), At(FoldRun(env, st, rows), st.db[id]), st.db[id])
              <==> !Harms(env, st.files, rows, st.db[id])
    {
      RunEffect(env, st, st, rows, st.db[id]);
    }
  }

  /** Folding an earlier product again: if the merge fails, its file is gone and its row stays. */
  lemma FailedRefoldLosesProduct(env: Env, st: State, rows: seq<Row>)
    requires rows != [] && Attempted(env, rows) && InTable(st, rows)
    requires env.outPath(rows[0]) == rows[0].path && env.removeOk(rows, rows[0].path) && !env.merge(rows).Merged?
    ensures var b := FoldRun(env, st, rows);
      rows[0].id in b.db && b.db[rows[0].id] == rows[0] && rows[0].path !in b.files
  {
  }

  /** If the merge succeeds instead, the source is removed after it, and the product with it. */
  lemma RefoldLosesProduct(env: Env, st: State, rows: seq<Row>)
    requires rows != [] && Attempted(env, rows) && env.outPath(rows[0]) == rows[0].path
        && env.removeOk(rows, rows[0].path)
    requires env.merge(rows).Merged? && env.delete(rows).Deleted?
    requires env.newId(rows).Some? && env.newId(rows).value !in st.db
    ensures var id := env.newId(rows).value;
      var b := FoldRun(env, st, rows);
      id in b.db && b.db[id].path == env.outPath(rows[0]) && b.db[id].path !in b.files
  {
    assert rows[0].path in Paths(rows);
  }

  // ----- one window -----

  /** The runs that a window is split into; none if it is skipped or fails. */
  function RunsOf(env: Env, files: map<Path, Media>, rows: seq<Row>): (runs: seq<Run>)
    requires rows != []
    ensures forall i :: 0 <= i < |runs| ==> runs[i].rows != []
  {
    if Skipped(env, rows) || !Usable(env, files, rows) then [] else
    ProbeEnds(env, files, rows);
    var p := Probe(env, files, rows, Probed([], [], [])).value;
    SplitNonEmpty(p.infos, p.found);
    Split(p.infos, p.found)
  }

  lemma ProbeEnds(env: Env, files: map<Path, Media>, rows: seq<Row>)
    requires Usable(env, files, rows)
    ensures var p := Probe(env, files, rows, Probed([], [], []));
      p.Some? && p.value.found == Found(env, files, rows) && p.value.missing == Missing(env, files, rows)
  {
    UsableExact(env, files, rows, Probed([], [], []));
    ProbeSplits(env, files, rows, Probed([], [], []));
  }

  /** A window is its runs, folded, and then its missing rows, dropped. */
  function Rest(env: Env, st: State, files: map<Path, Media>, rows: seq<Row>): State
    requires rows != []
  {
    var missing := Missing(env, files, rows);
    if Skipped(env, rows) || !Usable(env, files, rows) || !env.execute || missing == [] then st
    else DeleteRows(env, st, missing)
  }

  lemma {:induction false} WindowUnfolds(env: Env, st: State, rows: seq<Row>)
    requires rows != []
    ensures var b, c := FoldWindow(env, st, rows),
        Rest(env, FoldRuns(env, st, RunsOf(env, st.files, rows)), st.files, rows);
      b.db == c.db && b.files == c.files && b.folds == c.folds
  {
    hide Split, Probe, Usable, FoldRuns, DeleteRows;
    if Skipped(env, rows) || !Usable(env, st.files, rows) {
      UnusableKept(env, st, rows);
      NoRuns(env, st);
    } else {
      ProbeEnds(env, st.files, rows);
      FoundSome(env, st.files, rows);
    }
  }

  lemma NoRuns(env: Env, st: State)
    ensures FoldRuns(env, st, []) == st
  {
  }

  lemma FoundSome(env: Env, files: map<Path, Media>, rows: seq<Row>)
    requires Usable(env, files, rows)
    ensures Found(env, files, rows) != []
  {
  }

  lemma {:induction false} FoundExactly(env: Env, files: map<Path, Media>, rows: seq<Row>)
    ensures forall r :: r in Found(env, files, rows) <==> r in rows && Present(env, files, r)
    ensures forall r :: r in Missing(env, files, rows) <==> r in rows && !Present(env, files, r)
  {
    if rows != [] {
      FoundExactly(env, files, rows[1..]);
    }
  }

  lemma {:induction false} FoundDistinct(env: Env, files: map<Path, Media>, rows: seq<Row>)
    requires DistinctIds(rows)
    ensures DistinctIds(Found(env, files, rows)) && DistinctIds(Missing(env, files, rows))
  {
    hide Present;
    if rows != [] {
      var rest := rows[1..];
      FoundDistinct(env, files, rest);
      FoundExactly(env, files, rest);
      HeadDistinct(rows, Found(env, files, rest));
      HeadDistinct(rows, Missing(env, files, rest));
    }
  }

  lemma HeadDistinct(rows: seq<Row>, part: seq<Row>)
    requires rows != [] && DistinctIds(rows) && DistinctIds(part) && forall r :: r in part ==> r in rows[1..]
    ensures DistinctIds([rows[0]] + part)
  {
    forall i | 0 <= i < |part| ensures part[i].id != rows[0].id {
      assert part[i] in part;
      var j :| 0 <= j < |rows[1..]| && rows[1..][j] == part[i];
      assert rows[j + 1] == part[i];
    }
  }

  /** The rows of the runs are those found, each in one run. */
  lemma RunsOfRows(env: Env, files: map<Path, Media>, rows: seq<Row>)
    requires rows != []
    ensures var runs := RunsOf(env, files, rows);
      AllRows(runs) == if Skipped(env, rows) || !Usable(env, files, rows) then [] else Found(env, files, rows)
  {
    hide Split, Probe, Usable;
    if !Skipped(env, rows) && Usable(env, files, rows) {
      ProbeEnds(env, files, rows);
      var p := Probe(env, files, rows, Probed([], [], [])).value;
      SplitConcat(p.infos, p.found);
    }
  }

  lemma PartsDisjoint(a: seq<Row>, b: seq<Row>, x: Row, y: Row)
    requires DistinctIds(a + b) && x in a && y in b
    ensures x.id != y.id
  {
    var i :| 0 <= i < |a| && a[i] == x;
    var j :| 0 <= j < |b| && b[j] == y;
    assert (a + b)[i] == x && (a + b)[|a| + j] == y;
  }

  /** What a window looks at is settled by which of its rows' files are there. */
  lemma {:induction false} SameLook(env: Env, f: map<Path, Media>, g: map<Path, Media>, rows: seq<Row>, sofar: Probed)
    requires forall r :: r in rows ==> Look(f, r.path) == Look(g, r.path)
    requires |sofar.infos| == |sofar.found|
    ensures Probe(env, f, rows, sofar) == Probe(env, g, rows, sofar)
    ensures Found(env, f, rows) == Found(env, g, rows) && Missing(env, f, rows) == Missing(env, g, rows)
    decreases |rows|
  {
    if rows != [] {
      var r, rest := rows[0], rows[1..];
      assert Present(env, f, r) == Present(env, g, r) by { assert Look(f, r.path) == Look(g, r.path); }
      if !Present(env, f, r) {
        SameLook(env, f, g, rest, sofar.(missing := sofar.missing + [r]));
      } else if env.probe(r).Some? {
        SameLook(env, f, g, rest, sofar.(infos := sofar.infos + [env.probe(r).value], found := sofar.found + [r]));
      } else {
        SameLook(env, f, g, rest, sofar);
      }
    }
  }

  lemma SameRuns(env: Env, f: map<Path, Media>, g: map<Path, Media>, rows: seq<Row>)
    requires rows != [] && forall r :: r in rows ==> Look(f, r.path) == Look(g, r.path)
    ensures RunsOf(env, f, rows) == RunsOf(env, g, rows)
  {
    hide Split, Probe, Usable;
    SameLook(env, f, g, rows, Probed([], [], []));
    SameUsable(env, f, g, rows);
  }

  lemma SameUsable(env: Env, f: map<Path, Media>, g: map<Path, Media>, rows: seq<Row>)
    requires forall r :: r in rows ==> Look(f, r.path) == Look(g, r.path)
    ensures Usable(env, f, rows) == Usable(env, g, rows)
  {
    SameLook(env, f, g, rows, Probed([], [], []));
    forall i | 0 <= i < |rows| ensures Present(env, f, rows[i]) == Present(env, g, rows[i]) {
      assert rows[i] in rows;
      assert Look(f, rows[i].path) == Look(g, rows[i].path);
    }
  }

  lemma PartListed(env: Env, a: State, rows: seq<Row>, part: seq<Row>)
    requires Tidy(env, a) && InTable(a, rows) && forall r :: r in part ==> r in rows
    ensures InTable(a, part)
  {
    hide Tidy;
    forall i | 0 <= i < |part| ensures part[i].id in a.db && a.db[part[i].id] == part[i] {
      assert part[i] in part;
      ListedInTable(a, rows, part[i]);
    }
  }

  lemma NoDuplicates()
    ensures DistinctIds([])
  {
  }

  // ----- the whole command -----

  function Flat(windows: seq<seq<Row>>): seq<Row> {
    if windows == [] then [] else windows[0] + Flat(windows[1..])
  }

  ghost predicate NonEmpty(windows: seq<seq<Row>>) {
    forall i :: 0 <= i < |windows| ==> windows[i] != []
  }

  lemma {:induction false} ListingParts(env: Env, a: State, windows: seq<seq<Row>>)
    requires windows != [] && Listing(env, a, Flat(windows))
    ensures Listing(env, a, windows[0]) && Listing(env, a, Flat(windows[1..]))
    ensures forall r :: r in windows[0] ==> r !in Flat(windows[1..])
  {
    hide Tidy, Own, InTable, DistinctIds;
    var x, y := windows[0], Flat(windows[1..]);
    assert Flat(windows) == x + y;
    PartListed(env, a, Flat(windows), x);
    PartListed(env, a, Flat(windows), y);
    DistinctParts(x, y);
  }

  lemma DistinctParts(x: seq<Row>, y: seq<Row>)
    requires DistinctIds(x + y)
    ensures DistinctIds(x) && DistinctIds(y) && forall r :: r in x ==> r !in y
  {
    var all := x + y;
    assert forall i :: 0 <= i < |x| ==> all[i] == x[i];
    assert forall i :: 0 <= i < |y| ==> all[|x| + i] == y[i];
    forall r | r in x ensures r !in y {
      var i :| 0 <= i < |x| && x[i] == r;
    }
  }

  lemma {:induction false} InSomeWindow(windows: seq<seq<Row>>, r: Row) returns (k: nat)
    requires r in Flat(windows)
    ensures k < |windows| && r in windows[k]
  {
    if r in windows[0] {
      k := 0;
    } else {
      var j := InSomeWindow(windows[1..], r);
      k := j + 1;
    }
  }

  // ----- the command's own windows -----

  lemma {:induction false} InWindowExactly(rows: seq<Row>, window: nat, k: nat)
    requires window > 0
    ensures forall r :: r in InWindow(rows, window, k) <==> r in rows && WindowOf(r.start, window) == k
  {
    hide WindowOf;
    if rows != [] {
      InWindowExactly(rows[1..], window, k);
    }
  }

  lemma {:induction false} InWindowDistinct(rows: seq<Row>, window: nat, k: nat)
    requires window > 0 && DistinctIds(rows)
    ensures DistinctIds(InWindow(rows, window, k))
  {
    hide WindowOf;
    if rows != [] {
      var rest := rows[1..];
      InWindowDistinct(rest, window, k);
      InWindowExactly(rest, window, k);
      var part := InWindow(rest, window, k);
      forall i | 0 <= i < |part| ensures part[i].id != rows[0].id {
        assert part[i] in part;
        var j :| 0 <= j < |rest| && rest[j] == part[i];
        assert rows[j + 1] == rest[j];
      }
    }
  }

  lemma {:induction false} FlatDistinct(windows: seq<seq<Row>>)
    requires forall i :: 0 <= i < |windows| ==> DistinctIds(windows[i])
    requires forall i, j, x, y ::
      0 <= i < |windows| && 0 <= j < |windows| && i != j && x in windows[i] && y in windows[j] ==> x.id != y.id
    ensures DistinctIds(Flat(windows))
  {
    hide DistinctIds;
    if windows == [] {
      NoDuplicates();
    } else {
      var rest := windows[1..];
      assert forall i :: 0 <= i < |rest| ==> rest[i] == windows[i + 1];
      FlatDistinct(rest);
      forall x, y | x in windows[0] && y in Flat(rest) ensures x.id != y.id {
        var k := InSomeWindow(rest, y);
        assert y in windows[k + 1];
      }
      JoinDistinct(windows[0], Flat(rest));
    }
  }

  lemma JoinDistinct(x: seq<Row>, y: seq<Row>)
    requires DistinctIds(x) && DistinctIds(y) && forall r, s :: r in x && s in y ==> r.id != s.id
    ensures DistinctIds(x + y)
  {
    var all := x + y;
    assert forall i :: |x| <= i < |all| ==> all[i] in y;
    assert forall i :: 0 <= i < |x| ==> all[i] in x;
  }

  lemma SameIdSameRow(rows: seq<Row>, x: Row, y: Row)
    requires DistinctIds(rows) && x in rows && y in rows && x.id == y.id
    ensures x == y
  {
    var i :| 0 <= i < |rows| && rows[i] == x;
    var j :| 0 <= j < |rows| && rows[j] == y;
    assert i == j;
  }

  /** Grouping by windows keeps every row, once. */
  lemma GroupedRows(recs: seq<Row>, window: nat, keys: seq<nat>)
    requires window > 0 && Increasing(keys) && forall k :: k in keys <==> InWindow(recs, window, k) != []
    requires DistinctIds(recs)
    ensures NonEmpty(Windows(recs, window, keys)) && DistinctIds(Flat(Windows(recs, window, keys)))
    ensures forall r :: r in Flat(Windows(recs, window, keys)) <==> r in recs
  {
    hide WindowOf, InWindow, DistinctIds;
    var windows := Windows(recs, window, keys);
    forall i | 0 <= i < |windows|
      ensures DistinctIds(windows[i])
      ensures forall r :: r in windows[i] <==> r in recs && WindowOf(r.start, window) == keys[i]
    {
      InWindowExactly(recs, window, keys[i]);
      InWindowDistinct(recs, window, keys[i]);
    }
    forall i, j, x: Row, y: Row |
        0 <= i < |windows| && 0 <= j < |windows| && i != j && x in windows[i] && y in windows[j]
      ensures x.id != y.id
    {
      if x.id == y.id {
        SameIdSameRow(recs, x, y);
      }
    }
    FlatDistinct(windows);
    forall r | r in Flat(windows) ensures r in recs {
      var k := InSomeWindow(windows, r);
    }
    forall r | r in recs ensures r in Flat(windows) {
      var k := WindowOf(r.start, window);
      InWindowExactly(recs, window, k);
      assert k in keys;
      var i :| 0 <= i < |keys| && keys[i] == k;
      InFlat(windows, i, r);
    }
  }

  lemma {:induction false} InFlat(windows: seq<seq<Row>>, i: nat, r: Row)
    requires i < |windows| && r in windows[i]
    ensures r in Flat(windows)
  {
    if i > 0 {
      InFlat(windows[1..], i - 1, r);
    }
  }

  /** Grouping by windows keeps a listing a listing. */
  lemma GroupedListing(env: Env, a: State, recs: seq<Row>, window: nat, keys: seq<nat>)
    requires window > 0 && Increasing(keys) && forall k :: k in keys <==> InWindow(recs, window, k) != []
    requires Listing(env, a, recs)
    ensures NonEmpty(Windows(recs, window, keys)) && Listing(env, a, Flat(Windows(recs, window, keys)))
  {
    hide WindowOf, InWindow, Tidy, Own, InTable, DistinctIds;
    GroupedRows(recs, window, keys);
    PartListed(env, a, recs, Flat(Windows(recs, window, keys)));
  }
}

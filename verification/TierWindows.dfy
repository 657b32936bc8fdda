/**
 Which windows a tier merge folds: no row newer than allowed is touched, and the runs of a window that is
 old enough are all folded.
 */
module TierWindows {
  import opened Bytes
  import opened TierMedia
  import opened TierMerge
  import opened TierSteps

  // ----- new rows -----

  /** Rows in the order in which they ended. */
  ghost predicate ByEnd(rows: seq<Row>) {
    forall i, j :: 0 <= i < j < |rows| ==> rows[i].ended <= rows[j].ended
  }

  /** A window with a row that is too new has no steps, whatever the files. */
  lemma NewWindow(env: Env, files: map<Path, Media>, rows: seq<Row>, r: Row)
    requires r in rows && ByEnd(rows) && env.keepNewest > 0 && env.now - r.ended < env.keepNewest
    ensures WindowSteps(env, files, rows) == []
  {
    hide Usable, Missing;
    var i :| 0 <= i < |rows| && rows[i] == r;
    assert rows[|rows| - 1].ended >= r.ended;
    assert Skipped(env, rows);
  }

  /** So no step of the command has such a row. */
  lemma {:induction false} NewRowApart(env: Env, st: State, windows: seq<seq<Row>>, r: Row)
    requires NonEmpty(windows) && DistinctIds(Flat(windows)) && forall w :: w in windows ==> ByEnd(w)
    requires env.keepNewest > 0 && env.now - r.ended < env.keepNewest
    ensures r !in StepRows(Steps(env, st, windows))
    decreases |windows|
  {
    hide FoldWindow, WindowSteps, DistinctIds, StepRows, ByEnd;
    Nothing(env);
    if windows != [] {
      var first, st1, rest := windows[0], FoldWindow(env, st, windows[0]), windows[1..];
      DistinctParts(first, Flat(rest));
      WindowRows(env, st.files, first);
      if r in first {
        NewWindow(env, st.files, first, r);
      }
      NewRowApart(env, st1, rest, r);
      StepRowsConcat(WindowSteps(env, st.files, first), Steps(env, st1, rest));
    }
  }

  /**
   A listed row that ended less than the time to keep ago stays in the table as it is, and no fold has it,
   whatever the rest of the listing, the files and the answers are.
   */
  lemma {:induction false} NewRowStays(env: Env, a: State, windows: seq<seq<Row>>, r: Row)
    requires NonEmpty(windows) && Listed(env, a, Flat(windows)) && forall w :: w in windows ==> ByEnd(w)
    requires r in Flat(windows) && env.keepNewest > 0 && env.now - r.ended < env.keepNewest
    ensures var b := FoldAll(env, a, windows);
      && Look(b.db, r.id) == Some(r) && a.folds <= b.folds
      && forall f, x :: f in b.folds[|a.folds|..] && x in f.rows ==> x.id != r.id
  {
    assert InTable(a, Flat(windows)) && DistinctIds(Flat(windows)) && forall x :: NewId(env, a, x);
    hide FoldAll, Steps, Listed, ByEnd, DistinctIds, StepRows, EndsAs, Takes, FoldsOf, InTable;
    var b, steps := FoldAll(env, a, windows), Steps(env, a, windows);
    ListedInTable(a, Flat(windows), r);
    NewRowApart(env, a, windows, r);
    CommandRows(env, a, windows);
    OldRowsExact(env, a, windows, r);
    FoldsExact(env, a, windows);
    assert b.folds[|a.folds|..] == FoldsOf(env, steps);
    forall i, x | 0 <= i < |steps| && x in steps[i].rows ensures x.id != r.id {
      StepRowsIn(steps, i);
      if x.id == r.id {
        SameIdSameRow(Flat(windows), x, r);
      }
    }
    NotTaken(env, steps, r.id);
    FoldsFrom(env, steps);
  }

  lemma {:induction false} InWindowByEnd(rows: seq<Row>, window: nat, k: nat)
    requires window > 0 && ByEnd(rows)
    ensures ByEnd(InWindow(rows, window, k))
  {
    hide WindowOf;
    if rows != [] {
      var rest := rows[1..];
      InWindowByEnd(rest, window, k);
      InWindowExactly(rest, window, k);
      forall r | r in rest ensures rows[0].ended <= r.ended {
        var j :| 0 <= j < |rest| && rest[j] == r;
        assert rows[j + 1] == r;
      }
    }
  }

  /**
   The command on a listing in order of time: no listed row that ended less than the time to keep ago leaves
   the table, and no fold has one.
   */
  lemma {:induction false} NewestKept(env: Env, a: State, recs: seq<Row>, window: nat, keys: seq<nat>, r: Row)
    requires window > 0 && Increasing(keys) && forall k :: k in keys <==> InWindow(recs, window, k) != []
    requires Listed(env, a, recs) && ByEnd(recs)
    requires r in recs && env.keepNewest > 0 && env.now - r.ended < env.keepNewest
    ensures var b := FoldAll(env, a, Windows(recs, window, keys));
      && Look(b.db, r.id) == Some(r) && a.folds <= b.folds
      && forall f, x :: f in b.folds[|a.folds|..] && x in f.rows ==> x.id != r.id
  {
    hide FoldAll, InWindow, ByEnd, DistinctIds;
    var windows := Windows(recs, window, keys);
    GroupedRows(recs, window, keys);
    forall i | 0 <= i < |windows| ensures ByEnd(windows[i]) {
      InWindowByEnd(recs, window, keys[i]);
    }
    assert Listed(env, a, Flat(windows)) by {
      forall i | 0 <= i < |Flat(windows)| ensures Flat(windows)[i] in recs {
        assert Flat(windows)[i] in Flat(windows);
      }
      forall x | x in recs ensures x.id in a.db && a.db[x.id] == x {
        ListedInTable(a, recs, x);
      }
    }
    NewRowStays(env, a, windows, r);
  }

  lemma NotTaken(env: Env, steps: seq<Step>, id: nat)
    requires forall i, x :: 0 <= i < |steps| && x in steps[i].rows ==> x.id != id
    ensures !Gone(env, steps, id)
  {
    hide Merges;
    forall i | 0 <= i < |steps| ensures id !in Ids(steps[i].rows) {
      forall j | 0 <= j < |steps[i].rows| ensures steps[i].rows[j].id != id {
        assert steps[i].rows[j] in steps[i].rows;
      }
    }
  }

  /** Every fold of the steps is one of them, long enough and merged as it says, and every such step is folded. */
  lemma {:induction false} FoldsFrom(env: Env, steps: seq<Step>)
    ensures forall f :: f in FoldsOf(env, steps) <==>
      exists s :: s in steps && s.Folding? && s.rows == f.rows && f.rows != []
        && env.execute && |f.rows| >= env.minSegs && env.mkdirOk(env.outPath(f.rows[0]))
        && env.merge(f.rows).Merged? && env.merge(f.rows).size == f.size && env.merge(f.rows).included == f.included
    decreases |steps|
  {
    if steps != [] {
      var n := |steps| - 1;
      FoldsFrom(env, steps[..n]);
      assert forall s :: s in steps <==> s in steps[..n] || s == steps[n];
    }
  }

  // ----- old windows -----

  function Probes(env: Env, rows: seq<Row>): (infos: seq<Info>)
    requires forall r :: r in rows ==> env.probe(r).Some?
    ensures |infos| == |rows|
  {
    seq(|rows|, i requires 0 <= i < |rows| => env.probe(rows[i]).value)
  }

  /** The window is old enough and long enough, and every file of it that can be seen probes, at least one. */
  ghost predicate Foldable(env: Env, files: map<Path, Media>, rows: seq<Row>) {
    && rows != [] && |rows| >= env.minSegs
    && (env.keepNewest <= 0 || env.now - rows[|rows| - 1].ended >= env.keepNewest)
    && (forall r :: r in rows && r.path in files && env.statOk(r) ==> env.probe(r).Some?)
    && exists r :: r in rows && r.path in files && env.statOk(r)
  }

  lemma {:induction false} ProbeInfos(env: Env, files: map<Path, Media>, rows: seq<Row>, sofar: Probed)
    requires |sofar.infos| == |sofar.found| && forall r :: r in Found(env, files, rows) ==> env.probe(r).Some?
    ensures var p := Probe(env, files, rows, sofar);
      p.Some? && p.value.infos == sofar.infos + Probes(env, Found(env, files, rows))
    decreases |rows|
  {
    hide Present, Probes;
    NoProbes(env);
    if rows != [] {
      var r, rest := rows[0], Found(env, files, rows[1..]);
      if !Present(env, files, r) {
        assert Found(env, files, rows) == rest;
        ProbeInfos(env, files, rows[1..], sofar.(missing := sofar.missing + [r]));
      } else {
        assert Found(env, files, rows) == [r] + rest;
        assert r in Found(env, files, rows) && forall x :: x in rest ==> x in Found(env, files, rows);
        var info := env.probe(r).value;
        ProbeInfos(env, files, rows[1..], sofar.(infos := sofar.infos + [info], found := sofar.found + [r]));
        ProbesFirst(env, r, rest);
        assert sofar.infos + [info] + Probes(env, rest) == sofar.infos + ([info] + Probes(env, rest));
      }
    }
  }

  lemma NoProbes(env: Env)
    ensures Probes(env, []) == []
  {
  }

  lemma ProbesFirst(env: Env, r: Row, rest: seq<Row>)
    requires forall x :: x in [r] + rest ==> env.probe(x).Some?
    ensures env.probe(r).Some? && forall x :: x in rest ==> env.probe(x).Some?
    ensures Probes(env, [r] + rest) == [env.probe(r).value] + Probes(env, rest)
  {
    assert ([r] + rest)[0] == r;
    assert forall x :: x in rest ==> x in [r] + rest;
  }

  /** The steps of such a window: the runs of what its files probe as, and the rows without a file. */
  lemma OldWindowSteps(env: Env, files: map<Path, Media>, rows: seq<Row>)
    requires Foldable(env, files, rows)
    ensures var found, missing := Found(env, files, rows), Missing(env, files, rows);
      && (forall r :: r in found ==> env.probe(r).Some?)
      && WindowSteps(env, files, rows) == FoldSteps(Split(Probes(env, found), found))
         + if env.execute && missing != [] then [Dropping(missing)] else []
  {
    FoundSeen(env, files, rows);
    var found := Found(env, files, rows);
    forall i | 0 <= i < |rows| && Present(env, files, rows[i]) ensures env.probe(rows[i]).Some? {
      assert rows[i] in rows;
    }
    assert Usable(env, files, rows) && !Skipped(env, rows);
    hide Split, Found, Missing, Skipped, Usable, Present, Probe;
    ProbeEnds(env, files, rows);
    ProbeInfos(env, files, rows, Probed([], [], []));
    RunsAreSplit(env, files, rows);
    assert [] + Probes(env, found) == Probes(env, found);
  }

  lemma {:induction false} StepsConcat(env: Env, st: State, x: seq<seq<Row>>, y: seq<seq<Row>>)
    requires NonEmpty(x) && NonEmpty(y)
    ensures NonEmpty(x + y)
    ensures Steps(env, st, x + y) == Steps(env, st, x) + Steps(env, FoldAll(env, st, x), y)
    decreases |x|
  {
    hide FoldWindow, WindowSteps;
    if x == [] {
      assert x + y == y;
    } else {
      assert (x + y)[1..] == x[1..] + y;
      StepsConcat(env, FoldWindow(env, st, x[0]), x[1..], y);
    }
  }

  /** What earlier windows do leaves the rows of later ones, and their files, as they were. */
  lemma {:induction false} LaterAlone(env: Env, a: State, st: State, x: seq<seq<Row>>, y: seq<seq<Row>>)
    requires NonEmpty(x + y) && NonEmpty(x) && Listing(env, a, Flat(x + y))
    requires forall r :: r in Flat(x + y) ==> At(st, r) == At(a, r)
    ensures forall r :: r in Flat(y) ==> At(FoldAll(env, st, x), r) == At(a, r)
    decreases |x|
  {
    hide FoldWindow, Listing, At;
    if x == [] {
      assert x + y == y;
    } else {
      assert (x + y)[1..] == x[1..] + y;
      ListingParts(env, a, x + y);
      OthersAlone(env, a, st, x + y);
      LaterAlone(env, a, FoldWindow(env, st, x[0]), x[1..], y);
    }
  }

  /** A window's steps, as the files at its turn make them, are among the command's. */
  lemma AtItsTurn(env: Env, a: State, before: seq<seq<Row>>, rows: seq<Row>, after: seq<seq<Row>>)
    requires rows != [] && NonEmpty(before) && NonEmpty(after)
    ensures NonEmpty(before + ([rows] + after))
    ensures forall s :: s in WindowSteps(env, FoldAll(env, a, before).files, rows) ==>
      s in Steps(env, a, before + ([rows] + after))
  {
    hide FoldWindow, WindowSteps, FoldAll;
    var later := [rows] + after;
    assert NonEmpty(later) && later[0] == rows;
    StepsConcat(env, a, before, later);
  }

  /**
   A window is folded: cut into runs by what its visible files probe as, every run that is long enough and
   merges is among the folds, its rows are gone if they can be deleted, and its product's row is in the table.
   Rows without a file are gone too if they can be deleted.
   */
  ghost predicate Folded(env: Env, a: State, b: State, files: map<Path, Media>, rows: seq<Row>) {
    var found, missing := Found(env, files, rows), Missing(env, files, rows);
    && (forall r :: r in found ==> env.probe(r).Some?)
    && (forall run :: run in Split(Probes(env, found), found) ==> Replaced(env, a, b, run.rows))
    && (!env.delete(missing).Kept? ==> forall r :: r in missing ==> r.id !in b.db)
  }

  /** Every window that is old enough, with enough rows, and whose visible files all probe at its turn is folded. */
  lemma {:induction false} OldWindowFolded(env: Env, a: State, before: seq<seq<Row>>, rows: seq<Row>,
      after: seq<seq<Row>>)
    requires NonEmpty(before) && NonEmpty(after) && rows != [] && env.execute
    requires Listed(env, a, Flat(before + ([rows] + after))) && Foldable(env, FoldAll(env, a, before).files, rows)
    ensures NonEmpty(before + ([rows] + after))
    ensures Folded(env, a, FoldAll(env, a, before + ([rows] + after)), FoldAll(env, a, before).files, rows)
  {
    hide FoldAll, Steps, WindowSteps, Listed, Foldable, Found, Missing, Split, Replaced;
    var windows := before + ([rows] + after);
    var files := FoldAll(env, a, before).files;
    AtItsTurn(env, a, before, rows, after);
    OldWindowSteps(env, files, rows);
    var found, missing := Found(env, files, rows), Missing(env, files, rows);
    var runs := Split(Probes(env, found), found);
    forall run | run in runs ensures Replaced(env, a, FoldAll(env, a, windows), run.rows) {
      var i :| 0 <= i < |runs| && runs[i] == run;
      assert FoldSteps(runs)[i] == Folding(run.rows);
      RunReplaced(env, a, windows, run.rows);
    }
    if !env.delete(missing).Kept? {
      forall r | r in missing ensures r.id !in FoldAll(env, a, windows).db {
        assert [Dropping(missing)][0] == Dropping(missing);
        MissingGone(env, a, windows, missing, r);
      }
    }
  }

  /** Where products land apart, the files at the start tell which windows those are, and how they are folded. */
  lemma {:induction false} OldWindowSettled(env: Env, a: State, before: seq<seq<Row>>, rows: seq<Row>,
      after: seq<seq<Row>>)
    requires NonEmpty(before) && NonEmpty(after) && rows != [] && env.execute
    requires var listed := Flat(before + ([rows] + after)); Listing(env, a, listed) && Listed(env, a, listed)
    requires Foldable(env, a.files, rows)
    ensures NonEmpty(before + ([rows] + after))
    ensures Folded(env, a, FoldAll(env, a, before + ([rows] + after)), a.files, rows)
  {
    hide FoldAll, Listing, Listed, Found, Missing, Split, Replaced;
    var later := [rows] + after;
    var files := FoldAll(env, a, before).files;
    LaterAlone(env, a, a, before, later);
    assert later[0] == rows && later[1..] == after && Flat(later) == rows + Flat(after);
    forall r | r in rows ensures Look(files, r.path) == Look(a.files, r.path) {
      assert r in Flat(later) && At(FoldAll(env, a, before), r) == At(a, r);
    }
    SameLook(env, files, a.files, rows, Probed([], [], []));
    SeenAlike(env, files, a.files, rows);
    OldWindowFolded(env, a, before, rows, after);
  }

  lemma SeenAlike(env: Env, f: map<Path, Media>, g: map<Path, Media>, rows: seq<Row>)
    requires forall r :: r in rows ==> Look(f, r.path) == Look(g, r.path)
    ensures Foldable(env, f, rows) <==> Foldable(env, g, rows)
  {
    assert forall r :: r in rows ==> (r.path in f <==> r.path in g) by {
      forall r | r in rows ensures r.path in f <==> r.path in g {
        assert Look(f, r.path) == Look(g, r.path);
      }
    }
  }

  /** What a run that is long enough and merges is replaced by. */
  ghost predicate Replaced(env: Env, a: State, b: State, run: seq<Row>) {
    run != [] && |run| >= env.minSegs && env.mkdirOk(env.outPath(run[0])) && env.merge(run).Merged? ==>
      && a.folds <= b.folds && Fold(run, env.merge(run).size, env.merge(run).included) in b.folds[|a.folds|..]
      && (!env.delete(run).Kept? ==> forall r :: r in run ==> r.id !in b.db)
      && match env.newId(run)
         case None => true
         case Some(id) =>
           Look(b.db, id)
           == Some(Row(id, run[0].start, run[|run| - 1].ended, env.merge(run).size, env.outPath(run[0])))
  }

  lemma RunReplaced(env: Env, a: State, windows: seq<seq<Row>>, run: seq<Row>)
    requires NonEmpty(windows) && Listed(env, a, Flat(windows)) && env.execute
    requires Folding(run) in Steps(env, a, windows)
    ensures Replaced(env, a, FoldAll(env, a, windows), run)
  {
    hide FoldAll, Steps, Listed, StepRows, FoldsOf, EndsAs, FileAfter;
    var b, steps := FoldAll(env, a, windows), Steps(env, a, windows);
    var i :| 0 <= i < |steps| && steps[i] == Folding(run);
    if Merges(env, steps[i]) {
      FoldsExact(env, a, windows);
      FoldsFrom(env, steps);
      assert b.folds[|a.folds|..] == FoldsOf(env, steps);
      assert FoldOf(env, steps[i]) in FoldsOf(env, steps);
      if !env.delete(run).Kept? {
        forall r | r in run ensures r.id !in b.db {
          TakenGone(env, a, windows, i, r);
        }
      }
      if env.newId(run).Some? {
        ProductExact(env, a, windows, i);
      }
    }
  }

  lemma TakenGone(env: Env, a: State, windows: seq<seq<Row>>, i: nat, r: Row)
    requires NonEmpty(windows) && Listed(env, a, Flat(windows)) && i < |Steps(env, a, windows)|
    requires var s := Steps(env, a, windows)[i];
      r in s.rows && !env.delete(s.rows).Kept? && (s.Folding? ==> Merges(env, s))
    ensures r.id !in FoldAll(env, a, windows).db
  {
    assert InTable(a, Flat(windows)) && DistinctIds(Flat(windows)) && forall x :: NewId(env, a, x);
    hide FoldAll, Steps, Listed, StepRows, EndsAs, DistinctIds, Merges, InTable;
    var steps := Steps(env, a, windows);
    CommandRows(env, a, windows);
    StepRowsIn(steps, i);
    ListedInTable(a, Flat(windows), r);
    var j :| 0 <= j < |steps[i].rows| && steps[i].rows[j] == r;
    assert Takes(env, steps[i], r.id);
    OldRowsExact(env, a, windows, r);
  }

  lemma MissingGone(env: Env, a: State, windows: seq<seq<Row>>, missing: seq<Row>, r: Row)
    requires NonEmpty(windows) && Listed(env, a, Flat(windows))
    requires Dropping(missing) in Steps(env, a, windows) && r in missing && !env.delete(missing).Kept?
    ensures r.id !in FoldAll(env, a, windows).db
  {
    hide FoldAll, Steps, Listed;
    var steps := Steps(env, a, windows);
    var i :| 0 <= i < |steps| && steps[i] == Dropping(missing);
    TakenGone(env, a, windows, i, r);
  }
}

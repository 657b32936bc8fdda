/**
 A tier merge as the list of its steps, runs folded and rows dropped: what becomes of every row, of every
 file and of every product, whatever the paths are and whatever fails.
 */
module TierSteps {
  import opened Bytes
  import opened TierMedia
  import opened TierMerge

  datatype Step = Folding(rows: seq<Row>) | Dropping(rows: seq<Row>)

  /** A run that gets as far as the merger. */
  predicate Attempts(env: Env, s: Step) {
    s.Folding? && s.rows != [] && Attempted(env, s.rows)
  }

  predicate Merges(env: Env, s: Step) {
    Attempts(env, s) && env.merge(s.rows).Merged?
  }

  /** The step takes the row with this ID out of the table. */
  predicate Takes(env: Env, s: Step, id: nat) {
    id in Ids(s.rows) && !env.delete(s.rows).Kept? && (s.Folding? ==> Merges(env, s))
  }

  /** What a step makes of the table's entry under an ID. */
  function RowStep(env: Env, row: Option<Row>, s: Step, id: nat): Option<Row> {
    var left := if Takes(env, s, id) then None else row;
    if left == None && Merges(env, s) && env.newId(s.rows) == Some(id)
    then Some(Product(env, s.rows, id, env.merge(s.rows).size)) else left
  }

  /** What a step leaves at a path; None if it does not touch it. */
  function Leaves(env: Env, s: Step, p: Path): Option<Option<Media>> {
    if s.Dropping? then if Swept(env, s.rows, p) then Some(None) else None else
    if !Attempts(env, s) then None else
    var mine := env.outPath(s.rows[0]) == p;
    match env.merge(s.rows)
    case Refused => if mine && env.removeOk(s.rows, p) then Some(None) else None
    case Broken(junk) => if mine then Some(if env.removeOk(s.rows, p) then None else Some(junk)) else None
    case Merged(_, media, _) =>
      if Swept(env, s.rows, p) then Some(None) else if mine then Some(Some(media)) else None
  }

  /** The table's entry under an ID after a list of steps. */
  function RowAfter(env: Env, row: Option<Row>, steps: seq<Step>, id: nat): Option<Row> {
    if steps == [] then row
    else RowStep(env, RowAfter(env, row, steps[..|steps| - 1], id), steps[|steps| - 1], id)
  }

  /** The file at a path after a list of steps: what the last step that touches it leaves there. */
  function FileAfter(env: Env, m: Option<Media>, steps: seq<Step>, p: Path): Option<Media> {
    if steps == [] then m else
    match Leaves(env, steps[|steps| - 1], p)
    case Some(left) => left
    case None => FileAfter(env, m, steps[..|steps| - 1], p)
  }

  lemma {:induction false} AfterConcat(env: Env, row: Option<Row>, m: Option<Media>, s: seq<Step>, t: seq<Step>,
      id: nat, p: Path)
    ensures RowAfter(env, row, s + t, id) == RowAfter(env, RowAfter(env, row, s, id), t, id)
    ensures FileAfter(env, m, s + t, p) == FileAfter(env, FileAfter(env, m, s, p), t, p)
    decreases |t|
  {
    hide RowStep, Leaves;
    if t == [] {
      assert s + t == s;
    } else {
      assert (s + t)[..|s + t| - 1] == s + t[..|t| - 1];
      AfterConcat(env, row, m, s, t[..|t| - 1], id, p);
    }
  }

  // ----- the steps of the command -----

  function FoldSteps(runs: seq<Run>): (steps: seq<Step>)
    ensures |steps| == |runs|
    ensures forall i :: 0 <= i < |runs| ==> steps[i] == Folding(runs[i].rows)
  {
    seq(|runs|, i requires 0 <= i < |runs| => Folding(runs[i].rows))
  }

  /** The rows dropped at the end of a window, if any. */
  function DropSteps(env: Env, files: map<Path, Media>, rows: seq<Row>): seq<Step>
    requires rows != []
  {
    var missing := Missing(env, files, rows);
    if Skipped(env, rows) || !Usable(env, files, rows) || !env.execute || missing == [] then []
    else [Dropping(missing)]
  }

  /** A window's steps: its runs, and then its missing rows. */
  function WindowSteps(env: Env, files: map<Path, Media>, rows: seq<Row>): seq<Step>
    requires rows != []
  {
    FoldSteps(RunsOf(env, files, rows)) + DropSteps(env, files, rows)
  }

  /** The command's steps; each window's depend on the files as it finds them. */
  function Steps(env: Env, st: State, windows: seq<seq<Row>>): seq<Step>
    requires NonEmpty(windows)
    decreases |windows|
  {
    if windows == [] then []
    else WindowSteps(env, st.files, windows[0]) + Steps(env, FoldWindow(env, st, windows[0]), windows[1..])
  }

  lemma FoldStep(env: Env, st: State, rows: seq<Row>, id: nat, p: Path)
    requires rows != []
    ensures var b := FoldRun(env, st, rows);
      && Look(b.db, id) == RowAfter(env, Look(st.db, id), [Folding(rows)], id)
      && Look(b.files, p) == FileAfter(env, Look(st.files, p), [Folding(rows)], p)
  {
    hide FoldRun, RowStep, Leaves;
    assert [Folding(rows)][..0] == [];
    FoldRow(env, st, rows, id);
    FoldFile(env, st, rows, p);
  }

  lemma FoldRow(env: Env, st: State, rows: seq<Row>, id: nat)
    requires rows != []
    ensures Look(FoldRun(env, st, rows).db, id) == RowStep(env, Look(st.db, id), Folding(rows), id)
  {
    hide Ids, Paths, Product;
  }

  lemma FoldFile(env: Env, st: State, rows: seq<Row>, p: Path)
    requires rows != []
    ensures Look(FoldRun(env, st, rows).files, p) ==
      match Leaves(env, Folding(rows), p)
      case Some(left) => left
      case None => Look(st.files, p)
  {
    hide Ids, Paths, Product;
  }

  lemma DropStep(env: Env, st: State, rows: seq<Row>, id: nat, p: Path)
    ensures var b := DeleteRows(env, st, rows);
      && Look(b.db, id) == RowAfter(env, Look(st.db, id), [Dropping(rows)], id)
      && Look(b.files, p) == FileAfter(env, Look(st.files, p), [Dropping(rows)], p)
  {
    hide Ids, Paths;
    assert [Dropping(rows)][..0] == [];
  }

  lemma {:induction false} RunsAsSteps(env: Env, st: State, runs: seq<Run>, id: nat, p: Path)
    requires forall i :: 0 <= i < |runs| ==> runs[i].rows != []
    ensures var b := FoldRuns(env, st, runs);
      && Look(b.db, id) == RowAfter(env, Look(st.db, id), FoldSteps(runs), id)
      && Look(b.files, p) == FileAfter(env, Look(st.files, p), FoldSteps(runs), p)
    decreases |runs|
  {
    hide FoldRun, Look;
    if runs == [] {
    } else {
      hide RowAfter, FileAfter;
      var first, rest := runs[0], runs[1..];
      FoldStep(env, st, first.rows, id, p);
      RunsAsSteps(env, FoldRun(env, st, first.rows), rest, id, p);
      assert FoldSteps(runs) == [Folding(first.rows)] + FoldSteps(rest);
      AfterConcat(env, Look(st.db, id), Look(st.files, p), [Folding(first.rows)], FoldSteps(rest), id, p);
    }
  }

  lemma WindowAsSteps(env: Env, st: State, rows: seq<Row>, id: nat, p: Path)
    requires rows != []
    ensures var b, steps := FoldWindow(env, st, rows), WindowSteps(env, st.files, rows);
      && Look(b.db, id) == RowAfter(env, Look(st.db, id), steps, id)
      && Look(b.files, p) == FileAfter(env, Look(st.files, p), steps, p)
  {
    hide RunsOf, FoldRuns, FoldWindow, DeleteRows, Skipped, Usable, Missing, Look, RowAfter, FileAfter;
    var runs := RunsOf(env, st.files, rows);
    var mid := FoldRuns(env, st, runs);
    WindowUnfolds(env, st, rows);
    RunsAsSteps(env, st, runs, id, p);
    DropStep(env, mid, Missing(env, st.files, rows), id, p);
    NoSteps(env, Look(mid.db, id), Look(mid.files, p), id, p);
    AfterConcat(env, Look(st.db, id), Look(st.files, p), FoldSteps(runs), DropSteps(env, st.files, rows), id, p);
  }

  lemma NoSteps(env: Env, row: Option<Row>, m: Option<Media>, id: nat, p: Path)
    ensures RowAfter(env, row, [], id) == row && FileAfter(env, m, [], p) == m
  {
  }

  /** The command, exactly: every row and every file at its end, whatever the paths and whatever fails. */
  lemma {:induction false} CommandExact(env: Env, st: State, windows: seq<seq<Row>>, id: nat, p: Path)
    requires NonEmpty(windows)
    ensures var b, steps := FoldAll(env, st, windows), Steps(env, st, windows);
      && Look(b.db, id) == RowAfter(env, Look(st.db, id), steps, id)
      && Look(b.files, p) == FileAfter(env, Look(st.files, p), steps, p)
    decreases |windows|
  {
    hide FoldWindow, WindowSteps, Look, RowAfter, FileAfter;
    if windows == [] {
      NoSteps(env, Look(st.db, id), Look(st.files, p), id, p);
    } else {
      var st1 := FoldWindow(env, st, windows[0]);
      WindowAsSteps(env, st, windows[0], id, p);
      CommandExact(env, st1, windows[1..], id, p);
      AfterConcat(env, Look(st.db, id), Look(st.files, p),
                  WindowSteps(env, st.files, windows[0]), Steps(env, st1, windows[1..]), id, p);
    }
  }

  /** What the steps add to the folds: the merged runs, in order. */
  function FoldsOf(env: Env, steps: seq<Step>): seq<Fold> {
    if steps == [] then []
    else
      var last := steps[|steps| - 1];
      FoldsOf(env, steps[..|steps| - 1]) + if Merges(env, last) then [FoldOf(env, last)] else []
  }

  function FoldOf(env: Env, s: Step): Fold
    requires Merges(env, s)
  {
    Fold(s.rows, env.merge(s.rows).size, env.merge(s.rows).included)
  }

  lemma {:induction false} FoldsConcat(env: Env, s: seq<Step>, t: seq<Step>)
    ensures FoldsOf(env, s + t) == FoldsOf(env, s) + FoldsOf(env, t)
    decreases |t|
  {
    hide Merges;
    if t == [] {
      assert s + t == s;
    } else {
      assert (s + t)[..|s + t| - 1] == s + t[..|t| - 1];
      FoldsConcat(env, s, t[..|t| - 1]);
    }
  }

  lemma Nothing(env: Env)
    ensures FoldsOf(env, []) == [] && StepRows([]) == []
  {
  }

  lemma OneFold(env: Env, rows: seq<Row>)
    requires rows != []
    ensures FoldsOf(env, [Folding(rows)]) == Made(env, rows)
  {
    assert [Folding(rows)][..0] == [];
  }

  lemma {:induction false} RunFolds(env: Env, runs: seq<Run>)
    requires forall i :: 0 <= i < |runs| ==> runs[i].rows != []
    ensures MadeRuns(env, runs) == FoldsOf(env, FoldSteps(runs))
  {
    if runs == [] {
      Nothing(env);
    } else {
      hide FoldsOf, Made;
      var first := [Folding(runs[0].rows)];
      OneFold(env, runs[0].rows);
      RunFolds(env, runs[1..]);
      assert FoldSteps(runs) == first + FoldSteps(runs[1..]);
      FoldsConcat(env, first, FoldSteps(runs[1..]));
    }
  }

  lemma WindowFolds(env: Env, st: State, rows: seq<Row>)
    requires rows != []
    ensures FoldWindow(env, st, rows).folds == st.folds + FoldsOf(env, WindowSteps(env, st.files, rows))
  {
    hide RunsOf, FoldRuns, FoldWindow, DeleteRows, Skipped, Usable, Progress;
    WindowUnfolds(env, st, rows);
    var runs, drops := RunsOf(env, st.files, rows), DropSteps(env, st.files, rows);
    FoldRunsProgress(env, st, runs);
    DeleteProgress(env, FoldRuns(env, st, runs), Missing(env, st.files, rows));
    RunFolds(env, runs);
    FoldsConcat(env, FoldSteps(runs), drops);
    assert FoldsOf(env, drops) == [] by {
      assert drops == [] || (|drops| == 1 && drops[0].Dropping? && drops[..0] == []);
    }
  }

  /** The command folds exactly the long enough, merged runs among its steps, in order. */
  lemma {:induction false} FoldsExact(env: Env, st: State, windows: seq<seq<Row>>)
    requires NonEmpty(windows)
    ensures FoldAll(env, st, windows).folds == st.folds + FoldsOf(env, Steps(env, st, windows))
    decreases |windows|
  {
    hide FoldWindow, WindowSteps, FoldsOf;
    if windows == [] {
      Nothing(env);
    } else {
      var st1 := FoldWindow(env, st, windows[0]);
      WindowFolds(env, st, windows[0]);
      FoldsExact(env, st1, windows[1..]);
      FoldsConcat(env, WindowSteps(env, st.files, windows[0]), Steps(env, st1, windows[1..]));
    }
  }

  // ----- every row is in one step -----

  function StepRows(steps: seq<Step>): seq<Row> {
    if steps == [] then [] else StepRows(steps[..|steps| - 1]) + steps[|steps| - 1].rows
  }

  lemma {:induction false} StepRowsConcat(s: seq<Step>, t: seq<Step>)
    ensures StepRows(s + t) == StepRows(s) + StepRows(t)
    decreases |t|
  {
    if t == [] {
      assert s + t == s;
    } else {
      assert (s + t)[..|s + t| - 1] == s + t[..|t| - 1];
      StepRowsConcat(s, t[..|t| - 1]);
    }
  }

  lemma {:induction false} RunStepRows(runs: seq<Run>)
    ensures StepRows(FoldSteps(runs)) == AllRows(runs)
  {
    if runs != [] {
      RunStepRows(runs[..|runs| - 1]);
      assert FoldSteps(runs)[..|runs| - 1] == FoldSteps(runs[..|runs| - 1]);
    }
  }

  /** Rows of a list, each once. */
  ghost predicate Among(part: seq<Row>, rows: seq<Row>) {
    DistinctIds(part) && forall r :: r in part ==> r in rows
  }

  lemma WindowRows(env: Env, files: map<Path, Media>, rows: seq<Row>)
    requires rows != [] && DistinctIds(rows)
    ensures Among(StepRows(WindowSteps(env, files, rows)), rows)
  {
    hide RunsOf, Skipped, Usable, Found, Missing, Present, DistinctIds, AllRows;
    var runs, drops := RunsOf(env, files, rows), DropSteps(env, files, rows);
    RunsOfRows(env, files, rows);
    RunStepRows(runs);
    StepRowsConcat(FoldSteps(runs), drops);
    FoundDistinct(env, files, rows);
    FoundExactly(env, files, rows);
    NoDuplicates();
    assert StepRows(drops) == [] || StepRows(drops) == Missing(env, files, rows) by {
      assert drops == [] || (|drops| == 1 && drops[..0] == []);
    }
    forall x, y | x in AllRows(runs) && y in StepRows(drops) ensures x.id != y.id {
      if x.id == y.id {
        SameIdSameRow(rows, x, y);
      }
    }
    JoinDistinct(AllRows(runs), StepRows(drops));
  }

  lemma {:induction false} CommandRows(env: Env, st: State, windows: seq<seq<Row>>)
    requires NonEmpty(windows) && DistinctIds(Flat(windows))
    ensures Among(StepRows(Steps(env, st, windows)), Flat(windows))
    decreases |windows|
  {
    hide FoldWindow, WindowSteps, DistinctIds, StepRows;
    if windows == [] {
      Nothing(env);
      NoDuplicates();
    } else {
      var st1, rest := FoldWindow(env, st, windows[0]), windows[1..];
      assert Flat(windows) == windows[0] + Flat(rest);
      DistinctParts(windows[0], Flat(rest));
      WindowRows(env, st.files, windows[0]);
      CommandRows(env, st1, rest);
      StepRowsConcat(WindowSteps(env, st.files, windows[0]), Steps(env, st1, rest));
      forall x, y | x in windows[0] && y in Flat(rest) ensures x.id != y.id {
        PartsDisjoint(windows[0], Flat(rest), x, y);
      }
      JoinDistinct(StepRows(WindowSteps(env, st.files, windows[0])), StepRows(Steps(env, st1, rest)));
    }
  }

  lemma {:induction false} StepRowsIn(steps: seq<Step>, i: nat)
    requires i < |steps|
    ensures forall r :: r in steps[i].rows ==> r in StepRows(steps)
  {
    if i < |steps| - 1 {
      StepRowsIn(steps[..|steps| - 1], i);
    }
  }

  /** No row is in two steps, nor twice in one. */
  lemma {:induction false} OnePlace(steps: seq<Step>, i: nat, j: nat, k: nat, l: nat)
    requires DistinctIds(StepRows(steps)) && i < |steps| && k < |steps| && j < |steps[i].rows| && l < |steps[k].rows|
    requires steps[i].rows[j].id == steps[k].rows[l].id
    ensures i == k && j == l
    decreases |steps|
  {
    hide DistinctIds;
    var n := |steps| - 1;
    var front, last := steps[..n], steps[n].rows;
    DistinctParts(StepRows(front), last);
    if i < n && k < n {
      OnePlace(front, i, j, k, l);
    } else if i == n && k == n {
      SamePlace(last, j, l);
    } else if i == n {
      StepRowsIn(front, k);
      PartsDisjoint(StepRows(front), last, front[k].rows[l], last[j]);
    } else {
      StepRowsIn(front, i);
      PartsDisjoint(StepRows(front), last, front[i].rows[j], last[l]);
    }
  }

  lemma SamePlace(rows: seq<Row>, j: nat, l: nat)
    requires DistinctIds(rows) && j < |rows| && l < |rows| && rows[j].id == rows[l].id
    ensures j == l
  {
  }

  // ----- rows of the table -----

  /** The listing, as far as IDs go: rows of the table, each once, and the IDs for products are new and differ. */
  ghost predicate Listed(env: Env, a: State, rows: seq<Row>) {
    && Filed(a) && InTable(a, rows) && DistinctIds(rows)
    && (forall x :: NewId(env, a, x))
    && forall x, y :: env.newId(x).Some? && env.newId(x) == env.newId(y) ==> x == y
  }

  lemma ListedIds(env: Env, a: State, rows: seq<Row>, run: seq<Row>)
    requires Listed(env, a, rows)
    ensures DistinctIds(rows) && NewId(env, a, run)
  {
  }

  ghost predicate Gone(env: Env, steps: seq<Step>, id: nat) {
    exists i :: 0 <= i < |steps| && Takes(env, steps[i], id)
  }

  lemma {:induction false} GoneExact(env: Env, r: Row, steps: seq<Step>, id: nat)
    requires forall i :: 0 <= i < |steps| ==> env.newId(steps[i].rows) != Some(id)
    ensures RowAfter(env, Some(r), steps, id) == if Gone(env, steps, id) then None else Some(r)
    decreases |steps|
  {
    hide Takes, Merges;
    if steps != [] {
      var front := steps[..|steps| - 1];
      GoneExact(env, r, front, id);
      assert Gone(env, steps, id) <==> Gone(env, front, id) || Takes(env, steps[|steps| - 1], id) by {
        assert forall i :: 0 <= i < |front| ==> front[i] == steps[i];
      }
    }
  }

  /** The last step that touches the path. */
  ghost predicate LastTouch(env: Env, steps: seq<Step>, j: int, p: Path) {
    && 0 <= j < |steps| && Leaves(env, steps[j], p).Some?
    && forall k :: j < k < |steps| ==> Leaves(env, steps[k], p) == None
  }

  /** The last step that touches the path, if there is one, leaves this there. */
  ghost predicate EndsAs(env: Env, steps: seq<Step>, p: Path, m: Option<Media>) {
    forall j :: LastTouch(env, steps, j, p) ==> Leaves(env, steps[j], p) == Some(m)
  }

  lemma {:induction false} EndsExact(env: Env, m: Option<Media>, steps: seq<Step>, p: Path)
    ensures FileAfter(env, m, steps, p) == m <==> EndsAs(env, steps, p, m)
    decreases |steps|
  {
    hide Leaves;
    if steps != [] {
      var n := |steps| - 1;
      if Leaves(env, steps[n], p).Some? {
        assert LastTouch(env, steps, n, p);
      } else {
        var front := steps[..n];
        EndsExact(env, m, front, p);
        assert forall j :: LastTouch(env, steps, j, p) <==> LastTouch(env, front, j, p);
      }
    }
  }

  /**
   Every row the command found, whatever the paths: it is there at the end exactly if no step takes it, and
   then it has the media it had exactly if the last step that touches its file, if any, leaves that there.
   */
  lemma OldRowsExact(env: Env, a: State, windows: seq<seq<Row>>, r: Row)
    requires NonEmpty(windows) && (forall x :: NewId(env, a, x)) && r.id in a.db && a.db[r.id] == r
    ensures var b, steps := FoldAll(env, a, windows), Steps(env, a, windows);
      && Look(b.db, r.id) == (if Gone(env, steps, r.id) then None else Some(r))
      && (Look(b.files, r.path) == Look(a.files, r.path) <==> EndsAs(env, steps, r.path, Look(a.files, r.path)))
      && (SpotKept(At(a, r), At(b, r), r) <==>
            || Gone(env, steps, r.id) || r.path !in a.files
            || EndsAs(env, steps, r.path, Look(a.files, r.path)))
  {
    hide FoldAll, Steps, EndsAs, Gone;
    var steps := Steps(env, a, windows);
    CommandExact(env, a, windows, r.id, r.path);
    EndsExact(env, Look(a.files, r.path), steps, r.path);
    forall i | 0 <= i < |steps| ensures env.newId(steps[i].rows) != Some(r.id) {
      assert NewId(env, a, steps[i].rows);
    }
    GoneExact(env, r, steps, r.id);
  }

  // ----- products -----

  /** The run is merged, and its product gets a row. */
  predicate Makes(env: Env, s: Step) {
    Merges(env, s) && env.newId(s.rows).Some?
  }

  function ProductOf(env: Env, s: Step): Row
    requires Makes(env, s)
  {
    Product(env, s.rows, env.newId(s.rows).value, env.merge(s.rows).size)
  }

  /** What the product's file is once its run is done: gone, if its path was a source's and was removed with it. */
  function ProductMedia(env: Env, s: Step): Option<Media>
    requires Merges(env, s)
  {
    if Swept(env, s.rows, env.outPath(s.rows[0])) then None else Some(env.merge(s.rows).media)
  }

  /**
   Every product: its row is there at the end, and its file is what its run left exactly if the last later
   step that touches that path, if any, leaves the same there.
   */
  lemma ProductExact(env: Env, a: State, windows: seq<seq<Row>>, i: nat)
    requires NonEmpty(windows) && Listed(env, a, Flat(windows))
    requires i < |Steps(env, a, windows)| && Makes(env, Steps(env, a, windows)[i])
    ensures var b, steps := FoldAll(env, a, windows), Steps(env, a, windows);
      var product, media := ProductOf(env, steps[i]), ProductMedia(env, steps[i]);
      && Look(b.db, product.id) == Some(product)
      && Look(b.files, product.path) == FileAfter(env, media, steps[i + 1..], product.path)
      && (Look(b.files, product.path) == media <==> EndsAs(env, steps[i + 1..], product.path, media))
  {
    hide FoldAll, Steps, Listed, EndsAs, RowAfter, FileAfter;
    var steps := Steps(env, a, windows);
    var product, media := ProductOf(env, steps[i]), ProductMedia(env, steps[i]);
    var p, id := product.path, product.id;
    CommandExact(env, a, windows, id, p);
    assert DistinctIds(Flat(windows)) && id !in a.db by { ListedIds(env, a, Flat(windows), steps[i].rows); }
    CommandRows(env, a, windows);
    OwnId(env, a, windows, steps, i);
    var now, files := Look(a.db, id), Look(a.files, p);
    var before, one, after := steps[..i], [steps[i]], steps[i + 1..];
    assert steps == before + (one + after);
    AfterConcat(env, now, files, before, one + after, id, p);
    StaysOut(env, before, id);
    MadeHere(env, FileAfter(env, files, before, p), steps[i]);
    AfterConcat(env, None, FileAfter(env, files, before, p), one, after, id, p);
    StaysIn(env, product, after, id);
    EndsExact(env, media, after, p);
  }

  /** No other step makes or takes a row with the product's ID. */
  lemma OwnId(env: Env, a: State, windows: seq<seq<Row>>, steps: seq<Step>, i: nat)
    requires Listed(env, a, Flat(windows)) && Among(StepRows(steps), Flat(windows)) && i < |steps|
        && Makes(env, steps[i])
    ensures var id := ProductOf(env, steps[i]).id;
      && id !in a.db
      && forall j :: 0 <= j < |steps| ==> id !in Ids(steps[j].rows) && (j != i ==> !Inserts(env, steps[j], id))
  {
    hide Makes, ProductOf, DistinctIds, StepRows;
    var rows, id := steps[i].rows, ProductOf(env, steps[i]).id;
    assert env.newId(rows) == Some(id) && rows != [] by { MadeId(env, steps[i]); }
    assert NewId(env, a, rows);
    forall j | 0 <= j < |steps| ensures id !in Ids(steps[j].rows) && (j != i ==> !Inserts(env, steps[j], id)) {
      StepRowsIn(steps, j);
      forall l | 0 <= l < |steps[j].rows| ensures steps[j].rows[l].id != id {
        ListedInTable(a, Flat(windows), steps[j].rows[l]);
      }
      if Inserts(env, steps[j], id) {
        assert steps[j].rows == rows;
        OnePlace(steps, i, 0, j, 0);
      }
    }
  }

  lemma MadeId(env: Env, s: Step)
    requires Makes(env, s)
    ensures env.newId(s.rows) == Some(ProductOf(env, s).id) && s.rows != []
  {
  }

  predicate Inserts(env: Env, s: Step, id: nat) {
    Merges(env, s) && env.newId(s.rows) == Some(id)
  }

  lemma {:induction false} StaysOut(env: Env, steps: seq<Step>, id: nat)
    requires forall j :: 0 <= j < |steps| ==> !Inserts(env, steps[j], id)
    ensures RowAfter(env, None, steps, id) == None
    decreases |steps|
  {
    hide Takes;
    if steps != [] {
      StaysOut(env, steps[..|steps| - 1], id);
      assert !Inserts(env, steps[|steps| - 1], id);
    }
  }

  lemma {:induction false} StaysIn(env: Env, r: Row, steps: seq<Step>, id: nat)
    requires forall j :: 0 <= j < |steps| ==> id !in Ids(steps[j].rows)
    ensures RowAfter(env, Some(r), steps, id) == Some(r)
    decreases |steps|
  {
    hide Ids, Merges;
    if steps != [] {
      StaysIn(env, r, steps[..|steps| - 1], id);
    }
  }

  lemma MadeHere(env: Env, m: Option<Media>, s: Step)
    requires Makes(env, s) && ProductOf(env, s).id !in Ids(s.rows)
    ensures RowAfter(env, None, [s], ProductOf(env, s).id) == Some(ProductOf(env, s))
    ensures FileAfter(env, m, [s], ProductOf(env, s).path) == ProductMedia(env, s)
  {
    hide Swept, Ids;
    assert [s][..0] == [];
  }

  /** The product's row is there, and its file has what was merged. */
  ghost predicate ProductHas(env: Env, s: Step, b: State)
    requires Makes(env, s)
  {
    && Look(b.db, ProductOf(env, s).id) == Some(ProductOf(env, s))
    && Look(b.files, ProductOf(env, s).path) == Some(env.merge(s.rows).media)
  }

  /** The last step, from its own run on, that touches a product's path leaves what was merged there. */
  ghost predicate ProductLast(env: Env, steps: seq<Step>, i: nat)
    requires i < |steps| && Makes(env, steps[i])
  {
    EndsAs(env, steps[i..], ProductOf(env, steps[i]).path, Some(env.merge(steps[i].rows).media))
  }

  /**
   Every product, made or lost: its file has what was merged exactly if its own run did not remove it with
   the sources, or a later step put the same there, and no later step leaves anything else.
   */
  lemma ProductHasExact(env: Env, a: State, windows: seq<seq<Row>>, i: nat)
    requires NonEmpty(windows) && Listed(env, a, Flat(windows))
    requires i < |Steps(env, a, windows)| && Makes(env, Steps(env, a, windows)[i])
    ensures var b, steps := FoldAll(env, a, windows), Steps(env, a, windows);
      ProductHas(env, steps[i], b) <==> ProductLast(env, steps, i)
  {
    hide FoldAll, Steps, Listed, EndsAs, RowAfter, FileAfter;
    var steps := Steps(env, a, windows);
    var s, after := steps[i], steps[i + 1..];
    var p, want := ProductOf(env, s).path, Some(env.merge(s.rows).media);
    ProductExact(env, a, windows, i);
    assert DistinctIds(Flat(windows)) by { ListedIds(env, a, Flat(windows), s.rows); }
    CommandRows(env, a, windows);
    OwnId(env, a, windows, steps, i);
    MadeHere(env, want, s);
    assert steps[i..] == [s] + after;
    AfterConcat(env, None, want, [s], after, 0, p);
    EndsExact(env, want, steps[i..], p);
  }

  /** In particular: removed with its run's sources, and touched by no later step, the product has no file. */
  lemma OwnSweep(env: Env, a: State, windows: seq<seq<Row>>, i: nat)
    requires NonEmpty(windows) && Listed(env, a, Flat(windows))
    requires i < |Steps(env, a, windows)| && Makes(env, Steps(env, a, windows)[i])
    requires var steps := Steps(env, a, windows);
      var p := ProductOf(env, steps[i]).path;
      Swept(env, steps[i].rows, p) && forall j :: i < j < |steps| ==> Leaves(env, steps[j], p) == None
    ensures var b, steps := FoldAll(env, a, windows), Steps(env, a, windows);
      var product := ProductOf(env, steps[i]);
      && Look(b.db, product.id) == Some(product) && product.path !in b.files
      && !ProductHas(env, steps[i], b) && !ProductLast(env, steps, i)
  {
    hide FoldAll, Steps, Listed, Leaves, ProductLast;
    var steps := Steps(env, a, windows);
    var after := steps[i + 1..];
    ProductExact(env, a, windows, i);
    ProductHasExact(env, a, windows, i);
    assert forall j :: 0 <= j < |after| ==> after[j] == steps[i + 1 + j];
  }

  /** Every product has its row and its media. */
  ghost predicate ProductsHave(env: Env, steps: seq<Step>, b: State) {
    forall i :: 0 <= i < |steps| && Makes(env, steps[i]) ==> ProductHas(env, steps[i], b)
  }

  lemma ProductsExact(env: Env, a: State, windows: seq<seq<Row>>)
    requires NonEmpty(windows) && Listed(env, a, Flat(windows))
    ensures var b, steps := FoldAll(env, a, windows), Steps(env, a, windows);
      ProductsHave(env, steps, b) <==>
        forall i :: 0 <= i < |steps| && Makes(env, steps[i]) ==> ProductLast(env, steps, i)
  {
    hide FoldAll, Steps, Listed, Makes, ProductHas, ProductLast;
    var b, steps := FoldAll(env, a, windows), Steps(env, a, windows);
    forall i | 0 <= i < |steps| && Makes(env, steps[i])
      ensures ProductHas(env, steps[i], b) <==> ProductLast(env, steps, i)
    {
      ProductHasExact(env, a, windows, i);
    }
  }

  /** The row is taken, had no file to begin with, or keeps its file. */
  ghost predicate RowLast(env: Env, a: State, steps: seq<Step>, r: Row) {
    Gone(env, steps, r.id) || r.path !in a.files || EndsAs(env, steps, r.path, Look(a.files, r.path))
  }

  /**
   All media, exactly, whatever the paths and whatever fails: at the end of the command every row, found or
   made, has its media, if and only if the last step that touches the file of a row that stays leaves that
   there, and the last one that touches a product's path, its own run included, leaves the product.
   */
  lemma AllMediaExact(env: Env, a: State, windows: seq<seq<Row>>)
    requires NonEmpty(windows) && Listed(env, a, Flat(windows))
    ensures var b, steps := FoldAll(env, a, windows), Steps(env, a, windows);
      MediaKept(a, b) && ProductsHave(env, steps, b) <==>
        && (forall id :: id in a.db ==> RowLast(env, a, steps, a.db[id]))
        && forall i :: 0 <= i < |steps| && Makes(env, steps[i]) ==> ProductLast(env, steps, i)
  {
    ProductsExact(env, a, windows);
    assert Filed(a) && forall x :: NewId(env, a, x);
    hide FoldAll, Steps, Makes, ProductsHave, ProductLast, EndsAs, Gone, SpotKept, Listed;
    var b, steps := FoldAll(env, a, windows), Steps(env, a, windows);
    forall id | id in a.db
      ensures SpotKept(At(a, a.db[id]), At(b, a.db[id]), a.db[id]) <==> RowLast(env, a, steps, a.db[id])
    {
      OldRowsExact(env, a, windows, a.db[id]);
    }
  }

  // ----- deleted without a product -----

  predicate HasSegment(f: Fold, r: Row) {
    exists j :: 0 <= j < |f.rows| && f.rows[j] == r && j in f.included
  }

  /** The row's segment is in the product of one of these folds. */
  predicate InProduct(folds: seq<Fold>, r: Row) {
    exists f :: f in folds && HasSegment(f, r)
  }

  /** A step takes the row, and leaves its segment out. */
  ghost predicate LeftOut(env: Env, steps: seq<Step>, r: Row) {
    exists i, j :: 0 <= i < |steps| && 0 <= j < |steps[i].rows| && LeavesOut(env, steps[i], j, r)
  }

  predicate LeavesOut(env: Env, s: Step, j: nat, r: Row)
    requires j < |s.rows|
  {
    s.rows[j] == r && Takes(env, s, r.id) && (s.Folding? ==> j !in env.merge(s.rows).included)
  }

  predicate Includes(env: Env, s: Step, r: Row) {
    Merges(env, s) && HasSegment(FoldOf(env, s), r)
  }

  /** The segments in the products are the included ones of the merged runs. */
  lemma {:induction false} InProductExact(env: Env, steps: seq<Step>, r: Row)
    ensures InProduct(FoldsOf(env, steps), r) <==> exists i :: 0 <= i < |steps| && Includes(env, steps[i], r)
    decreases |steps|
  {
    hide Merges, HasSegment;
    if steps != [] {
      var n := |steps| - 1;
      var front := steps[..n];
      InProductExact(env, front, r);
      assert forall i :: 0 <= i < n ==> front[i] == steps[i];
      var last := if Merges(env, steps[n]) then [FoldOf(env, steps[n])] else [];
      assert FoldsOf(env, steps) == FoldsOf(env, front) + last;
      assert InProduct(FoldsOf(env, steps), r) <==> InProduct(FoldsOf(env, front), r) || Includes(env, steps[n], r);
    }
  }

  /**
   Which rows the command deletes without their segment being in a product: exactly those of a merged run
   that the merger left out, and those dropped for having no file.
   */
  lemma LostExact(env: Env, a: State, windows: seq<seq<Row>>, r: Row)
    requires NonEmpty(windows) && Listed(env, a, Flat(windows)) && r.id in a.db && a.db[r.id] == r
    ensures var b := FoldAll(env, a, windows);
      && a.folds <= b.folds
      && (r.id !in b.db && !InProduct(b.folds[|a.folds|..], r) <==> LeftOut(env, Steps(env, a, windows), r))
  {
    hide FoldAll, Steps, FoldsOf, InProduct, Takes, EndsAs;
    var b, steps := FoldAll(env, a, windows), Steps(env, a, windows);
    assert (forall x :: NewId(env, a, x)) && DistinctIds(Flat(windows));
    OldRowsExact(env, a, windows, r);
    FoldsExact(env, a, windows);
    assert b.folds[|a.folds|..] == FoldsOf(env, steps);
    CommandRows(env, a, windows);
    InProductExact(env, steps, r);
    if r.id !in b.db && !InProduct(FoldsOf(env, steps), r) {
      var i :| 0 <= i < |steps| && Takes(env, steps[i], r.id);
      var j := TakenAt(env, a, Flat(windows), steps, i, r);
      assert LeavesOut(env, steps[i], j, r) by {
        assert !Includes(env, steps[i], r) && (steps[i].Folding? ==> Merges(env, steps[i]));
      }
    }
    if LeftOut(env, steps, r) {
      var i, j :| 0 <= i < |steps| && 0 <= j < |steps[i].rows| && LeavesOut(env, steps[i], j, r);
      forall k | 0 <= k < |steps| ensures !Includes(env, steps[k], r) {
        if Includes(env, steps[k], r) {
          var l :| 0 <= l < |steps[k].rows| && steps[k].rows[l] == r && l in env.merge(steps[k].rows).included;
          OnePlace(steps, i, j, k, l);
        }
      }
    }
  }

  lemma TakenAt(env: Env, a: State, listed: seq<Row>, steps: seq<Step>, i: nat, r: Row) returns (j: nat)
    requires InTable(a, listed) && Among(StepRows(steps), listed) && r.id in a.db && a.db[r.id] == r
    requires i < |steps| && Takes(env, steps[i], r.id)
    ensures j < |steps[i].rows| && steps[i].rows[j] == r && (steps[i].Folding? ==> Merges(env, steps[i]))
  {
    hide Merges;
    j :| 0 <= j < |steps[i].rows| && steps[i].rows[j].id == r.id;
    StepRowsIn(steps, i);
    ListedInTable(a, listed, steps[i].rows[j]);
  }

  // ----- products on no other row's path than their first source's own -----

  /** Nothing in these steps concerns this ID and this path. */
  ghost predicate Apart(env: Env, steps: seq<Step>, id: nat, p: Path) {
    forall i :: 0 <= i < |steps| ==>
      !Takes(env, steps[i], id) && !Inserts(env, steps[i], id) && Leaves(env, steps[i], p) == None
  }

  lemma {:induction false} ApartStays(env: Env, row: Option<Row>, m: Option<Media>, steps: seq<Step>, id: nat, p: Path)
    requires Apart(env, steps, id, p)
    ensures RowAfter(env, row, steps, id) == row && FileAfter(env, m, steps, p) == m
    decreases |steps|
  {
    hide Takes, Merges, Leaves;
    if steps != [] {
      ApartStays(env, row, m, steps[..|steps| - 1], id, p);
      assert !Inserts(env, steps[|steps| - 1], id);
    }
  }

  /** A row of the table is concerned only by a step that has it, and by a run's output only as its first row. */
  lemma OwnStep(env: Env, a: State, listed: seq<Row>, steps: seq<Step>, i: nat, r: Row)
    requires Listing(env, a, listed) && Among(StepRows(steps), listed) && i < |steps|
    requires r.id in a.db && a.db[r.id] == r
    ensures !Inserts(env, steps[i], r.id)
    ensures Takes(env, steps[i], r.id) || Leaves(env, steps[i], r.path).Some? ==> r in steps[i].rows
    ensures Attempts(env, steps[i]) && env.outPath(steps[i].rows[0]) == r.path ==> r == steps[i].rows[0]
  {
    hide Takes, StepRows, DistinctIds, Merges;
    var s := steps[i];
    StepRowsIn(steps, i);
    assert NewId(env, a, s.rows);
    forall l | 0 <= l < |s.rows| ensures (s.rows[l].id == r.id || s.rows[l].path == r.path) ==> s.rows[l] == r {
      ListedInTable(a, listed, s.rows[l]);
    }
    if Attempts(env, s) {
      assert s.rows[0] in s.rows && Own(env, a, s.rows[0]);
      ListedInTable(a, listed, s.rows[0]);
    }
    TouchedBy(env, s, r.id, r.path);
  }

  lemma TouchedBy(env: Env, s: Step, id: nat, p: Path)
    ensures Takes(env, s, id) ==> exists l :: 0 <= l < |s.rows| && s.rows[l].id == id
    ensures Leaves(env, s, p).Some? ==>
      || (exists l :: 0 <= l < |s.rows| && s.rows[l].path == p)
      || (Attempts(env, s) && env.outPath(s.rows[0]) == p)
  {
  }

  lemma {:induction false} OthersAlone(env: Env, a: State, st: State, windows: seq<seq<Row>>)
    requires NonEmpty(windows) && windows != [] && Listing(env, a, Flat(windows))
    requires forall x :: x in Flat(windows) ==> At(st, x) == At(a, x)
    ensures forall x :: x in windows[0] ==> Look(st.files, x.path) == Look(a.files, x.path)
    ensures forall x :: x in Flat(windows[1..]) ==> At(FoldWindow(env, st, windows[0]), x) == At(a, x)
  {
    hide FoldWindow, WindowSteps, Tidy, Own, DistinctIds, StepRows, InTable;
    ListingParts(env, a, windows);
    var first, steps := windows[0], WindowSteps(env, st.files, windows[0]);
    assert Flat(windows) == first + Flat(windows[1..]);
    forall x | x in first ensures Look(st.files, x.path) == Look(a.files, x.path) {
      assert x in Flat(windows) && At(st, x) == At(a, x);
    }
    WindowRows(env, st.files, first);
    forall x | x in Flat(windows[1..]) ensures At(FoldWindow(env, st, first), x) == At(a, x) {
      ListedInTable(a, Flat(windows[1..]), x);
      forall i | 0 <= i < |steps|
        ensures !Takes(env, steps[i], x.id) && !Inserts(env, steps[i], x.id) && Leaves(env, steps[i], x.path) == None
      {
        OwnStep(env, a, first, steps, i, x);
        StepRowsIn(steps, i);
      }
      ApartStays(env, Look(st.db, x.id), Look(st.files, x.path), steps, x.id, x.path);
      WindowAsSteps(env, st, first, x.id, x.path);
    }
  }

  /** The steps as the files at the start settle them. */
  function StartSteps(env: Env, files: map<Path, Media>, windows: seq<seq<Row>>): seq<Step>
    requires NonEmpty(windows)
  {
    if windows == [] then [] else WindowSteps(env, files, windows[0]) + StartSteps(env, files, windows[1..])
  }

  lemma {:induction false} StepsFrom(env: Env, a: State, st: State, windows: seq<seq<Row>>)
    requires NonEmpty(windows) && Listing(env, a, Flat(windows))
    requires forall x :: x in Flat(windows) ==> At(st, x) == At(a, x)
    ensures Steps(env, st, windows) == StartSteps(env, a.files, windows)
    decreases |windows|
  {
    hide FoldWindow, Listing, WindowSteps;
    if windows != [] {
      ListingParts(env, a, windows);
      OthersAlone(env, a, st, windows);
      SameSteps(env, st.files, a.files, windows[0]);
      StepsFrom(env, a, FoldWindow(env, st, windows[0]), windows[1..]);
    }
  }

  lemma SameSteps(env: Env, f: map<Path, Media>, g: map<Path, Media>, rows: seq<Row>)
    requires rows != [] && forall r :: r in rows ==> Look(f, r.path) == Look(g, r.path)
    ensures WindowSteps(env, f, rows) == WindowSteps(env, g, rows)
  {
    hide RunsOf, Skipped, Present;
    SameRuns(env, f, g, rows);
    SameLook(env, f, g, rows, Probed([], [], []));
    SameUsable(env, f, g, rows);
  }

  /** Nothing that the command does changes what a later window finds. */
  lemma StepsSettled(env: Env, a: State, windows: seq<seq<Row>>)
    requires NonEmpty(windows) && Listing(env, a, Flat(windows))
    ensures Steps(env, a, windows) == StartSteps(env, a.files, windows)
  {
    StepsFrom(env, a, a, windows);
  }

  /** The run that starts with this row does it harm. */
  predicate HarmsFirst(env: Env, files: map<Path, Media>, s: Step, r: Row) {
    s.Folding? && s.rows != [] && s.rows[0] == r && Harms(env, files, s.rows, r)
  }

  /** It does so exactly by touching the row's file, and leaving something else there, without taking the row. */
  predicate HarmsExactly(env: Env, files: map<Path, Media>, s: Step, r: Row) {
    HarmsFirst(env, files, s, r) <==>
      && !Takes(env, s, r.id) && r.path in files
      && Leaves(env, s, r.path).Some? && Leaves(env, s, r.path) != Some(Look(files, r.path))
  }

  /** One step, on a row it has: it leaves the row without its media exactly by being the harmful run it starts. */
  lemma OneStepHarms(env: Env, files: map<Path, Media>, s: Step, r: Row)
    requires r in s.rows
    requires Attempts(env, s) && env.outPath(s.rows[0]) == r.path ==> r == s.rows[0]
    ensures HarmsExactly(env, files, s, r)
  {
    var l :| 0 <= l < |s.rows| && s.rows[l] == r;
    assert r.id in Ids(s.rows) && r.path in Paths(s.rows);
  }

  /** A row the command found is left without its media exactly by a harmful run that starts with it. */
  lemma {:induction false} ListedRowExact(env: Env, a: State, windows: seq<seq<Row>>, r: Row)
    requires NonEmpty(windows) && Listing(env, a, Flat(windows)) && r.id in a.db && a.db[r.id] == r
    ensures SpotKept(At(a, r), At(FoldAll(env, a, windows), r), r) <==>
      forall s :: s in StartSteps(env, a.files, windows) ==> !HarmsFirst(env, a.files, s, r)
  {
    hide FoldAll, Steps, StartSteps, Tidy, Own, DistinctIds, StepRows, Takes, Leaves, HarmsFirst, SpotKept, InTable;
    var steps := Steps(env, a, windows);
    StepsSettled(env, a, windows);
    CommandRows(env, a, windows);
    assert forall x :: NewId(env, a, x) by { NewIds(env, a); }
    OldRowsExact(env, a, windows, r);
    forall i | 0 <= i < |steps|
      ensures Takes(env, steps[i], r.id) || Leaves(env, steps[i], r.path).Some? || HarmsFirst(env, a.files, steps[i], r)
              ==> r in steps[i].rows
      ensures r in steps[i].rows ==> HarmsExactly(env, a.files, steps[i], r)
    {
      OwnStep(env, a, Flat(windows), steps, i, r);
      if r in steps[i].rows {
        OneStepHarms(env, a.files, steps[i], r);
      }
      FirstIn(env, a.files, steps[i], r);
    }
    OneHolder(steps, r);
    Weighed(env, a.files, steps, r);
  }

  lemma NewIds(env: Env, a: State)
    requires Tidy(env, a)
    ensures forall x :: NewId(env, a, x)
  {
  }

  lemma FirstIn(env: Env, files: map<Path, Media>, s: Step, r: Row)
    ensures HarmsFirst(env, files, s, r) ==> r in s.rows
  {
  }

  /** At most one step has the row. */
  ghost predicate OneHas(steps: seq<Step>, r: Row) {
    forall i, k :: 0 <= i < |steps| && 0 <= k < |steps| && r in steps[i].rows && r in steps[k].rows ==> i == k
  }

  lemma OneHolder(steps: seq<Step>, r: Row)
    requires DistinctIds(StepRows(steps))
    ensures OneHas(steps, r)
  {
    hide DistinctIds, StepRows;
    forall i, k | 0 <= i < |steps| && 0 <= k < |steps| && r in steps[i].rows && r in steps[k].rows ensures i == k {
      var j :| 0 <= j < |steps[i].rows| && steps[i].rows[j] == r;
      var l :| 0 <= l < |steps[k].rows| && steps[k].rows[l] == r;
      OnePlace(steps, i, j, k, l);
    }
  }

  /** If only one step has the row, and only that can concern it, that step alone decides. */
  lemma Weighed(env: Env, files: map<Path, Media>, steps: seq<Step>, r: Row)
    requires OneHas(steps, r)
    requires forall i :: 0 <= i < |steps| ==>
      (Takes(env, steps[i], r.id) || Leaves(env, steps[i], r.path).Some? || HarmsFirst(env, files, steps[i], r)
       ==> r in steps[i].rows)
    requires forall i :: 0 <= i < |steps| && r in steps[i].rows ==> HarmsExactly(env, files, steps[i], r)
    ensures Gone(env, steps, r.id) || r.path !in files || EndsAs(env, steps, r.path, Look(files, r.path)) <==>
      forall s :: s in steps ==> !HarmsFirst(env, files, s, r)
  {
    hide Takes, Leaves, HarmsFirst;
    if i :| 0 <= i < |steps| && r in steps[i].rows {
      assert Gone(env, steps, r.id) <==> Takes(env, steps[i], r.id);
      assert (forall s :: s in steps ==> !HarmsFirst(env, files, s, r)) <==> !HarmsFirst(env, files, steps[i], r);
      assert Leaves(env, steps[i], r.path).Some? ==> LastTouch(env, steps, i, r.path);
    }
  }

  /**
   The whole command, exactly: whatever fails on the way, every row it found that is still in the table
   has the media it had if and only if no run whose output path is its first row's own path meets a merge
   that destroys that file, or succeeds while its rows stay. Which runs those are is settled by the files
   at the start.
   */
  lemma {:induction false} MediaKeptExact(env: Env, a: State, windows: seq<seq<Row>>)
    requires NonEmpty(windows) && Listing(env, a, Flat(windows))
    ensures MediaKept(a, FoldAll(env, a, windows)) <==>
      forall s :: s in StartSteps(env, a.files, windows) && s.Folding? && s.rows != [] ==>
        !Harms(env, a.files, s.rows, s.rows[0])
  {
    hide FoldAll, StartSteps, Tidy, Own, DistinctIds, Harms, SpotKept, StepRows;
    var steps := StartSteps(env, a.files, windows);
    StepsSettled(env, a, windows);
    CommandRows(env, a, windows);
    forall id | id in a.db
      ensures SpotKept(At(a, a.db[id]), At(FoldAll(env, a, windows), a.db[id]), a.db[id]) <==>
        forall s :: s in steps ==> !HarmsFirst(env, a.files, s, a.db[id])
    {
      FiledUnder(env, a, id);
      ListedRowExact(env, a, windows, a.db[id]);
    }
    forall s | s in steps && s.Folding? && s.rows != []
      ensures s.rows[0].id in a.db && a.db[s.rows[0].id] == s.rows[0]
    {
      var i :| 0 <= i < |steps| && steps[i] == s;
      StepRowsIn(steps, i);
      ListedInTable(a, Flat(windows), s.rows[0]);
    }
  }

  lemma FiledUnder(env: Env, a: State, id: nat)
    requires Tidy(env, a) && id in a.db
    ensures a.db[id].id == id
  {
  }

  /** There, a later step touches a product only if it is a run with the same output path. */
  lemma OnlyOutputs(env: Env, a: State, windows: seq<seq<Row>>, i: nat, j: nat)
    requires NonEmpty(windows) && Listing(env, a, Flat(windows))
    requires i < j < |Steps(env, a, windows)| && Makes(env, Steps(env, a, windows)[i])
    ensures var steps := Steps(env, a, windows);
      var p := ProductOf(env, steps[i]).path;
      Leaves(env, steps[j], p).Some? ==> Attempts(env, steps[j]) && env.outPath(steps[j].rows[0]) == p
  {
    hide Steps, Tidy, DistinctIds, StepRows;
    var steps := Steps(env, a, windows);
    var first, p, later := steps[i].rows[0], ProductOf(env, steps[i]).path, steps[j].rows;
    CommandRows(env, a, windows);
    StepRowsIn(steps, i);
    StepRowsIn(steps, j);
    ListedInTable(a, Flat(windows), first);
    forall l | 0 <= l < |later| ensures later[l].path != p {
      ListedInTable(a, Flat(windows), later[l]);
      if later[l].id == first.id {
        OnePlace(steps, i, 0, j, l);
      }
      assert Own(env, a, first);
    }
  }

  /**
   All media, exactly, where the steps are settled by the files at the start: every row, found or made, has
   its media if and only if no run harms the row it starts with, and the last step that touches a product's
   path, its own run included, leaves the product there.
   */
  lemma AllMediaSettled(env: Env, a: State, windows: seq<seq<Row>>)
    requires NonEmpty(windows) && Listing(env, a, Flat(windows)) && Listed(env, a, Flat(windows))
    ensures var b, steps := FoldAll(env, a, windows), StartSteps(env, a.files, windows);
      MediaKept(a, b) && ProductsHave(env, steps, b) <==>
        && (forall s :: s in steps && s.Folding? && s.rows != [] ==> !Harms(env, a.files, s.rows, s.rows[0]))
        && forall i :: 0 <= i < |steps| && Makes(env, steps[i]) ==> ProductLast(env, steps, i)
  {
    hide *;
    StepsSettled(env, a, windows);
    MediaKeptExact(env, a, windows);
    ProductsExact(env, a, windows);
  }

  // ----- one path for two products -----

  /** A window that is folded as one run: all its files are there and probe alike. */
  ghost predicate Whole(env: Env, files: map<Path, Media>, rows: seq<Row>)
    requires rows != []
  {
    && !Skipped(env, rows)
    && forall i :: 0 <= i < |rows| ==>
      && Present(env, files, rows[i]) && env.probe(rows[i]).Some?
      && env.probe(rows[0]).Some? && Key(env.probe(rows[i]).value) == Key(env.probe(rows[0]).value)
  }

  lemma WholeSteps(env: Env, files: map<Path, Media>, rows: seq<Row>)
    requires rows != [] && Whole(env, files, rows)
    ensures WindowSteps(env, files, rows) == [Folding(rows)]
    ensures |RunsOf(env, files, rows)| == 1 && RunsOf(env, files, rows)[0].rows == rows
  {
    hide Key, Skipped, Present, Split, Probe, Uniform, RunsOf, Found;
    AllFound(env, files, rows);
    ProbeEnds(env, files, rows);
    ProbeAnswers(env, files, rows, Probed([], [], []));
    var p := Probe(env, files, rows, Probed([], [], [])).value;
    forall i | 0 <= i < |rows| ensures Key(p.infos[i]) == Key(p.infos[0]) {
      assert p.infos[0 + i] == env.probe(rows[i]).value && p.infos[0 + 0] == env.probe(rows[0]).value;
    }
    OneRun(p.infos, rows);
    assert RunsOf(env, files, rows) == [Run(p.infos, rows)] by { RunsAreSplit(env, files, rows); }
    assert FoldSteps([Run(p.infos, rows)]) == [Folding(rows)];
  }

  lemma RunsAreSplit(env: Env, files: map<Path, Media>, rows: seq<Row>)
    requires rows != [] && !Skipped(env, rows) && Usable(env, files, rows)
    ensures var p := Probe(env, files, rows, Probed([], [], []));
      p.Some? && RunsOf(env, files, rows) == Split(p.value.infos, p.value.found)
  {
    hide Skipped, Usable, Split, Probe;
    ProbeEnds(env, files, rows);
  }

  lemma {:induction false} OneRun(infos: seq<Info>, rows: seq<Row>)
    requires |infos| == |rows| > 0 && forall i :: 0 <= i < |infos| ==> Key(infos[i]) == Key(infos[0])
    ensures Split(infos, rows) == [Run(infos, rows)]
  {
    hide Key, Split;
    var runs := [Run(infos, rows)];
    assert Uniform(runs[0]);
    assert runs[..0] == [];
    SplitUnique(infos, rows, runs);
  }

  lemma {:induction false} AllFound(env: Env, files: map<Path, Media>, rows: seq<Row>)
    requires forall i :: 0 <= i < |rows| ==> Present(env, files, rows[i])
    ensures Found(env, files, rows) == rows && Missing(env, files, rows) == []
    decreases |rows|
  {
    hide Present;
    if rows != [] {
      AllFound(env, files, rows[1..]);
    }
  }

  lemma {:induction false} ProbeAnswers(env: Env, files: map<Path, Media>, rows: seq<Row>, sofar: Probed)
    requires |sofar.infos| == |sofar.found|
    requires forall i :: 0 <= i < |rows| ==> Present(env, files, rows[i]) && env.probe(rows[i]).Some?
    ensures var p := Probe(env, files, rows, sofar);
      && p.Some? && |p.value.infos| == |sofar.infos| + |rows| && sofar.infos <= p.value.infos
      && forall i :: 0 <= i < |rows| ==> p.value.infos[|sofar.infos| + i] == env.probe(rows[i]).value
    decreases |rows|
  {
    hide Present;
    if rows != [] {
      var rest := rows[1..];
      assert forall i :: 0 <= i < |rest| ==> rest[i] == rows[i + 1];
      var next := sofar.(infos := sofar.infos + [env.probe(rows[0]).value], found := sofar.found + [rows[0]]);
      ProbeAnswers(env, files, rest, next);
      assert forall i :: 0 < i < |rows| ==> rows[i] == rest[i - 1];
    }
  }

  /**
   A window that is folded again, successfully, from an earlier product at its own output path: the product
   is removed with the sources, and its row stays without a file.
   */
  lemma RefoldedWindow(env: Env, a: State, x: seq<Row>)
    requires x != [] && Listed(env, a, x) && Whole(env, a.files, x)
    requires Makes(env, Folding(x)) && Swept(env, x, env.outPath(x[0]))
    ensures var b, product := FoldAll(env, a, [x]), ProductOf(env, Folding(x));
      && Look(b.db, product.id) == Some(product) && product.path !in b.files
      && !ProductLast(env, [Folding(x)], 0)
  {
    hide FoldAll, Whole, Listed, ProductLast, Swept;
    assert [x][1..] == [] && Flat([x]) == x;
    WholeSteps(env, a.files, x);
    assert Steps(env, a, [x]) == WindowSteps(env, a.files, x) + Steps(env, FoldWindow(env, a, x), [x][1..]);
    assert Steps(env, a, [x]) == [Folding(x)];
    OwnSweep(env, a, [x], 0);
  }

  /**
   Two windows whose first rows begin at the same local time, as in the hour that is repeated when summer
   time ends, give their products one path. Every row the command found is well kept; but the first
   product's row, whose sources are deleted, shows the second's media, or nothing at all if the second
   merge fails.
   */
  lemma RepeatedHour(env: Env, a: State, x: seq<Row>, y: seq<Row>)
    requires x != [] && y != [] && Listing(env, a, x + y) && Listed(env, a, x + y)
    requires Whole(env, a.files, x) && Whole(env, a.files, y)
    requires Makes(env, Folding(x)) && Attempted(env, y) && env.outPath(y[0]) == env.outPath(x[0])
    requires forall id :: id in a.db ==> a.db[id].path != env.outPath(x[0])
    ensures var b, product := FoldAll(env, a, [x, y]), ProductOf(env, Folding(x));
      && MediaKept(a, b) && Look(b.db, product.id) == Some(product)
      && match env.merge(y)
         case Merged(_, media, _) => Look(b.files, product.path) == Some(media)
         case _ => env.removeOk(y, product.path) ==> Look(b.files, product.path) == None
  {
    hide *;
    var steps, product := [Folding(x), Folding(y)], ProductOf(env, Folding(x));
    TwoSteps(env, a, x, y);
    ProductExact(env, a, [x, y], 0);
    ProductPath(env, Folding(x));
    NotSwept(env, a, x, y, product.path);
    SecondMedia(env, x, y);
    NothingElse(env, a, x, y);
  }

  lemma TwoSteps(env: Env, a: State, x: seq<Row>, y: seq<Row>)
    requires x != [] && y != [] && Listing(env, a, x + y)
    requires Whole(env, a.files, x) && Whole(env, a.files, y)
    ensures NonEmpty([x, y]) && Flat([x, y]) == x + y
    ensures Steps(env, a, [x, y]) == [Folding(x), Folding(y)] && [Folding(x), Folding(y)][1..] == [Folding(y)]
  {
    hide *;
    TwoWindows(env, a.files, x, y);
    WholeSteps(env, a.files, x);
    WholeSteps(env, a.files, y);
    StepsSettled(env, a, [x, y]);
  }

  lemma TwoWindows(env: Env, files: map<Path, Media>, x: seq<Row>, y: seq<Row>)
    requires x != [] && y != []
    ensures NonEmpty([x, y]) && Flat([x, y]) == x + y
    ensures StartSteps(env, files, [x, y]) == WindowSteps(env, files, x) + WindowSteps(env, files, y)
  {
    hide WindowSteps;
    assert [x, y][1..] == [y] && [y][1..] == [];
    assert Flat([y]) == y;
    assert StartSteps(env, files, [y]) == WindowSteps(env, files, y) + StartSteps(env, files, [y][1..]);
  }

  lemma ProductPath(env: Env, s: Step)
    requires Makes(env, s)
    ensures s.rows != [] && ProductOf(env, s).path == env.outPath(s.rows[0])
    ensures !Swept(env, s.rows, ProductOf(env, s).path) ==> ProductMedia(env, s) == Some(env.merge(s.rows).media)
  {
    hide Swept;
  }

  lemma SecondMedia(env: Env, x: seq<Row>, y: seq<Row>)
    requires x != [] && y != [] && Makes(env, Folding(x)) && Attempted(env, y) && env.outPath(y[0]) == env.outPath(x[0])
    requires !Swept(env, y, env.outPath(x[0]))
    ensures var left := FileAfter(env, ProductMedia(env, Folding(x)), [Folding(y)], env.outPath(x[0]));
      match env.merge(y)
      case Merged(_, media, _) => left == Some(media)
      case _ => env.removeOk(y, env.outPath(x[0])) ==> left == None
  {
    hide Swept;
    assert [Folding(y)][..0] == [];
  }

  lemma NothingElse(env: Env, a: State, x: seq<Row>, y: seq<Row>)
    requires x != [] && y != [] && Listing(env, a, x + y) && env.outPath(y[0]) == env.outPath(x[0])
    requires Whole(env, a.files, x) && Whole(env, a.files, y)
    requires forall id :: id in a.db ==> a.db[id].path != env.outPath(x[0])
    ensures NonEmpty([x, y]) && MediaKept(a, FoldAll(env, a, [x, y]))
  {
    hide *;
    TwoSteps(env, a, x, y);
    MediaKeptExact(env, a, [x, y]);
    StepsSettled(env, a, [x, y]);
    assert x[0] in x + y && y[0] in x + y;
    FirstRow(env, a, x + y, x[0]);
    FirstRow(env, a, x + y, y[0]);
    OffOutput(env, a.files, x, x[0]);
    OffOutput(env, a.files, y, y[0]);
  }

  lemma NotSwept(env: Env, a: State, x: seq<Row>, y: seq<Row>, p: Path)
    requires Listing(env, a, x + y) && forall id :: id in a.db ==> a.db[id].path != p
    ensures !Swept(env, x, p) && !Swept(env, y, p)
  {
    forall r | r in x + y ensures r.path != p {
      ListedInTable(a, x + y, r);
    }
    assert (forall r :: r in x ==> r in x + y) && forall r :: r in y ==> r in x + y;
  }

  lemma FirstRow(env: Env, a: State, rows: seq<Row>, r: Row)
    requires Listing(env, a, rows) && r in rows
    ensures r.id in a.db && a.db[r.id] == r
  {
    hide Tidy, Own, DistinctIds;
    ListedInTable(a, rows, r);
  }

  lemma OffOutput(env: Env, files: map<Path, Media>, rows: seq<Row>, r: Row)
    requires rows != [] && r in rows && r.path != env.outPath(rows[0])
    ensures !Harms(env, files, rows, r)
  {
    var i :| 0 <= i < |rows| && rows[i] == r;
    assert r.id in Ids(rows);
  }

  const EARLIER := Row(1, 0, 9, 1, "a.mp4")
  const LATER := Row(2, 3600, 3609, 1, "b.mp4")

  /** Two rows an hour apart with one output path; the first merges, and the second is refused. */
  function Repeating(): Env {
    Env(true, 1, 0, 0, _ => true, _ => Some(Info(H264, [], [], [])), _ => "subm.mp4", _ => true,
        rows => if rows == [EARLIER] then Merged(1, 3, [0]) else Refused, _ => Deleted, (_, _) => true,
        rows => if rows == [EARLIER] then Some(3) else None)
  }

  const BEFORE := State(map[1 := EARLIER, 2 := LATER], map["a.mp4" := 1, "b.mp4" := 2], [], 0, 0)

  /** Such an input: the first product's row stays without a file, and its source is gone. */
  lemma RepeatedHourHappens()
    ensures var b := FoldAll(Repeating(), BEFORE, [[EARLIER], [LATER]]);
      && MediaKept(BEFORE, b) && 3 in b.db && b.db[3].path == "subm.mp4" && "subm.mp4" !in b.files
      && 1 !in b.db
  {
    hide FoldAll, MediaKept, Steps, Listing, Listed, Whole;
    var env, x, y := Repeating(), [EARLIER], [LATER];
    RepeatingListed();
    RepeatingWhole();
    RepeatedHour(env, BEFORE, x, y);
    TwoSteps(env, BEFORE, x, y);
    OldRowsExact(env, BEFORE, [x, y], EARLIER);
    assert Takes(env, Folding(x), 1) by { assert x[0].id == 1; }
    assert Gone(env, [Folding(x), Folding(y)], 1) by { assert [Folding(x), Folding(y)][0] == Folding(x); }
  }

  lemma RepeatingListed()
    ensures Listing(Repeating(), BEFORE, [EARLIER] + [LATER]) && Listed(Repeating(), BEFORE, [EARLIER] + [LATER])
    ensures forall id :: id in BEFORE.db ==> BEFORE.db[id].path != "subm.mp4"
  {
    hide Repeating, BEFORE, NewId;
    RepeatingRows();
    RepeatingIds();
    RepeatingPaths();
  }

  lemma RepeatingRows()
    ensures BEFORE.db.Keys == {1, 2} && BEFORE.db[1] == EARLIER && BEFORE.db[2] == LATER
    ensures "a.mp4" != "b.mp4" && "a.mp4" != "subm.mp4" && "b.mp4" != "subm.mp4"
  {
    assert "a.mp4"[0] != "b.mp4"[0] && "subm.mp4"[0] == 's';
  }

  lemma RepeatingIds()
    ensures forall x :: NewId(Repeating(), BEFORE, x)
    ensures forall x, y :: Repeating().newId(x).Some? && Repeating().newId(x) == Repeating().newId(y) ==> x == y
  {
  }

  lemma RepeatingPaths()
    ensures Repeating().outPath(EARLIER) == Repeating().outPath(LATER) == "subm.mp4"
  {
  }

  lemma RepeatingWhole()
    ensures Whole(Repeating(), BEFORE.files, [EARLIER]) && Whole(Repeating(), BEFORE.files, [LATER])
  {
  }
}

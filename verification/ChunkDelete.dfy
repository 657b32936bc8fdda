/**
 Deleting many recordings: database first in bounded batches, row by row where a batch fails, then the
 files of exactly the rows that were deleted. The rows kept for file removal are compacted in place,
 over the very slice that is still being read.
 */
module ChunkDelete {
  import opened Ordering

  type Path = string

  datatype Rec = Rec(id: nat, path: Path, mergePath: Path, size: nat)

  const CHUNK := 300

  // ----- ordering by directory -----

  function DirOf(dir: Path -> Path): Rec -> string {
    (r: Rec) => dir(r.path)
  }

  /** The working copy, with the rows of one directory back to back. */
  method SortByDir(dir: Path -> Path, rows: seq<Rec>) returns (sorted: array<Rec>)
    ensures fresh(sorted) && multiset(sorted[..]) == multiset(rows) && SortedBy(DirOf(dir), sorted[..])
  {
    var s := SortBy(DirOf(dir), rows);
    sorted := new Rec[|s|](i requires 0 <= i < |s| => s[i]);
    assert sorted[..] == s;
  }

  // ----- what the outside answers -----

  /** How a delete can end: with a lost reply the row is gone although an error is reported. */
  datatype Deletion = Deleted | Kept | LostReply

  datatype Env = Env(
    stopChunk: nat -> bool,     // the run is seen cancelled before the chunk at this place
    stopRow: nat -> bool,       // the run is seen cancelled before the single row at this place
    batch: nat -> Deletion,     // the batch of the chunk at this place
    one: nat -> Deletion,       // the single delete of the row at this place
    goes: Path -> bool)         // whether removing this file works

  datatype State = State(db: set<nat>, files: set<Path>, deleted: nat, failed: nat, freed: nat, done: seq<Rec>)

  function Ids(rows: seq<Rec>): set<nat> {
    set r | r in rows :: r.id
  }

  function Sizes(rows: seq<Rec>): nat {
    if rows == [] then 0 else Sizes(rows[..|rows| - 1]) + rows[|rows| - 1].size
  }

  /** A path itself, or something below it. */
  predicate Under(p: Path, f: Path) {
    f == p || p + "/" <= f
  }

  /** The files that removing a row's media takes away. */
  predicate Covers(r: Rec, f: Path) {
    (r.path != "" && Under(r.path, f)) || (r.mergePath != "" && Under(r.mergePath, f))
  }

  lemma UnderExact(p: Path, f: Path)
    ensures Under(p, f) <==> f == p || exists x :: f == p + "/" + x
  {
    if Under(p, f) && f != p {
      assert f == p + "/" + f[|p| + 1..];
    }
    if x :| f == p + "/" + x {
      assert p + "/" <= p + "/" + x;
    }
  }

  /** A row's media are its path and its merge path, where it has them, and all that lies below these. */
  lemma CoversExact(r: Rec, f: Path)
    ensures Covers(r, f) <==>
      || (r.path != "" && (f == r.path || exists x :: f == r.path + "/" + x))
      || (r.mergePath != "" && (f == r.mergePath || exists x :: f == r.mergePath + "/" + x))
  {
    UnderExact(r.path, f);
    UnderExact(r.mergePath, f);
    hide Under;
  }

  predicate AnyCovers(rows: seq<Rec>, f: Path) {
    exists i :: 0 <= i < |rows| && Covers(rows[i], f)
  }

  // ----- one chunk -----

  /** The rows deleted one by one, from the row at a place on. */
  function RowByRow(env: Env, rows: seq<Rec>, at: nat): seq<Rec> {
    if rows == [] || env.stopRow(at) then []
    else (if env.one(at).Deleted? then [rows[0]] else []) + RowByRow(env, rows[1..], at + 1)
  }

  function RowFailures(env: Env, rows: seq<Rec>, at: nat): nat {
    if rows == [] || env.stopRow(at) then 0
    else (if env.one(at).Deleted? then 0 else 1) + RowFailures(env, rows[1..], at + 1)
  }

  /** The rows that leave the table one by one: also those whose deletion only seemed to fail. */
  function RowsGone(env: Env, rows: seq<Rec>, at: nat): set<nat> {
    if rows == [] || env.stopRow(at) then {}
    else (if env.one(at).Kept? then {} else {rows[0].id}) + RowsGone(env, rows[1..], at + 1)
  }

  /** Removes a path and everything below it, as far as that works. */
  function RemoveAll(env: Env, files: set<Path>, p: Path): set<Path> {
    set f | f in files && !(env.goes(f) && Under(p, f))
  }

  function Cleared(env: Env, files: set<Path>, rows: seq<Rec>): set<Path> {
    set f | f in files && !(env.goes(f) && AnyCovers(rows, f))
  }

  function RunChunk(env: Env, st: State, chunk: seq<Rec>, start: nat): State {
    var whole := env.batch(start).Deleted?;
    var left := if env.batch(start).Kept? then st.db else st.db - Ids(chunk);
    var ok := if whole then chunk else RowByRow(env, chunk, start);
    State(if whole then left else left - RowsGone(env, chunk, start),
          Cleared(env, st.files, ok),
          st.deleted + |ok|,
          st.failed + if whole then 0 else RowFailures(env, chunk, start),
          st.freed + Sizes(ok),
          st.done + ok)
  }

  function ChunkEnd(start: nat, total: nat): nat {
    if start + CHUNK < total then start + CHUNK else total
  }

  function RunAll(env: Env, st: State, rows: seq<Rec>, start: nat): State
    requires start <= |rows|
    decreases |rows| - start
  {
    if start == |rows| || env.stopChunk(start) then st else
    var end := ChunkEnd(start, |rows|);
    RunAll(env, RunChunk(env, st, rows[start..end], start), rows, end)
  }

  // ----- what holds of every run -----

  lemma {:induction false} SizesAppend(a: seq<Rec>, b: seq<Rec>)
    ensures Sizes(a + b) == Sizes(a) + Sizes(b)
  {
    if b == [] {
      assert a + b == a;
    } else {
      assert (a + b)[..|a + b| - 1] == a + b[..|b| - 1];
      SizesAppend(a, b[..|b| - 1]);
    }
  }

  lemma {:induction false} RowByRowCounts(env: Env, rows: seq<Rec>, at: nat)
    ensures |RowByRow(env, rows, at)| + RowFailures(env, rows, at) <= |rows|
    ensures |RowByRow(env, rows, at)| + RowFailures(env, rows, at) == |rows|
      <==> forall i :: at <= i < at + |rows| ==> !env.stopRow(i)
  {
    if rows != [] && !env.stopRow(at) {
      RowByRowCounts(env, rows[1..], at + 1);
    }
  }

  lemma {:induction false} TakenOnce(env: Env, rows: seq<Rec>, at: nat)
    ensures multiset(RowByRow(env, rows, at)) <= multiset(rows)
  {
    hide RowByRow, RowsGone;
    if rows == [] || env.stopRow(at) {
      NoneTaken(env, rows, at);
    } else {
      RowsStep(env, rows, at);
      TakenOnce(env, rows[1..], at + 1);
      assert rows == [rows[0]] + rows[1..];
    }
  }

  lemma {:induction false} TakenGone(env: Env, rows: seq<Rec>, at: nat)
    ensures Ids(RowByRow(env, rows, at)) <= RowsGone(env, rows, at) <= Ids(rows)
  {
    hide RowByRow, RowsGone;
    if rows == [] || env.stopRow(at) {
      NoneTaken(env, rows, at);
    } else {
      RowsStep(env, rows, at);
      TakenGone(env, rows[1..], at + 1);
    }
  }

  /** Rows are taken up once each, and only rows that left the table are taken up. */
  lemma {:induction false} RowByRowKeeps(env: Env, rows: seq<Rec>, at: nat)
    ensures multiset(RowByRow(env, rows, at)) <= multiset(rows)
    ensures Ids(RowByRow(env, rows, at)) <= RowsGone(env, rows, at) <= Ids(rows)
  {
    TakenOnce(env, rows, at);
    TakenGone(env, rows, at);
  }

  lemma NoneTaken(env: Env, rows: seq<Rec>, at: nat)
    requires rows == [] || env.stopRow(at)
    ensures RowByRow(env, rows, at) == [] && RowsGone(env, rows, at) == {}
  {
  }

  /** No poll of this chunk sees the run cancelled. */
  ghost predicate Undisturbed(env: Env, start: nat, total: nat) {
    && !env.stopChunk(start)
    && (!env.batch(start).Deleted? ==> forall i :: start <= i < ChunkEnd(start, total) ==> !env.stopRow(i))
  }

  /** The places where chunks start. */
  predicate ChunkStart(k: nat, start: nat, total: nat) {
    start <= k < total && (k - start) % CHUNK == 0
  }

  ghost predicate NeverStopped(env: Env, start: nat, total: nat) {
    forall k: nat :: ChunkStart(k, start, total) ==> Undisturbed(env, k, total)
  }

  lemma NeverStoppedStep(env: Env, start: nat, total: nat)
    requires start < total
    ensures NeverStopped(env, start, total)
      <==> Undisturbed(env, start, total) && NeverStopped(env, ChunkEnd(start, total), total)
  {
    hide Undisturbed;
    assert ChunkStart(start, start, total);
    var end := ChunkEnd(start, total);
    forall k: nat | ChunkStart(k, end, total) ensures ChunkStart(k, start, total) {
    }
    forall k: nat | ChunkStart(k, start, total) && k != start ensures ChunkStart(k, end, total) {
      assert k - start >= CHUNK;
    }
  }

  lemma ChunkCounts(env: Env, st: State, chunk: seq<Rec>, start: nat)
    ensures var b := RunChunk(env, st, chunk, start);
      && st.deleted + st.failed <= b.deleted + b.failed <= st.deleted + st.failed + |chunk|
      && (b.deleted + b.failed == st.deleted + st.failed + |chunk| <==>
            (!env.batch(start).Deleted? ==> forall i :: start <= i < start + |chunk| ==> !env.stopRow(i)))
  {
    RowByRowCounts(env, chunk, start);
  }

  /**
   Deleted and failed rows never exceed the candidates, and make them up exactly when no poll of
   the run, before a chunk or before a single row of a chunk done row by row, sees it cancelled.
   */
  lemma {:induction false} AllCounted(env: Env, st: State, rows: seq<Rec>, start: nat)
    requires start <= |rows|
    ensures var b := RunAll(env, st, rows, start);
      && st.deleted + st.failed <= b.deleted + b.failed <= st.deleted + st.failed + |rows| - start
      && (b.deleted + b.failed == st.deleted + st.failed + |rows| - start <==> NeverStopped(env, start, |rows|))
    decreases |rows| - start
  {
    hide RunChunk, NeverStopped;
    if start == |rows| {
      NothingToStop(env, start);
    } else {
      NeverStoppedStep(env, start, |rows|);
      if !env.stopChunk(start) {
        var end := ChunkEnd(start, |rows|);
        var chunk := rows[start..end];
        ChunkCounts(env, st, chunk, start);
        AllCounted(env, RunChunk(env, st, chunk, start), rows, end);
      }
    }
  }

  lemma NothingToStop(env: Env, total: nat)
    ensures NeverStopped(env, total, total)
  {
  }

  /** What every run keeps, relative to where it began. */
  ghost predicate Sound(env: Env, a: State, b: State) {
    && b.db <= a.db
    && |a.done| <= |b.done| && b.done[..|a.done|] == a.done
    && b.deleted - a.deleted == |b.done| - |a.done|
    && b.freed - a.freed == Sizes(b.done[|a.done|..])
    && (forall r :: r in b.done[|a.done|..] ==> r.id !in b.db)
    && b.files == Cleared(env, a.files, b.done[|a.done|..])
  }

  lemma AnyCoversAppend(a: seq<Rec>, b: seq<Rec>, f: Path)
    ensures AnyCovers(a + b, f) <==> AnyCovers(a, f) || AnyCovers(b, f)
  {
    hide Covers;
    forall i | 0 <= i < |a| ensures (a + b)[i] == a[i] {
    }
    forall i | 0 <= i < |b| ensures (a + b)[|a| + i] == b[i] {
    }
    if AnyCovers(a + b, f) {
      var i :| 0 <= i < |a + b| && Covers((a + b)[i], f);
      assert if i < |a| then (a + b)[i] == a[i] else (a + b)[i] == b[i - |a|];
    }
  }

  lemma ClearedAppend(env: Env, files: set<Path>, a: seq<Rec>, b: seq<Rec>)
    ensures Cleared(env, Cleared(env, files, a), b) == Cleared(env, files, a + b)
  {
    hide AnyCovers;
    forall f ensures AnyCovers(a + b, f) <==> AnyCovers(a, f) || AnyCovers(b, f) {
      AnyCoversAppend(a, b, f);
    }
  }

  lemma SoundTrans(env: Env, a: State, b: State, c: State)
    requires Sound(env, a, b) && Sound(env, b, c)
    ensures Sound(env, a, c)
  {
    hide Cleared, Sizes;
    var x, y := b.done[|a.done|..], c.done[|b.done|..];
    assert c.done == b.done + y && b.done == a.done + x;
    assert c.done[|a.done|..] == x + y;
    SizesAppend(x, y);
    ClearedAppend(env, a.files, x, y);
  }

  lemma SoundChunk(env: Env, st: State, chunk: seq<Rec>, start: nat)
    ensures Sound(env, st, RunChunk(env, st, chunk, start))
  {
    hide Sizes, Cleared;
    var b := RunChunk(env, st, chunk, start);
    var ok := if env.batch(start).Deleted? then chunk else RowByRow(env, chunk, start);
    RowByRowKeeps(env, chunk, start);
    assert b.done[|st.done|..] == ok;
    forall r | r in ok ensures r.id !in b.db {
      assert r.id in Ids(ok);
    }
  }

  lemma SoundNothing(env: Env, st: State)
    ensures Sound(env, st, st)
  {
    assert st.done[|st.done|..] == [];
    assert Cleared(env, st.files, []) == st.files;
  }

  /**
   However batches, single deletes, cancellation and file removal go: each row counted as deleted is
   gone from the table, the freed bytes are the sizes of those rows, and a file is gone exactly when
   its removal works and it is the media of one of them.
   */
  lemma {:induction false} RunSound(env: Env, st: State, rows: seq<Rec>, start: nat)
    requires start <= |rows|
    ensures Sound(env, st, RunAll(env, st, rows, start))
    decreases |rows| - start
  {
    hide Sound, RunChunk;
    if start == |rows| || env.stopChunk(start) {
      SoundNothing(env, st);
    } else {
      var end := ChunkEnd(start, |rows|);
      var st1 := RunChunk(env, st, rows[start..end], start);
      SoundChunk(env, st, rows[start..end], start);
      RunSound(env, st1, rows, end);
      SoundTrans(env, st, st1, RunAll(env, st1, rows, end));
    }
  }

  /** No row is left dangling: a row still in the table keeps its media, unless another candidate's media covers it. */
  lemma NoDanglingRow(env: Env, st: State, rows: seq<Rec>, r: Rec, f: Path)
    requires st.done == []
    requires f in st.files && forall other :: other in rows && other.id != r.id ==> !Covers(other, f)
    ensures var b := RunAll(env, st, rows, 0); r.id in b.db ==> f in b.files
  {
    var b := RunAll(env, st, rows, 0);
    RunSound(env, st, rows, 0);
    DoneAreCandidates(env, st, rows, 0);
    assert b.done[0..] == b.done && rows[0..] == rows;
    if r.id in b.db {
      forall i | 0 <= i < |b.done| ensures !Covers(b.done[i], f) {
        assert b.done[i] in b.done && b.done[i] in multiset(b.done);
        assert b.done[i] in multiset(rows);
      }
    }
  }

  /** The rows done are candidates, none more often than it was listed. */
  lemma {:induction false} DoneAreCandidates(env: Env, st: State, rows: seq<Rec>, start: nat)
    requires start <= |rows|
    ensures multiset(RunAll(env, st, rows, start).done) <= multiset(st.done) + multiset(rows[start..])
    decreases |rows| - start
  {
    hide Cleared, Sizes;
    if start < |rows| && !env.stopChunk(start) {
      var end := ChunkEnd(start, |rows|);
      var chunk := rows[start..end];
      assert rows[start..] == chunk + rows[end..];
      RowByRowKeeps(env, chunk, start);
      DoneAreCandidates(env, RunChunk(env, st, chunk, start), rows, end);
    }
  }

  // ----- which rows, exactly -----

  /** The chunk of the row at this place is taken up: no poll before it or an earlier chunk sees the run cancelled. */
  predicate Reached(env: Env, i: nat) {
    forall c: nat :: c <= i && c % 300 == 0 ==> !env.stopChunk(c)
  }

  /** The chunk's batch failed and no poll up to this row sees the run cancelled. */
  predicate Tried(env: Env, i: nat) {
    && Reached(env, i) && !env.batch(i - i % 300).Deleted?
    && forall k: nat :: i - i % 300 <= k <= i ==> !env.stopRow(k)
  }

  /** The row's deletion is reported a success: by its chunk's batch or, where that failed, by its own. */
  predicate Succeeds(env: Env, i: nat) {
    (Reached(env, i) && env.batch(i - i % 300).Deleted?) || (Tried(env, i) && env.one(i).Deleted?)
  }

  predicate Fails(env: Env, i: nat) {
    Tried(env, i) && !env.one(i).Deleted?
  }

  /** The row leaves the table, whatever is reported. */
  predicate Leaves(env: Env, i: nat) {
    (Reached(env, i) && !env.batch(i - i % 300).Kept?) || (Tried(env, i) && !env.one(i).Kept?)
  }

  /** The rows at the places of which p holds, in order; the first row is at place `at`. */
  function Picked(p: nat -> bool, rows: seq<Rec>, at: nat): seq<Rec> {
    if rows == [] then [] else (if p(at) then [rows[0]] else []) + Picked(p, rows[1..], at + 1)
  }

  function Succeeding(env: Env): nat -> bool {
    (i: nat) => Succeeds(env, i)
  }

  function Failing(env: Env): nat -> bool {
    (i: nat) => Fails(env, i)
  }

  function Leaving(env: Env): nat -> bool {
    (i: nat) => Leaves(env, i)
  }

  lemma PickedStep(p: nat -> bool, rows: seq<Rec>, at: nat)
    requires rows != []
    ensures Picked(p, rows, at) == (if p(at) then [rows[0]] else []) + Picked(p, rows[1..], at + 1)
  {
  }

  function Singly(env: Env): nat -> bool {
    (i: nat) => env.one(i).Deleted?
  }

  lemma {:induction false} PickedAppend(p: nat -> bool, a: seq<Rec>, b: seq<Rec>, at: nat)
    ensures Picked(p, a + b, at) == Picked(p, a, at) + Picked(p, b, at + |a|)
  {
    if a == [] {
      assert a + b == b;
    } else {
      assert (a + b)[1..] == a[1..] + b;
      hide Picked;
      PickedStep(p, a, at);
      PickedStep(p, a + b, at);
      PickedAppend(p, a[1..], b, at + 1);
    }
  }

  lemma {:induction false} PickedNone(p: nat -> bool, rows: seq<Rec>, at: nat)
    requires forall i :: at <= i < at + |rows| ==> !p(i)
    ensures Picked(p, rows, at) == []
  {
    if rows != [] {
      PickedNone(p, rows[1..], at + 1);
    }
  }

  lemma {:induction false} PickedAll(p: nat -> bool, rows: seq<Rec>, at: nat)
    requires forall i :: at <= i < at + |rows| ==> p(i)
    ensures Picked(p, rows, at) == rows
  {
    if rows != [] {
      PickedAll(p, rows[1..], at + 1);
    }
  }

  lemma PickedFront(p: nat -> bool, a: seq<Rec>, b: seq<Rec>)
    requires forall i :: |a| <= i < |a| + |b| ==> !p(i)
    ensures Picked(p, a + b, 0) == Picked(p, a, 0)
  {
    PickedAppend(p, a, b, 0);
    PickedNone(p, b, |a|);
  }

  /** A row at a place of which p holds is picked, and each row picked stands at such a place. */
  lemma {:induction false} PickedHas(p: nat -> bool, rows: seq<Rec>, at: nat, i: nat)
    requires i < |rows| && p(at + i)
    ensures rows[i] in Picked(p, rows, at)
  {
    if i > 0 {
      PickedHas(p, rows[1..], at + 1, i - 1);
    }
  }

  lemma {:induction false} PickedWhere(p: nat -> bool, rows: seq<Rec>, at: nat, r: Rec) returns (i: nat)
    requires r in Picked(p, rows, at)
    ensures i < |rows| && rows[i] == r && p(at + i)
  {
    if p(at) && rows[0] == r {
      i := 0;
    } else {
      i := PickedWhere(p, rows[1..], at + 1, r);
      i := i + 1;
    }
  }

  lemma IdsAppend(a: seq<Rec>, b: seq<Rec>)
    ensures Ids(a + b) == Ids(a) + Ids(b)
  {
  }

  /** Where in its chunk a row stands makes no difference to its chunk. */
  lemma SameChunk(env: Env, c: nat, i: nat)
    requires c % 300 == 0 && c <= i < c + 300
    ensures i - i % 300 == c && (Reached(env, i) <==> Reached(env, c))
  {
  }

  /** A row of a chunk whose batch failed, no row before it being stopped. */
  lemma RowTried(env: Env, i: nat, c: nat)
    requires c % 300 == 0 && c <= i < c + 300
    requires Reached(env, c) && !env.batch(c).Deleted? && forall k :: c <= k < i ==> !env.stopRow(k)
    ensures Succeeds(env, i) <==> !env.stopRow(i) && env.one(i).Deleted?
    ensures Fails(env, i) <==> !env.stopRow(i) && !env.one(i).Deleted?
    ensures env.batch(c).Kept? ==> (Leaves(env, i) <==> !env.stopRow(i) && !env.one(i).Kept?)
  {
    SameChunk(env, c, i);
    hide Reached;
  }

  /** The rows after one that is stopped. */
  lemma RowsStopped(env: Env, at: nat, c: nat, i: nat)
    requires c % 300 == 0 && c <= at <= i < c + 300 && env.stopRow(at) && !env.batch(c).Deleted?
    ensures !Succeeds(env, i) && !Fails(env, i) && (env.batch(c).Kept? ==> !Leaves(env, i))
  {
    SameChunk(env, c, i);
    hide Reached;
  }

  /** A chunk whose batch failed, from some row on that is not stopped before. */
  lemma {:induction false} RowsExact(env: Env, rows: seq<Rec>, at: nat, c: nat)
    requires c % 300 == 0 && c <= at && at + |rows| <= c + 300
    requires Reached(env, c) && !env.batch(c).Deleted? && forall k :: c <= k < at ==> !env.stopRow(k)
    ensures RowByRow(env, rows, at) == Picked(Succeeding(env), rows, at)
    ensures RowFailures(env, rows, at) == |Picked(Failing(env), rows, at)|
    ensures env.batch(c).Kept? ==> RowsGone(env, rows, at) == Ids(Picked(Leaving(env), rows, at))
    decreases |rows|
  {
    hide Reached, Succeeds, Fails, Leaves;
    if rows == [] {
    } else if env.stopRow(at) {
      forall i | at <= i < at + |rows| ensures !Succeeds(env, i) && !Fails(env, i) {
        RowsStopped(env, at, c, i);
      }
      PickedNone(Succeeding(env), rows, at);
      PickedNone(Failing(env), rows, at);
      if env.batch(c).Kept? {
        forall i | at <= i < at + |rows| ensures !Leaves(env, i) {
          RowsStopped(env, at, c, i);
        }
        PickedNone(Leaving(env), rows, at);
      }
    } else {
      RowTried(env, at, c);
      RowsExact(env, rows[1..], at + 1, c);
      hide RowByRow, RowFailures, RowsGone, Picked, Ids;
      RowsStep(env, rows, at);
      PickedStep(Succeeding(env), rows, at);
      PickedStep(Failing(env), rows, at);
      PickedStep(Leaving(env), rows, at);
      IdsAppend(if Leaves(env, at) then [rows[0]] else [], Picked(Leaving(env), rows[1..], at + 1));
      OneId(rows[0]);
    }
  }

  lemma OneId(r: Rec)
    ensures Ids([r]) == {r.id} && Ids([]) == {}
  {
  }

  /** The run's state when exactly the rows given are to be taken up, those of them that are. */
  function Reckoned(env: Env, st: State, rows: seq<Rec>): State {
    var ok := Picked(Succeeding(env), rows, 0);
    State(st.db - Ids(Picked(Leaving(env), rows, 0)), Cleared(env, st.files, ok), st.deleted + |ok|,
          st.failed + |Picked(Failing(env), rows, 0)|, st.freed + Sizes(ok), st.done + ok)
  }

  /** A chunk that is reached: what its batch, or its rows one by one, take up, count as failed and delete. */
  lemma ChunkPicks(env: Env, chunk: seq<Rec>, c: nat)
    requires c % 300 == 0 && |chunk| <= 300 && Reached(env, c)
    ensures var whole := env.batch(c).Deleted?;
      && Picked(Succeeding(env), chunk, c) == (if whole then chunk else RowByRow(env, chunk, c))
      && |Picked(Failing(env), chunk, c)| == (if whole then 0 else RowFailures(env, chunk, c))
  {
    hide RowByRow, RowFailures;
    if env.batch(c).Deleted? {
      forall i | c <= i < c + |chunk| ensures i - i % 300 == c && Reached(env, i) {
        SameChunk(env, c, i);
      }
      hide Reached;
      PickedAll(Succeeding(env), chunk, c);
      PickedNone(Failing(env), chunk, c);
    } else {
      RowsExact(env, chunk, c, c);
    }
  }

  lemma ChunkLeaves(env: Env, chunk: seq<Rec>, c: nat)
    requires c % 300 == 0 && |chunk| <= 300 && Reached(env, c)
    ensures Ids(Picked(Leaving(env), chunk, c))
            == if env.batch(c).Kept? then RowsGone(env, chunk, c) else Ids(chunk)
  {
    hide RowByRow, RowFailures, RowsGone;
    if env.batch(c).Kept? {
      RowsExact(env, chunk, c, c);
    } else {
      forall i | c <= i < c + |chunk| ensures i - i % 300 == c && Reached(env, i) {
        SameChunk(env, c, i);
      }
      hide Reached;
      PickedAll(Leaving(env), chunk, c);
    }
  }

  lemma ChunkExact(env: Env, st: State, chunk: seq<Rec>, c: nat)
    requires c % 300 == 0 && |chunk| <= 300 && Reached(env, c)
    ensures var ok := Picked(Succeeding(env), chunk, c);
      RunChunk(env, st, chunk, c)
        == State(st.db - Ids(Picked(Leaving(env), chunk, c)), Cleared(env, st.files, ok), st.deleted + |ok|,
                 st.failed + |Picked(Failing(env), chunk, c)|, st.freed + Sizes(ok), st.done + ok)
  {
    ChunkPicks(env, chunk, c);
    ChunkLeaves(env, chunk, c);
    GoneOnce(env, st.db, chunk, c);
    hide Cleared, Sizes, RowByRow, RowFailures, RowsGone, Picked, Ids, Reached, Succeeding, Failing, Leaving;
  }

  lemma GoneOnce(env: Env, db: set<nat>, chunk: seq<Rec>, c: nat)
    ensures db - Ids(chunk) - RowsGone(env, chunk, c) == db - Ids(chunk)
  {
    TakenGone(env, chunk, c);
    hide Ids, RowsGone, RowByRow;
  }

  lemma ReckonedStep(env: Env, st: State, rows: seq<Rec>, start: nat, end: nat)
    requires start % 300 == 0 && start <= end <= |rows| && end - start <= 300 && Reached(env, start)
    ensures RunChunk(env, Reckoned(env, st, rows[..start]), rows[start..end], start)
            == Reckoned(env, st, rows[..end])
  {
    hide Cleared, Sizes, RunChunk, Ids, Picked, Reached;
    var a, b := rows[..start], rows[start..end];
    assert rows[..end] == a + b;
    ChunkExact(env, Reckoned(env, st, a), b, start);
    PickedAppend(Succeeding(env), a, b, 0);
    PickedAppend(Failing(env), a, b, 0);
    PickedAppend(Leaving(env), a, b, 0);
    IdsAppend(Picked(Leaving(env), a, 0), Picked(Leaving(env), b, start));
    SizesAppend(Picked(Succeeding(env), a, 0), Picked(Succeeding(env), b, start));
    ClearedAppend(env, st.files, Picked(Succeeding(env), a, 0), Picked(Succeeding(env), b, start));
  }

  lemma ReckonedStop(env: Env, st: State, rows: seq<Rec>, start: nat)
    requires start <= |rows| && start % 300 == 0 && env.stopChunk(start)
    ensures Reckoned(env, st, rows[..start]) == Reckoned(env, st, rows)
  {
    hide Cleared, Sizes, Ids;
    var a, b := rows[..start], rows[start..];
    assert rows == a + b;
    assert forall i: nat :: i >= start ==> !Reached(env, i);
    hide Reached, Picked;
    PickedFront(Succeeding(env), a, b);
    PickedFront(Failing(env), a, b);
    PickedFront(Leaving(env), a, b);
  }

  lemma {:induction false} RunReckoned(env: Env, st: State, rows: seq<Rec>, start: nat)
    requires start <= |rows| && (start == |rows| || start % 300 == 0)
    requires forall c: nat :: c < start && c % 300 == 0 ==> !env.stopChunk(c)
    ensures RunAll(env, Reckoned(env, st, rows[..start]), rows, start) == Reckoned(env, st, rows)
    decreases |rows| - start
  {
    hide Reckoned, RunChunk;
    if start == |rows| {
      assert rows[..start] == rows;
    } else if env.stopChunk(start) {
      ReckonedStop(env, st, rows, start);
    } else {
      var end := ChunkEnd(start, |rows|);
      ReckonedStep(env, st, rows, start, end);
      RunReckoned(env, st, rows, end);
    }
  }

  lemma RunCounts(env: Env, st: State, rows: seq<Rec>)
    ensures var b, ok := RunAll(env, st, rows, 0), Picked(Succeeding(env), rows, 0);
      && b.done == st.done + ok && b.deleted == st.deleted + |ok| && b.freed == st.freed + Sizes(ok)
      && b.failed == st.failed + |Picked(Failing(env), rows, 0)|
      && b.db == st.db - Ids(Picked(Leaving(env), rows, 0)) && b.files == Cleared(env, st.files, ok)
  {
    hide Picked, Cleared, Ids, Sizes, RunAll;
    StartsReckoned(env, st, rows);
    RunReckoned(env, st, rows, 0);
  }

  /**
   Which rows a run takes up, exactly: those whose deletion is reported a success by their chunk's batch of
   300 or, where that failed, by their own delete, all before the run is seen cancelled. They are counted,
   their sizes freed and their media removed where that works; the others tried are the failed ones, and
   whatever was deleted, even without a reply, is gone from the table.
   */
  lemma {:induction false} RunExact(env: Env, st: State, rows: seq<Rec>)
    ensures var b, ok := RunAll(env, st, rows, 0), Picked(Succeeding(env), rows, 0);
      && b.done == st.done + ok && b.deleted == st.deleted + |ok| && b.freed == st.freed + Sizes(ok)
      && b.failed == st.failed + |Picked(Failing(env), rows, 0)|
      && (forall id :: id in b.db <==>
            id in st.db && !exists i :: 0 <= i < |rows| && rows[i].id == id && Leaves(env, i))
      && (forall f :: f in b.files <==>
            f in st.files && !(env.goes(f) && exists i :: 0 <= i < |rows| && Covers(rows[i], f) && Succeeds(env, i)))
  {
    hide Covers, Reached, Succeeds, Leaves, Fails, RunAll, Picked;
    RunCounts(env, st, rows);
    forall id ensures id in Ids(Picked(Leaving(env), rows, 0))
      <==> exists i :: 0 <= i < |rows| && rows[i].id == id && Leaves(env, i)
    {
      IdPicked(Leaving(env), rows, id);
    }
    forall f ensures AnyCovers(Picked(Succeeding(env), rows, 0), f)
      <==> exists i :: 0 <= i < |rows| && Covers(rows[i], f) && Succeeds(env, i)
    {
      CoverPicked(Succeeding(env), rows, f);
    }
  }

  lemma StartsReckoned(env: Env, st: State, rows: seq<Rec>)
    ensures Reckoned(env, st, rows[..0]) == st
  {
    assert rows[..0] == [] && Ids([]) == {};
    NothingCovers(env, st.files);
  }

  lemma IdPicked(p: nat -> bool, rows: seq<Rec>, id: nat)
    ensures id in Ids(Picked(p, rows, 0)) <==> exists i :: 0 <= i < |rows| && rows[i].id == id && p(i)
  {
    hide Picked;
    if i :| 0 <= i < |rows| && rows[i].id == id && p(i) {
      PickedHas(p, rows, 0, i);
    }
    if r :| r in Picked(p, rows, 0) && r.id == id {
      var i := PickedWhere(p, rows, 0, r);
    }
  }

  lemma CoverPicked(p: nat -> bool, rows: seq<Rec>, f: Path)
    ensures AnyCovers(Picked(p, rows, 0), f) <==> exists i :: 0 <= i < |rows| && Covers(rows[i], f) && p(i)
  {
    hide Picked, Covers;
    var picked := Picked(p, rows, 0);
    if i :| 0 <= i < |rows| && Covers(rows[i], f) && p(i) {
      PickedHas(p, rows, 0, i);
      var j :| 0 <= j < |picked| && picked[j] == rows[i];
    }
    if j :| 0 <= j < |picked| && Covers(picked[j], f) {
      var i := PickedWhere(p, rows, 0, picked[j]);
    }
  }

  /**
   Where every batch works and the run is never seen cancelled, every row is deleted and none failed, all
   sizes are freed, and the media of every row that can be removed, and all that is below them, is gone.
   */
  lemma {:induction false} AllDeleted(env: Env, st: State, rows: seq<Rec>)
    requires forall c: nat :: c < |rows| && c % 300 == 0 ==> !env.stopChunk(c) && env.batch(c).Deleted?
    ensures var b := RunAll(env, st, rows, 0);
      && b.done == st.done + rows && b.deleted == st.deleted + |rows| && b.failed == st.failed
      && b.freed == st.freed + Sizes(rows)
      && (forall r :: r in rows ==> r.id !in b.db)
      && (forall r, f :: r in rows && f in {r.path, r.mergePath} && f != "" && env.goes(f) ==> f !in b.files)
      && (forall r, p, x :: r in rows && p in {r.path, r.mergePath} && p != "" && env.goes(p + "/" + x) ==>
            p + "/" + x !in b.files)
  {
    forall i: nat | i < |rows| ensures Reached(env, i) && env.batch(i - i % 300).Deleted? {
      assert (i - i % 300) % 300 == 0;
    }
    hide Reached;
    PickedAll(Succeeding(env), rows, 0);
    PickedNone(Failing(env), rows, 0);
    RunExact(env, st, rows);
    hide RunAll, Picked;
    var b := RunAll(env, st, rows, 0);
    forall r | r in rows ensures r.id !in b.db && forall f :: Covers(r, f) && env.goes(f) ==> f !in b.files {
      var i :| 0 <= i < |rows| && rows[i] == r;
      assert Leaves(env, i) && Succeeds(env, i);
    }
    forall r, p, x | r in rows && p in {r.path, r.mergePath} && p != ""
      ensures Covers(r, p + "/" + x)
    {
      assert p + "/" <= p + "/" + x;
    }
  }

  /**
   Where every batch fails and the run is never seen cancelled, the rows are deleted one by one: those whose
   own delete is reported a success are taken up, in order, and every other one is counted as failed.
   */
  lemma {:induction false} AllByRow(env: Env, st: State, rows: seq<Rec>)
    requires forall c: nat :: c < |rows| && c % 300 == 0 ==> !env.stopChunk(c) && !env.batch(c).Deleted?
    requires forall i: nat :: i < |rows| ==> !env.stopRow(i)
    ensures var b, ok := RunAll(env, st, rows, 0), Picked(Singly(env), rows, 0);
      && b.done == st.done + ok && b.deleted == st.deleted + |ok| && b.failed == st.failed + |rows| - |ok|
      && forall i :: 0 <= i < |rows| ==> (env.one(i).Deleted? ==> rows[i] in b.done)
  {
    hide RunAll, Succeeds, Fails, Leaves, Leaving, Succeeding, Failing, Singly, Picked, Sizes, Ids, Cleared;
    RunCounts(env, st, rows);
    ByRowPicks(env, rows);
    var ok := Picked(Singly(env), rows, 0);
    forall i | 0 <= i < |rows| && env.one(i).Deleted? ensures rows[i] in st.done + ok {
      SinglyHas(env, rows, i);
    }
  }

  lemma ByRowPicks(env: Env, rows: seq<Rec>)
    requires forall c: nat :: c < |rows| && c % 300 == 0 ==> !env.stopChunk(c) && !env.batch(c).Deleted?
    requires forall i: nat :: i < |rows| ==> !env.stopRow(i)
    ensures Picked(Succeeding(env), rows, 0) == Picked(Singly(env), rows, 0)
    ensures |Picked(Failing(env), rows, 0)| + |Picked(Singly(env), rows, 0)| == |rows|
  {
    hide Picked;
    forall i: nat | i < |rows|
      ensures (Succeeding(env)(i) <==> Singly(env)(i)) && (Failing(env)(i) <==> !Singly(env)(i))
    {
      OwnDelete(env, i);
    }
    PickedSame(Succeeding(env), Singly(env), rows, 0);
    PickedOthers(Failing(env), Singly(env), rows, 0);
  }

  lemma SinglyHas(env: Env, rows: seq<Rec>, i: nat)
    requires i < |rows| && env.one(i).Deleted?
    ensures rows[i] in Picked(Singly(env), rows, 0)
  {
    PickedHas(Singly(env), rows, 0, i);
  }

  lemma OwnDelete(env: Env, i: nat)
    requires forall c: nat :: c <= i && c % 300 == 0 ==> !env.stopChunk(c) && !env.batch(c).Deleted?
    requires forall k: nat :: k <= i ==> !env.stopRow(k)
    ensures (Succeeds(env, i) <==> env.one(i).Deleted?) && (Fails(env, i) <==> !env.one(i).Deleted?)
  {
    assert (i - i % 300) % 300 == 0;
  }

  lemma {:induction false} PickedSame(p: nat -> bool, q: nat -> bool, rows: seq<Rec>, at: nat)
    requires forall i: nat :: at <= i < at + |rows| ==> (p(i) <==> q(i))
    ensures Picked(p, rows, at) == Picked(q, rows, at)
  {
    if rows != [] {
      PickedSame(p, q, rows[1..], at + 1);
    }
  }

  lemma {:induction false} PickedOthers(p: nat -> bool, q: nat -> bool, rows: seq<Rec>, at: nat)
    requires forall i: nat :: at <= i < at + |rows| ==> (p(i) <==> !q(i))
    ensures |Picked(p, rows, at)| + |Picked(q, rows, at)| == |rows|
  {
    if rows != [] {
      PickedOthers(p, q, rows[1..], at + 1);
    }
  }

  /** Rows from a chunk on before which the run is seen cancelled make no difference. */
  lemma {:induction false} CancelledBefore(env: Env, st: State, rows: seq<Rec>, start: nat)
    requires start <= |rows| && start % 300 == 0 && env.stopChunk(start)
    ensures RunAll(env, st, rows, 0) == RunAll(env, st, rows[..start], 0)
  {
    ReckonedStop(env, st, rows, start);
    ReckonedSame(env, st, rows, rows[..start]);
  }

  /** In a last chunk that is done row by row, rows make no difference from one on before which the run is cancelled. */
  lemma {:induction false} CancelledInChunk(env: Env, st: State, rows: seq<Rec>, i: nat)
    requires i < |rows| <= i - i % 300 + 300 && env.stopRow(i) && env.batch(i - i % 300).Kept?
    ensures RunAll(env, st, rows, 0) == RunAll(env, st, rows[..i], 0)
  {
    var c := i - i % 300;
    assert rows == rows[..i] + rows[i..];
    forall j: nat | i <= j < |rows| ensures !Succeeds(env, j) && !Fails(env, j) && !Leaves(env, j) {
      assert c % 300 == 0;
      SameChunk(env, c, j);
      assert !Tried(env, j);
    }
    hide Succeeds, Fails, Leaves, Picked;
    PickedFront(Succeeding(env), rows[..i], rows[i..]);
    PickedFront(Failing(env), rows[..i], rows[i..]);
    PickedFront(Leaving(env), rows[..i], rows[i..]);
    ReckonedSame(env, st, rows, rows[..i]);
  }

  lemma ReckonedSame(env: Env, st: State, rows: seq<Rec>, front: seq<Rec>)
    requires Reckoned(env, st, rows) == Reckoned(env, st, front)
    ensures RunAll(env, st, rows, 0) == RunAll(env, st, front, 0)
  {
    hide RunAll, Reckoned;
    StartsReckoned(env, st, rows);
    StartsReckoned(env, st, front);
    RunReckoned(env, st, rows, 0);
    RunReckoned(env, st, front, 0);
  }

  // ----- the program -----

  lemma {:induction false} RowByRowSnoc(env: Env, rows: seq<Rec>, at: nat, n: nat)
    requires n < |rows| && forall i :: at <= i <= at + n ==> !env.stopRow(i)
    ensures RowByRow(env, rows[..n + 1], at)
            == RowByRow(env, rows[..n], at) + (if env.one(at + n).Deleted? then [rows[n]] else [])
    ensures RowFailures(env, rows[..n + 1], at)
            == RowFailures(env, rows[..n], at) + (if env.one(at + n).Deleted? then 0 else 1)
    ensures RowsGone(env, rows[..n + 1], at)
            == RowsGone(env, rows[..n], at) + (if env.one(at + n).Kept? then {} else {rows[n].id})
    decreases n
  {
    hide RowByRow, RowFailures, RowsGone;
    RowsStep(env, rows[..n + 1], at);
    if n > 0 {
      assert rows[..n + 1][1..] == rows[1..][..n] && rows[..n][1..] == rows[1..][..n - 1];
      RowsStep(env, rows[..n], at);
      RowByRowSnoc(env, rows[1..], at + 1, n - 1);
    } else {
      assert rows[..1][1..] == [] && rows[..0] == [];
      NoRows(env, at);
      NoRows(env, at + 1);
    }
  }

  lemma RowsStep(env: Env, rows: seq<Rec>, at: nat)
    requires rows != [] && !env.stopRow(at)
    ensures RowByRow(env, rows, at) == (if env.one(at).Deleted? then [rows[0]] else [])
        + RowByRow(env, rows[1..], at + 1)
    ensures RowFailures(env, rows, at) == (if env.one(at).Deleted? then 0 else 1) + RowFailures(env, rows[1..], at + 1)
    ensures RowsGone(env, rows, at) == (if env.one(at).Kept? then {} else {rows[0].id})
        + RowsGone(env, rows[1..], at + 1)
  {
  }

  /** Rows past the one where the run is seen cancelled make no difference. */
  lemma {:induction false} RowByRowStopped(env: Env, rows: seq<Rec>, at: nat, n: nat)
    requires n < |rows| && env.stopRow(at + n)
    ensures RowByRow(env, rows, at) == RowByRow(env, rows[..n], at)
    ensures RowFailures(env, rows, at) == RowFailures(env, rows[..n], at)
    ensures RowsGone(env, rows, at) == RowsGone(env, rows[..n], at)
    decreases n
  {
    if n > 0 && !env.stopRow(at) {
      assert rows[..n][1..] == rows[1..][..n - 1];
      RowByRowStopped(env, rows[1..], at + 1, n - 1);
    }
  }

  lemma NoRows(env: Env, at: nat)
    ensures RowByRow(env, [], at) == [] && RowFailures(env, [], at) == 0 && RowsGone(env, [], at) == {}
  {
  }

  /** Compacting one row: what is kept grows by it, and what is still to be read stays. */
  lemma KeepsOrder(s: seq<Rec>, was: seq<Rec>, start: nat, ok: nat, i: nat)
    requires start <= ok <= i < |s| == |was| && s[i..] == was[i..]
    ensures s[i + 1..] == was[i + 1..]
    ensures var t := s[ok := s[i]]; t[start..ok + 1] == s[start..ok] + [s[i]] && t[i + 1..] == was[i + 1..]
  {
    assert s[i + 1..] == s[i..][1..] && was[i + 1..] == was[i..][1..];
    var t := s[ok := s[i]];
    assert t[i + 1..] == s[i + 1..];
  }

  class Deleter {
    var db: set<nat>
    var files: set<Path>

    constructor (db: set<nat>, files: set<Path>)
      ensures this.db == db && this.files == files
    {
      this.db, this.files := db, files;
    }

    /** Moves a row to the front of those kept; it never lands on a row still to be read. */
    method Keep(a: array<Rec>, ok: nat, i: nat)
      requires ok <= i < a.Length
      modifies a
      ensures a[..] == old(a[..])[ok := old(a[i])]
    {
      a[ok] := a[i];
    }

    /** The fallback of one chunk; the rows deleted end up at the front of the chunk itself. */
    method DeleteRowByRow(env: Env, a: array<Rec>, start: nat, end: nat) returns (ok: nat, failed: nat)
      requires start <= end <= a.Length
      modifies this`db, a
      ensures start <= ok <= end
      ensures a[start..ok] == RowByRow(env, old(a[start..end]), start) && a[end..] == old(a[end..])
      ensures failed == RowFailures(env, old(a[start..end]), start)
      ensures db == old(db) - RowsGone(env, old(a[start..end]), start)
    {
      hide RowByRow, RowFailures, RowsGone;
      ghost var chunk := a[start..end];
      NoRows(env, start);
      ok, failed := start, 0;
      var i := start;
      while i < end
        invariant start <= ok <= i <= end
        invariant forall k :: start <= k < i ==> !env.stopRow(k)
        invariant a[start..ok] == RowByRow(env, chunk[..i - start], start)
        invariant failed == RowFailures(env, chunk[..i - start], start)
        invariant db == old(db) - RowsGone(env, chunk[..i - start], start)
        invariant a[i..] == old(a[i..])
      {
        if env.stopRow(i) {
          RowByRowStopped(env, chunk, start, i - start);
          assert a[end..] == a[i..][end - i..];
          return;
        }
        assert a[i] == a[i..][0] == chunk[i - start];
        RowByRowSnoc(env, chunk, start, i - start);
        var r := a[i];
        var answer := env.one(i);
        if answer != Kept {
          db := db - {r.id};
        }
        KeepsOrder(a[..], old(a[..]), start, ok, i);
        if answer != Deleted {
          failed := failed + 1;
        } else {
          Keep(a, ok, i);
          ok := ok + 1;
        }
        i := i + 1;
      }
      assert chunk[..end - start] == chunk;
    }

    /** Removes the media of the rows in a stretch of the array, and counts them. */
    method Reclaim(env: Env, a: array<Rec>, lo: nat, hi: nat) returns (deleted: nat, freed: nat)
      requires lo <= hi <= a.Length
      modifies this`files
      ensures deleted == hi - lo && freed == Sizes(a[lo..hi])
      ensures files == Cleared(env, old(files), a[lo..hi])
    {
      hide AnyCovers, Cleared, RemoveAll, Sizes;
      deleted, freed := 0, 0;
      NothingCovers(env, files);
      assert a[lo..lo] == [];
      for i := lo to hi
        invariant deleted == i - lo && freed == Sizes(a[lo..i])
        invariant files == Cleared(env, old(files), a[lo..i])
      {
        var r := a[i];
        assert a[lo..i + 1] == a[lo..i] + [r];
        SizesAppend(a[lo..i], [r]);
        OneSize(r);
        freed := freed + r.size;
        deleted := deleted + 1;
        OneCleared(env, files, r);
        if r.path != "" {
          files := RemoveAll(env, files, r.path);
        }
        if r.mergePath != "" && r.mergePath != r.path {
          files := RemoveAll(env, files, r.mergePath);
        }
        ClearedAppend(env, old(files), a[lo..i], [r]);
      }
    }

    /** One chunk of the sorted rows. */
    method DeleteChunk(env: Env, sorted: array<Rec>, start: nat, end: nat, ghost st: State)
        returns (ok: nat, failed: nat, freed: nat)
      requires start <= end <= sorted.Length
      requires st.db == db && st.files == files
      modifies this, sorted
      ensures start <= ok <= end && sorted[end..] == old(sorted[end..])
      ensures State(db, files, st.deleted + (ok - start), st.failed + failed, st.freed + freed,
          st.done + sorted[start..ok])
              == RunChunk(env, st, old(sorted[start..end]), start)
    {
      hide RowByRow, RowFailures, RowsGone, Cleared, Sizes;
      ghost var chunk := sorted[start..end];
      var answer := env.batch(start);
      if answer != Kept {
        db := db - set k | start <= k < end :: sorted[k].id;
        IdsOfSlice(sorted, start, end);
      }
      ok, failed := end, 0;
      if answer != Deleted {
        ok, failed := DeleteRowByRow(env, sorted, start, end);
      }
      var count;
      count, freed := Reclaim(env, sorted, start, ok);
    }

    /** Some ordering of the candidates by directory is deleted chunk by chunk. */
    method DeleteCandidatesInChunks(env: Env, dir: Path -> Path, candidates: seq<Rec>)
        returns (deleted: nat, failed: nat, freedBytes: nat, ghost order: seq<Rec>, ghost done: seq<Rec>)
      modifies this
      ensures multiset(order) == multiset(candidates) && SortedBy(DirOf(dir), order)
      ensures State(db, files, deleted, failed, freedBytes, done)
              == RunAll(env, State(old(db), old(files), 0, 0, 0, []), order, 0)
    {
      hide RunChunk, SortedBy, RunAll, ChunkEnd;
      var total := |candidates|;
      var sorted := SortByDir(dir, candidates);
      order, done := sorted[..], [];
      SameSize(order, candidates);
      ghost var begin := State(db, files, 0, 0, 0, []);
      deleted, failed, freedBytes := 0, 0, 0;
      var start := 0;
      while start < total
        invariant start <= total == sorted.Length == |order|
        invariant sorted[start..] == order[start..]
        invariant RunAll(env, State(db, files, deleted, failed, freedBytes, done), order, start)
            == RunAll(env, begin, order, 0)
      {
        RunStep(env, State(db, files, deleted, failed, freedBytes, done), order, start);
        if env.stopChunk(start) {
          break;
        }
        var end := if start + CHUNK < total then start + CHUNK else total;
        Slices(order, sorted[..], start, end);
        ghost var st := State(db, files, deleted, failed, freedBytes, done);
        var ok, failures, freed := DeleteChunk(env, sorted, start, end, st);
        deleted, failed, freedBytes := deleted + (ok - start), failed + failures, freedBytes + freed;
        done := done + sorted[start..ok];
        start := end;
      }
      if start == total {
        RunEnd(env, State(db, files, deleted, failed, freedBytes, done), order);
      }
    }
  }

  lemma RunEnd(env: Env, st: State, rows: seq<Rec>)
    ensures RunAll(env, st, rows, |rows|) == st
  {
  }

  lemma RunStep(env: Env, st: State, rows: seq<Rec>, start: nat)
    requires start < |rows|
    ensures var end := if start + CHUNK < |rows| then start + CHUNK else |rows|;
      RunAll(env, st, rows, start)
        == if env.stopChunk(start) then st else RunAll(env, RunChunk(env, st, rows[start..end], start), rows, end)
  {
    hide RunChunk;
  }

  lemma Slices<T>(a: seq<T>, b: seq<T>, start: nat, end: nat)
    requires start <= end <= |a| == |b| && a[start..] == b[start..]
    ensures a[start..end] == b[start..end] && a[end..] == b[end..]
  {
    assert a[start..end] == a[start..][..end - start] && a[end..] == a[start..][end - start..];
    assert b[start..end] == b[start..][..end - start] && b[end..] == b[start..][end - start..];
  }

  lemma IdsOfSlice(a: array<Rec>, lo: nat, hi: nat)
    requires lo <= hi <= a.Length
    ensures (set k | lo <= k < hi :: a[k].id) == Ids(a[lo..hi])
  {
    assert forall k :: lo <= k < hi ==> a[k] == a[lo..hi][k - lo];
    assert forall k :: 0 <= k < hi - lo ==> a[lo..hi][k] == a[lo + k];
  }

  lemma SameSize(a: seq<Rec>, b: seq<Rec>)
    requires multiset(a) == multiset(b)
    ensures |a| == |b|
  {
    assert |multiset(a)| == |a| && |multiset(b)| == |b|;
  }

  lemma OneSize(r: Rec)
    ensures Sizes([r]) == r.size
  {
    assert [r][..0] == [];
  }

  lemma NothingCovers(env: Env, files: set<Path>)
    ensures Sizes([]) == 0 && Cleared(env, files, []) == files
  {
  }

  lemma OneCleared(env: Env, files: set<Path>, r: Rec)
    ensures var first := if r.path != "" then RemoveAll(env, files, r.path) else files;
      Cleared(env, files, [r]) == if r.mergePath != "" && r.mergePath != r.path
          then RemoveAll(env, first, r.mergePath) else first
  {
    hide Under;
    OneCovers(r);
  }

  lemma OneCovers(r: Rec)
    ensures forall f :: AnyCovers([r], f) <==> Covers(r, f)
  {
    assert [r][0] == r;
  }
}

/**
 Merging one camera into another: back up and re-tag the database, move the files, save the configuration,
 and roll back when a step fails. The file system is two maps from paths to contents; every step may fail.
 */
module MergeSaga {
  import opened Bytes
  import opened Rename

  // ----- the disk -----

  datatype Disk<F> = Disk(source: map<string, F>, target: map<string, F>)

  /** How one attempt to move a file can end. */
  datatype Attempt<F> =
    | Done                    // renamed, or copied across devices and removed
    | Blocked                 // cancelled, or the rename or its directory was refused: nothing changed
    | PartialCopy(junk: F)    // a copy across devices broke off
    | CopyKept                // a copy was made but the original could not be removed

  /** Moves one file from the first map to the second. */
  function Move<F>(a: map<string, F>, b: map<string, F>, path: string, to: string, how: Attempt<F>)
    : (map<string, F>, map<string, F>, bool)
  {
    if path !in a then (a, b, false) else
    match how
    case Done => (a - {path}, b[to := a[path]], true)
    case Blocked => (a, b, false)
    case PartialCopy(junk) => (a, b[to := junk], false)
    case CopyKept => (a, b[to := a[path]], false)
  }

  /** The two IDs: they are not empty and differ. */
  datatype Ids = Ids(src: string, tgt: string) {
    predicate Valid() { src != "" && tgt != "" && src != tgt }

    function Out(path: string): string
      requires Valid()
    {
      ReplaceAll(path, src, tgt)
    }

    function Back(path: string): string
      requires Valid()
    {
      ReplaceAll(path, tgt, src)
    }
  }

  /** Moves the listed files out, stopping at the first failure; also lists where they went. */
  function MoveOut<F>(ids: Ids, d: Disk<F>, order: seq<string>, moves: string -> Attempt<F>)
    : (Disk<F>, seq<string>, bool)
    requires ids.Valid()
    decreases |order|
  {
    if order == [] then (d, [], true) else
    var (source, target, ok) := Move(d.source, d.target, order[0], ids.Out(order[0]), moves(order[0]));
    if !ok then (Disk(source, target), [], false) else
    var (last, manifest, all) := MoveOut(ids, Disk(source, target), order[1..], moves);
    (last, [ids.Out(order[0])] + manifest, all)
  }

  /**
   Moves every file of the manifest back under its restored name, skipping what fails. The attempts are
   counted, this one's number first: a path that is in the manifest twice is tried twice.
   */
  function MoveBack<F>(ids: Ids, d: Disk<F>, manifest: seq<string>, backs: nat -> Attempt<F>, at: nat): Disk<F>
    requires ids.Valid()
    decreases |manifest|
  {
    if manifest == [] then d
    else MoveBack(ids, AfterOne(ids, d, manifest[0], backs(at)), manifest[1..], backs, at + 1)
  }

  /** One move back. */
  function AfterOne<F>(ids: Ids, d: Disk<F>, m: string, how: Attempt<F>): Disk<F>
    requires ids.Valid()
  {
    var (target, source, _) := Move(d.target, d.source, m, ids.Back(m), how);
    Disk(source, target)
  }

  ghost predicate NoDuplicates(s: seq<string>) {
    forall i, j :: 0 <= i < j < |s| ==> s[i] != s[j]
  }

  /** The walk visits every file of the source directory once. */
  ghost predicate Walks<F>(order: seq<string>, source: map<string, F>) {
    NoDuplicates(order) && (set r | r in order) == source.Keys
  }

  ghost predicate AllDone<F>(attempts: string -> Attempt<F>, order: seq<string>) {
    forall r :: r in order ==> attempts(r) == Done
  }

  /** A move that is reported complete moved every file. */
  lemma {:induction false} MovesDone<F>(ids: Ids, d: Disk<F>, order: seq<string>, moves: string -> Attempt<F>)
    requires ids.Valid() && MoveOut(ids, d, order, moves).2
    ensures AllDone(moves, order)
    decreases |order|
  {
    hide Ids.Out;
    if order != [] {
      var (source, target, _) := Move(d.source, d.target, order[0], ids.Out(order[0]), moves(order[0]));
      MovesDone(ids, Disk(source, target), order[1..], moves);
    }
  }

  // ----- moving out and back again -----

  function Renamed(ids: Ids, order: seq<string>): (r: seq<string>)
    requires ids.Valid()
    ensures |r| == |order|
    ensures forall i :: 0 <= i < |order| ==> r[i] == ids.Out(order[i])
  {
    seq(|order|, i requires 0 <= i < |order| => ids.Out(order[i]))
  }

  /** Where the contents of a directory come from after the listed files have been moved in. */
  ghost predicate Origins<F>(ids: Ids, before: Disk<F>, order: seq<string>, target: map<string, F>)
    requires ids.Valid()
    requires forall r :: r in order ==> r in before.source
  {
    forall k :: k in target ==>
      || (k in before.target && target[k] == before.target[k] && forall r :: r in order ==> ids.Out(r) != k)
      || exists r :: r in order && ids.Out(r) == k && target[k] == before.source[r]
  }

  /** All files moved: where they went, what is left of the source, and where the target's contents come from. */
  ghost predicate MovedAll<F>(ids: Ids, d: Disk<F>, order: seq<string>, e: Disk<F>, manifest: seq<string>, ok: bool)
    requires ids.Valid() && forall r :: r in order ==> r in d.source
  {
    && ok && manifest == Renamed(ids, order)
    && e.source == d.source - (set r | r in order)
    && e.target.Keys == d.target.Keys + (set r | r in order :: ids.Out(r))
    && Origins(ids, d, order, e.target)
  }

  /** What moving out does when every move succeeds, collisions or not. */
  lemma {:induction false} MoveOutAll<F>(ids: Ids, d: Disk<F>, order: seq<string>, moves: string -> Attempt<F>)
    requires ids.Valid() && AllDone(moves, order)
    requires NoDuplicates(order) && forall r :: r in order ==> r in d.source
    ensures var (e, manifest, ok) := MoveOut(ids, d, order, moves); MovedAll(ids, d, order, e, manifest, ok)
    decreases |order|
  {
    hide MoveOut, MovedAll, Ids.Out;
    if order == [] {
      MoveOutNone(ids, d, moves);
    } else {
      var d1 := Disk(d.source - {order[0]}, d.target[ids.Out(order[0]) := d.source[order[0]]]);
      RestOf(ids, order);
      MoveOutFirst(ids, d, order, moves);
      MoveOutAll(ids, d1, order[1..], moves);
      var (e, manifest, ok) := MoveOut(ids, d1, order[1..], moves);
      MovedAllStep(ids, d, order, e, manifest, ok);
    }
  }

  lemma MovedAllStep<F>(ids: Ids, d: Disk<F>, order: seq<string>, e: Disk<F>, manifest: seq<string>, ok: bool)
    requires ids.Valid() && order != [] && NoDuplicates(order) && forall r :: r in order ==> r in d.source
    requires var d1 := Disk(d.source - {order[0]}, d.target[ids.Out(order[0]) := d.source[order[0]]]);
      (forall r :: r in order[1..] ==> r in d1.source) && MovedAll(ids, d1, order[1..], e, manifest, ok)
    ensures MovedAll(ids, d, order, e, [ids.Out(order[0])] + manifest, ok)
  {
    hide Origins, Ids.Out, Renamed;
    OriginsStep(ids, d, order, e.target);
    RestOf(ids, order);
    RenamedStep(ids, order);
    MinusTwice(d.source, {order[0]}, set r | r in order[1..]);
  }

  lemma RenamedStep(ids: Ids, order: seq<string>)
    requires ids.Valid() && order != []
    ensures Renamed(ids, order) == [ids.Out(order[0])] + Renamed(ids, order[1..])
  {
    hide Ids.Out;
  }

  lemma MinusTwice<K, V>(m: map<K, V>, a: set<K>, b: set<K>)
    ensures (m - a) - b == m - (a + b)
  {
  }

  lemma MoveOutNone<F>(ids: Ids, d: Disk<F>, moves: string -> Attempt<F>)
    requires ids.Valid()
    ensures MoveOut(ids, d, [], moves) == (d, [], true) && MovedAll(ids, d, [], d, [], true)
  {
  }

  lemma MoveOutFirst<F>(ids: Ids, d: Disk<F>, order: seq<string>, moves: string -> Attempt<F>)
    requires ids.Valid() && order != [] && order[0] in d.source && moves(order[0]) == Done
    ensures var d1 := Disk(d.source - {order[0]}, d.target[ids.Out(order[0]) := d.source[order[0]]]);
      var (e, manifest, ok) := MoveOut(ids, d1, order[1..], moves);
      MoveOut(ids, d, order, moves) == (e, [ids.Out(order[0])] + manifest, ok)
  {
    hide Ids.Out;
  }

  lemma RestOf(ids: Ids, order: seq<string>)
    requires ids.Valid() && order != [] && NoDuplicates(order)
    ensures forall r :: r in order <==> r == order[0] || r in order[1..]
    ensures NoDuplicates(order[1..]) && order[0] !in order[1..]
    ensures (set r | r in order) == {order[0]} + (set r | r in order[1..])
    ensures (set r | r in order :: ids.Out(r)) == {ids.Out(order[0])} + (set r | r in order[1..] :: ids.Out(r))
  {
    hide Ids.Out;
    assert forall r :: r in order <==> r == order[0] || r in order[1..];
  }

  lemma OriginsStep<F>(ids: Ids, d: Disk<F>, order: seq<string>, target: map<string, F>)
    requires ids.Valid() && order != [] && NoDuplicates(order) && forall r :: r in order ==> r in d.source
    requires var d1 := Disk(d.source - {order[0]}, d.target[ids.Out(order[0]) := d.source[order[0]]]);
      (forall r :: r in order[1..] ==> r in d1.source) && Origins(ids, d1, order[1..], target)
    ensures Origins(ids, d, order, target)
  {
    hide ReplaceAll;
    assert forall r :: r in order <==> r == order[0] || r in order[1..];
  }

  /** What one attempt brings to its destination. */
  function Brought<F>(how: Attempt<F>, content: F): Option<F> {
    match how
    case Done => Some(content)
    case Blocked => None
    case PartialCopy(junk) => Some(junk)
    case CopyKept => Some(content)
  }

  /**
   What moving back does, whatever each attempt ends as: a file is gone from the target exactly if its own
   move was done; and what lies in the source was there, or was brought there from a file of the manifest.
   */
  lemma {:induction false} MoveBackAll<F>(
      ids: Ids, d: Disk<F>, manifest: seq<string>, backs: nat -> Attempt<F>, at: nat)
    requires ids.Valid()
    ensures var e := MoveBack(ids, d, manifest, backs, at);
      BackTarget(d, manifest, backs, at, e) && BackSource(ids, d, manifest, backs, at, e)
    decreases |manifest|
  {
    hide BackTarget, BackSource, AfterOne, Ids.Back;
    if manifest == [] {
      MovedBackNone(ids, d, backs, at);
    } else {
      var d1 := AfterOne(ids, d, manifest[0], backs(at));
      MoveBackAll(ids, d1, manifest[1..], backs, at + 1);
      BackTargetStep(ids, d, manifest, backs, at, MoveBack(ids, d1, manifest[1..], backs, at + 1));
      BackSourceStep(ids, d, manifest, backs, at, MoveBack(ids, d1, manifest[1..], backs, at + 1));
    }
  }

  /** Some attempt to move k back was done. */
  ghost predicate TakenBack<F>(manifest: seq<string>, backs: nat -> Attempt<F>, at: nat, k: string) {
    exists i :: 0 <= i < |manifest| && manifest[i] == k && backs(at + i).Done?
  }

  ghost predicate BackTarget<F>(d: Disk<F>, manifest: seq<string>, backs: nat -> Attempt<F>, at: nat, e: Disk<F>) {
    && (forall k :: k in e.target <==> k in d.target && !TakenBack(manifest, backs, at, k))
    && forall k :: k in e.target ==> e.target[k] == d.target[k]
  }

  ghost predicate BackSource<F>(
      ids: Ids, d: Disk<F>, manifest: seq<string>, backs: nat -> Attempt<F>, at: nat, e: Disk<F>)
    requires ids.Valid()
  {
    && (forall i :: 0 <= i < |manifest| && manifest[i] in d.target && !backs(at + i).Blocked? ==>
          ids.Back(manifest[i]) in e.source)
    && (forall k :: k in d.source ==> k in e.source)
    && forall k :: k in e.source ==>
         (k in d.source && e.source[k] == d.source[k]) || BroughtOf(ids, d, manifest, backs, at, k, e.source[k])
  }

  /** What is at k was brought there by an attempt on a file of the manifest. */
  ghost predicate BroughtOf<F>(
      ids: Ids, d: Disk<F>, manifest: seq<string>, backs: nat -> Attempt<F>, at: nat, k: string, now: F)
    requires ids.Valid()
  {
    exists i :: 0 <= i < |manifest| && BroughtAt(ids, d, manifest[i], backs(at + i), k, now)
  }

  predicate BroughtAt<F(==)>(ids: Ids, d: Disk<F>, m: string, how: Attempt<F>, k: string, now: F)
    requires ids.Valid()
  {
    m in d.target && ids.Back(m) == k && Brought(how, d.target[m]) == Some(now)
  }

  lemma MovedBackNone<F>(ids: Ids, d: Disk<F>, backs: nat -> Attempt<F>, at: nat)
    requires ids.Valid()
    ensures BackTarget(d, [], backs, at, d) && BackSource(ids, d, [], backs, at, d)
  {
  }

  lemma BackTargetStep<F>(
      ids: Ids, d: Disk<F>, manifest: seq<string>, backs: nat -> Attempt<F>, at: nat, e: Disk<F>)
    requires ids.Valid() && manifest != []
    requires BackTarget(AfterOne(ids, d, manifest[0], backs(at)), manifest[1..], backs, at + 1, e)
    ensures BackTarget(d, manifest, backs, at, e)
  {
    hide Ids.Back, TakenBack;
    forall k ensures TakenBack(manifest, backs, at, k) <==>
      (manifest[0] == k && backs(at).Done?) || TakenBack(manifest[1..], backs, at + 1, k)
    {
      TakenFirst(manifest, backs, at, k);
    }
  }

  lemma TakenFirst<F>(manifest: seq<string>, backs: nat -> Attempt<F>, at: nat, k: string)
    requires manifest != []
    ensures TakenBack(manifest, backs, at, k) <==>
      (manifest[0] == k && backs(at).Done?) || TakenBack(manifest[1..], backs, at + 1, k)
  {
    var rest := manifest[1..];
    if TakenBack(manifest, backs, at, k) {
      var i :| 0 <= i < |manifest| && manifest[i] == k && backs(at + i).Done?;
      assert i > 0 ==> rest[i - 1] == k && at + 1 + (i - 1) == at + i;
    }
    if TakenBack(rest, backs, at + 1, k) {
      var i :| 0 <= i < |rest| && rest[i] == k && backs(at + 1 + i).Done?;
      assert manifest[i + 1] == k && at + (i + 1) == at + 1 + i;
    }
    if manifest[0] == k && backs(at).Done? {
      assert at + 0 == at;
    }
  }

  lemma BackSourceStep<F>(
      ids: Ids, d: Disk<F>, manifest: seq<string>, backs: nat -> Attempt<F>, at: nat, e: Disk<F>)
    requires ids.Valid() && manifest != []
    requires BackSource(ids, AfterOne(ids, d, manifest[0], backs(at)), manifest[1..], backs, at + 1, e)
    ensures BackSource(ids, d, manifest, backs, at, e)
  {
    hide Ids.Back, AfterOne, BroughtOf, BroughtAt;
    var m0, rest := manifest[0], manifest[1..];
    var d1 := AfterOne(ids, d, m0, backs(at));
    OneBack(ids, d, m0, backs(at));
    forall i | 0 <= i < |manifest| && manifest[i] in d.target && !backs(at + i).Blocked?
      ensures ids.Back(manifest[i]) in e.source
    {
      if i > 0 && manifest[i] != m0 {
        assert rest[i - 1] == manifest[i] && at + 1 + (i - 1) == at + i;
      } else if i > 0 && manifest[i] in d1.target {
        assert rest[i - 1] == manifest[i] && at + 1 + (i - 1) == at + i;
      }
    }
    forall k | k in e.source && !(k in d.source && e.source[k] == d.source[k])
      ensures BroughtOf(ids, d, manifest, backs, at, k, e.source[k])
    {
      EitherBrought(ids, d, manifest, backs, at, k, e.source[k]);
    }
  }

  lemma EitherBrought<F>(
      ids: Ids, d: Disk<F>, manifest: seq<string>, backs: nat -> Attempt<F>, at: nat, k: string, now: F)
    requires ids.Valid() && manifest != []
    requires
      || BroughtAt(ids, d, manifest[0], backs(at), k, now)
      || BroughtOf(ids, AfterOne(ids, d, manifest[0], backs(at)), manifest[1..], backs, at + 1, k, now)
    ensures BroughtOf(ids, d, manifest, backs, at, k, now)
  {
    hide Ids.Back, AfterOne, Brought;
    var d1 := AfterOne(ids, d, manifest[0], backs(at));
    if BroughtAt(ids, d, manifest[0], backs(at), k, now) {
      assert at + 0 == at;
    } else {
      var i :| 0 <= i < |manifest[1..]| && BroughtAt(ids, d1, manifest[1..][i], backs(at + 1 + i), k, now);
      OneBack(ids, d, manifest[0], backs(at));
      assert manifest[i + 1] == manifest[1..][i] && at + (i + 1) == at + 1 + i;
    }
  }

  lemma OneBack<F>(ids: Ids, d: Disk<F>, m: string, how: Attempt<F>)
    requires ids.Valid()
    ensures var d1 := AfterOne(ids, d, m, how);
      && (forall k :: k in d1.target ==> k in d.target && d1.target[k] == d.target[k])
      && (forall k :: k in d.target && k !in d1.target ==> k == m && how.Done?)
      && (m in d.target && !how.Blocked? ==> ids.Back(m) in d1.source)
      && (forall k :: k in d.source ==> k in d1.source)
      && (forall k :: k in d1.source ==>
            (k in d.source && d1.source[k] == d.source[k]) || BroughtAt(ids, d, m, how, k, d1.source[k]))
  {
    hide Ids.Back;
  }

  /** Files with one destination are equal. */
  ghost predicate Agree<F>(ids: Ids, d: Disk<F>)
    requires ids.Valid()
  {
    forall p, q :: p in d.source && q in d.source && ids.Out(p) == ids.Out(q) ==> d.source[p] == d.source[q]
  }

  /** What lies at k in the target equals whatever comes there. */
  ghost predicate Spared<F>(ids: Ids, d: Disk<F>, k: string)
    requires ids.Valid() && k in d.target
  {
    forall p :: p in d.source && ids.Out(p) == k ==> d.source[p] == d.target[k]
  }

  /** Every file of the source has its contents at its destination. */
  ghost predicate Arrived<F>(ids: Ids, d: Disk<F>, e: Disk<F>)
    requires ids.Valid()
  {
    forall p :: p in d.source ==> ids.Out(p) in e.target && e.target[ids.Out(p)] == d.source[p]
  }

  /** Every file of the target is as it was. */
  ghost predicate Remained<F>(d: Disk<F>, e: Disk<F>) {
    forall k :: k in d.target ==> k in e.target && e.target[k] == d.target[k]
  }

  /** What lies at a destination after a complete move came from a file with that destination. */
  lemma ComesTo<F>(ids: Ids, d: Disk<F>, order: seq<string>, moves: string -> Attempt<F>, p: string) returns (q: string)
    requires ids.Valid() && AllDone(moves, order) && Walks(order, d.source) && p in d.source
    ensures var e := MoveOut(ids, d, order, moves).0;
      && ids.Out(p) in e.target
      && q in d.source && ids.Out(q) == ids.Out(p) && e.target[ids.Out(p)] == d.source[q]
  {
    WalkFacts(ids, order, d.source);
    MoveOutAll(ids, d, order, moves);
    hide MoveOut, Ids.Out;
    var e := MoveOut(ids, d, order, moves).0;
    assert p in order && ids.Out(p) in e.target;
    q :| q in order && ids.Out(q) == ids.Out(p) && e.target[ids.Out(p)] == d.source[q];
  }

  /** Every file arrives exactly if files with one destination are equal. */
  lemma {:induction false} ArrivedExact<F>(ids: Ids, d: Disk<F>, order: seq<string>, moves: string -> Attempt<F>)
    requires ids.Valid() && AllDone(moves, order) && Walks(order, d.source)
    ensures Arrived(ids, d, MoveOut(ids, d, order, moves).0) <==> Agree(ids, d)
  {
    hide MoveOut, Ids.Out, AllDone, Walks;
    var e := MoveOut(ids, d, order, moves).0;
    if Agree(ids, d) {
      forall p | p in d.source ensures ids.Out(p) in e.target && e.target[ids.Out(p)] == d.source[p] {
        var q := ComesTo(ids, d, order, moves, p);
      }
    }
    if Arrived(ids, d, e) {
      forall p, q | p in d.source && q in d.source && ids.Out(p) == ids.Out(q) ensures d.source[p] == d.source[q] {
        assert e.target[ids.Out(p)] == d.source[p] && e.target[ids.Out(q)] == d.source[q];
      }
    }
  }

  /** Where every file arrives, one of the target stays as it was exactly if what comes there is equal. */
  lemma {:induction false} SparedExact<F>(ids: Ids, d: Disk<F>, order: seq<string>, moves: string -> Attempt<F>,
      k: string)
    requires ids.Valid() && AllDone(moves, order) && Walks(order, d.source)
    requires Arrived(ids, d, MoveOut(ids, d, order, moves).0) && k in d.target
    ensures var e := MoveOut(ids, d, order, moves).0;
      k in e.target && (e.target[k] == d.target[k] <==> Spared(ids, d, k))
  {
    WalkFacts(ids, order, d.source);
    MoveOutAll(ids, d, order, moves);
    hide MoveOut, Ids.Out;
  }

  /**
   A complete move loses no recording of either camera, exactly where files with one destination are equal
   and whatever lies at a destination equals what comes there.
   */
  lemma {:induction false} ArrivalExact<F>(ids: Ids, d: Disk<F>, order: seq<string>, moves: string -> Attempt<F>)
    requires ids.Valid() && AllDone(moves, order) && Walks(order, d.source)
    ensures var e := MoveOut(ids, d, order, moves).0;
      Arrived(ids, d, e) && Remained(d, e) <==> Agree(ids, d) && forall k :: k in d.target ==> Spared(ids, d, k)
  {
    hide MoveOut, Agree, Arrived, Spared, Walks, AllDone;
    var e := MoveOut(ids, d, order, moves).0;
    ArrivedExact(ids, d, order, moves);
    if Arrived(ids, d, e) {
      forall k | k in d.target ensures k in e.target && (e.target[k] == d.target[k] <==> Spared(ids, d, k)) {
        SparedExact(ids, d, order, moves, k);
      }
    }
  }

  /** What a caller can check before moving: clean paths, and nothing in the way. */
  ghost predicate Reversible<F>(ids: Ids, d: Disk<F>)
    requires ids.Valid()
  {
    forall r :: r in d.source ==> Clean(r, ids.src, ids.tgt) && ids.Out(r) !in d.target
  }

  /** A copy back that leaves the file where it is, and is true. */
  predicate CopiesTruly<F(==)>(how: Attempt<F>, content: F) {
    how.CopyKept? || (how.PartialCopy? && how.junk == content)
  }

  /** With this move back the file comes back: its path is clean, and it is moved from a free destination, or copied. */
  ghost predicate ComesBack<F>(ids: Ids, d: Disk<F>, r: string, how: Attempt<F>)
    requires ids.Valid() && r in d.source
  {
    && Clean(r, ids.src, ids.tgt)
    && if ids.Out(r) in d.target
       then d.target[ids.Out(r)] == d.source[r] && CopiesTruly(how, d.source[r])
       else how.Done?
  }

  /**
   The same for moves back that may fail: every path is clean; a file with a free destination is moved
   back; and one that overwrote its equal is copied back and stays.
   */
  ghost predicate Restorable<F>(ids: Ids, d: Disk<F>, order: seq<string>, backs: nat -> Attempt<F>)
    requires ids.Valid()
  {
    forall i :: 0 <= i < |order| && order[i] in d.source ==> ComesBack(ids, d, order[i], backs(i))
  }

  /** If every move back is done, restorable means reversible. */
  lemma DoneRestores<F>(ids: Ids, d: Disk<F>, order: seq<string>, backs: nat -> Attempt<F>)
    requires ids.Valid() && Walks(order, d.source) && forall i: nat :: i < |order| ==> backs(i).Done?
    ensures Restorable(ids, d, order, backs) <==> Reversible(ids, d)
  {
    WalkFacts(ids, order, d.source);
    hide Ids.Out, Clean, Walks;
    if Restorable(ids, d, order, backs) {
      forall r | r in d.source ensures Clean(r, ids.src, ids.tgt) && ids.Out(r) !in d.target {
        assert r in order;
        var i :| 0 <= i < |order| && order[i] == r;
        assert ComesBack(ids, d, order[i], backs(i));
      }
    }
  }

  /** Out and back again. */
  function RoundTrip<F>(
      ids: Ids, d: Disk<F>, order: seq<string>, moves: string -> Attempt<F>, backs: nat -> Attempt<F>): Disk<F>
    requires ids.Valid()
  {
    MoveBack(ids, MoveOut(ids, d, order, moves).0, MoveOut(ids, d, order, moves).1, backs, 0)
  }

  lemma WalkFacts<F>(ids: Ids, order: seq<string>, source: map<string, F>)
    requires ids.Valid() && Walks(order, source)
    ensures forall r :: r in order <==> r in source
    ensures forall m :: m in Renamed(ids, order) <==> exists r :: r in source && ids.Out(r) == m
  {
    assert forall r :: r in order <==> r in (set q | q in order);
    forall r | r in order ensures ids.Out(r) in Renamed(ids, order) {
      var i :| 0 <= i < |order| && order[i] == r;
      assert Renamed(ids, order)[i] == ids.Out(r);
    }
  }

  /** A destination of some file of the source. */
  ghost predicate Destination<F>(ids: Ids, d: Disk<F>, k: string)
    requires ids.Valid()
  {
    exists r :: r in d.source && ids.Out(r) == k
  }

  /**
   The target after a move out and back: what was there and what came, less the destinations of which some
   move back was done.
   */
  ghost predicate OutAndBack<F>(
      ids: Ids, d: Disk<F>, order: seq<string>, e: Disk<F>, f: Disk<F>, backs: nat -> Attempt<F>)
    requires ids.Valid()
  {
    forall k ::
      && (k in f.target <==>
            (k in d.target || Destination(ids, d, k)) && !TakenBack(Renamed(ids, order), backs, 0, k))
      && (k in f.target ==> k in e.target && f.target[k] == e.target[k])
      && (k in f.target && !Destination(ids, d, k) ==> f.target[k] == d.target[k])
  }

  /** Whatever the moves back end as, that is what the target holds. */
  lemma {:induction false} RoundTripTarget<F>(
      ids: Ids, d: Disk<F>, order: seq<string>, moves: string -> Attempt<F>, backs: nat -> Attempt<F>)
    requires ids.Valid() && AllDone(moves, order) && Walks(order, d.source)
    ensures var e, f := MoveOut(ids, d, order, moves).0, RoundTrip(ids, d, order, moves, backs);
      OutAndBack(ids, d, order, e, f, backs)
  {
    hide MoveOut, MoveBack, Ids.Out, Ids.Back, Destination, Renamed, AllDone, Walks, MovedAll, BackSource, TakenBack;
    var e := MoveOut(ids, d, order, moves).0;
    Destinations(ids, d, order, moves);
    MoveBackAll(ids, e, Renamed(ids, order), backs, 0);
  }

  /** Where a complete move put files, and what it left alone. */
  lemma {:induction false} Destinations<F>(ids: Ids, d: Disk<F>, order: seq<string>, moves: string -> Attempt<F>)
    requires ids.Valid() && AllDone(moves, order) && Walks(order, d.source)
    ensures var (e, manifest, _) := MoveOut(ids, d, order, moves);
      && manifest == Renamed(ids, order)
      && (forall k :: k in Renamed(ids, order) <==> Destination(ids, d, k))
      && (forall k :: k in e.target <==> k in d.target || Destination(ids, d, k))
      && forall k :: k in e.target && !Destination(ids, d, k) ==> e.target[k] == d.target[k]
  {
    WalkFacts(ids, order, d.source);
    MoveOutAll(ids, d, order, moves);
    hide MoveOut, Ids.Out;
    var e := MoveOut(ids, d, order, moves).0;
    assert forall k :: k in Renamed(ids, order) <==> Destination(ids, d, k);
    assert forall k :: k in (set r | r in order :: ids.Out(r)) <==> Destination(ids, d, k);
  }

  /**
   The source after a move out and back: every file whose move back brought something has a file under its
   restored name, and whatever is there was brought back so.
   */
  lemma RoundTripSource<F>(
      ids: Ids, d: Disk<F>, order: seq<string>, moves: string -> Attempt<F>, backs: nat -> Attempt<F>)
    requires ids.Valid() && AllDone(moves, order) && Walks(order, d.source)
    ensures var e, f := MoveOut(ids, d, order, moves).0, RoundTrip(ids, d, order, moves, backs);
      && (forall i: nat :: i < |order| && !backs(i).Blocked? ==> ids.Back(ids.Out(order[i])) in f.source)
      && (forall k :: k in f.source ==> CameBack(ids, d, order, e, f, backs, k))
  {
    WalkFacts(ids, order, d.source);
    MoveOutAll(ids, d, order, moves);
    Destinations(ids, d, order, moves);
    hide MoveOut, MoveBack, Ids.Out, Ids.Back, Brought, Destination, AllDone, Walks, Origins;
    var e := MoveOut(ids, d, order, moves).0;
    MoveBackAll(ids, e, Renamed(ids, order), backs, 0);
    var f := RoundTrip(ids, d, order, moves, backs);
    forall i: nat | i < |order| && !backs(i).Blocked? ensures ids.Back(ids.Out(order[i])) in f.source {
      assert Renamed(ids, order)[i] == ids.Out(order[i]) && Renamed(ids, order)[i] in Renamed(ids, order);
      assert 0 + i == i;
    }
    forall k | k in f.source ensures CameBack(ids, d, order, e, f, backs, k) {
      assert k !in e.source;
      var i :| 0 <= i < |order| && BroughtAt(ids, e, Renamed(ids, order)[i], backs(0 + i), k, f.source[k]);
      assert order[i] in order && BroughtAt(ids, e, ids.Out(order[i]), backs(i), k, f.source[k]);
    }
  }

  /** What is at k was brought back from where some file went. */
  ghost predicate CameBack<F>(
      ids: Ids, d: Disk<F>, order: seq<string>, e: Disk<F>, f: Disk<F>, backs: nat -> Attempt<F>, k: string)
    requires ids.Valid() && k in f.source
  {
    exists i: nat ::
      i < |order| && order[i] in d.source && BroughtAt(ids, e, ids.Out(order[i]), backs(i), k, f.source[k])
  }

  lemma RestorableRestores<F>(
      ids: Ids, d: Disk<F>, order: seq<string>, moves: string -> Attempt<F>, backs: nat -> Attempt<F>)
    requires ids.Valid() && AllDone(moves, order) && Walks(order, d.source) && Restorable(ids, d, order, backs)
    ensures RoundTrip(ids, d, order, moves, backs) == d
  {
    hide *;
    var e, f := MoveOut(ids, d, order, moves).0, RoundTrip(ids, d, order, moves, backs);
    AllComeBack(ids, d, order, backs);
    CleanAgree(ids, d);
    RestorableSpares(ids, d, order, backs);
    ArrivalExact(ids, d, order, moves);
    RoundTripTarget(ids, d, order, moves, backs);
    RoundTripSource(ids, d, order, moves, backs);
    TargetRestored(ids, d, order, e, f, backs);
    SourceRestored(ids, d, order, e, f, backs);
    assert f == Disk(f.source, f.target) && d == Disk(d.source, d.target);
  }

  /** Every file has its place in the walk, and comes back from there. */
  lemma AllComeBack<F>(ids: Ids, d: Disk<F>, order: seq<string>, backs: nat -> Attempt<F>)
    requires ids.Valid() && Walks(order, d.source) && Restorable(ids, d, order, backs)
    ensures forall r :: r in d.source ==> Clean(r, ids.src, ids.tgt)
  {
    WalkFacts(ids, order, d.source);
    hide Ids.Out, Clean, Walks;
    forall r | r in d.source ensures Clean(r, ids.src, ids.tgt) {
      var i := PlaceOf(ids, d, order, r);
      assert ComesBack(ids, d, order[i], backs(i));
    }
  }

  lemma PlaceOf<F>(ids: Ids, d: Disk<F>, order: seq<string>, r: string) returns (i: nat)
    requires ids.Valid() && Walks(order, d.source) && r in d.source
    ensures i < |order| && order[i] == r && forall j: nat :: j < |order| && order[j] == r ==> j == i
  {
    WalkFacts(ids, order, d.source);
    assert r in order;
    i :| 0 <= i < |order| && order[i] == r;
  }

  lemma RestorableSpares<F>(ids: Ids, d: Disk<F>, order: seq<string>, backs: nat -> Attempt<F>)
    requires ids.Valid() && Walks(order, d.source) && Restorable(ids, d, order, backs)
    ensures forall k :: k in d.target ==> Spared(ids, d, k)
  {
    hide Ids.Out, Clean, Walks;
    forall r | r in d.source && ids.Out(r) in d.target ensures d.source[r] == d.target[ids.Out(r)] {
      var i := PlaceOf(ids, d, order, r);
      assert ComesBack(ids, d, order[i], backs(i));
    }
  }

  lemma TargetRestored<F>(
      ids: Ids, d: Disk<F>, order: seq<string>, e: Disk<F>, f: Disk<F>, backs: nat -> Attempt<F>)
    requires ids.Valid() && Walks(order, d.source) && Restorable(ids, d, order, backs)
    requires Remained(d, e) && OutAndBack(ids, d, order, e, f, backs)
    ensures f.target == d.target
  {
    hide Ids.Out, Clean, Walks;
    forall k ensures TakenBack(Renamed(ids, order), backs, 0, k) <==> Destination(ids, d, k) && k !in d.target {
      BackFromFree(ids, d, order, backs, k);
    }
    hide TakenBack, Destination, Restorable, Renamed;
    forall k ensures (k in f.target <==> k in d.target) && (k in f.target ==> f.target[k] == d.target[k]) {
    }
  }

  /** If restorable, exactly the files with free destinations are moved back. */
  lemma BackFromFree<F>(ids: Ids, d: Disk<F>, order: seq<string>, backs: nat -> Attempt<F>, k: string)
    requires ids.Valid() && Walks(order, d.source) && Restorable(ids, d, order, backs)
    ensures TakenBack(Renamed(ids, order), backs, 0, k) <==> Destination(ids, d, k) && k !in d.target
  {
    WalkFacts(ids, order, d.source);
    hide Ids.Out, Clean, Walks;
    if TakenBack(Renamed(ids, order), backs, 0, k) {
      var i :| 0 <= i < |order| && Renamed(ids, order)[i] == k && backs(0 + i).Done?;
      assert order[i] in order && ComesBack(ids, d, order[i], backs(i));
    }
    if Destination(ids, d, k) && k !in d.target {
      var r :| r in d.source && ids.Out(r) == k;
      var i := PlaceOf(ids, d, order, r);
      assert ComesBack(ids, d, order[i], backs(i));
      assert Renamed(ids, order)[i] == k && backs(0 + i).Done?;
    }
  }

  lemma SourceRestored<F>(
      ids: Ids, d: Disk<F>, order: seq<string>, e: Disk<F>, f: Disk<F>, backs: nat -> Attempt<F>)
    requires ids.Valid() && Walks(order, d.source) && Restorable(ids, d, order, backs) && Arrived(ids, d, e)
    requires forall i: nat :: i < |order| && !backs(i).Blocked? ==> ids.Back(ids.Out(order[i])) in f.source
    requires forall k :: k in f.source ==> CameBack(ids, d, order, e, f, backs, k)
    ensures f.source == d.source
  {
    hide Ids.Out, Ids.Back, Walks, ComesBack, CameBack, Arrived, Brought;
    forall k ensures (k in f.source <==> k in d.source) && (k in f.source ==> f.source[k] == d.source[k]) {
      if k in d.source {
        var i := PlaceOf(ids, d, order, k);
        assert ComesBack(ids, d, order[i], backs(i));
        OwnName(ids, d, e, order[i], backs(i));
      }
      if k in f.source {
        assert CameBack(ids, d, order, e, f, backs, k);
        var i := CameFrom(ids, d, order, e, f, backs, k);
        assert ComesBack(ids, d, order[i], backs(i));
        OwnName(ids, d, e, order[i], backs(i));
      }
    }
  }

  lemma CameFrom<F>(
      ids: Ids, d: Disk<F>, order: seq<string>, e: Disk<F>, f: Disk<F>, backs: nat -> Attempt<F>, k: string)
    returns (i: nat)
    requires ids.Valid() && k in f.source && CameBack(ids, d, order, e, f, backs, k)
    ensures i < |order| && order[i] in d.source && BroughtAt(ids, e, ids.Out(order[i]), backs(i), k, f.source[k])
  {
    i :| i < |order| && order[i] in d.source && BroughtAt(ids, e, ids.Out(order[i]), backs(i), k, f.source[k]);
  }

  /** A file that comes back does so under its own name and with its own contents. */
  lemma OwnName<F>(ids: Ids, d: Disk<F>, e: Disk<F>, r: string, how: Attempt<F>)
    requires ids.Valid() && r in d.source && ComesBack(ids, d, r, how) && Arrived(ids, d, e)
    ensures ids.Back(ids.Out(r)) == r && !how.Blocked?
    ensures ids.Out(r) in e.target && Brought(how, e.target[ids.Out(r)]) == Some(d.source[r])
  {
    UndoExact(r, ids.src, ids.tgt);
    hide Ids.Out, Ids.Back, Clean;
  }

  /** Clean paths are renamed apart. */
  lemma CleanAgree<F>(ids: Ids, d: Disk<F>)
    requires ids.Valid() && forall r :: r in d.source ==> Clean(r, ids.src, ids.tgt)
    ensures forall p, q :: p in d.source && q in d.source && ids.Out(p) == ids.Out(q) ==> p == q
    ensures Agree(ids, d)
  {
    CleanAreUndone(ids);
    hide Ids.Out, Ids.Back, Clean;
    forall p, q | p in d.source && q in d.source && ids.Out(p) == ids.Out(q) ensures p == q {
      assert ids.Back(ids.Out(p)) == p && ids.Back(ids.Out(q)) == q;
    }
  }

  /** Where the move was reversible and every move back is done, both directories come back as they were. */
  lemma RollbackRestores<F>(
      ids: Ids, d: Disk<F>, order: seq<string>, moves: string -> Attempt<F>, backs: nat -> Attempt<F>)
    requires ids.Valid() && AllDone(moves, order) && forall i: nat :: i < |order| ==> backs(i).Done?
    requires Walks(order, d.source) && Reversible(ids, d)
    ensures RoundTrip(ids, d, order, moves, backs) == d
  {
    hide RoundTrip, Reversible, Restorable;
    DoneRestores(ids, d, order, backs);
    RestorableRestores(ids, d, order, moves, backs);
  }

  lemma CleanAreUndone(ids: Ids)
    requires ids.Valid()
    ensures forall q :: Clean(q, ids.src, ids.tgt) <==> ids.Back(ids.Out(q)) == q
  {
    forall q ensures Clean(q, ids.src, ids.tgt) <==> ids.Back(ids.Out(q)) == q {
      UndoExact(q, ids.src, ids.tgt);
    }
  }

  /**
   After a complete move out, moving back, whatever the moves back end as, restores both directories
   exactly where that is restorable.
   */
  lemma RollbackExact<F>(
      ids: Ids, d: Disk<F>, order: seq<string>, moves: string -> Attempt<F>, backs: nat -> Attempt<F>)
    requires ids.Valid() && AllDone(moves, order) && Walks(order, d.source)
    ensures RoundTrip(ids, d, order, moves, backs) == d <==> Restorable(ids, d, order, backs)
  {
    hide RoundTrip, Restorable;
    if Restorable(ids, d, order, backs) {
      RestorableRestores(ids, d, order, moves, backs);
    }
    if RoundTrip(ids, d, order, moves, backs) == d {
      RestoredMeansRestorable(ids, d, order, moves, backs);
    }
  }

  lemma RestoredMeansRestorable<F>(
      ids: Ids, d: Disk<F>, order: seq<string>, moves: string -> Attempt<F>, backs: nat -> Attempt<F>)
    requires ids.Valid() && AllDone(moves, order) && Walks(order, d.source)
    requires RoundTrip(ids, d, order, moves, backs) == d
    ensures Restorable(ids, d, order, backs)
  {
    hide *;
    var e := MoveOut(ids, d, order, moves).0;
    RoundTripTarget(ids, d, order, moves, backs);
    RoundTripSource(ids, d, order, moves, backs);
    AllClean(ids, d, order, e, d, backs);
    CleanAgree(ids, d);
    ArrivedExact(ids, d, order, moves);
    AllRestored(ids, d, order, e, backs);
  }

  lemma AllRestored<F>(ids: Ids, d: Disk<F>, order: seq<string>, e: Disk<F>, backs: nat -> Attempt<F>)
    requires ids.Valid() && Walks(order, d.source) && Arrived(ids, d, e) && OutAndBack(ids, d, order, e, d, backs)
    requires forall q :: q in d.source ==> Clean(q, ids.src, ids.tgt)
    requires forall k :: k in d.source ==> CameBack(ids, d, order, e, d, backs, k)
    ensures Restorable(ids, d, order, backs)
  {
    hide Ids.Out, Clean, CameBack, Arrived, OutAndBack, ComesBack, Walks;
    forall i | 0 <= i < |order| && order[i] in d.source ensures ComesBack(ids, d, order[i], backs(i)) {
      OneRestored(ids, d, order, e, backs, i);
    }
  }

  lemma OneRestored<F>(ids: Ids, d: Disk<F>, order: seq<string>, e: Disk<F>, backs: nat -> Attempt<F>, i: nat)
    requires ids.Valid() && Walks(order, d.source) && Arrived(ids, d, e) && OutAndBack(ids, d, order, e, d, backs)
    requires i < |order| && order[i] in d.source && CameBack(ids, d, order, e, d, backs, order[i])
    requires forall q :: q in d.source ==> Clean(q, ids.src, ids.tgt)
    ensures ComesBack(ids, d, order[i], backs(i))
  {
    hide Ids.Out, Clean, CameBack, Walks, TakenBack, Renamed;
    var r := order[i];
    assert Destination(ids, d, ids.Out(r));
    CameUnder(ids, d, order, e, backs, i);
    TakenOnce(ids, d, order, backs, i);
  }

  /** Among clean paths, what came back under a name came by that file's own move. */
  lemma CameUnder<F>(ids: Ids, d: Disk<F>, order: seq<string>, e: Disk<F>, backs: nat -> Attempt<F>, i: nat)
    requires ids.Valid() && Walks(order, d.source) && i < |order| && order[i] in d.source
    requires CameBack(ids, d, order, e, d, backs, order[i]) && ids.Out(order[i]) in e.target
    requires forall r :: r in d.source ==> Clean(r, ids.src, ids.tgt)
    ensures Brought(backs(i), e.target[ids.Out(order[i])]) == Some(d.source[order[i]])
  {
    CleanAreUndone(ids);
    hide Ids.Out, Ids.Back, Clean;
    var j: nat :| j < |order| && order[j] in d.source
      && BroughtAt(ids, e, ids.Out(order[j]), backs(j), order[i], d.source[order[i]]);
    assert order[j] == order[i];
  }

  /** Among clean paths, a destination is moved back exactly if its file's own move back is done. */
  lemma TakenOnce<F>(ids: Ids, d: Disk<F>, order: seq<string>, backs: nat -> Attempt<F>, i: nat)
    requires ids.Valid() && Walks(order, d.source) && i < |order| && order[i] in d.source
    requires forall r :: r in d.source ==> Clean(r, ids.src, ids.tgt)
    ensures TakenBack(Renamed(ids, order), backs, 0, ids.Out(order[i])) <==> backs(i).Done?
  {
    WalkFacts(ids, order, d.source);
    CleanAgree(ids, d);
    hide Ids.Out, Clean;
    var k := ids.Out(order[i]);
    if TakenBack(Renamed(ids, order), backs, 0, k) {
      var j :| 0 <= j < |order| && Renamed(ids, order)[j] == k && backs(0 + j).Done?;
      assert order[j] in order && order[j] == order[i];
    }
    if backs(i).Done? {
      assert Renamed(ids, order)[i] == k && backs(0 + i).Done?;
    }
  }

  /** Whatever came back under each name: if the names are as before, each came back under its own. */
  lemma AllClean<F>(ids: Ids, d: Disk<F>, order: seq<string>, e: Disk<F>, f: Disk<F>, backs: nat -> Attempt<F>)
    requires ids.Valid() && f.source == d.source
    requires forall k :: k in f.source ==> CameBack(ids, d, order, e, f, backs, k)
    ensures forall r :: r in d.source ==> Clean(r, ids.src, ids.tgt)
  {
    hide Clean, CameBack, ComesFrom, ForthAndBack;
    forall r | r in d.source.Keys ensures ComesFrom(d.source.Keys, r, ids.src, ids.tgt) {
      OneComesFrom(ids, d, order, e, f, backs, r);
    }
    NoCycles(d.source.Keys, ids.src, ids.tgt);
    CleanAreRestored(ids);
  }

  lemma OneComesFrom<F>(
      ids: Ids, d: Disk<F>, order: seq<string>, e: Disk<F>, f: Disk<F>, backs: nat -> Attempt<F>, r: string)
    requires ids.Valid() && r in f.source && CameBack(ids, d, order, e, f, backs, r)
    ensures ComesFrom(d.source.Keys, r, ids.src, ids.tgt)
  {
    var i: nat :| i < |order| && order[i] in d.source
      && BroughtAt(ids, e, ids.Out(order[i]), backs(i), r, f.source[r]);
    assert order[i] in d.source.Keys && ForthAndBack(order[i], ids.src, ids.tgt) == r;
  }

  lemma CleanAreRestored(ids: Ids)
    requires ids.Valid()
    ensures forall q :: Clean(q, ids.src, ids.tgt) <==> ForthAndBack(q, ids.src, ids.tgt) == q
  {
    forall q ensures Clean(q, ids.src, ids.tgt) <==> ForthAndBack(q, ids.src, ids.tgt) == q {
      UndoExact(q, ids.src, ids.tgt);
    }
  }

  // ----- the database -----

  datatype Row = Row(camera: string, filePath: string)

  /** The transaction re-tags the source's rows, then rewrites the path of every row of the target. */
  function ReassignRow(ids: Ids, r: Row): Row
    requires ids.Valid()
  {
    var camera := if r.camera == ids.src then ids.tgt else r.camera;
    Row(camera, if camera == ids.tgt then ids.Out(r.filePath) else r.filePath)
  }

  function Reassign(ids: Ids, db: seq<Row>): (r: seq<Row>)
    requires ids.Valid()
    ensures |r| == |db|
  {
    seq(|db|, i requires 0 <= i < |db| => ReassignRow(ids, db[i]))
  }

  function FilePath(root: string, camera: string, path: string): string {
    root + "/" + camera + "/" + path
  }

  /**
   The rewritten path of a source row is the path its file is moved to, exactly when the storage root
   does not spell the source ID: the database replaces the ID anywhere in the stored path, the disk move
   only below the camera's directory.
   */
  lemma RowFollowsExact(ids: Ids, root: string, path: string)
    requires ids.Valid() && '/' !in ids.src
    ensures (ReassignRow(ids, Row(ids.src, FilePath(root, ids.src, path)))
             == Row(ids.tgt, FilePath(root, ids.tgt, ids.Out(path)))) <==> Absent(root, ids.src)
  {
    hide Absent, ReplaceAll, FilePath, Ids.Out;
    var rest := "/" + (ids.tgt + ("/" + ids.Out(path)));
    RewrittenPath(ids, root, path);
    MovedPath(ids, root, path);
    OutIsReplace(ids, root);
    SameFront(ids.Out(root), root, rest);
    UnchangedExact(root, ids.src, ids.tgt);
  }

  lemma RewrittenPath(ids: Ids, root: string, path: string)
    requires ids.Valid() && '/' !in ids.src
    ensures ids.Out(FilePath(root, ids.src, path)) == ids.Out(root) + ("/" + (ids.tgt + ("/" + ids.Out(path))))
  {
    hide ReplaceAll;
    var tail := "/" + path;
    assert FilePath(root, ids.src, path) == root + "/" + (ids.src + tail);
    SplitAtSlash(root, ids.src + tail, ids.src, ids.tgt);
    AtFront(tail, ids.src, ids.tgt);
    AfterSlash(ids, path);
  }

  lemma MovedPath(ids: Ids, root: string, path: string)
    requires ids.Valid()
    ensures FilePath(root, ids.tgt, ids.Out(path)) == root + ("/" + (ids.tgt + ("/" + ids.Out(path))))
  {
    hide Ids.Out;
  }

  lemma OutIsReplace(ids: Ids, path: string)
    requires ids.Valid()
    ensures ids.Out(path) == ReplaceAll(path, ids.src, ids.tgt)
  {
  }

  lemma SameFront(a: string, b: string, rest: string)
    ensures a + rest == b + rest <==> a == b
  {
    if a + rest == b + rest {
      assert |a + rest| == |b + rest|;
      assert a == (a + rest)[..|a|] && b == (b + rest)[..|b|];
    }
  }

  lemma AfterSlash(ids: Ids, path: string)
    requires ids.Valid() && '/' !in ids.src
    ensures ReplaceAll("/" + path, ids.src, ids.tgt) == "/" + ids.Out(path)
  {
    var tail := "/" + path;
    assert ids.src[0] in ids.src && tail[0] == '/';
    assert tail[1..] == path;
  }

  /** A row the target camera already had keeps its path exactly when the source ID is not in it. */
  lemma TargetRowExact(ids: Ids, r: Row)
    requires ids.Valid() && r.camera == ids.tgt
    ensures ReassignRow(ids, r) == r <==> Absent(r.filePath, ids.src)
  {
    UnchangedExact(r.filePath, ids.src, ids.tgt);
  }

  /** Merging cam-1 into cam-12 rewrites the paths of cam-12's own recordings. */
  lemma TargetRowBroken()
    ensures var ids := Ids("cam-1", "cam-12");
      ids.Valid() && ReassignRow(ids, Row("cam-12", FilePath("/data", "cam-12", "a.mp4")))
                     != Row("cam-12", FilePath("/data", "cam-12", "a.mp4"))
  {
    var ids := Ids("cam-1", "cam-12");
    var p := FilePath("/data", "cam-12", "a.mp4");
    assert ids.src <= p[6..];
    TargetRowExact(ids, Row("cam-12", p));
  }

  /** What a row points at: the recording in its camera's directory. */
  ghost predicate PointsAt<F>(ids: Ids, root: string, d: Disk<F>, r: Row, content: F) {
    || (r.camera == ids.src && exists p ::
          p in d.source && r.filePath == FilePath(root, ids.src, p) && d.source[p] == content)
    || (r.camera == ids.tgt && exists p ::
          p in d.target && r.filePath == FilePath(root, ids.tgt, p) && d.target[p] == content)
  }

  /** Every row of a recording of the source points, once rewritten, at that recording. */
  ghost predicate SourceRowsKept<F>(ids: Ids, root: string, d: Disk<F>, e: Disk<F>)
    requires ids.Valid()
  {
    forall p :: p in d.source ==>
      PointsAt(ids, root, e, ReassignRow(ids, Row(ids.src, FilePath(root, ids.src, p))), d.source[p])
  }

  /** So does every row of a recording of the target whose path does not spell the source ID. */
  ghost predicate TargetRowsKept<F>(ids: Ids, root: string, d: Disk<F>, e: Disk<F>)
    requires ids.Valid()
  {
    forall p :: p in d.target && Absent(FilePath(root, ids.tgt, p), ids.src) ==>
      PointsAt(ids, root, e, ReassignRow(ids, Row(ids.tgt, FilePath(root, ids.tgt, p))), d.target[p])
  }

  /**
   A complete merge leaves all these rows pointing at the recordings they had, exactly if no recording of
   the source is overwritten by a different one, nor one of the target that has such a row.
   */
  lemma {:induction false} MergeKeepsRecordings<F>(ids: Ids, root: string, d: Disk<F>, order: seq<string>,
      moves: string -> Attempt<F>)
    requires ids.Valid() && '/' !in ids.src && AllDone(moves, order) && Walks(order, d.source)
    requires Absent(root, ids.src)
    ensures var e := MoveOut(ids, d, order, moves).0;
      SourceRowsKept(ids, root, d, e) && TargetRowsKept(ids, root, d, e) <==>
        && Agree(ids, d)
        && forall k :: k in d.target && Absent(FilePath(root, ids.tgt, k), ids.src) ==> Spared(ids, d, k)
  {
    hide MoveOut, Agree, Spared, AllDone, Walks, SourceRowsKept, Absent, FilePath, PointsAt, ReassignRow;
    var e := MoveOut(ids, d, order, moves).0;
    ArrivedExact(ids, d, order, moves);
    SourceRowsExact(ids, root, d, e);
    if Arrived(ids, d, e) {
      forall k | k in d.target && Absent(FilePath(root, ids.tgt, k), ids.src)
        ensures PointsAt(ids, root, e, ReassignRow(ids, Row(ids.tgt, FilePath(root, ids.tgt, k))), d.target[k])
                <==> Spared(ids, d, k)
      {
        TargetRowExact(ids, Row(ids.tgt, FilePath(root, ids.tgt, k)));
        PointsExact(ids, root, e, k, d.target[k]);
        SparedExact(ids, d, order, moves, k);
      }
    }
  }

  lemma SourceRowsExact<F>(ids: Ids, root: string, d: Disk<F>, e: Disk<F>)
    requires ids.Valid() && '/' !in ids.src && Absent(root, ids.src)
    ensures SourceRowsKept(ids, root, d, e) <==> Arrived(ids, d, e)
  {
    hide Ids.Out, Absent, FilePath, PointsAt, ReassignRow;
    forall p | p in d.source
      ensures PointsAt(ids, root, e, ReassignRow(ids, Row(ids.src, FilePath(root, ids.src, p))), d.source[p])
              <==> ids.Out(p) in e.target && e.target[ids.Out(p)] == d.source[p]
    {
      RowFollowsExact(ids, root, p);
      PointsExact(ids, root, e, ids.Out(p), d.source[p]);
    }
  }

  lemma PointsExact<F>(ids: Ids, root: string, e: Disk<F>, k: string, content: F)
    requires ids.Valid()
    ensures PointsAt(ids, root, e, Row(ids.tgt, FilePath(root, ids.tgt, k)), content)
            <==> k in e.target && e.target[k] == content
  {
    forall p | FilePath(root, ids.tgt, p) == FilePath(root, ids.tgt, k) ensures p == k {
      var front := root + "/" + ids.tgt + "/";
      assert p == (front + p)[|front|..] && k == (front + k)[|front|..];
    }
  }

  // ----- the configuration -----

  datatype Camera = Camera(id: string, onvif: string, url: string, timelapse: bool)

  datatype Overrides = Overrides(onvif: string, url: string, noTimelapse: bool)

  function Without(cameras: seq<Camera>, id: string): seq<Camera> {
    if cameras == [] then []
    else (if cameras[0].id != id then [cameras[0]] else []) + Without(cameras[1..], id)
  }

  lemma {:induction false} WithoutSnoc(cameras: seq<Camera>, c: Camera, id: string)
    ensures Without(cameras + [c], id) == Without(cameras, id) + (if c.id != id then [c] else [])
  {
    if cameras == [] {
      assert [] + [c] == [c] && [c][1..] == [];
    } else {
      assert (cameras + [c])[1..] == cameras[1..] + [c];
      WithoutSnoc(cameras[1..], c, id);
    }
  }

  /** The filter drops the camera everywhere and keeps every other entry as often as it occurs. */
  lemma {:induction false} WithoutCounts(cameras: seq<Camera>, id: string)
    ensures forall c :: multiset(Without(cameras, id))[c] == if c.id == id then 0 else multiset(cameras)[c]
  {
    if cameras != [] {
      WithoutCounts(cameras[1..], id);
      assert cameras == [cameras[0]] + cameras[1..];
    }
  }

  function Override(c: Camera, tgt: string, o: Overrides): Camera {
    if c.id != tgt then c else
    Camera(c.id, if o.onvif != "" then o.onvif else c.onvif, if o.url != "" then o.url else c.url,
           c.timelapse && !o.noTimelapse)
  }

  function Overridden(cameras: seq<Camera>, tgt: string, o: Overrides): (r: seq<Camera>)
    ensures |r| == |cameras|
    ensures forall i :: 0 <= i < |cameras| ==> r[i] == Override(cameras[i], tgt, o)
  {
    seq(|cameras|, i requires 0 <= i < |cameras| => Override(cameras[i], tgt, o))
  }

  // ----- the saga -----

  datatype World<F> = World(db: seq<Row>, config: seq<Camera>, disk: Disk<F>)

  /** How the outside answers each step; `leftover` is what a failed restore leaves of the database. */
  datatype Env<F> = Env(backupOk: bool, reassignOk: bool, order: seq<string>, walkOk: bool,
                        moves: string -> Attempt<F>, saveOk: bool, backs: nat -> Attempt<F>,
                        leftover: Option<seq<Row>>)

  datatype Exit = Complete | Refused | DiskFailed | SaveFailed

  function Run<F>(ids: Ids, o: Overrides, w: World<F>, env: Env<F>): (World<F>, Exit)
    requires ids.Valid()
  {
    if !env.backupOk || !env.reassignOk then (w, Refused) else
    var (disk, manifest, moved) := MoveOut(ids, w.disk, env.order, env.moves);
    var restored := if env.leftover.None? then w.db else env.leftover.value;
    if !moved || !env.walkOk then (World(restored, w.config, disk), DiskFailed) else
    if !env.saveOk then (World(restored, w.config, MoveBack(ids, disk, manifest, env.backs, 0)), SaveFailed) else
    (World(Reassign(ids, w.db), Overridden(Without(w.config, ids.src), ids.tgt, o), disk), Complete)
  }

  /**
   When saving the configuration fails: whatever the rollback's own steps end as, it restores database,
   configuration and both directories exactly when the database copy comes back and the files are
   restorable.
   */
  lemma SaveFailureExact<F>(ids: Ids, o: Overrides, w: World<F>, env: Env<F>)
    requires ids.Valid() && Walks(env.order, w.disk.source) && Run(ids, o, w, env).1 == SaveFailed
    ensures Run(ids, o, w, env).0 == w <==>
      (env.leftover.None? || env.leftover.value == w.db) && Restorable(ids, w.disk, env.order, env.backs)
  {
    hide MoveOut, MoveBack, Restorable, Walks;
    MovesDone(ids, w.disk, env.order, env.moves);
    RollbackExact(ids, w.disk, env.order, env.moves, env.backs);
  }

  /** The first move leaves both directories as they are: it was refused, or its copy equals what lay there. */
  predicate NothingMoved<F(==)>(ids: Ids, d: Disk<F>, path: string, how: Attempt<F>)
    requires ids.Valid() && path in d.source
  {
    var to := ids.Out(path);
    match how
    case Done => false
    case Blocked => true
    case PartialCopy(junk) => to in d.target && d.target[to] == junk
    case CopyKept => to in d.target && d.target[to] == d.source[path]
  }

  /**
   When the disk move itself fails, the files already moved are not moved back, although database
   and configuration are: the original state is restored exactly when the database copy comes back, and
   there was nothing to move or the very first move left everything as it was.
   */
  lemma DiskFailureExact<F>(ids: Ids, o: Overrides, w: World<F>, env: Env<F>)
    requires ids.Valid() && Walks(env.order, w.disk.source) && Run(ids, o, w, env).1 == DiskFailed
    ensures env.order != [] ==> env.order[0] in w.disk.source
    ensures Run(ids, o, w, env).0 == w <==>
      && (env.leftover.None? || env.leftover.value == w.db)
      && (env.order == [] || NothingMoved(ids, w.disk, env.order[0], env.moves(env.order[0])))
  {
    WalkFacts(ids, env.order, w.disk.source);
    SourceShrinks(ids, w.disk, env.order, env.moves);
    if env.order != [] {
      assert env.order[0] in w.disk.source;
      FirstMove(ids, w.disk, env.order, env.moves);
    }
  }

  lemma FirstMove<F>(ids: Ids, d: Disk<F>, order: seq<string>, moves: string -> Attempt<F>)
    requires ids.Valid() && order != [] && order[0] in d.source
    ensures var (e, manifest, ok) := MoveOut(ids, d, order, moves);
      if moves(order[0]).Done? then |manifest| > 0
      else !ok && manifest == [] && (e == d <==> NothingMoved(ids, d, order[0], moves(order[0])))
  {
    var path, to := order[0], ids.Out(order[0]);
    match moves(path)
    case Done =>
    case Blocked =>
    case PartialCopy(junk) => SamePut(d.target, to, junk);
    case CopyKept => SamePut(d.target, to, d.source[path]);
  }

  lemma SamePut<K, V>(m: map<K, V>, k: K, v: V)
    ensures m[k := v] == m <==> k in m && m[k] == v
  {
    if m[k := v] == m {
      assert k in m[k := v] && m[k := v][k] == v;
    }
  }

  /** Moving out removes as many files from the source directory as it reports moved. */
  lemma {:induction false} SourceShrinks<F>(ids: Ids, d: Disk<F>, order: seq<string>, moves: string -> Attempt<F>)
    requires ids.Valid()
    ensures var (e, manifest, _) := MoveOut(ids, d, order, moves);
      |e.source| + |manifest| == |d.source|
    decreases |order|
  {
    if order != [] && order[0] in d.source && moves(order[0]).Done? {
      var source := d.source - {order[0]};
      assert source.Keys == d.source.Keys - {order[0]};
      assert |source.Keys| == |source| && |d.source.Keys| == |d.source|;
      SourceShrinks(ids, Disk(source, d.target[ids.Out(order[0]) := d.source[order[0]]]), order[1..], moves);
    }
  }

  /** A move that fails at some file has moved exactly the files before it, and says so. */
  lemma {:induction false} StopsAtFailure<F>(ids: Ids, d: Disk<F>, order: seq<string>, moves: string -> Attempt<F>,
      i: nat)
    requires ids.Valid() && NoDuplicates(order) && forall r :: r in order ==> r in d.source
    requires i < |order| && AllDone(moves, order[..i]) && !moves(order[i]).Done?
    ensures var (e, manifest, ok) := MoveOut(ids, d, order, moves);
      !ok && manifest == Renamed(ids, order[..i]) && e.source == d.source - (set r | r in order[..i])
    decreases |order|
  {
    hide Ids.Out;
    if i > 0 {
      var front, rest := order[..i], order[1..];
      var tail := front[1..];
      assert tail == rest[..i - 1];
      assert moves(order[0]) == Done by {
        assert front[0] in front;
      }
      var d1 := Disk(d.source - {order[0]}, d.target[ids.Out(order[0]) := d.source[order[0]]]);
      MoveOutFirst(ids, d, order, moves);
      RestOf(ids, order);
      RestOf(ids, front);
      StopsAtFailure(ids, d1, rest, moves, i - 1);
      hide MoveOut;
      RenamedStep(ids, front);
      MinusTwice(d.source, {order[0]}, set r | r in tail);
    } else {
      assert order[..0] == [] && Renamed(ids, order[..0]) == [];
    }
  }

  // ----- the world after a run -----

  /** Which run ends how, and what the ones that fail leave of database and configuration. */
  lemma {:induction false} RunExit<F>(ids: Ids, o: Overrides, w: World<F>, env: Env<F>)
    requires ids.Valid() && NoDuplicates(env.order) && forall r :: r in env.order ==> r in w.disk.source
    ensures var (z, exit) := Run(ids, o, w, env);
      var tagged := env.backupOk && env.reassignOk;
      var moved := AllDone(env.moves, env.order) && env.walkOk;
      && (exit == Refused <==> !tagged)
      && (exit == DiskFailed <==> tagged && !moved)
      && (exit == SaveFailed <==> tagged && moved && !env.saveOk)
      && (exit == Complete <==> tagged && moved && env.saveOk)
      && (exit == Refused ==> z == w)
      && (exit == DiskFailed || exit == SaveFailed ==>
            z.config == w.config && z.db == if env.leftover.None? then w.db else env.leftover.value)
  {
    hide MoveOut, MoveBack, Reassign, Overridden, AllDone;
    if MoveOut(ids, w.disk, env.order, env.moves).2 {
      MovesDone(ids, w.disk, env.order, env.moves);
    }
    if AllDone(env.moves, env.order) {
      MoveOutAll(ids, w.disk, env.order, env.moves);
    }
  }

  /** The rows of recordings, in either camera's directory, each point afterwards at the recording they had. */
  ghost predicate RowsFollow<F>(
      ids: Ids, root: string, d: Disk<F>, before: seq<Row>, e: Disk<F>, after: seq<Row>)
  {
    && |after| == |before|
    && (forall i, p :: 0 <= i < |before| && p in d.source && before[i] == Row(ids.src, FilePath(root, ids.src, p)) ==>
          PointsAt(ids, root, e, after[i], d.source[p]))
    && (forall i, p :: 0 <= i < |before| && p in d.target && before[i] == Row(ids.tgt, FilePath(root, ids.tgt, p))
                       && Absent(before[i].filePath, ids.src) ==>
          PointsAt(ids, root, e, after[i], d.target[p]))
  }

  /** Every recording of both cameras has its row. */
  ghost predicate Listed<F>(ids: Ids, root: string, d: Disk<F>, db: seq<Row>) {
    && (forall p :: p in d.source ==> Row(ids.src, FilePath(root, ids.src, p)) in db)
    && (forall p :: p in d.target ==> Row(ids.tgt, FilePath(root, ids.tgt, p)) in db)
  }

  /** The condition of MergeKeepsRecordings. */
  ghost predicate NothingOverwritten<F>(ids: Ids, root: string, d: Disk<F>)
    requires ids.Valid()
  {
    && Agree(ids, d)
    && forall k :: k in d.target && Absent(FilePath(root, ids.tgt, k), ids.src) ==> Spared(ids, d, k)
  }

  /**
   A run that completes leaves the source directory empty and no row with its camera: these and the rows of
   the target are the target's, with the path rewritten; the rows of other cameras are as they were.
   */
  lemma {:induction false} CompleteRows<F>(ids: Ids, o: Overrides, w: World<F>, env: Env<F>)
    requires ids.Valid() && Walks(env.order, w.disk.source) && Run(ids, o, w, env).1 == Complete
    ensures var z := Run(ids, o, w, env).0;
      && z.disk.source == map[]
      && |z.db| == |w.db|
      && (forall i :: 0 <= i < |z.db| ==> z.db[i].camera != ids.src)
      && (forall i :: 0 <= i < |z.db| && w.db[i].camera in {ids.src, ids.tgt} ==>
            z.db[i] == Row(ids.tgt, ReplaceAll(w.db[i].filePath, ids.src, ids.tgt)))
      && (forall i :: 0 <= i < |z.db| && w.db[i].camera !in {ids.src, ids.tgt} ==> z.db[i] == w.db[i])
  {
    var d := w.disk;
    WalkFacts(ids, env.order, d.source);
    MovesDone(ids, d, env.order, env.moves);
    MoveOutAll(ids, d, env.order, env.moves);
    hide MoveOut, ReplaceAll;
  }

  /**
   After a run that completes every row of a recording points at that recording in the resulting directories,
   if no recording is overwritten by a different one; and only then, if every recording has its row.
   */
  lemma {:induction false} CompleteExact<F>(ids: Ids, root: string, o: Overrides, w: World<F>, env: Env<F>)
    requires ids.Valid() && '/' !in ids.src && Absent(root, ids.src)
    requires Walks(env.order, w.disk.source) && Run(ids, o, w, env).1 == Complete
    ensures var z := Run(ids, o, w, env).0;
      && (NothingOverwritten(ids, root, w.disk) ==> RowsFollow(ids, root, w.disk, w.db, z.disk, z.db))
      && (Listed(ids, root, w.disk, w.db) && RowsFollow(ids, root, w.disk, w.db, z.disk, z.db) ==>
            NothingOverwritten(ids, root, w.disk))
  {
    hide MoveOut, Agree, Spared, AllDone, Walks, SourceRowsKept, TargetRowsKept, RowsFollow, Listed, Absent,
      FilePath, PointsAt, ReassignRow;
    MovesDone(ids, w.disk, env.order, env.moves);
    MergeKeepsRecordings(ids, root, w.disk, env.order, env.moves);
    var e := MoveOut(ids, w.disk, env.order, env.moves).0;
    if NothingOverwritten(ids, root, w.disk) {
      KeptMeansFollow(ids, root, w.disk, w.db, e);
    }
    if Listed(ids, root, w.disk, w.db) && RowsFollow(ids, root, w.disk, w.db, e, Reassign(ids, w.db)) {
      FollowMeansKept(ids, root, w.disk, w.db, e);
    }
  }

  lemma KeptMeansFollow<F>(ids: Ids, root: string, d: Disk<F>, db: seq<Row>, e: Disk<F>)
    requires ids.Valid() && SourceRowsKept(ids, root, d, e) && TargetRowsKept(ids, root, d, e)
    ensures RowsFollow(ids, root, d, db, e, Reassign(ids, db))
  {
    hide Absent, FilePath, PointsAt, ReassignRow;
  }

  lemma FollowMeansKept<F>(ids: Ids, root: string, d: Disk<F>, db: seq<Row>, e: Disk<F>)
    requires ids.Valid() && Listed(ids, root, d, db) && RowsFollow(ids, root, d, db, e, Reassign(ids, db))
    ensures SourceRowsKept(ids, root, d, e) && TargetRowsKept(ids, root, d, e)
  {
    hide Absent, FilePath, PointsAt, ReassignRow;
    forall p | p in d.source
      ensures PointsAt(ids, root, e, ReassignRow(ids, Row(ids.src, FilePath(root, ids.src, p))), d.source[p])
    {
      var i :| 0 <= i < |db| && db[i] == Row(ids.src, FilePath(root, ids.src, p));
      assert Reassign(ids, db)[i] == ReassignRow(ids, db[i]);
    }
    forall p | p in d.target && Absent(FilePath(root, ids.tgt, p), ids.src)
      ensures PointsAt(ids, root, e, ReassignRow(ids, Row(ids.tgt, FilePath(root, ids.tgt, p))), d.target[p])
    {
      var i :| 0 <= i < |db| && db[i] == Row(ids.tgt, FilePath(root, ids.tgt, p));
      assert Reassign(ids, db)[i] == ReassignRow(ids, db[i]);
    }
  }

  /** The entries of a configuration that are not the camera's, by their places and in order. */
  ghost predicate PlacesOfOthers(places: seq<nat>, cameras: seq<Camera>, id: string) {
    && (forall j :: 0 <= j < |places| ==> places[j] < |cameras|)
    && (forall j, k :: 0 <= j < k < |places| ==> places[j] < places[k])
    && (forall i: nat :: i < |cameras| ==> (i in places <==> cameras[i].id != id))
  }

  lemma {:induction false} WithoutPlaces(cameras: seq<Camera>, id: string) returns (places: seq<nat>)
    ensures PlacesOfOthers(places, cameras, id) && |places| == |Without(cameras, id)|
    ensures forall j :: 0 <= j < |places| ==> Without(cameras, id)[j] == cameras[places[j]]
    decreases |cameras|
  {
    if cameras == [] {
      places := [];
    } else {
      var n := |cameras| - 1;
      assert cameras == cameras[..n] + [cameras[n]];
      WithoutSnoc(cameras[..n], cameras[n], id);
      hide Without;
      places := WithoutPlaces(cameras[..n], id);
      ghost var before := places;
      if cameras[n].id != id {
        places := before + [n];
        assert forall i: nat :: i in places <==> i in before || i == n;
      }
      assert n !in before;
    }
  }

  /** What the flags make of an entry of the target. */
  predicate TargetUpdated(before: Camera, after: Camera, o: Overrides) {
    && after.id == before.id
    && (o.onvif != "" ==> after.onvif == o.onvif) && (o.onvif == "" ==> after.onvif == before.onvif)
    && (o.url != "" ==> after.url == o.url) && (o.url == "" ==> after.url == before.url)
    && (after.timelapse <==> before.timelapse && !o.noTimelapse)
  }

  /** The new configuration has every entry but the source's, once and in order; flags change the target's only. */
  ghost predicate Reconfigured(ids: Ids, o: Overrides, before: seq<Camera>, after: seq<Camera>, places: seq<nat>) {
    && PlacesOfOthers(places, before, ids.src) && |after| == |places|
    && forall j :: 0 <= j < |after| ==>
         if before[places[j]].id == ids.tgt then TargetUpdated(before[places[j]], after[j], o)
         else after[j] == before[places[j]]
  }

  lemma {:induction false} CompleteConfig<F>(ids: Ids, o: Overrides, w: World<F>, env: Env<F>)
    requires ids.Valid() && Run(ids, o, w, env).1 == Complete
    ensures var after := Run(ids, o, w, env).0.config;
      && (forall j :: 0 <= j < |after| ==> after[j].id != ids.src)
      && exists places :: Reconfigured(ids, o, w.config, after, places)
  {
    hide MoveOut, MoveBack, Reassign, Without;
    var after := Run(ids, o, w, env).0.config;
    assert after == Overridden(Without(w.config, ids.src), ids.tgt, o);
    var places := WithoutPlaces(w.config, ids.src);
    assert Reconfigured(ids, o, w.config, after, places);
    forall j | 0 <= j < |after| ensures after[j].id != ids.src {
      assert places[j] in places;
    }
  }

  // ----- the program -----

  method RemoveCamera(cameras: seq<Camera>, id: string) returns (updated: seq<Camera>)
    ensures updated == Without(cameras, id)
  {
    updated := [];
    for i := 0 to |cameras|
      invariant updated == Without(cameras[..i], id)
    {
      WithoutSnoc(cameras[..i], cameras[i], id);
      assert cameras[..i + 1] == cameras[..i] + [cameras[i]];
      if cameras[i].id != id {
        updated := updated + [cameras[i]];
      }
    }
    assert cameras[..|cameras|] == cameras;
  }

  class Merge<F> {
    var db: seq<Row>
    var config: seq<Camera>
    var source: map<string, F>
    var target: map<string, F>

    function State(): World<F>
      reads this
    {
      World(db, config, Disk(source, target))
    }

    constructor (w: World<F>)
      ensures State() == w
    {
      db, config, source, target := w.db, w.config, w.disk.source, w.disk.target;
    }

    /** Walks the source directory, moving each file and noting where it went. */
    method MergeDiskDirectories(ids: Ids, order: seq<string>, walkOk: bool, moves: string -> Attempt<F>)
      returns (manifest: seq<string>, ok: bool)
      requires ids.Valid()
      modifies this`source, this`target
      ensures var (d, m, all) := MoveOut(ids, old(State().disk), order, moves);
        State().disk == d && manifest == m && ok == (all && walkOk)
    {
      manifest := [];
      assert order[0..] == order;
      for i := 0 to |order|
        invariant var whole := MoveOut(ids, old(State().disk), order, moves);
          var rest := MoveOut(ids, State().disk, order[i..], moves);
          whole.0 == rest.0 && whole.1 == manifest + rest.1 && whole.2 == rest.2
      {
        var path := order[i];
        assert order[i..][1..] == order[i + 1..];
        ghost var rest := MoveOut(ids, State().disk, order[i..], moves);
        var done;
        source, target, done := Move(source, target, path, ids.Out(path), moves(path)).0,
                                Move(source, target, path, ids.Out(path), moves(path)).1,
                                Move(source, target, path, ids.Out(path), moves(path)).2;
        if !done {
          return manifest, false;
        }
        manifest := manifest + [ids.Out(path)];
      }
      assert order[|order|..] == [];
      return manifest, walkOk;
    }

    /** Best-effort undo; only what is flagged as done is undone. */
    method Rollback(ids: Ids, manifest: seq<string>, backs: nat -> Attempt<F>, diskMoved: bool,
                    dataReassigned: bool, backup: seq<Row>, leftover: Option<seq<Row>>)
      requires ids.Valid()
      modifies this`source, this`target, this`db
      ensures State().disk
              == if diskMoved then MoveBack(ids, old(State().disk), manifest, backs, 0) else old(State().disk)
      ensures db == if !dataReassigned then old(db) else if leftover.None? then backup else leftover.value
    {
      if diskMoved {
        assert manifest[0..] == manifest;
        for i := 0 to |manifest|
          invariant MoveBack(ids, old(State().disk), manifest, backs, 0)
              == MoveBack(ids, State().disk, manifest[i..], backs, i)
          invariant db == old(db)
        {
          var path := manifest[i];
          assert manifest[i..][1..] == manifest[i + 1..];
          target, source := Move(target, source, path, ids.Back(path), backs(i)).0,
                            Move(target, source, path, ids.Back(path), backs(i)).1;
        }
        assert manifest[|manifest|..] == [];
      }
      if dataReassigned {
        db := if leftover.None? then backup else leftover.value;
      }
    }

    method Execute(ids: Ids, o: Overrides, env: Env<F>) returns (exit: Exit)
      requires ids.Valid()
      modifies this
      ensures (State(), exit) == Run(ids, o, old(State()), env)
    {
      if !env.backupOk {
        return Refused;
      }
      var backup := db;
      if !env.reassignOk {
        return Refused;
      }
      db := Reassign(ids, db);
      var dataReassigned, diskMoved := true, false;
      var manifest, ok := MergeDiskDirectories(ids, env.order, env.walkOk, env.moves);
      if !ok {
        Rollback(ids, manifest, env.backs, diskMoved, dataReassigned, backup, env.leftover);
        return DiskFailed;
      }
      diskMoved := true;
      var kept := RemoveCamera(config, ids.src);
      var updated := Overridden(kept, ids.tgt, o);
      if !env.saveOk {
        Rollback(ids, manifest, env.backs, diskMoved, dataReassigned, backup, env.leftover);
        return SaveFailed;
      }
      config := updated;
      return Complete;
    }
  }
}

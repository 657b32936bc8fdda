/**
 The resumable model download: a part file, a sidecar with the expected size, and an atomic install. What
 a run does to the disk is a list of operations, one for each write; a crash cuts it short anywhere.
 */
module Download {
  import opened Bytes
  import opened Decimal

  const MIN_MODEL_SIZE: nat := 5 * 1024 * 1024
  const ATTEMPTS: nat := 5

  datatype Sidecar = Missing | Unreadable | Size(total: int)

  datatype Disk = Disk(part: Option<seq<Byte>>, sidecar: Sidecar, dest: Option<seq<Byte>>)

  // ----- writes that reach the disk -----

  datatype Op =
    | Truncate                // open the part file for a fresh download
    | Append(chunk: seq<Byte>)
    | ClearSidecar            // the sidecar file is emptied before it is written
    | NoteSize(total: int)
    | DropSidecar
    | DropPart
    | Install                 // rename the part file to its final name

  function Apply(d: Disk, op: Op): Disk {
    match op
    case Truncate => d.(part := Some([]))
    case Append(chunk) => if d.part.Some? then d.(part := Some(d.part.value + chunk)) else d
    case ClearSidecar => d.(sidecar := Unreadable)
    case NoteSize(total) => d.(sidecar := Size(total))
    case DropSidecar => d.(sidecar := Missing)
    case DropPart => d.(part := None)
    case Install => if d.part.Some? then d.(part := None, dest := d.part) else d
  }

  function ApplyAll(d: Disk, ops: seq<Op>): Disk
    decreases |ops|
  {
    if ops == [] then d else ApplyAll(Apply(d, ops[0]), ops[1..])
  }

  lemma {:induction false} ApplyConcat(d: Disk, a: seq<Op>, b: seq<Op>)
    ensures ApplyAll(d, a + b) == ApplyAll(ApplyAll(d, a), b)
    decreases |a|
  {
    if a == [] {
      assert a + b == b;
    } else {
      assert (a + b)[1..] == a[1..] + b;
      ApplyConcat(Apply(d, a[0]), a[1..], b);
    }
  }

  // ----- one attempt -----

  /** The server's answer; a total of 0 or less stands for one it did not give. */
  datatype Response =
    | NoAnswer
    | OtherStatus
    | PartialContent(total: int)
    | Whole(length: int)

  /** How writing the sidecar can end: done, refused, or broken off after the file was emptied. */
  datatype Note = Noted | Refused | Emptied

  /** Everything the outside decides about one attempt. */
  datatype Attempt = Attempt(
    response: Response,
    openOk: bool,
    note: Note,
    chunks: seq<seq<Byte>>,   // what was read and written before the copy ended
    clean: bool,              // the copy ended with the end of the body
    renameOk: bool)           // the final rename, if it comes to that, goes through

  function Expected(r: Response): int {
    match r
    case PartialContent(total) => total
    case Whole(length) => length
    case _ => 0
  }

  function Appends(chunks: seq<seq<Byte>>): (ops: seq<Op>)
    ensures |ops| == |chunks|
  {
    seq(|chunks|, i requires 0 <= i < |chunks| => Append(chunks[i]))
  }

  /** Size of what a resumed request asks to continue after. */
  function Existing(d: Disk): nat {
    if d.part.Some? then |d.part.value| else 0
  }

  /** The part file can be after: appending does not create it. */
  predicate Opens(d: Disk, a: Attempt) {
    a.openOk && (a.response.PartialContent? ==> d.part.Some?)
  }

  /** The writes of downloadOnceWithResume, in order. */
  function AttemptOps(d: Disk, a: Attempt): seq<Op> {
    if a.response.NoAnswer? || a.response.OtherStatus? || !Opens(d, a) then [] else
    (if a.response.Whole? then [Truncate] else [])
    + BodyOps(a)
  }

  /** The writes after the part file is open. */
  function BodyOps(a: Attempt): seq<Op> {
    if Expected(a.response) <= 0 then Appends(a.chunks)
    else match a.note
      case Refused => []
      case Emptied => [ClearSidecar]
      case Noted => [ClearSidecar, NoteSize(Expected(a.response))] + Appends(a.chunks)
  }

  /** Whether downloadOnceWithResume returns without an error. */
  predicate AttemptOk(d: Disk, a: Attempt) {
    && !a.response.NoAnswer? && !a.response.OtherStatus? && Opens(d, a)
    && (Expected(a.response) > 0 ==> a.note.Noted?)
    && a.clean
    && (Expected(a.response) > 0 ==>
          (if a.response.PartialContent? then Existing(d) else 0) + |Concat(a.chunks)| >= Expected(a.response))
  }

  // ----- verify and install -----

  predicate Verified(d: Disk) {
    && d.part.Some? && |d.part.value| >= MIN_MODEL_SIZE
    && (d.sidecar.Size? ==> |d.part.value| == d.sidecar.total)
  }

  predicate Accepts(d: Disk, a: Attempt) {
    Verified(d) && a.renameOk
  }

  /** The sidecar goes in every case; the part file is left where it is when it is rejected. */
  function VerifyOps(d: Disk, a: Attempt): seq<Op> {
    (if Accepts(d, a) then [Install] else []) + [DropSidecar]
  }

  // ----- one run of the command -----

  /** The writes of a run whose remaining attempts go as given. */
  function RunOps(d: Disk, attempts: seq<Attempt>): seq<Op>
    decreases |attempts|
  {
    if attempts == [] then [DropPart, DropSidecar] else
    var ops := AttemptOps(d, attempts[0]);
    var d1 := ApplyAll(d, ops);
    if !AttemptOk(d, attempts[0]) then ops + RunOps(d1, attempts[1..]) else
    var check := VerifyOps(d1, attempts[0]);
    if Accepts(d1, attempts[0]) then ops + check else ops + check + RunOps(ApplyAll(d1, check), attempts[1..])
  }

  // ----- a server that serves one fixed file -----

  predicate Prefix(a: seq<Byte>, b: seq<Byte>) {
    |a| <= |b| && a == b[..|a|]
  }

  /** Answers about the remote file are true as far as they go. */
  predicate Faithful(remote: seq<Byte>, d: Disk, a: Attempt) {
    match a.response
    case NoAnswer => true
    case OtherStatus => true
    case PartialContent(total) =>
      && 0 < Existing(d) <= |remote|
      && (total > 0 ==> total == |remote|)
      && Prefix(Concat(a.chunks), remote[Existing(d)..])
    case Whole(length) =>
      && (length > 0 ==> length == |remote|)
      && Prefix(Concat(a.chunks), remote)
  }

  /** Every attempt of a run is answered faithfully, at the state it finds. */
  predicate FaithfulRun(remote: seq<Byte>, d: Disk, attempts: seq<Attempt>)
    decreases |attempts|
  {
    if attempts == [] then true else
    var d1 := ApplyAll(d, AttemptOps(d, attempts[0]));
    && Faithful(remote, d, attempts[0])
    && (if !AttemptOk(d, attempts[0]) then FaithfulRun(remote, d1, attempts[1..])
        else Accepts(d1, attempts[0]) || FaithfulRun(remote, ApplyAll(d1, VerifyOps(d1, attempts[0])), attempts[1..]))
  }

  /** No used answer leaves the total out. */
  predicate TotalsGiven(attempts: seq<Attempt>) {
    forall i :: 0 <= i < |attempts| ==>
      (attempts[i].response.PartialContent? || attempts[i].response.Whole? ==> Expected(attempts[i].response) > 0)
  }

  // ----- what every state on the disk satisfies -----

  /** The part file is a prefix of the remote, and a readable sidecar tells its true size. */
  predicate Sound(remote: seq<Byte>, d: Disk) {
    && (d.part.Some? ==> Prefix(d.part.value, remote))
    && (d.sidecar.Size? ==> d.sidecar.total == |remote|)
  }

  /**
   The installed file is the one from before or a prefix of the remote of at least 5 MB; when every
   answer gives the total (`exact`), nothing but the whole remote.
   */
  predicate Installed(remote: seq<Byte>, before: Option<seq<Byte>>, exact: bool, d: Disk) {
    || d.dest == before
    || (d.dest.Some? && Prefix(d.dest.value, remote) && |d.dest.value| >= MIN_MODEL_SIZE
        && (exact ==> d.dest.value == remote))
  }

  /** What is fixed while the disk changes. */
  datatype Case = Case(remote: seq<Byte>, before: Option<seq<Byte>>, exact: bool) {
    predicate Holds(d: Disk) { Sound(remote, d) && Installed(remote, before, exact, d) }

    /** Every prefix of a list of writes, so every crash, leaves the disk so. */
    ghost predicate Throughout(d: Disk, ops: seq<Op>) {
      forall k :: 0 <= k <= |ops| ==> Holds(ApplyAll(d, ops[..k]))
    }
  }

  lemma ThroughoutConcat(c: Case, d: Disk, a: seq<Op>, b: seq<Op>)
    requires c.Throughout(d, a) && c.Throughout(ApplyAll(d, a), b)
    ensures c.Throughout(d, a + b) && ApplyAll(d, a + b) == ApplyAll(ApplyAll(d, a), b)
  {
    ApplyConcat(d, a, b);
    forall k | 0 <= k <= |a + b| ensures c.Holds(ApplyAll(d, (a + b)[..k])) {
      if k <= |a| {
        assert (a + b)[..k] == a[..k];
      } else {
        assert (a + b)[..k] == a + b[..k - |a|];
        ApplyConcat(d, a, b[..k - |a|]);
      }
    }
  }

  lemma ThroughoutOne(c: Case, d: Disk, op: Op)
    requires c.Holds(d) && c.Holds(Apply(d, op))
    ensures c.Throughout(d, [op]) && ApplyAll(d, [op]) == Apply(d, op)
  {
    assert [op][..0] == [] && [op][..1] == [op] && [op][1..] == [];
  }

  lemma ThroughoutEnds(c: Case, d: Disk, ops: seq<Op>)
    requires c.Throughout(d, ops)
    ensures c.Holds(d) && c.Holds(ApplyAll(d, ops))
  {
    assert ops[..0] == [] && ops[..|ops|] == ops;
  }

  /** Appending a prefix of what is still missing, chunk by chunk. */
  lemma {:induction false} AppendsSound(c: Case, d: Disk, chunks: seq<seq<Byte>>)
    requires c.Holds(d) && d.part.Some?
    requires Prefix(d.part.value + Concat(chunks), c.remote)
    ensures c.Throughout(d, Appends(chunks))
    ensures ApplyAll(d, Appends(chunks)) == d.(part := Some(d.part.value + Concat(chunks)))
    decreases |chunks|
  {
    if chunks == [] {
      assert d.part.value + [] == d.part.value;
    } else {
      var d1 := Apply(d, Append(chunks[0]));
      assert d.part.value + Concat(chunks) == d1.part.value + Concat(chunks[1..]);
      ThroughoutOne(c, d, Append(chunks[0]));
      AppendsSound(c, d1, chunks[1..]);
      assert Appends(chunks) == [Append(chunks[0])] + Appends(chunks[1..]);
      ThroughoutConcat(c, d, [Append(chunks[0])], Appends(chunks[1..]));
    }
  }

  lemma BodySound(c: Case, d: Disk, a: Attempt)
    requires c.Holds(d) && d.part.Some? && Prefix(d.part.value + Concat(a.chunks), c.remote)
    requires Expected(a.response) > 0 ==> Expected(a.response) == |c.remote|
    ensures c.Throughout(d, BodyOps(a))
    ensures (Expected(a.response) > 0 ==> a.note.Noted?) ==>
      ApplyAll(d, BodyOps(a)).part == Some(d.part.value + Concat(a.chunks))
  {
    if Expected(a.response) <= 0 {
      AppendsSound(c, d, a.chunks);
    } else if a.note.Refused? {
      assert c.Throughout(d, []);
    } else {
      var d1 := Apply(d, ClearSidecar);
      ThroughoutOne(c, d, ClearSidecar);
      if a.note.Noted? {
        var d2 := Apply(d1, NoteSize(Expected(a.response)));
        ThroughoutOne(c, d1, NoteSize(Expected(a.response)));
        ThroughoutConcat(c, d, [ClearSidecar], [NoteSize(Expected(a.response))]);
        assert [ClearSidecar] + [NoteSize(Expected(a.response))] == [ClearSidecar, NoteSize(Expected(a.response))];
        AppendsSound(c, d2, a.chunks);
        ThroughoutConcat(c, d, [ClearSidecar, NoteSize(Expected(a.response))], Appends(a.chunks));
      }
    }
  }

  /**
   One faithfully answered attempt: sound at every write; and if it succeeds with a known total, the
   part file is the whole remote.
   */
  lemma AttemptSound(c: Case, d: Disk, a: Attempt)
    requires c.Holds(d) && Faithful(c.remote, d, a)
    ensures c.Throughout(d, AttemptOps(d, a))
    ensures AttemptOk(d, a) && Expected(a.response) > 0 ==> ApplyAll(d, AttemptOps(d, a)).part == Some(c.remote)
  {
    if a.response.NoAnswer? || a.response.OtherStatus? || !Opens(d, a) {
      assert c.Throughout(d, []);
    } else if a.response.Whole? {
      var d1 := Apply(d, Truncate);
      ThroughoutOne(c, d, Truncate);
      assert [] + Concat(a.chunks) == Concat(a.chunks);
      BodySound(c, d1, a);
      ThroughoutConcat(c, d, [Truncate], BodyOps(a));
      if AttemptOk(d, a) && Expected(a.response) > 0 {
        FullPrefix(Concat(a.chunks), c.remote);
      }
    } else {
      var part := d.part.value;
      assert Prefix(part + Concat(a.chunks), c.remote) by {
        assert c.remote == c.remote[..|part|] + c.remote[|part|..];
      }
      BodySound(c, d, a);
      assert [] + BodyOps(a) == BodyOps(a);
      if AttemptOk(d, a) && Expected(a.response) > 0 {
        FullPrefix(part + Concat(a.chunks), c.remote);
      }
    }
  }

  // ----- what one attempt leaves, and when it ends well -----

  /** The file or its rest is answered and the part file opens; appending does not create it. */
  predicate Receives(d: Disk, a: Attempt) {
    a.openOk && (a.response.Whole? || (a.response.PartialContent? && d.part.Some?))
  }

  /** What the part file had, if that is continued, and what was received. */
  function Received(d: Disk, a: Attempt): seq<Byte>
    requires Receives(d, a)
  {
    (if a.response.PartialContent? then d.part.value else []) + Concat(a.chunks)
  }

  /** The disk after an attempt. */
  function Left(d: Disk, a: Attempt): Disk {
    if !Receives(d, a) then d else
    var begun := if a.response.Whole? then d.(part := Some([])) else d;
    if Expected(a.response) <= 0 then begun.(part := Some(Received(d, a)))
    else match a.note
      case Refused => begun
      case Emptied => begun.(sidecar := Unreadable)
      case Noted => begun.(part := Some(Received(d, a)), sidecar := Size(Expected(a.response)))
  }

  lemma {:induction false} AppendsLeave(d: Disk, chunks: seq<seq<Byte>>)
    requires d.part.Some?
    ensures ApplyAll(d, Appends(chunks)) == d.(part := Some(d.part.value + Concat(chunks)))
    decreases |chunks|
  {
    if chunks == [] {
      assert d.part.value + [] == d.part.value;
    } else {
      var d1 := Apply(d, Append(chunks[0]));
      assert d.part.value + Concat(chunks) == d1.part.value + Concat(chunks[1..]);
      AppendsLeave(d1, chunks[1..]);
      assert Appends(chunks)[1..] == Appends(chunks[1..]);
    }
  }

  lemma NotedOps(d: Disk, total: int, rest: seq<Op>)
    ensures ApplyAll(d, [ClearSidecar, NoteSize(total)] + rest) == ApplyAll(d.(sidecar := Size(total)), rest)
    ensures ApplyAll(d, [ClearSidecar]) == d.(sidecar := Unreadable)
  {
    var d1 := Apply(d, ClearSidecar);
    assert [ClearSidecar][1..] == [];
    assert ([ClearSidecar, NoteSize(total)] + rest)[1..] == [NoteSize(total)] + rest;
    assert ([NoteSize(total)] + rest)[1..] == rest;
  }

  /**
   Whatever the answer: an attempt without an answer or an open part file changes nothing; any other
   continues or restarts the part file, and unless the size was to be noted and was not, adds all it received.
   */
  lemma {:induction false} AttemptLeaves(d: Disk, a: Attempt)
    ensures ApplyAll(d, AttemptOps(d, a)) == Left(d, a)
  {
    if Receives(d, a) {
      var begun := if a.response.Whole? then d.(part := Some([])) else d;
      assert ApplyAll(d, AttemptOps(d, a)) == ApplyAll(begun, BodyOps(a)) by {
        if a.response.Whole? {
          assert ([Truncate] + BodyOps(a))[1..] == BodyOps(a);
        } else {
          assert [] + BodyOps(a) == BodyOps(a);
        }
      }
      NotedOps(begun, Expected(a.response), Appends(a.chunks));
      AppendsLeave(begun, a.chunks);
      AppendsLeave(begun.(sidecar := Size(Expected(a.response))), a.chunks);
    }
  }

  predicate IsAppends(ops: seq<Op>) {
    forall i :: 0 <= i < |ops| ==> ops[i].Append?
  }

  /** Writes before the first byte is added, and writes that only add bytes. */
  lemma {:induction false} SomeWrites(d: Disk, ops: seq<Op>)
    ensures (forall i :: 0 <= i < |ops| ==> ops[i].Truncate? || ops[i].ClearSidecar? || ops[i].NoteSize?)
            ==> ApplyAll(d, ops).part == d.part || ApplyAll(d, ops).part == Some([])
    ensures IsAppends(ops) ==> ApplyAll(d, ops).sidecar == d.sidecar
    decreases |ops|
  {
    if ops != [] {
      SomeWrites(Apply(d, ops[0]), ops[1..]);
    }
  }

  /** The writes of an attempt before the first byte, when its size is known and noted. */
  function Begin(a: Attempt): seq<Op> {
    (if a.response.Whole? then [Truncate] else []) + [ClearSidecar, NoteSize(Expected(a.response))]
  }

  lemma BeginNotes(d: Disk, a: Attempt)
    ensures ApplyAll(d, Begin(a)).sidecar == Size(Expected(a.response))
  {
    var start := if a.response.Whole? then [Truncate] else [];
    var noted := [ClearSidecar, NoteSize(Expected(a.response))];
    NotedOps(ApplyAll(d, start), Expected(a.response), []);
    assert noted + [] == noted;
    hide ApplyAll;
    ApplyConcat(d, start, noted);
  }

  lemma AttemptBegins(d: Disk, a: Attempt)
    requires Expected(a.response) > 0
    ensures AttemptOps(d, a) == Begin(a) + Appends(a.chunks) || AttemptOps(d, a) <= Begin(a)
  {
  }

  /** A known total is on the disk before the first byte is: an attempt cut anywhere leaves it with what it added. */
  lemma {:induction false} SizeFirst(d: Disk, a: Attempt, k: nat)
    requires Expected(a.response) > 0 && k <= |AttemptOps(d, a)|
    ensures var e := ApplyAll(d, AttemptOps(d, a)[..k]);
      e.part == d.part || e.part == Some([]) || e.sidecar == Size(Expected(a.response))
  {
    hide ApplyAll, AttemptOps, Expected;
    var ops, begin := AttemptOps(d, a), Begin(a);
    AttemptBegins(d, a);
    if k <= |begin| {
      assert ops[..k] == begin[..k];
      SomeWrites(d, ops[..k]);
    } else {
      var added := Appends(a.chunks)[..k - |begin|];
      assert ops[..k] == begin + added;
      ApplyConcat(d, begin, added);
      BeginNotes(d, a);
      SomeWrites(ApplyAll(d, begin), added);
    }
  }

  /**
   When a faithfully answered attempt ends well: the part file opens and the copy ends cleanly, and with
   a known total the size is noted and the part file then is the whole remote.
   */
  lemma {:induction false} AttemptExact(remote: seq<Byte>, d: Disk, a: Attempt)
    requires Sound(remote, d) && Faithful(remote, d, a)
    ensures var part := ApplyAll(d, AttemptOps(d, a)).part;
      AttemptOk(d, a) <==> (a.openOk && a.clean &&
                            match a.response
                            case NoAnswer => false
                            case OtherStatus => false
                            case PartialContent(total) =>
                              d.part.Some? && (total > 0 ==> a.note.Noted? && part == Some(remote))
                            case Whole(total) => total > 0 ==> a.note.Noted? && part == Some(remote))
  {
    AttemptLeaves(d, a);
    if Receives(d, a) {
      ReceivedPrefix(remote, d, a);
      FullPrefix(Received(d, a), remote);
    }
    hide Faithful, Sound, Prefix, ApplyAll, AttemptOps;
  }

  lemma ReceivedPrefix(remote: seq<Byte>, d: Disk, a: Attempt)
    requires Sound(remote, d) && Faithful(remote, d, a) && Receives(d, a)
    ensures Prefix(Received(d, a), remote)
    ensures Expected(a.response) > 0 ==> Expected(a.response) == |remote|
  {
    if a.response.PartialContent? {
      var part := d.part.value;
      assert remote == remote[..|part|] + remote[|part|..];
    }
  }

  lemma FullPrefix(a: seq<Byte>, b: seq<Byte>)
    requires Prefix(a, b)
    ensures a == b <==> |a| >= |b|
  {
    assert b[..|b|] == b;
  }

  /** Installing and dropping the sidecar; what is installed is whole whenever the sidecar is readable. */
  lemma VerifySound(c: Case, d: Disk, a: Attempt)
    requires c.Holds(d)
    requires c.exact ==> d.part == Some(c.remote)
    ensures c.Throughout(d, VerifyOps(d, a))
  {
    if Accepts(d, a) {
      ThroughoutOne(c, d, Install);
      ThroughoutOne(c, Apply(d, Install), DropSidecar);
      ThroughoutConcat(c, d, [Install], [DropSidecar]);
    } else {
      ThroughoutOne(c, d, DropSidecar);
      assert [] + [DropSidecar] == [DropSidecar];
    }
  }

  /** Wherever in the writes a file is installed while its sidecar is readable, it is the whole remote. */
  ghost predicate CompleteInstalls(remote: seq<Byte>, d: Disk, ops: seq<Op>) {
    forall k :: 0 <= k < |ops| && ops[k] == Install ==>
      var e := ApplyAll(d, ops[..k]); e.sidecar.Size? ==> e.part == Some(remote)
  }

  lemma {:induction false} InstallsConcat(remote: seq<Byte>, d: Disk, a: seq<Op>, b: seq<Op>)
    requires CompleteInstalls(remote, d, a) && CompleteInstalls(remote, ApplyAll(d, a), b)
    ensures CompleteInstalls(remote, d, a + b)
  {
    hide ApplyAll;
    forall k | 0 <= k < |a + b| && (a + b)[k] == Install
      ensures var e := ApplyAll(d, (a + b)[..k]); e.sidecar.Size? ==> e.part == Some(remote)
    {
      if k < |a| {
        assert (a + b)[..k] == a[..k];
      } else {
        assert (a + b)[..k] == a + b[..k - |a|];
        ApplyConcat(d, a, b[..k - |a|]);
      }
    }
  }

  lemma NoInstalls(remote: seq<Byte>, d: Disk, ops: seq<Op>)
    requires KeepsDest(ops)
    ensures CompleteInstalls(remote, d, ops)
  {
  }

  lemma VerifyInstalls(remote: seq<Byte>, d: Disk, a: Attempt)
    requires Sound(remote, d)
    ensures CompleteInstalls(remote, d, VerifyOps(d, a))
  {
    if Accepts(d, a) {
      var ops := VerifyOps(d, a);
      assert ops == [Install, DropSidecar] && ops[..0] == [];
      if d.sidecar.Size? {
        FullPrefix(d.part.value, remote);
      }
    }
  }

  /**
   Over a whole faithfully answered run, whichever answers give totals and whichever attempts fail: a
   file installed while its sidecar is readable is exactly the remote.
   */
  lemma {:induction false} RunInstalls(remote: seq<Byte>, d: Disk, attempts: seq<Attempt>)
    requires Sound(remote, d) && FaithfulRun(remote, d, attempts)
    ensures CompleteInstalls(remote, d, RunOps(d, attempts))
    decreases |attempts|
  {
    hide CompleteInstalls, Sound;
    if attempts == [] {
      NoInstalls(remote, d, [DropPart, DropSidecar]);
    } else {
      var ops := AttemptOps(d, attempts[0]);
      var d1 := ApplyAll(d, ops);
      AttemptStaysSound(remote, d, attempts[0]);
      NoInstalls(remote, d, ops);
      if !AttemptOk(d, attempts[0]) {
        RunInstalls(remote, d1, attempts[1..]);
        InstallsConcat(remote, d, ops, RunOps(d1, attempts[1..]));
      } else {
        var check := VerifyOps(d1, attempts[0]);
        VerifyInstalls(remote, d1, attempts[0]);
        InstallsConcat(remote, d, ops, check);
        if !Accepts(d1, attempts[0]) {
          var d2 := ApplyAll(d1, check);
          StillSound(remote, d1, check);
          RunInstalls(remote, d2, attempts[1..]);
          ApplyConcat(d, ops, check);
          InstallsConcat(remote, d, ops + check, RunOps(d2, attempts[1..]));
        }
      }
    }
  }

  lemma AttemptStaysSound(remote: seq<Byte>, d: Disk, a: Attempt)
    requires Sound(remote, d) && Faithful(remote, d, a)
    ensures Sound(remote, ApplyAll(d, AttemptOps(d, a))) && KeepsDest(AttemptOps(d, a))
  {
    var c := Case(remote, d.dest, false);
    AttemptSound(c, d, a);
    ThroughoutEnds(c, d, AttemptOps(d, a));
  }

  lemma StillSound(remote: seq<Byte>, d: Disk, ops: seq<Op>)
    requires Sound(remote, d) && ops == [DropSidecar]
    ensures Sound(remote, ApplyAll(d, ops))
  {
    assert ops[1..] == [];
  }

  /**
   A whole run against the fixed remote: at every write, so after every crash, the part file is a
   prefix of the remote, a readable sidecar tells its true size, and the installed file is old or a
   prefix of at least 5 MB; and it is the whole remote if it was installed beside a readable sidecar, or
   if every answer gave the total.
   */
  lemma {:induction false} RunSound(c: Case, d: Disk, attempts: seq<Attempt>)
    requires c.Holds(d) && FaithfulRun(c.remote, d, attempts)
    requires c.exact ==> TotalsGiven(attempts)
    ensures c.Throughout(d, RunOps(d, attempts)) && CompleteInstalls(c.remote, d, RunOps(d, attempts))
    decreases |attempts|
  {
    RunInstalls(c.remote, d, attempts);
    hide CompleteInstalls;
    if attempts == [] {
      ThroughoutOne(c, d, DropPart);
      ThroughoutOne(c, Apply(d, DropPart), DropSidecar);
      ThroughoutConcat(c, d, [DropPart], [DropSidecar]);
      assert [DropPart] + [DropSidecar] == [DropPart, DropSidecar];
    } else {
      var ops := AttemptOps(d, attempts[0]);
      var d1 := ApplyAll(d, ops);
      AttemptSound(c, d, attempts[0]);
      ThroughoutEnds(c, d, ops);
      assert c.exact ==> TotalsGiven(attempts[1..]) by {
        assert forall i :: 0 <= i < |attempts[1..]| ==> attempts[1..][i] == attempts[i + 1];
      }
      if !AttemptOk(d, attempts[0]) {
        RunSound(c, d1, attempts[1..]);
        ThroughoutConcat(c, d, ops, RunOps(d1, attempts[1..]));
      } else {
        var check := VerifyOps(d1, attempts[0]);
        VerifySound(c, d1, attempts[0]);
        ThroughoutConcat(c, d, ops, check);
        ThroughoutEnds(c, d1, check);
        if !Accepts(d1, attempts[0]) {
          var d2 := ApplyAll(d1, check);
          RunSound(c, d2, attempts[1..]);
          ThroughoutConcat(c, d, ops + check, RunOps(d2, attempts[1..]));
        }
      }
    }
  }

  // ----- any number of runs, any number of crashes -----

  /** A run of the command, cut after some number of writes (or not, if there are fewer). */
  datatype Session = Session(attempts: seq<Attempt>, cut: nat)

  function SessionOps(d: Disk, s: Session): seq<Op> {
    var ops := RunOps(d, s.attempts);
    if s.cut <= |ops| then ops[..s.cut] else ops
  }

  function After(d: Disk, sessions: seq<Session>): Disk
    decreases |sessions|
  {
    if sessions == [] then d else After(ApplyAll(d, SessionOps(d, sessions[0])), sessions[1..])
  }

  predicate FaithfulHistory(remote: seq<Byte>, exact: bool, d: Disk, sessions: seq<Session>)
    decreases |sessions|
  {
    if sessions == [] then true else
    && FaithfulRun(remote, d, sessions[0].attempts)
    && (exact ==> TotalsGiven(sessions[0].attempts))
    && FaithfulHistory(remote, exact, ApplyAll(d, SessionOps(d, sessions[0])), sessions[1..])
  }

  /** In none of the runs is anything but the whole remote installed beside a readable sidecar. */
  ghost predicate HistoryInstalls(remote: seq<Byte>, d: Disk, sessions: seq<Session>)
    decreases |sessions|
  {
    sessions != [] ==>
      && CompleteInstalls(remote, d, SessionOps(d, sessions[0]))
      && HistoryInstalls(remote, ApplyAll(d, SessionOps(d, sessions[0])), sessions[1..])
  }

  lemma {:induction false} HistoryComplete(remote: seq<Byte>, exact: bool, d: Disk, sessions: seq<Session>)
    requires Sound(remote, d) && FaithfulHistory(remote, exact, d, sessions)
    ensures HistoryInstalls(remote, d, sessions)
    decreases |sessions|
  {
    hide CompleteInstalls;
    if sessions != [] {
      var c := Case(remote, d.dest, false);
      var ops := RunOps(d, sessions[0].attempts);
      RunSound(c, d, sessions[0].attempts);
      InstallsPrefix(remote, d, ops, SessionOps(d, sessions[0]));
      ThroughoutEnds(c, d, ops);
      HistoryComplete(remote, exact, ApplyAll(d, SessionOps(d, sessions[0])), sessions[1..]);
    }
  }

  lemma InstallsPrefix(remote: seq<Byte>, d: Disk, ops: seq<Op>, front: seq<Op>)
    requires CompleteInstalls(remote, d, ops) && front <= ops
    ensures CompleteInstalls(remote, d, front)
  {
    forall k | 0 <= k < |front| ensures front[..k] == ops[..k] && front[k] == ops[k] {
    }
  }

  /** The same after any history of runs and crashes. */
  lemma {:induction false} HistorySound(c: Case, d: Disk, sessions: seq<Session>)
    requires c.Holds(d) && FaithfulHistory(c.remote, c.exact, d, sessions)
    ensures c.Holds(After(d, sessions)) && HistoryInstalls(c.remote, d, sessions)
    decreases |sessions|
  {
    HistoryComplete(c.remote, c.exact, d, sessions);
    hide HistoryInstalls;
    if sessions != [] {
      var ops := RunOps(d, sessions[0].attempts);
      RunSound(c, d, sessions[0].attempts);
      ThroughoutEnds(c, d, ops);
      HistorySound(c, ApplyAll(d, SessionOps(d, sessions[0])), sessions[1..]);
    }
  }

  // ----- how a run ends, and where it falls short -----

  /** The whole file came down: what the part file had, if that was continued, and what was received. */
  predicate Completes(remote: seq<Byte>, d: Disk, a: Attempt) {
    && Receives(d, a) && a.note.Noted? && a.clean
    && Received(d, a) == remote
  }

  /** Some attempt of the run gets the whole file and its rename through. */
  predicate Succeeds(remote: seq<Byte>, d: Disk, attempts: seq<Attempt>)
    decreases |attempts|
  {
    attempts != [] &&
    var a, d1 := attempts[0], Left(d, attempts[0]);
    if !Completes(remote, d, a) then Succeeds(remote, d1, attempts[1..])
    else a.renameOk || Succeeds(remote, d1.(sidecar := Missing), attempts[1..])
  }

  /** What is installed in the end: the part file of the first attempt that is accepted, or what was there. */
  function Outcome(d: Disk, attempts: seq<Attempt>): Option<seq<Byte>>
    decreases |attempts|
  {
    if attempts == [] then d.dest else
    var d1 := ApplyAll(d, AttemptOps(d, attempts[0]));
    if !AttemptOk(d, attempts[0]) then Outcome(d1, attempts[1..])
    else if Accepts(d1, attempts[0]) then d1.part
    else Outcome(d1.(sidecar := Missing), attempts[1..])
  }

  /** However it goes, an uncut run leaves that installed, no part file and no sidecar. */
  lemma {:induction false} RunEndsAs(d: Disk, attempts: seq<Attempt>)
    ensures ApplyAll(d, RunOps(d, attempts)) == Disk(None, Missing, Outcome(d, attempts))
    decreases |attempts|
  {
    if attempts == [] {
      assert [DropPart, DropSidecar][1..] == [DropSidecar] && [DropSidecar][1..] == [];
    } else {
      var a, rest := attempts[0], attempts[1..];
      assert attempts == [a] + rest;
      var d1 := ApplyAll(d, AttemptOps(d, a));
      hide AttemptOps;
      if !AttemptOk(d, a) {
        RunEndsAs(d1, rest);
        ApplyConcat(d, AttemptOps(d, a), RunOps(d1, rest));
      } else if Accepts(d1, a) {
        Accepted(d, a, rest);
      } else {
        Rejected(d, a, rest);
        RunEndsAs(d1.(sidecar := Missing), rest);
      }
    }
  }

  /** What an uncut run installs is new only as a verified part file. */
  lemma {:induction false} InstalledVerified(d: Disk, attempts: seq<Attempt>)
    ensures var x := Outcome(d, attempts);
      x == d.dest || (x.Some? && |x.value| >= 5_242_880)
    decreases |attempts|
  {
    if attempts != [] {
      AttemptKeepsDest(d, attempts[0]);
      hide AttemptOps;
      var d1 := ApplyAll(d, AttemptOps(d, attempts[0]));
      InstalledVerified(d1, attempts[1..]);
      InstalledVerified(d1.(sidecar := Missing), attempts[1..]);
    }
  }

  /** With totals given, that is the whole remote if it has at least 5 MB and some attempt succeeds. */
  lemma {:induction false} WholeInstalled(remote: seq<Byte>, d: Disk, attempts: seq<Attempt>)
    requires Sound(remote, d) && FaithfulRun(remote, d, attempts) && TotalsGiven(attempts)
    ensures Outcome(d, attempts)
            == if |remote| >= 5_242_880 && Succeeds(remote, d, attempts) then Some(remote) else d.dest
    decreases |attempts|
  {
    if attempts != [] {
      var a, rest := attempts[0], attempts[1..];
      assert attempts == [a] + rest;
      var d1 := ApplyAll(d, AttemptOps(d, a));
      AttemptEnds(remote, d, a);
      AttemptLeaves(d, a);
      AttemptCompletes(remote, d, a);
      assert TotalsGiven(rest) by {
        assert attempts[0] == a && forall i :: 0 <= i < |rest| ==> rest[i] == attempts[i + 1];
      }
      hide AttemptOps, FaithfulRun, Completes, Left, AttemptOk;
      if !AttemptOk(d, a) {
        FailedFirst(remote, d, a, rest);
        WholeInstalled(remote, d1, rest);
      } else if !Accepts(d1, a) {
        Rejected(d, a, rest);
        WholeInstalled(remote, d1.(sidecar := Missing), rest);
      }
    }
  }

  /**
   With totals given, an uncut run installs the whole remote if that has at least 5 MB and some attempt
   succeeds, and otherwise changes nothing installed.
   */
  lemma {:induction false} RunEnds(remote: seq<Byte>, d: Disk, attempts: seq<Attempt>)
    requires Sound(remote, d) && FaithfulRun(remote, d, attempts) && TotalsGiven(attempts)
    ensures ApplyAll(d, RunOps(d, attempts))
            == Disk(None, Missing,
                    if |remote| >= 5_242_880 && Succeeds(remote, d, attempts) then Some(remote) else d.dest)
  {
    hide *;
    RunEndsAs(d, attempts);
    WholeInstalled(remote, d, attempts);
  }

  lemma FailedFirst(remote: seq<Byte>, d: Disk, a: Attempt, rest: seq<Attempt>)
    requires FaithfulRun(remote, d, [a] + rest) && !AttemptOk(d, a)
    ensures FaithfulRun(remote, ApplyAll(d, AttemptOps(d, a)), rest)
  {
    hide AttemptOps, ApplyAll;
    assert ([a] + rest)[0] == a && ([a] + rest)[1..] == rest;
  }

  /** After one attempt with a known total: still sound, nothing installed, complete if it succeeded. */
  lemma AttemptEnds(remote: seq<Byte>, d: Disk, a: Attempt)
    requires Sound(remote, d) && Faithful(remote, d, a)
    requires a.response.PartialContent? || a.response.Whole? ==> Expected(a.response) > 0
    ensures var d1 := ApplyAll(d, AttemptOps(d, a));
      && Sound(remote, d1) && d1.dest == d.dest
      && (AttemptOk(d, a) ==> d1.part == Some(remote) && (Verified(d1) <==> |remote| >= MIN_MODEL_SIZE))
  {
    var c := Case(remote, d.dest, false);
    AttemptSound(c, d, a);
    ThroughoutEnds(c, d, AttemptOps(d, a));
    AttemptKeepsDest(d, a);
  }

  lemma AttemptCompletes(remote: seq<Byte>, d: Disk, a: Attempt)
    requires Sound(remote, d) && Faithful(remote, d, a)
    requires a.response.PartialContent? || a.response.Whole? ==> Expected(a.response) > 0
    ensures AttemptOk(d, a) <==> Completes(remote, d, a)
  {
    AttemptExact(remote, d, a);
    AttemptLeaves(d, a);
    hide ApplyAll, AttemptOps, AttemptOk, Faithful, Sound, Concat;
  }

  predicate KeepsDest(ops: seq<Op>) {
    forall i :: 0 <= i < |ops| ==> ops[i] != Install
  }

  lemma {:induction false} NoInstall(d: Disk, ops: seq<Op>)
    requires KeepsDest(ops)
    ensures ApplyAll(d, ops).dest == d.dest
    decreases |ops|
  {
    if ops != [] {
      NoInstall(Apply(d, ops[0]), ops[1..]);
    }
  }

  lemma AttemptKeepsDest(d: Disk, a: Attempt)
    ensures ApplyAll(d, AttemptOps(d, a)).dest == d.dest
  {
    NoInstall(d, AttemptOps(d, a));
  }

  /**
   What a verified part file tells, when all that is known of the remote is what part file and sidecar
   can vouch for: it is the whole remote, whichever that is, exactly when its sidecar is readable.
   Without one, any 5 MB prefix passes.
   */
  lemma VerifiedExact(remote: seq<Byte>, d: Disk)
    requires Sound(remote, d) && Verified(d)
    ensures (forall other :: Sound(other, d) ==> d.part == Some(other)) <==> d.sidecar.Size?
  {
    if d.sidecar.Size? {
      forall other | Sound(other, d) ensures d.part == Some(other) {
        FullPrefix(d.part.value, other);
      }
    } else {
      var longer := d.part.value + [0];
      assert Prefix(d.part.value, longer) && Sound(longer, d);
      assert d.part != Some(longer);
    }
  }

  /** A successful attempt whose part file is rejected costs the sidecar and nothing else. */
  lemma Rejected(d: Disk, a: Attempt, rest: seq<Attempt>)
    requires var d1 := ApplyAll(d, AttemptOps(d, a)); AttemptOk(d, a) && !Accepts(d1, a)
    ensures var d2 := ApplyAll(d, AttemptOps(d, a)).(sidecar := Missing);
      && ApplyAll(d, RunOps(d, [a] + rest)) == ApplyAll(d2, RunOps(d2, rest))
      && (forall remote :: FaithfulRun(remote, d, [a] + rest)
           <==> Faithful(remote, d, a) && FaithfulRun(remote, d2, rest))
  {
    var ops := AttemptOps(d, a);
    var d1 := ApplyAll(d, ops);
    var d2 := d1.(sidecar := Missing);
    assert ([a] + rest)[1..] == rest;
    assert VerifyOps(d1, a) == [DropSidecar] && [DropSidecar][1..] == [];
    assert ApplyAll(d1, VerifyOps(d1, a)) == d2;
    ApplyConcat(d, ops + VerifyOps(d1, a), RunOps(d2, rest));
    ApplyConcat(d, ops, VerifyOps(d1, a));
  }

  /** A successful attempt whose part file passes is installed. */
  lemma Accepted(d: Disk, a: Attempt, rest: seq<Attempt>)
    requires var d1 := ApplyAll(d, AttemptOps(d, a)); AttemptOk(d, a) && Accepts(d1, a)
    ensures var d1 := ApplyAll(d, AttemptOps(d, a));
      && ApplyAll(d, RunOps(d, [a] + rest)) == Disk(None, Missing, d1.part)
      && (forall remote :: FaithfulRun(remote, d, [a] + rest) <==> Faithful(remote, d, a))
  {
    var d1 := ApplyAll(d, AttemptOps(d, a));
    assert VerifyOps(d1, a) == [Install, DropSidecar];
    assert [Install, DropSidecar][1..] == [DropSidecar] && [DropSidecar][1..] == [];
    ApplyConcat(d, AttemptOps(d, a), VerifyOps(d1, a));
  }

  /**
   A run, attempt by attempt and whatever the remote is: an attempt that ends badly leaves the rest of the
   run to start from what it left. One that ends well installs its part file if that has 5 MB, the size
   told by this answer or else by a readable sidecar, and the rename works; otherwise it costs the sidecar.
   */
  lemma {:induction false} RunFirst(d: Disk, a: Attempt, rest: seq<Attempt>)
    ensures var after, e := ApplyAll(d, RunOps(d, [a] + rest)), Left(d, a);
      var total := Expected(a.response);
      var well := Receives(d, a) && a.clean && (total > 0 ==> a.note.Noted? && |Received(d, a)| >= total);
      if !well then after == ApplyAll(e, RunOps(e, rest))
      else if && a.renameOk && |e.part.value| >= 5_242_880
              && (total > 0 ==> |e.part.value| == total)
              && (total <= 0 && d.sidecar.Size? ==> |e.part.value| == d.sidecar.total)
        then after == Disk(None, Missing, e.part)
      else after == ApplyAll(e.(sidecar := Missing), RunOps(e.(sidecar := Missing), rest))
  {
    AttemptLeaves(d, a);
    hide AttemptOps, BodyOps, ApplyAll, Concat, FaithfulRun, Faithful;
    if AttemptOk(d, a) {
      if Accepts(Left(d, a), a) {
        Accepted(d, a, rest);
      } else {
        Rejected(d, a, rest);
      }
    } else {
      RunUnfolds(d, a, rest);
      ApplyConcat(d, AttemptOps(d, a), RunOps(Left(d, a), rest));
    }
  }

  /** A resumed answer without a total. */
  function Resumed(chunk: seq<Byte>): Attempt {
    Attempt(PartialContent(0), true, Noted, [chunk], true, true)
  }

  /** An empty resumed answer ends its attempt well and changes nothing. */
  lemma ResumedOps(d: Disk)
    requires d.part.Some?
    ensures AttemptOk(d, Resumed([])) && ApplyAll(d, AttemptOps(d, Resumed([]))) == d
    ensures forall remote :: 0 < |d.part.value| <= |remote| ==> Faithful(remote, d, Resumed([]))
  {
    var none: seq<Byte> := [];
    var chunks: seq<seq<Byte>> := [none];
    assert |chunks[1..]| == 0 && Concat(chunks) == [];
    assert AttemptOps(d, Resumed([])) == [Append([])];
    assert [Append([])][1..] == [];
    assert d.part.value + [] == d.part.value;
  }

  /**
   Rejecting a part file drops only the sidecar, so two answers without totals install a truncated
   file: the first, though short, ends its attempt well and costs the sidecar; the second then passes.
   */
  lemma {:induction false} TruncatedInstall(remote: seq<Byte>, part: seq<Byte>, installed: Option<seq<Byte>>)
    requires Prefix(part, remote) && MIN_MODEL_SIZE <= |part| < |remote|
    ensures var d := Disk(Some(part), Size(|remote|), installed);
      var attempts := [Resumed([])] + ([Resumed([])] + []);
      && Sound(remote, d) && FaithfulRun(remote, d, attempts)
      && ApplyAll(d, RunOps(d, attempts)).dest == Some(part) && part != remote
  {
    var d := Disk(Some(part), Size(|remote|), installed);
    var d2 := d.(sidecar := Missing);
    ResumedOps(d);
    ResumedOps(d2);
    assert !Verified(d) && Verified(d2);
    hide RunOps, FaithfulRun, AttemptOps, AttemptOk, ApplyAll, Verified, Faithful;
    Rejected(d, Resumed([]), [Resumed([])] + []);
    Accepted(d2, Resumed([]), []);
  }

  /**
   A crash after the last byte and before the install: the next run asks for the empty rest, a server
   that refuses such a range fails every attempt, and the complete part file is deleted.
   */
  lemma {:induction false} CompletePartRefused(remote: seq<Byte>, d: Disk, attempts: seq<Attempt>)
    requires d.part == Some(remote)
    requires forall i :: 0 <= i < |attempts| ==> attempts[i].response.OtherStatus?
    ensures FaithfulRun(remote, d, attempts)
    ensures ApplyAll(d, RunOps(d, attempts)) == Disk(None, Missing, d.dest)
    decreases |attempts|
  {
    if attempts == [] {
      assert [DropPart, DropSidecar][1..] == [DropSidecar] && [DropSidecar][1..] == [];
    } else {
      assert AttemptOps(d, attempts[0]) == [];
      CompletePartRefused(remote, d, attempts[1..]);
      assert [] + RunOps(d, attempts[1..]) == RunOps(d, attempts[1..]);
    }
  }

  // ----- the program -----

  class Downloader {
    var part: Option<seq<Byte>>
    var sidecar: Sidecar
    var dest: Option<seq<Byte>>
    // Every write since the start, for the specification only.
    ghost const start: Disk
    ghost var log: seq<Op>

    function State(): Disk
      reads this
    {
      Disk(part, sidecar, dest)
    }

    ghost predicate Valid()
      reads this
    {
      State() == ApplyAll(start, log)
    }

    constructor (d: Disk)
      ensures Valid() && State() == d && log == []
    {
      part, sidecar, dest, start := d.part, d.sidecar, d.dest, d;
      log := [];
    }

    /** One write that reaches the disk. */
    method Put(op: Op)
      requires Valid()
      modifies this
      ensures Valid() && log == old(log) + [op] && State() == Apply(old(State()), op)
    {
      var d := Apply(State(), op);
      part, sidecar, dest := d.part, d.sidecar, d.dest;
      ApplyConcat(start, log, [op]);
      assert [op][1..] == [];
      log := log + [op];
    }

    /** Copies what the body delivers, a chunk at a time. */
    method StreamCopy(chunks: seq<seq<Byte>>, clean: bool) returns (downloaded: nat, ok: bool)
      requires Valid()
      modifies this
      ensures Valid() && log == old(log) + Appends(chunks)
      ensures downloaded == |Concat(chunks)| && ok == clean
    {
      downloaded := 0;
      for i := 0 to |chunks|
        invariant Valid() && log == old(log) + Appends(chunks[..i])
        invariant downloaded == |Concat(chunks[..i])|
      {
        Put(Append(chunks[i]));
        downloaded := downloaded + |chunks[i]|;
        AppendsSnoc(chunks[..i], chunks[i]);
        assert chunks[..i + 1] == chunks[..i] + [chunks[i]];
      }
      assert chunks[..|chunks|] == chunks;
      ok := clean;
    }

    method DownloadOnceWithResume(a: Attempt) returns (ok: bool)
      requires Valid()
      modifies this
      ensures Valid() && log == old(log) + AttemptOps(old(State()), a)
      ensures ok == AttemptOk(old(State()), a)
    {
      hide Apply, ApplyAll, BodyOps, Expected;
      var existing := if part.Some? then |part.value| else 0;
      if a.response.NoAnswer? || a.response.OtherStatus? {
        return false;
      }
      var startOffset := if a.response.PartialContent? then existing else 0;
      if !a.openOk || (a.response.PartialContent? && part.None?) {
        return false;
      }
      if a.response.Whole? {
        Put(Truncate);
      }
      ok := ReceiveBody(a, startOffset);
    }

    /** With the part file open: notes the size that is expected, then copies the body. */
    method ReceiveBody(a: Attempt, startOffset: nat) returns (ok: bool)
      requires Valid()
      modifies this
      ensures Valid() && log == old(log) + BodyOps(a)
      ensures ok == (a.clean && (Expected(a.response) > 0 ==>
                                   a.note.Noted? && startOffset + |Concat(a.chunks)| >= Expected(a.response)))
    {
      hide Apply, ApplyAll, Concat, Appends, Expected;
      var expected := Expected(a.response);
      if expected > 0 {
        if a.note.Refused? {
          return false;
        }
        Put(ClearSidecar);
        if a.note.Emptied? {
          return false;
        }
        Put(NoteSize(expected));
      }
      var downloaded, copied := StreamCopy(a.chunks, a.clean);
      if !copied {
        return false;
      }
      if expected <= 0 {
        return true;
      }
      return startOffset + downloaded >= expected;
    }

    method VerifyAndInstall(a: Attempt) returns (ok: bool)
      requires Valid()
      modifies this
      ensures Valid() && log == old(log) + VerifyOps(old(State()), a)
      ensures ok == Accepts(old(State()), a)
    {
      ok := part.Some? && |part.value| >= MIN_MODEL_SIZE && !(sidecar.Size? && |part.value| != sidecar.total)
            && a.renameOk;
      if ok {
        Put(Install);
      }
      Put(DropSidecar);
    }

    /** The retry loop: at most as many attempts as the backoff schedule has entries. */
    method DownloadModelFile(attempts: seq<Attempt>)
      requires Valid() && |attempts| == ATTEMPTS
      modifies this
      ensures Valid() && log == old(log) + RunOps(old(State()), attempts)
    {
      hide RunOps, AttemptOps, VerifyOps, Apply, AttemptOk, Accepts, Checked, ApplyAll;
      ghost var whole := log + RunOps(State(), attempts);
      assert attempts[0..] == attempts;
      for i := 0 to ATTEMPTS
        invariant Valid() && log + RunOps(State(), attempts[i..]) == whole
      {
        var a := attempts[i];
        ghost var d, rest := State(), attempts[i + 1..];
        assert attempts[i..] == [a] + rest;
        RunStep(start, log, a, rest);
        var ok := DownloadOnceWithResume(a);
        if ok {
          VerifyStep(start, log, a, rest);
          var installed := VerifyAndInstall(a);
          if installed {
            return;
          }
        }
      }
      assert attempts[ATTEMPTS..] == [];
      RunNone(State(), log);
      Put(DropPart);
      Put(DropSidecar);
    }
  }

  lemma RunNone(d: Disk, log: seq<Op>)
    ensures log + RunOps(d, []) == (log + [DropPart]) + [DropSidecar]
  {
  }

  /** What is still to come after an attempt that fails, and after one that ends well. */
  lemma RunStep(start: Disk, log: seq<Op>, a: Attempt, rest: seq<Attempt>)
    ensures var d := ApplyAll(start, log);
      var after := log + AttemptOps(d, a);
      log + RunOps(d, [a] + rest) == after +
        (if AttemptOk(d, a) then Checked(ApplyAll(start, after), a, rest) else RunOps(ApplyAll(start, after), rest))
  {
    hide AttemptOps, AttemptOk, Apply, ApplyAll, RunOps, Checked;
    var d := ApplyAll(start, log);
    ApplyConcat(start, log, AttemptOps(d, a));
    RunUnfolds(d, a, rest);
  }

  lemma RunUnfolds(d: Disk, a: Attempt, rest: seq<Attempt>)
    ensures var d1 := ApplyAll(d, AttemptOps(d, a));
      RunOps(d, [a] + rest)
        == AttemptOps(d, a) + (if AttemptOk(d, a) then Checked(d1, a, rest) else RunOps(d1, rest))
  {
    hide AttemptOps, AttemptOk, Apply, ApplyAll, VerifyOps, Accepts;
    assert ([a] + rest)[0] == a && ([a] + rest)[1..] == rest;
  }

  /** The writes from the check on. */
  function Checked(d1: Disk, a: Attempt, rest: seq<Attempt>): seq<Op> {
    if Accepts(d1, a) then VerifyOps(d1, a)
    else VerifyOps(d1, a) + RunOps(ApplyAll(d1, VerifyOps(d1, a)), rest)
  }

  lemma VerifyStep(start: Disk, log: seq<Op>, a: Attempt, rest: seq<Attempt>)
    ensures var d1 := ApplyAll(start, log);
      var after := log + VerifyOps(d1, a);
      log + Checked(d1, a, rest)
        == if Accepts(d1, a) then after else after + RunOps(ApplyAll(start, after), rest)
  {
    hide VerifyOps, Accepts, Apply, RunOps;
    ApplyConcat(start, log, VerifyOps(ApplyAll(start, log), a));
  }

  lemma AppendsSnoc(chunks: seq<seq<Byte>>, chunk: seq<Byte>)
    ensures Appends(chunks + [chunk]) == Appends(chunks) + [Append(chunk)]
    ensures Concat(chunks + [chunk]) == Concat(chunks) + chunk
  {
    var single: seq<seq<Byte>> := [chunk];
    ConcatAppend(chunks, single);
    assert |single[1..]| == 0 && Concat(single) == chunk;
  }

  // ----- the total in a Content-Range header -----

  /** Position of the last slash. */
  function LastSlash(s: string): Option<nat>
    ensures LastSlash(s).Some? ==> LastSlash(s).value < |s| && s[LastSlash(s).value] == '/'
    ensures LastSlash(s).Some? ==> forall i :: LastSlash(s).value < i < |s| ==> s[i] != '/'
    ensures LastSlash(s).None? ==> '/' !in s
  {
    if s == "" then None
    else if s[|s| - 1] == '/' then Some(|s| - 1)
    else LastSlash(s[..|s| - 1])
  }

  method ParseContentRangeTotal(header: string) returns (total: int)
    ensures LastSlash(header).None? ==> total == 0
    ensures LastSlash(header).Some? ==>
      var scanned := ScanInt(header[LastSlash(header).value + 1..]);
      total == if scanned.Some? then scanned.value else 0
  {
    hide ScanInt, LastSlash;
    var i := |header| - 1;
    while i >= 0
      invariant -1 <= i < |header|
      invariant forall k :: i < k < |header| ==> header[k] != '/'
    {
      if header[i] == '/' {
        var scanned := ScanInt(header[i + 1..]);
        return if scanned.Some? then scanned.value else 0;
      }
      i := i - 1;
    }
    return 0;
  }

  lemma {:induction false} LastSlashAt(head: string, tail: string)
    requires '/' !in tail
    ensures LastSlash(head + "/" + tail) == Some(|head|)
    ensures (head + "/" + tail)[|head| + 1..] == tail
  {
    hide LastSlash;
    var s := head + "/" + tail;
    assert s[|head|] == '/';
    var r := LastSlash(s);
    assert r.value >= |head|;
    assert r.value <= |head| by {
      assert forall i :: |head| < i < |s| ==> s[i] == tail[i - |head| - 1];
    }
  }

  lemma ScanStar()
    ensures ScanInt("*") == None
  {
    assert SkipBlanks("*") == "*" && DigitRun("*") == "";
  }

  /** A printed total is recovered; an unknown one counts as 0. */
  lemma {:induction false} ContentRangeTotals(first: nat, last: nat, total: nat)
    requires total <= MAX_INT64
    ensures var range := "bytes " + Print(first) + "-" + Print(last);
      var known, unknown := range + "/" + Print(total), range + "/" + "*";
      && LastSlash(known) == LastSlash(unknown) == Some(|range|)
      && ScanInt(known[|range| + 1..]) == Some(total)
      && ScanInt(unknown[|range| + 1..]) == None
  {
    ScanStar();
    hide Print, ScanInt, LastSlash;
    var range := "bytes " + Print(first) + "-" + Print(last);
    LastSlashAt(range, Print(total));
    LastSlashAt(range, "*");
    ScanPrinted(total, "");
    assert Print(total) + "" == Print(total);
  }
}

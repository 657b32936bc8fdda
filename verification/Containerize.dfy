/**
 Turning directories of JPEG frames into container files: write, verify, rename, flip the row, and only
 then remove the directory.

 Every operation answers from outside; the history holds the world after every single step, so what
 holds throughout it holds wherever the program is killed.
 */
module Containerize {
  import opened Bytes
  import Ordering

  type Path = string
  type Frame = seq<char>

  datatype Format = Mjpeg | Avi

  /** A recording row. */
  datatype Row = Row(path: Path, format: Format, frameCount: nat, size: nat)

  /** Directories by the frames listed in them, container files by the frames in them, and the table. */
  datatype World = World(dirs: map<Path, seq<Frame>>, files: map<Path, seq<Frame>>, rows: map<nat, Row>)

  function AviPath(p: Path): Path {
    p + ".avi"
  }

  function TmpPath(p: Path): Path {
    AviPath(p) + ".tmp"
  }

  // ----- what must not change -----

  /** What a viewer of a path gets to see. */
  datatype Shown = Missing | Frames(frames: seq<Frame>)

  function Show(w: World, p: Path): Shown {
    if p in w.dirs then Frames(w.dirs[p]) else if p in w.files then Frames(w.files[p]) else Missing
  }

  /** No row's media is named by another row, or lies where another row's container goes. */
  ghost predicate Separate(rows: map<nat, Row>) {
    forall i, j :: i in rows && j in rows && i != j ==>
      && rows[i].path != rows[j].path && rows[i].path != AviPath(rows[j].path) && rows[i].path != TmpPath(rows[j].path)
  }

  /** Every row names its old media or the container made of it, and shows what it showed at the start. */
  ghost predicate Playable(start: World, w: World) {
    && w.rows.Keys == start.rows.Keys
    && forall id :: id in start.rows ==> RowPlayable(start, w, id)
  }

  predicate RowPlayable(start: World, w: World, id: nat)
    requires id in start.rows && id in w.rows
  {
    var p := start.rows[id].path;
    && (w.rows[id].path == p || w.rows[id].path == AviPath(p))
    && Show(w, w.rows[id].path) == Show(start, p)
  }

  /** No row names this path. */
  ghost predicate Unnamed(w: World, q: Path) {
    forall id :: id in w.rows ==> w.rows[id].path != q
  }

  lemma Suffixes(p: Path, q: Path)
    ensures AviPath(p) == AviPath(q) ==> p == q
    ensures TmpPath(p) != AviPath(q)
    ensures AviPath(p) != p && TmpPath(p) != p && TmpPath(p) != AviPath(p)
  {
    assert p == AviPath(p)[..|AviPath(p)| - 4] && q == AviPath(q)[..|AviPath(q)| - 4];
    assert TmpPath(p)[|TmpPath(p)| - 1] == 'p' && AviPath(q)[|AviPath(q)| - 1] == 'i';
  }

  /** Where a row's conversion works, no row looks: at the temporary file, the container, and later the directory. */
  lemma WorkspaceUnnamed(start: World, w: World, id: nat)
    requires Separate(start.rows) && Playable(start, w) && id in start.rows
    ensures Unnamed(w, TmpPath(start.rows[id].path))
    ensures w.rows[id].path == start.rows[id].path ==> Unnamed(w, AviPath(start.rows[id].path))
    ensures w.rows[id].path == AviPath(start.rows[id].path) ==> Unnamed(w, start.rows[id].path)
  {
    hide Show, AviPath, TmpPath;
    var p := start.rows[id].path;
    forall other | other in w.rows
      ensures w.rows[other].path != TmpPath(p)
      ensures w.rows[id].path == p ==> w.rows[other].path != AviPath(p)
      ensures w.rows[id].path == AviPath(p) ==> w.rows[other].path != p
    {
      assert RowPlayable(start, w, other);
      var q := start.rows[other].path;
      Suffixes(p, q);
      Suffixes(q, p);
      assert other != id ==> q != p && q != AviPath(p) && q != TmpPath(p) && p != AviPath(q);
    }
  }

  /** Changes at a path that no row names change nothing to see. */
  lemma TouchSafe(start: World, w: World, next: World, q: Path)
    requires Playable(start, w) && Unnamed(w, q)
    requires next.rows == w.rows && forall x :: x != q ==> Show(next, x) == Show(w, x)
    ensures Playable(start, next)
  {
    hide Show;
    forall id | id in start.rows ensures RowPlayable(start, next, id) {
      assert RowPlayable(start, w, id) && w.rows[id].path != q;
    }
  }

  /** So does a rename between two such paths. */
  lemma RenameSafe(start: World, w: World, id: nat)
    requires Separate(start.rows) && Playable(start, w) && id in start.rows && w.rows[id].path == start.rows[id].path
    requires TmpPath(start.rows[id].path) in w.files
    ensures Playable(start, Renamed(w, start.rows[id].path))
  {
    hide Show, Playable, Separate, AviPath, TmpPath;
    var p := start.rows[id].path;
    WorkspaceUnnamed(start, w, id);
    var copied := w.(files := w.files[AviPath(p) := w.files[TmpPath(p)]]);
    PutElsewhere(w, AviPath(p), w.files[TmpPath(p)]);
    TouchSafe(start, w, copied, AviPath(p));
    DropElsewhere(copied, TmpPath(p));
    TouchSafe(start, copied, Renamed(w, p), TmpPath(p));
  }

  lemma PutElsewhere(w: World, q: Path, frames: seq<Frame>)
    ensures forall x :: x != q ==> Show(w.(files := w.files[q := frames]), x) == Show(w, x)
  {
  }

  lemma DropElsewhere(w: World, q: Path)
    ensures forall x :: x != q ==> Show(w.(files := w.files - {q}), x) == Show(w, x)
  {
  }

  function Renamed(w: World, p: Path): World
    requires TmpPath(p) in w.files
  {
    w.(files := w.files[AviPath(p) := w.files[TmpPath(p)]] - {TmpPath(p)})
  }

  /** The rename takes away what this row shows: the file it overwrites, unless equal, or the one it moves away. */
  predicate Overwritten(w: World, p: Path, row: Row)
    requires TmpPath(p) in w.files
  {
    && row.path !in w.dirs
    && (row.path == TmpPath(p) || (row.path == AviPath(p) && Show(w, row.path) != Frames(w.files[TmpPath(p)])))
  }

  /** Whatever the rows are named: the rename changes nothing that a row shows exactly if it overwrites none. */
  lemma RenameExact(w: World, p: Path)
    requires TmpPath(p) in w.files
    ensures (forall id :: id in w.rows ==> Show(Renamed(w, p), w.rows[id].path) == Show(w, w.rows[id].path))
            <==> forall id :: id in w.rows ==> !Overwritten(w, p, w.rows[id])
  {
    hide AviPath, TmpPath, Overwritten, Show;
    forall id | id in w.rows
      ensures Show(Renamed(w, p), w.rows[id].path) == Show(w, w.rows[id].path) <==> !Overwritten(w, p, w.rows[id])
    {
      ShownAfter(w, p, w.rows[id]);
    }
  }

  lemma ShownAfter(w: World, p: Path, row: Row)
    requires TmpPath(p) in w.files
    ensures Show(Renamed(w, p), row.path) == Show(w, row.path) <==> !Overwritten(w, p, row)
  {
    hide AviPath, TmpPath;
    Suffixes(p, p);
  }

  /** The world after a directory was removed, or, if the removal failed, with what it left of it. */
  function WithoutDir(w: World, p: Path, left: Option<seq<Frame>>): World {
    w.(dirs := match left case None => w.dirs - {p} case Some(frames) => w.dirs[p := frames])
  }

  /** Whatever the rows are named: removing a directory takes what they show from exactly those that still name it. */
  lemma RemoveExact(w: World, p: Path, left: Option<seq<Frame>>, id: nat)
    requires p in w.dirs && id in w.rows
    ensures Show(WithoutDir(w, p, left), w.rows[id].path) != Show(w, w.rows[id].path) <==>
      && w.rows[id].path == p
      && match left
         case None => !(p in w.files && w.files[p] == w.dirs[p])
         case Some(frames) => frames != w.dirs[p]
  {
  }

  /** Pointing the row at a container is safe exactly when the container shows what the directory shows. */
  lemma FlipSafe(start: World, w: World, id: nat, row: Row)
    requires Playable(start, w) && id in start.rows && row.path == AviPath(start.rows[id].path)
    requires w.rows[id].path == start.rows[id].path
    ensures Playable(start, w.(rows := w.rows[id := row])) <==> Show(w, row.path) == Show(w, w.rows[id].path)
  {
    hide Show;
    var next := w.(rows := w.rows[id := row]);
    assert next.rows.Keys == w.rows.Keys;
    assert RowPlayable(start, w, id);
    assert forall x :: Show(next, x) == Show(w, x) by { ShowIgnoresRows(w, next); }
    if Show(w, row.path) == Show(w, w.rows[id].path) {
      forall other | other in start.rows ensures RowPlayable(start, next, other) {
        assert RowPlayable(start, w, other);
      }
    } else {
      assert !RowPlayable(start, next, id);
    }
  }

  lemma ShowIgnoresRows(w: World, next: World)
    requires next.dirs == w.dirs && next.files == w.files
    ensures forall x :: Show(next, x) == Show(w, x)
  {
  }

  // ----- listing frames -----

  datatype Entry = Entry(name: string, isDir: bool)

  predicate HasSuffix(s: string, suffix: string) {
    |suffix| <= |s| && s[|s| - |suffix|..] == suffix
  }

  predicate IsFrame(e: Entry) {
    !e.isDir && (HasSuffix(e.name, ".jpg") || HasSuffix(e.name, ".jpeg"))
  }

  lemma FrameExact(e: Entry)
    ensures IsFrame(e) <==> !e.isDir && exists stem: string :: e.name == stem + ".jpg" || e.name == stem + ".jpeg"
  {
    if HasSuffix(e.name, ".jpg") {
      assert e.name == e.name[..|e.name| - 4] + ".jpg";
    }
    if HasSuffix(e.name, ".jpeg") {
      assert e.name == e.name[..|e.name| - 5] + ".jpeg";
    }
  }

  function FrameNames(entries: seq<Entry>): seq<string> {
    if entries == [] then []
    else
      var front, last := entries[..|entries| - 1], entries[|entries| - 1];
      FrameNames(front) + if IsFrame(last) then [last.name] else []
  }

  /** The files listed are those whose names end as a JPEG's do, and none twice where no two entries share a name. */
  lemma {:induction false} FrameNamesExact(entries: seq<Entry>)
    ensures forall name :: name in FrameNames(entries) <==>
      && (exists e :: e in entries && e.name == name && !e.isDir)
      && (exists stem: string :: name == stem + ".jpg" || name == stem + ".jpeg")
    ensures (forall i, j :: 0 <= i < j < |entries| ==> entries[i].name != entries[j].name) ==>
      forall i, j :: 0 <= i < j < |FrameNames(entries)| ==> FrameNames(entries)[i] != FrameNames(entries)[j]
  {
    hide IsFrame;
    if entries != [] {
      var front, last := entries[..|entries| - 1], entries[|entries| - 1];
      FrameNamesExact(front);
      FrameExact(last);
      assert forall e :: e in entries <==> e in front || e == last;
      assert forall i :: 0 <= i < |front| ==> front[i] == entries[i];
      var names := FrameNames(front);
      forall i | 0 <= i < |names| ensures exists e :: e in front && e.name == names[i] {
        assert names[i] in names;
      }
    }
  }

  function Name(): string -> string {
    (name: string) => name
  }

  /** The JPEG files of a directory, in lexical order, which is the order in which they were taken. */
  method ListDirFrames(entries: seq<Entry>) returns (frames: seq<string>)
    ensures multiset(frames) == multiset(FrameNames(entries)) && Ordering.SortedBy(Name(), frames)
  {
    frames := [];
    for i := 0 to |entries|
      invariant frames == FrameNames(entries[..i])
    {
      assert entries[..i + 1][..i] == entries[..i];
      if IsFrame(entries[i]) {
        frames := frames + [entries[i].name];
      }
    }
    assert entries[..|entries|] == entries;
    frames := Ordering.SortBy(Name(), frames);
  }

  // ----- what the outside answers -----

  /** Writing one frame: it can fail to be read, fail to be written, or get lost without an error. */
  datatype FrameAnswer = Stored | Unreadable | Unwritable | Lost

  /** One update of the row: with a lost reply it took effect although an error is reported. */
  datatype UpdateAnswer = Done | Busy | Failed | LostReply

  datatype Answers = Answers(
    stop: bool,                      // the run is seen cancelled before this row
    otherCamera: bool,               // the row belongs to a camera that was not asked for
    isDir: bool,                     // the look at the row's path works
    dark: bool,                      // the row is marked as a dark segment
    listed: bool,                    // listing the directory works
    create: bool,
    frame: nat -> FrameAnswer,
    finish: bool,                    // finishing, syncing and closing the container work
    readBack: bool,                  // the container opens and its index can be read
    rename: bool,
    dropTmp: bool,                   // removing the temporary file works
    stat: bool,
    size: nat,
    update: nat -> UpdateAnswer,     // by attempt
    removeDir: bool,
    remains: seq<Frame>)             // what a failed removal leaves in the directory

  datatype Options = Options(limit: int, dryRun: bool, keepOld: bool, busyRetries: int)

  /** The attempts that are made, and what the last one answers. */
  function LastAnswer(update: nat -> UpdateAnswer, i: nat, n: nat): UpdateAnswer
    requires i < n
    decreases n - i
  {
    if update(i) == Busy && i + 1 < n then LastAnswer(update, i + 1, n) else update(i)
  }

  function Attempts(opts: Options): nat {
    if opts.busyRetries > 1 then opts.busyRetries else 1
  }

  predicate AllWritten(a: Answers, n: nat) {
    forall i: nat :: i < n ==> a.frame(i) == Stored || a.frame(i) == Lost
  }

  /** How many of the first n frames get into the container. */
  function StoredCount(a: Answers, n: nat): nat {
    if n == 0 then 0 else StoredCount(a, n - 1) + if a.frame(n - 1) == Stored then 1 else 0
  }

  /** Every step up to the row's update works, and the container read back has as many frames as were written. */
  predicate Ready(a: Answers, w: World, p: Path, n: nat) {
    && a.create && TmpPath(p) !in w.dirs && AllWritten(a, n) && a.finish
    && a.readBack && StoredCount(a, n) == n && a.rename && AviPath(p) !in w.dirs && a.stat
  }

  predicate Flips(a: Answers, opts: Options) {
    var last := LastAnswer(a.update, 0, Attempts(opts));
    last == Done || last == LostReply
  }

  predicate Succeeds(a: Answers, opts: Options) {
    LastAnswer(a.update, 0, Attempts(opts)) == Done && (opts.keepOld || a.removeDir)
  }

  lemma {:induction false} StoredAtMost(a: Answers, k: nat, n: nat)
    requires k <= n
    ensures StoredCount(a, k) <= k
    ensures StoredCount(a, n) == n ==> StoredCount(a, k) == k
    decreases n
  {
    if k < n {
      StoredAtMost(a, k, n - 1);
      StoredAtMost(a, n - 1, n - 1);
    } else if n > 0 {
      StoredAtMost(a, n - 1, n - 1);
    }
  }

  lemma NoneStored(a: Answers)
    ensures StoredCount(a, 0) == 0 && AllWritten(a, 0)
  {
  }

  lemma StoredStep(a: Answers, i: nat)
    ensures StoredCount(a, i + 1) == StoredCount(a, i) + if a.frame(i) == Stored then 1 else 0
    ensures StoredCount(a, i) <= i && StoredCount(a, i + 1) <= i + 1
    ensures AllWritten(a, i) && (a.frame(i) == Stored || a.frame(i) == Lost) ==> AllWritten(a, i + 1)
  {
    StoredAtMost(a, i, i);
  }

  lemma NotAllWritten(a: Answers, i: nat, n: nat)
    requires i < n && (a.frame(i) == Unreadable || a.frame(i) == Unwritable)
    ensures !AllWritten(a, n)
  {
  }

  /** A container whose frames were counted right has them all: nothing was lost on the way. */
  lemma {:induction false} NothingLost(a: Answers, n: nat)
    ensures StoredCount(a, n) == n <==> forall i: nat :: i < n ==> a.frame(i) == Stored
  {
    if n > 0 {
      NothingLost(a, n - 1);
      StoredAtMost(a, n - 1, n - 1);
    }
  }

  /** Every step works: exactly this makes a row ready for its update. */
  lemma ReadyExact(a: Answers, w: World, p: Path, n: nat)
    ensures Ready(a, w, p, n) <==>
      && a.create && a.finish && a.readBack && a.rename && a.stat
      && p + ".avi" !in w.dirs && p + ".avi" + ".tmp" !in w.dirs
      && forall i: nat :: i < n ==> a.frame(i) == Stored
  {
    NothingLost(a, n);
    hide StoredCount;
  }

  /** The last answer to the update is the first that is not busy, within the attempts allowed. */
  lemma {:induction false} LastAnswerAt(update: nat -> UpdateAnswer, i: nat, n: nat, k: nat)
    requires i <= k < n && forall j :: i <= j < k ==> update(j) == Busy
    requires update(k) != Busy || k == n - 1
    ensures LastAnswer(update, i, n) == update(k)
    decreases k - i
  {
    if i < k {
      LastAnswerAt(update, i + 1, n, k);
    }
  }

  /** The row flips exactly if the update takes effect while the attempts last, at least one of them. */
  lemma {:induction false} FlipsExact(a: Answers, opts: Options)
    ensures Flips(a, opts) <==> exists k: nat ::
      && (k == 0 || k < opts.busyRetries) && (forall j: nat :: j < k ==> a.update(j) == Busy)
      && (a.update(k) == Done || a.update(k) == LostReply)
  {
    var n := Attempts(opts);
    var k := FirstAnswer(a.update, n);
    LastAnswerAt(a.update, 0, n, k);
    if other: nat :| && (other == 0 || other < opts.busyRetries) && (forall j: nat :: j < other ==> a.update(j) == Busy)
                     && (a.update(other) == Done || a.update(other) == LostReply)
    {
      LastAnswerAt(a.update, 0, n, other);
    }
  }

  /** The conversion is reported a success exactly if that answer is no error, and the directory goes or is kept. */
  lemma {:induction false} SucceedsExact(a: Answers, opts: Options)
    ensures Succeeds(a, opts) <==> (opts.keepOld || a.removeDir) && exists k: nat ::
      && (k == 0 || k < opts.busyRetries) && (forall j: nat :: j < k ==> a.update(j) == Busy) && a.update(k) == Done
  {
    var n := Attempts(opts);
    var k := FirstAnswer(a.update, n);
    LastAnswerAt(a.update, 0, n, k);
    if other: nat :| (other == 0 || other < opts.busyRetries) && (forall j: nat :: j < other ==> a.update(j) == Busy)
                     && a.update(other) == Done
    {
      LastAnswerAt(a.update, 0, n, other);
    }
  }

  lemma {:induction false} FirstAnswer(update: nat -> UpdateAnswer, n: nat) returns (k: nat)
    requires n > 0
    ensures k < n && (forall j: nat :: j < k ==> update(j) == Busy) && (update(k) != Busy || k == n - 1)
  {
    k := 0;
    while k + 1 < n && update(k) == Busy
      invariant k < n && forall j: nat :: j < k ==> update(j) == Busy
    {
      k := k + 1;
    }
  }

  // ----- what becomes of each row -----

  predicate SameDir(a: World, b: World, q: Path) {
    (q in a.dirs <==> q in b.dirs) && (q in a.dirs ==> a.dirs[q] == b.dirs[q])
  }

  /** Of the files, converting a directory touches only its container and temporary file. */
  ghost predicate FilesElsewhere(a: World, b: World, p: Path) {
    forall q :: q != AviPath(p) && q != TmpPath(p) ==>
      (q in a.files <==> q in b.files) && (q in a.files ==> a.files[q] == b.files[q])
  }

  /** And it touches no other directory. */
  ghost predicate Elsewhere(a: World, b: World, p: Path) {
    FilesElsewhere(a, b, p) && forall q :: q != p ==> SameDir(a, b, q)
  }

  /** The row's camera is asked for, and its path is an ordinary directory in which frames are listed. */
  predicate Converts(w: World, id: nat, a: Answers)
    requires id in w.rows
  {
    var p := w.rows[id].path;
    !a.otherCamera && a.isDir && p in w.dirs && !a.dark && a.listed && w.dirs[p] != []
  }

  /** Its camera is asked for, but it is no directory, dark, not listed or without frames. */
  predicate Skips(w: World, id: nat, a: Answers)
    requires id in w.rows
  {
    var p := w.rows[id].path;
    !a.otherCamera && (!a.isDir || p !in w.dirs || a.dark || !a.listed || w.dirs[p] == [])
  }

  /** Its conversion goes all the way. */
  predicate Succeeding(w: World, id: nat, a: Answers, opts: Options)
    requires id in w.rows
  {
    var p := w.rows[id].path;
    Converts(w, id, a) && Ready(a, w, p, |w.dirs[p]|) && Succeeds(a, opts)
  }

  /** Its conversion gets as far as the row. */
  predicate Flipping(w: World, id: nat, a: Answers, opts: Options)
    requires id in w.rows
  {
    var p := w.rows[id].path;
    Converts(w, id, a) && Ready(a, w, p, |w.dirs[p]|) && Flips(a, opts)
  }

  /**
   What a run leaves of a row it visited: flipped to a container with all its frames where its conversion
   gets that far, and otherwise as it was, with its directory.
   */
  ghost predicate Settled(start: World, w: World, id: nat, a: Answers, opts: Options)
    requires id in start.rows && id in w.rows
  {
    var p := start.rows[id].path;
    if Flipping(start, id, a, opts) then
      && w.rows[id] == Row(p + ".avi", Avi, |start.dirs[p]|, a.size)
      && p + ".avi" in w.files && w.files[p + ".avi"] == start.dirs[p]
      && (opts.keepOld ==> SameDir(start, w, p))
      && (Succeeding(start, id, a, opts) && !opts.keepOld ==> p !in w.dirs)
    else w.rows[id] == start.rows[id] && SameDir(start, w, p)
  }

  /** How many of the first n places have the property. */
  function Count(has: nat -> bool, n: nat): (c: nat)
    ensures c <= n
  {
    if n == 0 then 0 else Count(has, n - 1) + if has(n - 1) then 1 else 0
  }

  function OtherCameras(answers: nat -> Answers): nat -> bool {
    (i: nat) => answers(i).otherCamera
  }

  function Skipping(w: World, ids: seq<nat>, answers: nat -> Answers): nat -> bool {
    (i: nat) => i < |ids| && ids[i] in w.rows && Skips(w, ids[i], answers(i))
  }

  function Converting(w: World, ids: seq<nat>, answers: nat -> Answers): nat -> bool {
    (i: nat) => i < |ids| && ids[i] in w.rows && Converts(w, ids[i], answers(i))
  }

  function Converted(w: World, ids: seq<nat>, answers: nat -> Answers, opts: Options): nat -> bool {
    (i: nat) => i < |ids| && ids[i] in w.rows && Succeeding(w, ids[i], answers(i), opts)
  }

  /**
   The report is the numbers of such rows among the first n; rows planned are converted or failed, and none
   is planned past the limit.
   */
  ghost predicate Tallied(start: World, ids: seq<nat>, answers: nat -> Answers, opts: Options, rep: Report,
      passed: nat, n: nat)
  {
    && passed == Count(OtherCameras(answers), n)
    && rep.skipped == Count(Skipping(start, ids, answers), n)
    && rep.planned == Count(Converting(start, ids, answers), n)
    && rep.converted == (if opts.dryRun then 0 else Count(Converted(start, ids, answers, opts), n))
    && rep.failed == (if opts.dryRun then 0 else rep.planned - rep.converted)
    && (opts.limit > 0 ==> rep.planned <= opts.limit)
  }

  ghost predicate NoRepeats(ids: seq<nat>) {
    forall i, j :: 0 <= i < j < |ids| ==> ids[i] != ids[j]
  }

  /** Directories that no row visited names are as at the start. */
  ghost predicate DirsKept(start: World, w: World, ids: seq<nat>, n: nat)
    requires n <= |ids| && forall i :: 0 <= i < |ids| ==> ids[i] in start.rows
  {
    forall q :: (forall i :: 0 <= i < n ==> start.rows[ids[i]].path != q) ==> SameDir(start, w, q)
  }

  /** So a row's turn comes with its directory, and all that its conversion meets, as at the start. */
  lemma TurnComes(start: World, w: World, ids: seq<nat>, n: nat, a: Answers)
    requires Separate(start.rows) && n < |ids| && forall i :: 0 <= i < |ids| ==> ids[i] in start.rows
    requires NoRepeats(ids)
    requires DirsKept(start, w, ids, n)
    ensures var p := start.rows[ids[n]].path;
      SameDir(start, w, p) && forall k :: Ready(a, start, p, k) <==> Ready(a, w, p, k)
  {
    hide AllWritten, StoredCount, AviPath, TmpPath;
    var p := start.rows[ids[n]].path;
    NamesDiffer(p);
    forall i | 0 <= i < n
      ensures start.rows[ids[i]].path != p
      ensures start.rows[ids[i]].path != AviPath(p) && start.rows[ids[i]].path != TmpPath(p)
    {
      assert ids[i] != ids[n];
    }
    assert SameDir(start, w, p) && SameDir(start, w, AviPath(p)) && SameDir(start, w, TmpPath(p));
  }

  lemma DirsKeptStep(start: World, w: World, next: World, ids: seq<nat>, n: nat)
    requires n < |ids| && forall i :: 0 <= i < |ids| ==> ids[i] in start.rows
    requires DirsKept(start, w, ids, n)
    requires forall q :: q != start.rows[ids[n]].path ==> SameDir(w, next, q)
    ensures DirsKept(start, next, ids, n + 1)
  {
    forall q | forall i :: 0 <= i < n + 1 ==> start.rows[ids[i]].path != q ensures SameDir(start, next, q) {
      assert start.rows[ids[n]].path != q;
      assert SameDir(start, w, q) && SameDir(w, next, q);
    }
  }

  /** Converting another row leaves what was made of this one. */
  lemma SettledStays(start: World, w: World, next: World, id: nat, other: nat, a: Answers, opts: Options)
    requires Separate(start.rows) && id in start.rows && other in start.rows && id != other
    requires id in w.rows && id in next.rows && next.rows[id] == w.rows[id]
    requires Elsewhere(w, next, start.rows[other].path) && Settled(start, w, id, a, opts)
    ensures Settled(start, next, id, a, opts)
  {
    hide Flipping, Succeeding;
    var p, q := start.rows[id].path, start.rows[other].path;
    Suffixes(p, q);
    Suffixes(q, p);
    assert SameDir(w, next, p);
    assert p + ".avi" == AviPath(p);
    hide AviPath, TmpPath, Separate;
    assert p + ".avi" != AviPath(q) && p + ".avi" != TmpPath(q);
    assert p + ".avi" in w.files ==> p + ".avi" in next.files && next.files[p + ".avi"] == w.files[p + ".avi"];
  }

  /** A conversion that did what its cycle does to an ordinary row at its turn settles that row. */
  lemma ConversionSettles(start: World, before: World, after: World, id: nat, a: Answers, opts: Options)
    requires id in start.rows && id in before.rows && before.rows[id] == start.rows[id]
    requires var p := start.rows[id].path; p in start.dirs && SameDir(start, before, p)
    requires var p := start.rows[id].path;
      var n := |start.dirs[p]|;
      && (Ready(a, start, p, n) <==> Ready(a, before, p, n))
      && (Ready(a, before, p, n) && Flips(a, opts) ==>
            AviPath(p) in after.files && after.files[AviPath(p)] == start.dirs[p])
      && after.rows == (if Ready(a, before, p, n) && Flips(a, opts)
                        then before.rows[id := Row(AviPath(p), Avi, n, a.size)] else before.rows)
      && (after.dirs == if !Ready(a, before, p, n) || LastAnswer(a.update, 0, Attempts(opts)) != Done
                           || opts.keepOld then before.dirs
                        else if a.removeDir then before.dirs - {p} else before.dirs[p := a.remains])
    requires Converts(start, id, a)
    ensures Settled(start, after, id, a, opts)
  {
    hide Ready, LastAnswer, Attempts;
  }

  lemma NotConverted(start: World, w: World, id: nat, a: Answers, opts: Options)
    requires id in start.rows && id in w.rows && w.rows[id] == start.rows[id]
    requires SameDir(start, w, start.rows[id].path) && !Converts(start, id, a)
    ensures Settled(start, w, id, a, opts)
  {
    hide Converts;
  }

  datatype Report = Report(planned: nat, converted: nat, skipped: nat, failed: nat)

  /**
   What a run that is not dry has made of its first n rows: each is settled, and rows and directories that are
   none of theirs are as at the start. A dry run changes nothing.
   */
  ghost predicate Progress(start: World, w: World, ids: seq<nat>, answers: nat -> Answers, opts: Options, n: nat)
    requires n <= |ids| && forall i :: 0 <= i < |ids| ==> ids[i] in start.rows
  {
    && w.rows.Keys == start.rows.Keys
    && (opts.dryRun ==> w == start)
    && (!opts.dryRun ==> forall i :: 0 <= i < n ==> Settled(start, w, ids[i], answers(i), opts))
    && (forall id :: id in start.rows && id !in ids[..n] ==> w.rows[id] == start.rows[id])
    && DirsKept(start, w, ids, n)
  }

  lemma NothingVisited(start: World, ids: seq<nat>, answers: nat -> Answers, opts: Options)
    requires forall i :: 0 <= i < |ids| ==> ids[i] in start.rows
    ensures Progress(start, start, ids, answers, opts, 0)
    ensures Tallied(start, ids, answers, opts, Report(0, 0, 0, 0), 0, 0)
  {
  }

  lemma ProgressTurn(start: World, w: World, ids: seq<nat>, answers: nat -> Answers, opts: Options, n: nat)
    requires Separate(start.rows) && n < |ids| && forall i :: 0 <= i < |ids| ==> ids[i] in start.rows
    requires NoRepeats(ids)
    requires Progress(start, w, ids, answers, opts, n)
    ensures w.rows.Keys == start.rows.Keys && w.rows[ids[n]] == start.rows[ids[n]]
    ensures DirsKept(start, w, ids, n) && SameDir(start, w, start.rows[ids[n]].path)
  {
    hide Settled, DirsKept, Separate;
    TurnComes(start, w, ids, n, answers(n));
    assert ids[n] !in ids[..n];
  }

  /** The report after one more row. */
  lemma TalliedStep(start: World, ids: seq<nat>, answers: nat -> Answers, opts: Options, was: Report,
      passed: nat, n: nat)
    requires n < |ids| && ids[n] in start.rows && Tallied(start, ids, answers, opts, was, passed, n)
    ensures answers(n).otherCamera ==> Tallied(start, ids, answers, opts, was, passed + 1, n + 1)
    ensures Skips(start, ids[n], answers(n)) ==>
      Tallied(start, ids, answers, opts, was.(skipped := was.skipped + 1), passed, n + 1)
    ensures Converts(start, ids[n], answers(n)) && (opts.limit > 0 ==> was.planned < opts.limit) ==>
      var rep := was.(planned := was.planned + 1);
      Tallied(start, ids, answers, opts,
              if opts.dryRun then rep
              else if Succeeding(start, ids[n], answers(n), opts) then rep.(converted := was.converted + 1)
              else rep.(failed := was.failed + 1), passed, n + 1)
  {
    OneKind(start, ids[n], answers(n), opts);
    hide Skips, Converts, Succeeding;
  }

  lemma TalliedLimit(start: World, ids: seq<nat>, answers: nat -> Answers, opts: Options, rep: Report,
      passed: nat, n: nat)
    requires Tallied(start, ids, answers, opts, rep, passed, n)
    ensures opts.limit > 0 ==> rep.planned <= opts.limit
  {
  }

  lemma OneKind(start: World, id: nat, a: Answers, opts: Options)
    requires id in start.rows
    ensures a.otherCamera ==> !Skips(start, id, a) && !Converts(start, id, a)
    ensures a.otherCamera || (Skips(start, id, a) <==> !Converts(start, id, a))
    ensures Succeeding(start, id, a, opts) ==> Converts(start, id, a)
  {
  }

  /** A row that is left alone. */
  lemma LeftStep(start: World, w: World, ids: seq<nat>, answers: nat -> Answers, opts: Options, n: nat)
    requires Separate(start.rows) && n < |ids| && forall i :: 0 <= i < |ids| ==> ids[i] in start.rows
    requires NoRepeats(ids)
    requires Progress(start, w, ids, answers, opts, n)
    requires opts.dryRun || !Converts(start, ids[n], answers(n))
    ensures Progress(start, w, ids, answers, opts, n + 1)
  {
    hide Settled, DirsKept, Separate, Converts, NoRepeats;
    ProgressTurn(start, w, ids, answers, opts, n);
    assert ids[..n + 1] == ids[..n] + [ids[n]];
    SameDirs(w);
    DirsKeptStep(start, w, w, ids, n);
    if !opts.dryRun {
      NotConverted(start, w, ids[n], answers(n), opts);
    }
  }

  lemma SameDirs(w: World)
    ensures forall q :: SameDir(w, w, q)
  {
  }

  /** A row that is converted, as far as that goes. */
  lemma ConvertedStep(start: World, w: World, next: World, ids: seq<nat>, answers: nat -> Answers, opts: Options,
      n: nat)
    requires Separate(start.rows) && n < |ids| && forall i :: 0 <= i < |ids| ==> ids[i] in start.rows
    requires NoRepeats(ids)
    requires Progress(start, w, ids, answers, opts, n) && !opts.dryRun && next.rows.Keys == start.rows.Keys
    requires Settled(start, next, ids[n], answers(n), opts) && Elsewhere(w, next, start.rows[ids[n]].path)
    requires forall id :: id in start.rows && id != ids[n] ==> next.rows[id] == w.rows[id]
    ensures Progress(start, next, ids, answers, opts, n + 1)
  {
    hide Settled, DirsKept, Separate, FilesElsewhere, SameDir;
    assert ids[..n + 1] == ids[..n] + [ids[n]];
    DirsKeptStep(start, w, next, ids, n);
    hide Elsewhere;
    forall i | 0 <= i < n ensures Settled(start, next, ids[i], answers(i), opts) {
      SettledStays(start, w, next, ids[i], ids[n], answers(i), opts);
    }
  }

  lemma {:induction false} CountIsSize(has: nat -> bool, n: nat)
    ensures Count(has, n) == |set i: nat | i < n && has(i)|
  {
    if n > 0 {
      CountIsSize(has, n - 1);
      var before, after := set i: nat | i < n - 1 && has(i), set i: nat | i < n && has(i);
      assert n - 1 !in before;
      assert after == before + if has(n - 1) then {n - 1} else {};
    }
  }

  /** What the numbers of the report are, row by row of those visited. */
  lemma {:induction false} ReportExact(start: World, ids: seq<nat>, answers: nat -> Answers, opts: Options, rep: Report,
      passed: nat, n: nat)
    requires n <= |ids| && forall i :: 0 <= i < |ids| ==> ids[i] in start.rows
    requires Tallied(start, ids, answers, opts, rep, passed, n)
    ensures passed == |set i: nat | i < n && answers(i).otherCamera|
    ensures rep.skipped == |set i: nat | i < n && !answers(i).otherCamera &&
                              var a, p := answers(i), start.rows[ids[i]].path;
                              !a.isDir || p !in start.dirs || a.dark || !a.listed || start.dirs[p] == []|
    ensures rep.planned == n - passed - rep.skipped
    ensures rep.converted
            == if opts.dryRun then 0 else |set i: nat | i < n && Succeeding(start, ids[i], answers(i), opts)|
    ensures rep.converted + rep.failed == if opts.dryRun then 0 else rep.planned
  {
    PassedSize(answers, n);
    SkippedSize(start, ids, answers, n);
    ConvertedSize(start, ids, answers, opts, n);
    AllKinds(start, ids, answers, n);
    hide Count, Skipping, Converting, Converted;
  }

  lemma PassedSize(answers: nat -> Answers, n: nat)
    ensures Count(OtherCameras(answers), n) == |set i: nat | i < n && answers(i).otherCamera|
  {
    CountIsSize(OtherCameras(answers), n);
    assert (set i: nat | i < n && answers(i).otherCamera) == set i: nat | i < n && OtherCameras(answers)(i);
  }

  lemma ConvertedSize(start: World, ids: seq<nat>, answers: nat -> Answers, opts: Options, n: nat)
    requires n <= |ids| && forall i :: 0 <= i < |ids| ==> ids[i] in start.rows
    ensures Count(Converted(start, ids, answers, opts), n)
      == |set i: nat | i < n && Succeeding(start, ids[i], answers(i), opts)|
  {
    hide Succeeding;
    CountIsSize(Converted(start, ids, answers, opts), n);
    assert (set i: nat | i < n && Succeeding(start, ids[i], answers(i), opts))
        == set i: nat | i < n && Converted(start, ids, answers, opts)(i);
  }

  lemma SkippedSize(start: World, ids: seq<nat>, answers: nat -> Answers, n: nat)
    requires n <= |ids| && forall i :: 0 <= i < |ids| ==> ids[i] in start.rows
    ensures Count(Skipping(start, ids, answers), n)
      == |set i: nat | i < n && !answers(i).otherCamera &&
            var a, p := answers(i), start.rows[ids[i]].path;
            !a.isDir || p !in start.dirs || a.dark || !a.listed || start.dirs[p] == []|
  {
    CountIsSize(Skipping(start, ids, answers), n);
    assert (set i: nat | i < n && !answers(i).otherCamera &&
              var a, p := answers(i), start.rows[ids[i]].path;
              !a.isDir || p !in start.dirs || a.dark || !a.listed || start.dirs[p] == [])
        == set i: nat | i < n && Skipping(start, ids, answers)(i);
  }

  lemma {:induction false} AllKinds(start: World, ids: seq<nat>, answers: nat -> Answers, n: nat)
    requires n <= |ids| && forall i :: 0 <= i < |ids| ==> ids[i] in start.rows
    ensures Count(OtherCameras(answers), n) + Count(Skipping(start, ids, answers), n)
      + Count(Converting(start, ids, answers), n) == n
  {
    if n > 0 {
      AllKinds(start, ids, answers, n - 1);
      OneKind(start, ids[n - 1], answers(n - 1), Options(0, true, true, 0));
      hide Skips, Converts;
    }
  }

  /**
   What a run that is not dry leaves of each row it visited: a row of a camera asked for, whose path is an
   ordinary directory with frames listed, and where every step works, points at a container with all its
   frames. Any other keeps its entry and its directory.
   */
  lemma {:induction false} VisitedRow(start: World, w: World, ids: seq<nat>, answers: nat -> Answers, opts: Options,
      n: nat, i: nat)
    requires i < n <= |ids| && forall i :: 0 <= i < |ids| ==> ids[i] in start.rows
    requires Progress(start, w, ids, answers, opts, n) && !opts.dryRun
    ensures var id, a := ids[i], answers(i);
      var p := start.rows[id].path;
      var works :=
        && !a.otherCamera && a.isDir && p in start.dirs && !a.dark && a.listed && start.dirs[p] != []
        && a.create && (forall k: nat :: k < |start.dirs[p]| ==> a.frame(k) == Stored) && a.finish && a.readBack
        && a.rename && a.stat && p + ".avi" !in start.dirs && p + ".avi" + ".tmp" !in start.dirs
        && exists k: nat ::
          && (k == 0 || k < opts.busyRetries) && (forall j: nat :: j < k ==> a.update(j) == Busy)
          && (a.update(k) == Done || a.update(k) == LostReply);
      if works then
        && w.rows[id] == Row(p + ".avi", Avi, |start.dirs[p]|, a.size)
        && p + ".avi" in w.files && w.files[p + ".avi"] == start.dirs[p]
        && (opts.keepOld ==> SameDir(start, w, p)) && (!opts.keepOld && Succeeds(a, opts) ==> p !in w.dirs)
      else w.rows[id] == start.rows[id] && SameDir(start, w, p)
  {
    var id, a := ids[i], answers(i);
    var p := start.rows[id].path;
    assert Settled(start, w, id, a, opts);
    if p in start.dirs {
      ReadyExact(a, start, p, |start.dirs[p]|);
    }
    FlipsExact(a, opts);
    hide Ready, Flips, DirsKept, Progress, Succeeding, LastAnswer;
  }

  class Converter {
    ghost const start: World
    var w: World
    ghost var history: seq<World>

    /** Wherever the program was killed, every row shows what it showed at the start. */
    ghost predicate Valid()
      reads this
    {
      && Separate(start.rows) && Playable(start, w)
      && forall i :: 0 <= i < |history| ==> Playable(start, history[i])
    }

    constructor (w: World)
      requires Separate(w.rows)
      ensures Valid() && this.w == w && start == w && history == [w]
    {
      this.w, start, history := w, w, [w];
    }

    /** One step that the outside can see. */
    method Do(next: World)
      requires Valid() && Playable(start, next)
      modifies this`w, this`history
      ensures Valid() && w == next && history == old(history) + [next]
    {
      w := next;
      history := history + [next];
    }

    method DropTmp(id: nat, p: Path, a: Answers)
      requires Valid() && id in start.rows && p == start.rows[id].path
      modifies this`w, this`history
      ensures Valid() && old(history) <= history
      ensures w == if a.dropTmp then old(w).(files := old(w).files - {TmpPath(p)}) else old(w)
    {
      if a.dropTmp {
        WorkspaceUnnamed(start, w, id);
        ghost var next := w.(files := w.files - {TmpPath(p)});
        TouchSafe(start, w, next, TmpPath(p));
        Do(w.(files := w.files - {TmpPath(p)}));
      }
    }

    method WriteTmp(p: Path, frames: seq<Frame>, ghost id: nat)
      requires Valid() && id in start.rows && p == start.rows[id].path && TmpPath(p) !in w.dirs
      modifies this`w, this`history
      ensures Valid() && old(history) <= history
      ensures w == old(w).(files := old(w).files[TmpPath(p) := frames])
    {
      WorkspaceUnnamed(start, w, id);
      ghost var next := w.(files := w.files[TmpPath(p) := frames]);
      TouchSafe(start, w, next, TmpPath(p));
      Do(w.(files := w.files[TmpPath(p) := frames]));
    }

    /** Fills the temporary file frame by frame; says how many were written, and whether all could be. */
    method WriteFrames(id: nat, p: Path, frames: seq<Frame>, a: Answers) returns (wrote: nat, ok: bool)
      requires Valid() && id in start.rows && p == start.rows[id].path && TmpPath(p) !in w.dirs
      modifies this`w, this`history
      ensures Valid() && old(history) <= history
      ensures ok <==> AllWritten(a, |frames|)
      ensures TmpPath(p) in w.files && w == old(w).(files := old(w).files[TmpPath(p) := w.files[TmpPath(p)]])
      ensures ok ==> wrote == |frames| && |w.files[TmpPath(p)]| == StoredCount(a, |frames|)
      ensures ok && StoredCount(a, |frames|) == |frames| ==> w.files[TmpPath(p)] == frames
    {
      hide Valid, TmpPath, StoredCount, AllWritten;
      WriteTmp(p, [], id);
      NoneStored(a);
      wrote := 0;
      for i := 0 to |frames|
        invariant Valid() && old(history) <= history && wrote == i
        invariant AllWritten(a, i)
        invariant TmpPath(p) in w.files && w == old(w).(files := old(w).files[TmpPath(p) := w.files[TmpPath(p)]])
        invariant |w.files[TmpPath(p)]| == StoredCount(a, i) <= i
        invariant StoredCount(a, i) == i ==> w.files[TmpPath(p)] == frames[..i]
      {
        StoredStep(a, i);
        if a.frame(i) == Unreadable || a.frame(i) == Unwritable {
          NotAllWritten(a, i, |frames|);
          return wrote, false;
        }
        if a.frame(i) == Stored {
          WriteTmp(p, w.files[TmpPath(p)] + [frames[i]], id);
        }
        wrote := wrote + 1;
        assert frames[..i + 1] == frames[..i] + [frames[i]];
      }
      assert frames[..|frames|] == frames;
      ok := true;
    }

    /** Retries the row's update while the table is busy. */
    method RetryOnBusy(id: nat, row: Row, a: Answers, opts: Options) returns (ok: bool)
      requires Valid() && id in start.rows && row.path == AviPath(start.rows[id].path)
      requires w.rows[id].path == start.rows[id].path && Show(w, row.path) == Show(w, w.rows[id].path)
      modifies this`w, this`history
      ensures Valid() && old(history) <= history
      ensures w == if Flips(a, opts) then old(w).(rows := old(w).rows[id := row]) else old(w)
      ensures ok <==> LastAnswer(a.update, 0, Attempts(opts)) == Done
    {
      hide Show, Playable, Separate;
      var n := if opts.busyRetries > 1 then opts.busyRetries else 1;
      for i := 0 to n
        invariant w == old(w) && Valid() && history == old(history)
        invariant i < n ==> LastAnswer(a.update, 0, n) == LastAnswer(a.update, i, n)
        invariant i == n ==> LastAnswer(a.update, 0, n) == Busy
      {
        var answer := a.update(i);
        if answer == Done || answer == LostReply {
          FlipSafe(start, w, id, row);
          Do(w.(rows := w.rows[id := row]));
          return answer == Done;
        }
        if answer == Failed {
          return false;
        }
      }
      ok := false;
    }

    /** Up to the finished container beside the directory; the table and the directories are not touched. */
    method MakeContainer(id: nat, p: Path, frames: seq<Frame>, a: Answers) returns (ready: bool)
      requires Valid() && id in start.rows && p == start.rows[id].path && w.rows[id].path == p
      modifies this`w, this`history
      ensures Valid() && old(history) <= history
      ensures ready <==> Ready(a, old(w), p, |frames|)
      ensures w.rows == old(w).rows && w.dirs == old(w).dirs && FilesElsewhere(old(w), w, p)
      ensures ready ==> AviPath(p) in w.files && w.files[AviPath(p)] == frames && TmpPath(p) !in w.files
    {
      hide Show, Valid, Playable, Separate, AviPath, TmpPath, StoredCount, AllWritten;
      NamesDiffer(p);
      if !a.create || TmpPath(p) in w.dirs {
        return false;
      }
      var wrote, written := WriteFrames(id, p, frames, a);
      if !written || !a.finish || !a.readBack {
        DropTmp(id, p, a);
        return false;
      }
      var count := |w.files[TmpPath(p)]|;
      if count != wrote {
        DropTmp(id, p, a);
        return false;
      }
      if !a.rename || AviPath(p) in w.dirs {
        DropTmp(id, p, a);
        return false;
      }
      Rename(id, p);
      return a.stat;
    }

    /**
     The whole cycle for one row. The directory goes last, and the row moves only to a container that
     has every frame. A failure is reported with the row moved exactly if the reply of the update was
     lost or the directory could not be removed.
     */
    method ContainerizeOne(id: nat, p: Path, frames: seq<Frame>, a: Answers, opts: Options) returns (ok: bool)
      requires Valid() && id in start.rows && p == start.rows[id].path && w.rows[id].path == p
      requires p in w.dirs && w.dirs[p] == frames
      modifies this`w, this`history
      ensures Valid() && old(history) <= history
      ensures ok <==> Ready(a, old(w), p, |frames|) && Succeeds(a, opts)
      ensures w.rows == if Ready(a, old(w), p, |frames|) && Flips(a, opts)
                        then old(w).rows[id := Row(AviPath(p), Avi, |frames|, a.size)] else old(w).rows
      ensures Ready(a, old(w), p, |frames|) && Flips(a, opts) ==>
        AviPath(p) in w.files && w.files[AviPath(p)] == frames && TmpPath(p) !in w.files
      ensures w.dirs == if !Ready(a, old(w), p, |frames|) || LastAnswer(a.update, 0, Attempts(opts)) != Done
                           || opts.keepOld then old(w).dirs
                        else if a.removeDir then old(w).dirs - {p} else old(w).dirs[p := a.remains]
      ensures FilesElsewhere(old(w), w, p)
    {
      hide Show, Valid, Playable, Separate, AviPath, TmpPath, Ready, LastAnswer, FilesElsewhere;
      NamesDiffer(p);
      var ready := MakeContainer(id, p, frames, a);
      if !ready {
        return false;
      }
      ReadyFree(a, old(w), p, |frames|);
      ShowsAlike(w, p);
      ghost var made := w;
      ok := RetryOnBusy(id, Row(AviPath(p), Avi, |frames|, a.size), a, opts);
      if ok && !opts.keepOld {
        ok := RemoveSource(id, p, a);
      }
      SameFiles(old(w), made, w, p);
    }

    method Rename(id: nat, p: Path)
      requires Valid() && id in start.rows && p == start.rows[id].path && w.rows[id].path == p && TmpPath(p) in w.files
      modifies this`w, this`history
      ensures Valid() && old(history) <= history
      ensures w == Renamed(old(w), p)
    {
      RenameSafe(start, w, id);
      Do(Renamed(w, p));
    }

    /** Removes the directory, or some of it. */
    method RemoveSource(id: nat, p: Path, a: Answers) returns (ok: bool)
      requires Valid() && id in start.rows && p == start.rows[id].path && w.rows[id].path == AviPath(p)
      modifies this`w, this`history
      ensures Valid() && old(history) <= history && ok == a.removeDir
      ensures w == WithoutDir(old(w), p, if ok then None else Some(a.remains))
    {
      WorkspaceUnnamed(start, w, id);
      var next := w.(dirs := if a.removeDir then w.dirs - {p} else w.dirs[p := a.remains]);
      TouchSafe(start, w, next, p);
      Do(next);
      ok := a.removeDir;
    }

    /** The conversion of a row at its turn. */
    method ConvertInTurn(ids: seq<nat>, i: nat, a: Answers, opts: Options) returns (ok: bool)
      requires Valid() && i < |ids| && forall k :: 0 <= k < |ids| ==> ids[k] in start.rows
      requires NoRepeats(ids)
      requires DirsKept(start, w, ids, i) && w.rows.Keys == start.rows.Keys
      requires w.rows[ids[i]] == start.rows[ids[i]] && Converts(start, ids[i], a)
      modifies this`w, this`history
      ensures Valid() && old(history) <= history && w.rows.Keys == start.rows.Keys
      ensures ok <==> Succeeding(start, ids[i], a, opts)
      ensures Settled(start, w, ids[i], a, opts) && Elsewhere(old(w), w, start.rows[ids[i]].path)
      ensures forall id :: id in start.rows && id != ids[i] ==> w.rows[id] == old(w).rows[id]
    {
      hide Valid, Playable, Separate, Ready, Flips, Succeeds, Settled, DirsKept, FilesElsewhere, LastAnswer, AviPath;
      var id := ids[i];
      var p := w.rows[id].path;
      SourcesApart();
      TurnComes(start, w, ids, i, a);
      ok := ContainerizeOne(id, p, w.dirs[p], a, opts);
      ConversionSettles(start, old(w), w, id, a, opts);
    }

    /** One row: passed over, skipped, planned or converted. */
    method VisitRow(ids: seq<nat>, i: nat, answers: nat -> Answers, opts: Options, was: Report, passedBefore: nat)
        returns (rep: Report, passed: nat)
      requires Valid() && i < |ids| && NoRepeats(ids) && forall k :: 0 <= k < |ids| ==> ids[k] in start.rows
      requires Progress(start, w, ids, answers, opts, i) && Tallied(start, ids, answers, opts, was, passedBefore, i)
      requires answers(i).otherCamera || opts.limit <= 0 || was.planned < opts.limit
      modifies this`w, this`history
      ensures Valid() && old(history) <= history
      ensures Progress(start, w, ids, answers, opts, i + 1)
      ensures Tallied(start, ids, answers, opts, rep, passed, i + 1)
    {
      hide Valid, Succeeding, Settled, DirsKept, Elsewhere, Progress, Separate, Tallied, NoRepeats;
      SourcesApart();
      ProgressTurn(start, w, ids, answers, opts, i);
      TalliedStep(start, ids, answers, opts, was, passedBefore, i);
      var id, a := ids[i], answers(i);
      var p := w.rows[id].path;
      rep, passed := was, passedBefore;
      if a.otherCamera {
        LeftStep(start, w, ids, answers, opts, i);
        return rep, passed + 1;
      }
      if !a.isDir || p !in w.dirs || a.dark || !a.listed || |w.dirs[p]| == 0 {
        LeftStep(start, w, ids, answers, opts, i);
        return rep.(skipped := rep.skipped + 1), passed;
      }
      rep := rep.(planned := rep.planned + 1);
      if opts.dryRun {
        LeftStep(start, w, ids, answers, opts, i);
        return;
      }
      var ok := ConvertInTurn(ids, i, a, opts);
      ConvertedStep(start, old(w), w, ids, answers, opts, i);
      rep := if ok then rep.(converted := rep.converted + 1) else rep.(failed := rep.failed + 1);
    }

    /** All rows, one after the other. */
    method ContainerizeMJPEGDirs(ids: seq<nat>, answers: nat -> Answers, opts: Options)
        returns (rep: Report, passed: nat, visited: nat)
      requires Valid() && w == start
      requires NoRepeats(ids) && forall i :: 0 <= i < |ids| ==> ids[i] in start.rows
      modifies this`w, this`history
      ensures Valid() && old(history) <= history
      ensures visited <= |ids| && Progress(start, w, ids, answers, opts, visited)
      ensures Tallied(start, ids, answers, opts, rep, passed, visited)
      ensures forall i :: 0 <= i < visited ==> !answers(i).stop
      ensures visited < |ids| ==>
        answers(visited).stop || (!answers(visited).otherCamera && opts.limit > 0 && rep.planned == opts.limit)
    {
      hide Valid, Progress, Tallied, NoRepeats;
      rep, passed, visited := Report(0, 0, 0, 0), 0, 0;
      NothingVisited(start, ids, answers, opts);
      for i := 0 to |ids|
        invariant Valid() && old(history) <= history && visited == i
        invariant Progress(start, w, ids, answers, opts, i)
        invariant Tallied(start, ids, answers, opts, rep, passed, i)
        invariant forall k :: 0 <= k < i ==> !answers(k).stop
      {
        TalliedLimit(start, ids, answers, opts, rep, passed, i);
        if answers(i).stop || (!answers(i).otherCamera && opts.limit > 0 && rep.planned >= opts.limit) {
          break;
        }
        rep, passed := VisitRow(ids, i, answers, opts, rep, passed);
        visited := visited + 1;
      }
    }

    lemma SourcesApart()
      requires Valid()
      ensures Separate(start.rows)
    {
    }
  }

  lemma ReadyFree(a: Answers, w: World, p: Path, n: nat)
    requires Ready(a, w, p, n)
    ensures AviPath(p) !in w.dirs
  {
  }

  lemma SameFiles(w: World, made: World, after: World, p: Path)
    requires FilesElsewhere(w, made, p) && after.files == made.files
    ensures FilesElsewhere(w, after, p)
  {
  }

  lemma NamesDiffer(p: Path)
    ensures AviPath(p) != p && TmpPath(p) != p && TmpPath(p) != AviPath(p)
  {
    Suffixes(p, p);
  }

  lemma ShowsAlike(w: World, p: Path)
    requires p in w.dirs && AviPath(p) in w.files && AviPath(p) !in w.dirs && w.files[AviPath(p)] == w.dirs[p]
    ensures Show(w, AviPath(p)) == Show(w, p)
  {
  }
}

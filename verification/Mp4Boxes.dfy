/**
 The minimal reader of audio-only MP4 recordings: a walk over top-level boxes, and the descent to the
 first sample entry.  The reference is the box layout of section 4.2 of ISO/IEC 14496-12, written out
 by a serializer.
 */
module Mp4Boxes {
  import opened Bytes

  type FourCC = s: seq<Byte> | |s| == 4 witness [0, 0, 0, 0]

  const TRAK: FourCC := [0x74, 0x72, 0x61, 0x6B]
  const MDIA: FourCC := [0x6D, 0x64, 0x69, 0x61]
  const MINF: FourCC := [0x6D, 0x69, 0x6E, 0x66]
  const STBL: FourCC := [0x73, 0x74, 0x62, 0x6C]
  const STSD: FourCC := [0x73, 0x74, 0x73, 0x64]
  const MDAT: FourCC := [0x6D, 0x64, 0x61, 0x74]
  const MOOV: FourCC := [0x6D, 0x6F, 0x6F, 0x76]

  // ----- box trees and their bytes -----

  datatype Node =
    | Leaf(kind: FourCC, data: seq<Byte>)
    | Container(kind: FourCC, children: seq<Node>)

  function Payload(n: Node): seq<Byte> {
    match n
    case Leaf(_, data) => data
    case Container(_, children) => WriteAll(children)
  }

  function BoxBytes(kind: FourCC, payload: seq<Byte>): seq<Byte> {
    BigEndian(|payload| + 8, 4) + kind + payload
  }

  function WriteAll(nodes: seq<Node>): seq<Byte> {
    if nodes == [] then [] else BoxBytes(nodes[0].kind, Payload(nodes[0])) + WriteAll(nodes[1..])
  }

  /** Every listed box fits a 32-bit size. */
  predicate Fits(nodes: seq<Node>) {
    forall i :: 0 <= i < |nodes| ==> |Payload(nodes[i])| + 8 < TWO_32
  }

  function First(nodes: seq<Node>, kind: FourCC): Option<Node> {
    if nodes == [] then None
    else if nodes[0].kind == kind then Some(nodes[0])
    else First(nodes[1..], kind)
  }

  // ----- finding a child box -----

  /** The walk from the front of what is left of the parent. */
  function Find(rest: seq<Byte>, want: FourCC): Option<seq<Byte>>
    decreases |rest|
  {
    if |rest| < 8 then None else
    var size := ReadBigEndian(rest[..4]);
    if size < 8 || size > |rest| then None
    else if rest[4..8] == want then Some(rest[8..size])
    else Find(rest[size..], want)
  }

  /** The program's loop over an offset; no slice in it is out of bounds, and the offset always grows. */
  method FindBox(parent: seq<Byte>, want: FourCC) returns (r: Option<seq<Byte>>)
    ensures r == Find(parent, want)
  {
    var off := 0;
    while off + 8 <= |parent|
      invariant 0 <= off <= |parent|
      invariant Find(parent[off..], want) == Find(parent, want)
      decreases |parent| - off
    {
      ghost var rest := parent[off..];
      assert rest[..4] == parent[off..off + 4] && rest[4..8] == parent[off + 4..off + 8];
      var size := ReadBigEndian(parent[off..off + 4]);
      var kind := parent[off + 4..off + 8];
      if size < 8 || off + size > |parent| {
        return None;
      }
      if kind == want {
        assert rest[8..size] == parent[off + 8..off + size];
        return Some(parent[off + 8..off + size]);
      }
      assert rest[size..] == parent[off + size..];
      off := off + size;
    }
    return None;
  }

  /** Where the parts of a box lie when more bytes follow it. */
  lemma BoxParts(size: seq<Byte>, kind: FourCC, payload: seq<Byte>, rest: seq<Byte>)
    requires |size| == 4
    ensures var s := (size + kind + payload) + rest;
      var end := |payload| + 8;
      s[..4] == size && s[4..8] == kind && s[8..end] == payload && s[end..] == rest && |s| == end + |rest|
  {
  }

  /** In the bytes of any boxes, the walk finds the first one of the wanted kind. */
  lemma {:induction false} FindsFirst(nodes: seq<Node>, want: FourCC)
    requires Fits(nodes)
    ensures Find(WriteAll(nodes), want)
            == if First(nodes, want).Some? then Some(Payload(First(nodes, want).value)) else None
  {
    if nodes != [] {
      var n, payload, rest := nodes[0], Payload(nodes[0]), WriteAll(nodes[1..]);
      Widths();
      BigEndianRoundTrip(|payload| + 8, 4);
      BoxParts(BigEndian(|payload| + 8, 4), n.kind, payload, rest);
      assert Fits(nodes[1..]) by {
        assert forall i :: 0 <= i < |nodes[1..]| ==> nodes[1..][i] == nodes[i + 1];
      }
      FindsFirst(nodes[1..], want);
    }
  }

  // ----- descending to the sample entry -----

  /** Follows the kinds one level at a time. */
  function Descend(parent: seq<Byte>, path: seq<FourCC>): Option<seq<Byte>>
    decreases |path|
  {
    if path == [] then Some(parent) else
    match Find(parent, path[0])
    case None => None
    case Some(payload) => Descend(payload, path[1..])
  }

  const PATH: seq<FourCC> := [TRAK, MDIA, MINF, STBL, STSD]

  datatype Sample = Sample(fourcc: seq<Byte>, rate: nat, channels: nat)

  function SampleOf(stsd: seq<Byte>): Option<Sample> {
    if |stsd| < 16 then None
    else if |stsd| < 44 then Some(Sample(stsd[12..16], 0, 0))
    else Some(Sample(stsd[12..16], ReadBigEndian(stsd[40..44]) / 0x1_0000, ReadBigEndian(stsd[32..34])))
  }

  function ProbeStsd(moov: seq<Byte>): Option<Sample> {
    match Descend(moov, PATH)
    case None => None
    case Some(stsd) => SampleOf(stsd)
  }

  /** Along the path, the first child of each kind is a container whose children fit. */
  predicate OnPath(nodes: seq<Node>, path: seq<FourCC>)
    decreases |path|
  {
    && Fits(nodes)
    && (path != [] ==>
          && First(nodes, path[0]).Some?
          && (|path| > 1 ==>
                && First(nodes, path[0]).value.Container?
                && OnPath(First(nodes, path[0]).value.children, path[1..])))
  }

  function NodeAt(nodes: seq<Node>, path: seq<FourCC>): Node
    requires path != [] && OnPath(nodes, path)
    decreases |path|
  {
    var n := First(nodes, path[0]).value;
    if |path| == 1 then n else NodeAt(n.children, path[1..])
  }

  /** Descending the bytes is descending the tree. */
  lemma {:induction false} DescendsTree(nodes: seq<Node>, path: seq<FourCC>)
    requires path != [] && OnPath(nodes, path)
    ensures Descend(WriteAll(nodes), path) == Some(Payload(NodeAt(nodes, path)))
    decreases |path|
  {
    var n := First(nodes, path[0]).value;
    FindsFirst(nodes, path[0]);
    if |path| > 1 {
      DescendsTree(n.children, path[1..]);
    } else {
      assert path[1..] == [];
    }
  }

  /** A sample description with one audio entry (section 12.2.3 of ISO/IEC 14496-12). */
  function StsdBytes(
      fourcc: FourCC, channels: nat, rate: nat, entrySize: seq<Byte>, filler: seq<Byte>, more: seq<Byte>): seq<Byte>
    requires |entrySize| == 4 && |filler| == 30
  {
    filler[..8] + entrySize + fourcc + filler[8..24] + BigEndian(channels, 2) + filler[24..30]
    + BigEndian(rate * 0x1_0000, 4) + more
  }

  lemma SampleRecovered(fourcc: FourCC, channels: nat, rate: nat, entrySize: seq<Byte>, filler: seq<Byte>,
      more: seq<Byte>)
    requires |entrySize| == 4 && |filler| == 30 && channels < 0x1_0000 && rate < 0x1_0000
    ensures SampleOf(StsdBytes(fourcc, channels, rate, entrySize, filler, more)) == Some(Sample(fourcc, rate, channels))
  {
    hide BigEndian, ReadBigEndian, Pow256;
    Widths();
    BigEndianRoundTrip(channels, 2);
    BigEndianRoundTrip(rate * 0x1_0000, 4);
    var c, r := BigEndian(channels, 2), BigEndian(rate * 0x1_0000, 4);
    EntryParts(filler[..8] + entrySize, fourcc, filler[8..24], c, filler[24..30], r, more);
    var s := StsdBytes(fourcc, channels, rate, entrySize, filler, more);
    assert s == filler[..8] + entrySize + fourcc + filler[8..24] + c + filler[24..30] + r + more;
    assert s[12..16] == fourcc && s[32..34] == c && s[40..44] == r;
    hide StsdBytes;
  }

  lemma EntryParts(
      a: seq<Byte>, fourcc: seq<Byte>, b: seq<Byte>, channels: seq<Byte>, c: seq<Byte>, rate: seq<Byte>,
          more: seq<Byte>)
    requires |a| == 12 && |fourcc| == 4 && |b| == 16 && |channels| == 2 && |c| == 6 && |rate| == 4
    ensures var s := a + fourcc + b + channels + c + rate + more;
      s[12..16] == fourcc && s[32..34] == channels && s[40..44] == rate
  {
  }

  /** The kinds "trak", "mdia", "minf", "stbl" and "stsd". */
  predicate IsSamplePath(path: seq<FourCC>) {
    && |path| == 5
    && path[0] == [0x74, 0x72, 0x61, 0x6B] && path[1] == [0x6D, 0x64, 0x69, 0x61] && path[2] == [0x6D, 0x69, 0x6E, 0x66]
    && path[3] == [0x73, 0x74, 0x62, 0x6C] && path[4] == [0x73, 0x74, 0x73, 0x64]
  }

  lemma SamplePath(path: seq<FourCC>)
    requires IsSamplePath(path)
    ensures path == PATH
  {
  }

  /** Probing the bytes of any movie box recovers what its first sample entry was written with. */
  lemma ProbeRecovers(
      nodes: seq<Node>, path: seq<FourCC>, fourcc: FourCC, channels: nat, rate: nat, entrySize: seq<Byte>,
          filler: seq<Byte>, more: seq<Byte>)
    requires |entrySize| == 4 && |filler| == 30 && channels < 0x1_0000 && rate < 0x1_0000
    requires IsSamplePath(path) && OnPath(nodes, path)
    requires Payload(NodeAt(nodes, path)) == StsdBytes(fourcc, channels, rate, entrySize, filler, more)
    ensures ProbeStsd(WriteAll(nodes)) == Some(Sample(fourcc, rate, channels))
  {
    SamplePath(path);
    DescendsTree(nodes, path);
    SampleRecovered(fourcc, channels, rate, entrySize, filler, more);
  }

  /** A description too short for the numbers tells the kind only, and one too short for that nothing. */
  lemma ProbeShort(nodes: seq<Node>, path: seq<FourCC>)
    requires IsSamplePath(path) && OnPath(nodes, path) && |Payload(NodeAt(nodes, path))| < 44
    ensures var stsd := Payload(NodeAt(nodes, path));
      ProbeStsd(WriteAll(nodes)) == if |stsd| < 16 then None else Some(Sample(stsd[12..16], 0, 0))
  {
    SamplePath(path);
    DescendsTree(nodes, path);
  }

  /** The boxes at the end of a path. */
  function ChildrenAt(nodes: seq<Node>, path: seq<FourCC>): seq<Node>
    requires path != [] ==> OnPath(nodes, path) && NodeAt(nodes, path).Container?
  {
    if path == [] then nodes else NodeAt(nodes, path).children
  }

  /** A path that breaks off is not found: some box of it has no child of the next kind. */
  lemma {:induction false} DescendMissing(nodes: seq<Node>, path: seq<FourCC>, k: nat)
    requires k < |path| && (k > 0 ==> OnPath(nodes, path[..k]) && NodeAt(nodes, path[..k]).Container?)
    requires Fits(ChildrenAt(nodes, path[..k])) && First(ChildrenAt(nodes, path[..k]), path[k]).None?
    ensures Descend(WriteAll(nodes), path) == None
    decreases k
  {
    if k == 0 {
      FindsFirst(nodes, path[0]);
    } else {
      var front := path[..k];
      FindsFirst(nodes, path[0]);
      var n := First(nodes, path[0]).value;
      assert front[1..] == path[1..][..k - 1] && path[1..][k - 1] == path[k];
      if k > 1 {
        assert NodeAt(nodes, front) == NodeAt(n.children, front[1..]);
      }
      DescendMissing(n.children, path[1..], k - 1);
    }
  }

  /** So a movie box without a track, media, media information, sample table or sample description is refused. */
  lemma ProbeMissing(nodes: seq<Node>, path: seq<FourCC>, k: nat)
    requires IsSamplePath(path) && k < 5 && (k > 0 ==> OnPath(nodes, path[..k]) && NodeAt(nodes, path[..k]).Container?)
    requires Fits(ChildrenAt(nodes, path[..k])) && First(ChildrenAt(nodes, path[..k]), path[k]).None?
    ensures ProbeStsd(WriteAll(nodes)) == None
  {
    SamplePath(path);
    DescendMissing(nodes, path, k);
  }

  // ----- the top-level walk -----

  const MAX_PAYLOAD: nat := 512 * 1024 * 1024

  datatype Reading = Reading(sample: Option<Sample>, mdat: Option<seq<Byte>>)

  datatype Outcome = Failed | Done(r: Reading)

  /** Size and header length of the box at the front, or None when the header is bad. */
  function Header(rest: seq<Byte>): Option<(nat, nat)>
    requires |rest| >= 8
  {
    var size := ReadBigEndian(rest[..4]);
    if size == 1 then
      if |rest| < 16 then None else
      var large := ReadBigEndian(rest[8..16]);
      if large > MAX_PAYLOAD + 1024 then None else Some((large % TWO_32, 16))
    else if size == 0 then Some((|rest| % TWO_32, 8))
    else Some((size, 8))
  }

  function Drop(s: seq<Byte>, n: nat): seq<Byte> {
    if n <= |s| then s[n..] else []
  }

  /** Takes in the box at the front; what follows it is left.  Skipping may run past the end. */
  function TakeBox(rest: seq<Byte>, r: Reading): (t: Option<(seq<Byte>, Reading)>)
    ensures t.Some? ==> |t.value.0| < |rest|
  {
    if |rest| < 8 then None else
    match Header(rest)
    case None => None
    case Some((size, headerLen)) =>
      if size < headerLen then None else
      TakeBody(rest[4..8], rest[headerLen..], size - headerLen, r)
  }

  function TakeBody(kind: seq<Byte>, after: seq<Byte>, bodyLen: nat, r: Reading): (t: Option<(seq<Byte>, Reading)>)
    ensures t.Some? ==> |t.value.0| <= |after|
  {
    if kind == MDAT then
      if bodyLen > MAX_PAYLOAD || bodyLen > |after| then None
      else Some((after[bodyLen..], r.(mdat := Some(after[..bodyLen]))))
    else if kind == MOOV then
      if bodyLen > |after| || ProbeStsd(after[..bodyLen]).None? then None
      else Some((after[bodyLen..], r.(sample := Some(ProbeStsd(after[..bodyLen]).value))))
    else Some((Drop(after, bodyLen), r))
  }

  function Walk(rest: seq<Byte>, r: Reading): Outcome
    decreases |rest|
  {
    if rest == [] then Done(r) else
    match TakeBox(rest, r)
    case None => Failed
    case Some((left, now)) => Walk(left, now)
  }

  /** The outcome of the whole read: both parts must have been found. */
  function Recording(file: seq<Byte>): Option<(Sample, seq<Byte>)> {
    match Walk(file, Reading(None, None))
    case Failed => None
    case Done(r) => if r.sample.Some? && r.mdat.Some? then Some((r.sample.value, r.mdat.value)) else None
  }

  method ReadAudioOnlyMP4(file: seq<Byte>) returns (r: Option<(Sample, seq<Byte>)>)
    ensures r == Recording(file)
  {
    hide TakeBox;
    var pos := 0;
    var got := Reading(None, None);
    assert Drop(file, 0) == file;
    while pos < |file|
      invariant 0 <= pos
      invariant Walk(file, Reading(None, None)) == Walk(Drop(file, pos), got)
      decreases |file| - pos
    {
      var step := ReadBox(file, pos, got);
      if step.None? {
        return None;
      }
      pos, got := step.value.0, step.value.1;
    }
    assert Drop(file, pos) == [];
    if got.sample.None? || got.mdat.None? {
      return None;
    }
    return Some((got.sample.value, got.mdat.value));
  }

  /** One turn of the loop: the position after the box, which grows, and what has been read. */
  method ReadBox(file: seq<Byte>, pos: nat, got: Reading) returns (step: Option<(nat, Reading)>)
    requires pos < |file|
    ensures step.None? <==> TakeBox(Drop(file, pos), got).None?
    ensures step.Some? ==> step.value.0 > pos
    ensures step.Some? ==> TakeBox(Drop(file, pos), got) == Some((Drop(file, step.value.0), step.value.1))
  {
    if |file| - pos < 8 {
      return None;
    }
    var header := ReadHeader(file, pos);
    hide Header, TakeBody;
    if header.None? || header.value.0 < header.value.1 {
      return None;
    }
    var kind := file[pos + 4..pos + 8];
    var at := pos + header.value.1;
    Slices(file, pos, header.value.1);
    step := ReadBody(file, at, header.value.0 - header.value.1, kind, got);
  }

  lemma Slices(file: seq<Byte>, pos: nat, skip: nat)
    requires pos + 8 <= |file| && pos + skip <= |file|
    ensures file[pos..][4..8] == file[pos + 4..pos + 8] && file[pos..][skip..] == file[pos + skip..]
  {
  }

  /** The part of the turn after the header. */
  method ReadBody(file: seq<Byte>, at: nat, bodyLen: nat, kind: seq<Byte>, got: Reading)
      returns (step: Option<(nat, Reading)>)
    requires at <= |file|
    ensures step.None? <==> TakeBody(kind, file[at..], bodyLen, got).None?
    ensures step.Some? ==> step.value.0 >= at
    ensures step.Some? ==> TakeBody(kind, file[at..], bodyLen, got) == Some((Drop(file, step.value.0), step.value.1))
  {
    hide ProbeStsd;
    BodyAt(file, at, bodyLen, kind, got);
    if kind == MDAT {
      if bodyLen > MAX_PAYLOAD || at + bodyLen > |file| {
        return None;
      }
      return Some((at + bodyLen, got.(mdat := Some(file[at..at + bodyLen]))));
    }
    if kind == MOOV {
      if at + bodyLen > |file| {
        return None;
      }
      var sample := ProbeStsd(file[at..at + bodyLen]);
      if sample.None? {
        return None;
      }
      return Some((at + bodyLen, got.(sample := Some(sample.value))));
    }
    return Some((at + bodyLen, got));
  }

  /** Slices of what is left are slices of the file. */
  lemma BodyAt(file: seq<Byte>, at: nat, bodyLen: nat, kind: seq<Byte>, r: Reading)
    requires at <= |file|
    ensures Drop(file[at..], bodyLen) == Drop(file, at + bodyLen)
    ensures at + bodyLen <= |file| ==>
      file[at..][..bodyLen] == file[at..at + bodyLen] && file[at..][bodyLen..] == Drop(file, at + bodyLen)
  {
  }

  method ReadHeader(file: seq<Byte>, pos: nat) returns (h: Option<(nat, nat)>)
    requires pos + 8 <= |file|
    ensures h == Header(file[pos..])
    ensures h.Some? ==> pos + h.value.1 <= |file| && h.value.1 >= 8
  {
    hide ReadBigEndian, Pow256;
    ghost var rest := file[pos..];
    assert rest[..4] == file[pos..pos + 4];
    var size := ReadBigEndian(file[pos..pos + 4]);
    if size == 1 {
      if |file| - pos < 16 {
        return None;
      }
      assert rest[8..16] == file[pos + 8..pos + 16];
      var large := ReadBigEndian(file[pos + 8..pos + 16]);
      if large > MAX_PAYLOAD + 1024 {
        return None;
      }
      return Some((large % TWO_32, 16));
    }
    if size == 0 {
      return Some(((|file| - (pos + 8) + 8) % TWO_32, 8));
    }
    return Some((size, 8));
  }

  // ----- files as lists of boxes -----

  /** How the size of a top-level box is written. */
  datatype Form = Short | Long | ToEnd

  datatype Top = Top(kind: FourCC, form: Form, body: seq<Byte>)

  function TopBytes(t: Top): seq<Byte> {
    match t.form
    case Short => BigEndian(|t.body| + 8, 4) + t.kind + t.body
    case Long => BigEndian(1, 4) + t.kind + BigEndian(|t.body| + 16, 8) + t.body
    case ToEnd => BigEndian(0, 4) + t.kind + t.body
  }

  function WriteFile(tops: seq<Top>): seq<Byte> {
    if tops == [] then [] else TopBytes(tops[0]) + WriteFile(tops[1..])
  }

  /**
   The size fits its field and, if it is a long one, the reader's cap on those; the media also have a
   cap of their own.
   */
  predicate Sized(t: Top) {
    && (if t.form == Long then |t.body| + 16 <= MAX_PAYLOAD + 1024 else |t.body| + 8 < TWO_32)
    && (t.kind == MDAT ==> |t.body| <= MAX_PAYLOAD)
  }

  /** Sizes are within bounds, the sample description is there, and only the last box runs to the end of the file. */
  predicate Readable(tops: seq<Top>) {
    forall i :: 0 <= i < |tops| ==>
      && (tops[i].form == ToEnd ==> i == |tops| - 1)
      && Sized(tops[i])
      && (tops[i].kind == MOOV ==> ProbeStsd(tops[i].body).Some?)
  }

  /** What the boxes hold, later ones replacing earlier ones of the same kind. */
  function Contents(tops: seq<Top>, r: Reading): Reading
    requires Readable(tops)
  {
    if tops == [] then r else
    TailReadable(tops);
    Contents(tops[1..], Taken(tops[0], r))
  }

  /** The header of a box read where it was written. */
  lemma HeaderOf(t: Top, rest: seq<Byte>)
    requires Sized(t) && (t.form == ToEnd ==> rest == [])
    ensures var s := TopBytes(t) + rest;
      var headerLen := if t.form == Long then 16 else 8;
      && |s| >= headerLen + |t.body| && s[4..8] == t.kind
      && Header(s) == Some((|t.body| + headerLen, headerLen))
      && s[headerLen..][..|t.body|] == t.body && s[headerLen..][|t.body|..] == rest
  {
    match t.form {
      case Short => ShortHeader(t.kind, |t.body| + 8, t.body, rest);
      case Long => LongHeader(t.kind, t.body, rest);
      case ToEnd => ShortHeader(t.kind, 0, t.body, rest);
    }
  }

  lemma ShortHeader(kind: FourCC, size: nat, body: seq<Byte>, rest: seq<Byte>)
    requires |body| + 8 < TWO_32
    requires size == |body| + 8 || (size == 0 && rest == [])
    ensures var s := (BigEndian(size, 4) + kind + body) + rest;
      && |s| == 8 + |body| + |rest| && s[4..8] == kind
      && Header(s) == Some((|body| + 8, 8))
      && s[8..][..|body|] == body && s[8..][|body|..] == rest
  {
    Widths();
    BigEndianRoundTrip(size, 4);
    BoxParts(BigEndian(size, 4), kind, body, rest);
    hide BigEndian, ReadBigEndian, Pow256;
  }

  lemma LongHeader(kind: FourCC, body: seq<Byte>, rest: seq<Byte>)
    requires |body| + 16 <= MAX_PAYLOAD + 1024
    ensures var s := (BigEndian(1, 4) + kind + BigEndian(|body| + 16, 8) + body) + rest;
      && |s| == 16 + |body| + |rest| && s[4..8] == kind
      && Header(s) == Some((|body| + 16, 16))
      && s[16..][..|body|] == body && s[16..][|body|..] == rest
  {
    hide BigEndian, ReadBigEndian, Pow256;
    Widths();
    BigEndianRoundTrip(1, 4);
    BigEndianRoundTrip(|body| + 16, 8);
    LongParts(BigEndian(1, 4), kind, BigEndian(|body| + 16, 8), body, rest);
  }

  lemma LongParts(one: seq<Byte>, kind: FourCC, large: seq<Byte>, body: seq<Byte>, rest: seq<Byte>)
    requires |one| == 4 && |large| == 8
    ensures var s := (one + kind + large + body) + rest;
      && |s| == 16 + |body| + |rest| && s[..4] == one && s[4..8] == kind && s[8..16] == large
      && s[16..][..|body|] == body && s[16..][|body|..] == rest
  {
  }

  /** What a box adds to what has been read. */
  function Taken(t: Top, r: Reading): Reading
    requires t.kind == MOOV ==> ProbeStsd(t.body).Some?
  {
    if t.kind == MDAT then r.(mdat := Some(t.body))
    else if t.kind == MOOV then r.(sample := Some(ProbeStsd(t.body).value))
    else r
  }

  lemma TakesTop(t: Top, rest: seq<Byte>, r: Reading)
    requires Sized(t) && (t.form == ToEnd ==> rest == [])
    requires t.kind == MOOV ==> ProbeStsd(t.body).Some?
    ensures TakeBox(TopBytes(t) + rest, r) == Some((rest, Taken(t, r)))
  {
    HeaderOf(t, rest);
    hide Header, TopBytes, ProbeStsd;
  }

  /** Whatever the order of the boxes and the form of their sizes, the walk collects their contents. */
  lemma {:induction false} WalksFile(tops: seq<Top>, r: Reading)
    requires Readable(tops)
    ensures Walk(WriteFile(tops), r) == Done(Contents(tops, r))
    decreases |tops|
  {
    if tops != [] {
      var t, rest := tops[0], WriteFile(tops[1..]);
      TailReadable(tops);
      if t.form == ToEnd {
        assert tops[1..] == [];
      }
      TakesTop(t, rest, r);
      WalksFile(tops[1..], Taken(t, r));
      hide TakeBox, TopBytes, ProbeStsd, Taken, Readable;
      assert WriteFile(tops) == TopBytes(t) + rest;
      WalkStep(TopBytes(t) + rest, rest, r, Taken(t, r));
    }
  }

  lemma WalkStep(s: seq<Byte>, rest: seq<Byte>, r: Reading, now: Reading)
    requires TakeBox(s, r) == Some((rest, now))
    ensures Walk(s, r) == Walk(rest, now)
  {
    hide TakeBox;
  }

  lemma TailReadable(tops: seq<Top>)
    requires Readable(tops) && tops != []
    ensures Readable(tops[1..])
  {
    assert forall i :: 0 <= i < |tops[1..]| ==> tops[1..][i] == tops[i + 1];
  }

  /** A recording with one media box and one movie box reads back, in either order, among any others. */
  lemma RecordingReadsBack(tops: seq<Top>, m: nat, v: nat)
    requires Readable(tops) && m < |tops| && v < |tops|
    requires forall i :: 0 <= i < |tops| ==>
      && (tops[i].kind == [0x6D, 0x64, 0x61, 0x74] <==> i == m)
      && (tops[i].kind == [0x6D, 0x6F, 0x6F, 0x76] <==> i == v)
    ensures Recording(WriteFile(tops)) == Some((ProbeStsd(tops[v].body).value, tops[m].body))
  {
    WalksFile(tops, Reading(None, None));
    ContentsOfOne(tops, Reading(None, None));
    assert tops[m].kind == MDAT && tops[v].kind == MOOV;
  }

  /** A recording without media or without a movie box is refused. */
  lemma PartMissing(tops: seq<Top>)
    requires Readable(tops)
    requires (forall t :: t in tops ==> t.kind != [0x6D, 0x64, 0x61, 0x74])
      || (forall t :: t in tops ==> t.kind != [0x6D, 0x6F, 0x6F, 0x76])
    ensures Recording(WriteFile(tops)) == None
  {
    WalksFile(tops, Reading(None, None));
    NothingOf(tops, Reading(None, None));
  }

  lemma {:induction false} NothingOf(tops: seq<Top>, r: Reading)
    requires Readable(tops)
    ensures (forall t :: t in tops ==> t.kind != MDAT) ==> Contents(tops, r).mdat == r.mdat
    ensures (forall t :: t in tops ==> t.kind != MOOV) ==> Contents(tops, r).sample == r.sample
    decreases |tops|
  {
    hide ProbeStsd;
    if tops != [] {
      TailReadable(tops);
      NothingOf(tops[1..], Taken(tops[0], r));
      assert tops[0] in tops && forall t :: t in tops[1..] ==> t in tops;
    }
  }

  /** The box's size is in its field, but past a cap, or there is no sample description in the movie box. */
  predicate Refused(t: Top) {
    && (if t.form == Long then |t.body| + 16 < 0x1_0000_0000_0000_0000 else |t.body| + 8 < 0x1_0000_0000)
    && (|| (t.form == Long && |t.body| + 16 > 536_870_912 + 1024)
        || (t.kind == [0x6D, 0x64, 0x61, 0x74] && |t.body| > 536_870_912)
        || (t.kind == [0x6D, 0x6F, 0x6F, 0x76] && ProbeStsd(t.body).None?))
  }

  lemma RefusedTop(t: Top, rest: seq<Byte>, r: Reading)
    requires Refused(t) && (t.form == ToEnd ==> rest == [])
    ensures TakeBox(TopBytes(t) + rest, r) == None
  {
    if t.form == Long && |t.body| + 16 > MAX_PAYLOAD + 1024 {
      LongSize(t.kind, t.body, rest);
      hide TakeBody, BigEndian, ReadBigEndian, Pow256, ProbeStsd;
    } else if t.form == Long {
      LongHeader(t.kind, t.body, rest);
      RefusedAt(t, 16, TopBytes(t) + rest, rest, r);
    } else {
      ShortHeader(t.kind, if t.form == Short then |t.body| + 8 else 0, t.body, rest);
      RefusedAt(t, 8, TopBytes(t) + rest, rest, r);
    }
  }

  /** Behind a header that is understood. */
  lemma RefusedAt(t: Top, headerLen: nat, s: seq<Byte>, rest: seq<Byte>, r: Reading)
    requires |s| == headerLen + |t.body| + |rest| && 8 <= headerLen && s[4..8] == t.kind
    requires Header(s) == Some((|t.body| + headerLen, headerLen)) && s[headerLen..][..|t.body|] == t.body
    requires (t.kind == MDAT && |t.body| > MAX_PAYLOAD) || (t.kind == MOOV && ProbeStsd(t.body).None?)
    ensures TakeBox(s, r) == None
  {
    hide Header, ProbeStsd;
  }

  lemma LongSize(kind: FourCC, body: seq<Byte>, rest: seq<Byte>)
    requires |body| + 16 < TWO_64
    ensures var s := (BigEndian(1, 4) + kind + BigEndian(|body| + 16, 8) + body) + rest;
      |s| >= 16 && ReadBigEndian(s[..4]) == 1 && ReadBigEndian(s[8..16]) == |body| + 16
  {
    hide BigEndian, ReadBigEndian, Pow256;
    Widths();
    BigEndianRoundTrip(1, 4);
    BigEndianRoundTrip(|body| + 16, 8);
    LongParts(BigEndian(1, 4), kind, BigEndian(|body| + 16, 8), body, rest);
  }

  /** A box that is refused stops the reader, wherever it comes. */
  lemma {:induction false} StopsAtRefused(tops: seq<Top>, k: nat, r: Reading)
    requires k < |tops| && Readable(tops[..k]) && Refused(tops[k])
    requires forall i :: 0 <= i < |tops| && tops[i].form == ToEnd ==> i == |tops| - 1
    ensures Walk(WriteFile(tops), r) == Failed
    decreases k
  {
    var t, rest := tops[0], WriteFile(tops[1..]);
    assert WriteFile(tops) == TopBytes(t) + rest;
    if t.form == ToEnd {
      assert tops[1..] == [];
    }
    if k == 0 {
      RefusedTop(t, rest, r);
    } else {
      assert tops[..k][0] == t && tops[..k][1..] == tops[1..][..k - 1];
      TailReadable(tops[..k]);
      TakesTop(t, rest, r);
      hide TakeBox, TopBytes, ProbeStsd, Taken, Readable, Refused, WriteFile;
      StopsAtRefused(tops[1..], k - 1, Taken(t, r));
      WalkStep(TopBytes(t) + rest, rest, r, Taken(t, r));
    }
    NotEmpty(t, rest);
  }

  lemma NotEmpty(t: Top, rest: seq<Byte>)
    ensures TopBytes(t) + rest != []
  {
  }

  /** Contents of boxes in which each of the two kinds occurs at most once. */
  lemma {:induction false} ContentsOfOne(tops: seq<Top>, r: Reading)
    requires Readable(tops)
    requires forall i, j :: 0 <= i < j < |tops| && tops[i].kind == tops[j].kind ==>
      tops[i].kind != MDAT && tops[i].kind != MOOV
    ensures var c := Contents(tops, r);
      && (forall i :: 0 <= i < |tops| && tops[i].kind == MDAT ==> c.mdat == Some(tops[i].body))
      && (forall i :: 0 <= i < |tops| && tops[i].kind == MOOV ==> c.sample == Some(ProbeStsd(tops[i].body).value))
      && ((forall i :: 0 <= i < |tops| ==> tops[i].kind != MDAT) ==> c.mdat == r.mdat)
      && ((forall i :: 0 <= i < |tops| ==> tops[i].kind != MOOV) ==> c.sample == r.sample)
    decreases |tops|
  {
    if tops != [] {
      hide ProbeStsd;
      var rest := tops[1..];
      TailReadable(tops);
      ContentsOfOne(rest, Taken(tops[0], r));
      assert forall i :: 0 <= i < |tops| ==> i == 0 || tops[i] == rest[i - 1];
      assert forall i :: 0 <= i < |rest| ==> rest[i] == tops[i + 1];
    }
  }
}

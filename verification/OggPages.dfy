/**
 One logical Ogg Opus stream: the page builder of the live listener, and the page reader and
 packet reassembly of sections 5 and 6 of RFC 3533 as the reference to read it back with.
 */
module OggPages {
  import opened Arithmetic
  import opened Bytes
  import opened Words
  import opened OggCrc

  const MAGIC: seq<Byte> := [0x4F, 0x67, 0x67, 0x53]  // OggS

  // ----- what the builder writes -----

  /** The segment table: full segments, the last one cut to the remainder unless that is zero. */
  function Lacing(n: nat): (segs: seq<Byte>)
    ensures |segs| == (n + 254) / 255
  {
    var count := (n + 254) / 255;
    seq(count, i requires 0 <= i < count => if i == count - 1 && n % 255 > 0 then n % 255 else 255)
  }

  /** The fixed fields in front of the checksum. */
  function Front(headerType: Byte, granule: nat, serial: nat, seqno: nat): (s: seq<Byte>)
    ensures |s| == 22
  {
    MAGIC + [0, headerType] + LittleEndian(granule, 8) + LittleEndian(serial, 4) + LittleEndian(seqno, 4)
  }

  /** Everything after the checksum. */
  function Back(payload: seq<Byte>): seq<Byte> {
    [|Lacing(|payload|)| % 256] + Lacing(|payload|) + payload
  }

  const BLANK: seq<Byte> := [0, 0, 0, 0]

  function Sealed(front: seq<Byte>, back: seq<Byte>): seq<Byte> {
    front + LittleEndian(Value(Remainder(front + BLANK + back)), 4) + back
  }

  function Page(headerType: Byte, granule: nat, serial: nat, seqno: nat, payload: seq<Byte>): seq<Byte> {
    Sealed(Front(headerType, granule, serial, seqno), Back(payload))
  }

  // ----- reading pages back (RFC 3533, section 6) -----

  datatype PageInfo = PageInfo(headerType: Byte, granule: nat, serial: nat, seqno: nat,
                               lacing: seq<Byte>, body: seq<Byte>)

  function Sum(s: seq<Byte>): nat {
    if s == [] then 0 else s[0] + Sum(s[1..])
  }

  /** The first page of a byte string and what follows it; None when it is not a sound page. */
  function ReadPage(s: seq<Byte>): (r: Option<(PageInfo, seq<Byte>)>)
    ensures r.Some? ==> |r.value.1| < |s|
  {
    if |s| < 27 || s[..4] != [0x4F, 0x67, 0x67, 0x53] || s[4] != 0 then None else
    var count: nat := s[26];
    var bodyAt := 27 + count;
    if |s| < bodyAt then None else
    var lacing := s[27..bodyAt];
    var end := bodyAt + Sum(lacing);
    if |s| < end then None else
    if ReadLittleEndian(s[22..26]) != Value(Remainder(s[..22] + BLANK + s[26..end])) then None else
    Some((PageInfo(s[5], ReadLittleEndian(s[6..14]), ReadLittleEndian(s[14..18]),
                   ReadLittleEndian(s[18..22]), lacing, s[bodyAt..end]),
          s[end..]))
  }

  function ReadPages(s: seq<Byte>): Option<seq<PageInfo>>
    decreases |s|
  {
    if s == [] then Some([]) else
    match ReadPage(s)
    case None => None
    case Some((page, rest)) =>
      match ReadPages(rest)
      case None => None
      case Some(pages) => Some([page] + pages)
  }

  // ----- packets out of segments (RFC 3533, section 5) -----

  /** A packet may be open from an earlier page; its bytes are skipped when its start was lost. */
  datatype Pending = Idle | Collecting(data: seq<Byte>) | Skipping

  function Extend(p: Pending, piece: seq<Byte>): Pending {
    match p
    case Idle => Collecting(piece)
    case Collecting(data) => Collecting(data + piece)
    case Skipping => Skipping
  }

  function Finished(p: Pending): seq<seq<Byte>> {
    if p.Collecting? then [p.data] else []
  }

  /** A segment shorter than 255 bytes ends a packet. */
  function Segments(lacing: seq<Byte>, body: seq<Byte>, p: Pending): (seq<seq<Byte>>, Pending)
    requires |body| == Sum(lacing)
    decreases |lacing|
  {
    if lacing == [] then ([], p) else
    var now := Extend(p, body[..lacing[0]]);
    var (packets, later) := Segments(lacing[1..], body[lacing[0]..], if lacing[0] < 255 then Idle else now);
    (if lacing[0] < 255 then Finished(now) + packets else packets, later)
  }

  /** A page that does not continue a packet drops whatever was open. */
  function AtPageStart(headerType: Byte, p: Pending): Pending {
    if headerType % 2 == 0 then Idle
    else if p == Idle then Skipping else p
  }

  predicate SoundPages(pages: seq<PageInfo>) {
    forall i :: 0 <= i < |pages| ==> |pages[i].body| == Sum(pages[i].lacing)
  }

  function Packets(pages: seq<PageInfo>, p: Pending): seq<seq<Byte>>
    requires SoundPages(pages)
    decreases |pages|
  {
    if pages == [] then [] else
    var (packets, later) := Segments(pages[0].lacing, pages[0].body, AtPageStart(pages[0].headerType, p));
    packets + Packets(pages[1..], later)
  }

  // ----- one page -----

  /** The longest payload whose segment count fits the count byte. */
  const MAX_PAYLOAD := 255 * 255

  lemma LacingStep(n: nat)
    ensures n == 0 ==> Lacing(n) == []
    ensures 0 < n <= 255 ==> Lacing(n) == [n]
    ensures n > 255 ==> Lacing(n) == [255] + Lacing(n - 255)
  {
    if n > 255 {
      assert (n - 255) % 255 == n % 255;
      assert (n - 255 + 254) / 255 == (n + 254) / 255 - 1;
    }
  }

  lemma {:induction false} LacingSum(n: nat)
    ensures Sum(Lacing(n)) == n
  {
    LacingStep(n);
    if n > 255 {
      LacingSum(n - 255);
      assert Lacing(n)[1..] == Lacing(n - 255);
    }
  }

  function Info(headerType: Byte, granule: nat, serial: nat, seqno: nat, payload: seq<Byte>): PageInfo {
    PageInfo(headerType, granule, serial, seqno, Lacing(|payload|), payload)
  }

  lemma FrontFields(headerType: Byte, granule: nat, serial: nat, seqno: nat)
    requires granule < Pow256(8) && serial < Pow256(4) && seqno < Pow256(4)
    ensures var s := Front(headerType, granule, serial, seqno);
      && s[..4] == MAGIC && s[4] == 0 && s[5] == headerType
      && ReadLittleEndian(s[6..14]) == granule
      && ReadLittleEndian(s[14..18]) == serial
      && ReadLittleEndian(s[18..22]) == seqno
  {
    hide LittleEndian, ReadLittleEndian, Pow256;
    LittleEndianRoundTrip(granule, 8);
    LittleEndianRoundTrip(serial, 4);
    LittleEndianRoundTrip(seqno, 4);
    FrontParts(headerType, LittleEndian(granule, 8), LittleEndian(serial, 4), LittleEndian(seqno, 4));
  }

  lemma FrontParts(headerType: Byte, granule: seq<Byte>, serial: seq<Byte>, seqno: seq<Byte>)
    requires |granule| == 8 && |serial| == |seqno| == 4
    ensures var s := MAGIC + [0, headerType] + granule + serial + seqno;
      && s[..4] == MAGIC && s[4] == 0 && s[5] == headerType
      && s[6..14] == granule && s[14..18] == serial && s[18..22] == seqno
  {
  }

  lemma ChecksumFits(p: seq<Byte>)
    ensures Value(Remainder(p)) < Pow256(4)
  {
    PowersAgree(4);
  }

  lemma {:induction false} PowersAgree(k: nat)
    ensures Pow256(k) == Pow2(8 * k)
  {
    if k > 0 {
      PowersAgree(k - 1);
      FourMore(8 * k - 4);
      FourMore(8 * k - 8);
    }
  }

  lemma FourMore(n: nat)
    ensures Pow2(n + 4) == 16 * Pow2(n)
  {
    assert Pow2(n + 2) == 4 * Pow2(n);
  }

  /**
   A page reads back to the fields it was built from, whatever follows it, and its stored checksum
   is reproduced from the page with the checksum field blanked.
   */
  lemma PageReadsBack(headerType: Byte, granule: nat, serial: nat, seqno: nat, payload: seq<Byte>, rest: seq<Byte>)
    requires granule < Pow256(8) && serial < Pow256(4) && seqno < Pow256(4)
    requires |payload| <= MAX_PAYLOAD
    ensures ReadPage(Page(headerType, granule, serial, seqno, payload) + rest)
            == Some((Info(headerType, granule, serial, seqno, payload), rest))
  {
    hide Remainder, Lacing, LittleEndian, ReadLittleEndian, Sum, Value, Front, ReadPage, Pow256;
    var front := Front(headerType, granule, serial, seqno);
    var crc := Value(Remainder(front + BLANK + Back(payload)));
    FrontFields(headerType, granule, serial, seqno);
    ChecksumFits(front + BLANK + Back(payload));
    LittleEndianRoundTrip(crc, 4);
    LacingSum(|payload|);
    hide Page;
    PageParts(headerType, granule, serial, seqno, payload);
    SplitPage(front, LittleEndian(crc, 4), Lacing(|payload|), payload, rest);
    var s := Page(headerType, granule, serial, seqno, payload) + rest;
    ReadsParts(s, front, Lacing(|payload|), payload, rest);
  }

  lemma PageParts(headerType: Byte, granule: nat, serial: nat, seqno: nat, payload: seq<Byte>)
    requires |payload| <= MAX_PAYLOAD
    ensures var front, lacing := Front(headerType, granule, serial, seqno), Lacing(|payload|);
      var back := [|lacing|] + lacing + payload;
      && |lacing| < 256 && Back(payload) == back
      && Page(headerType, granule, serial, seqno, payload)
         == front + LittleEndian(Value(Remainder(front + BLANK + back)), 4) + back
  {
    hide Front, Lacing, LittleEndian, Value, Remainder;
  }

  /** The reader on a string whose parts lie where it looks for them. */
  lemma {:induction false} ReadsParts(s: seq<Byte>, front: seq<Byte>, lacing: seq<Byte>, payload: seq<Byte>,
      rest: seq<Byte>)
    requires |front| == 22 && front[..4] == MAGIC && front[4] == 0 && |lacing| < 256 && Sum(lacing) == |payload|
    requires var bodyAt := 27 + |lacing|;
      var end := bodyAt + |payload|;
      && |s| == end + |rest| && s[..22] == front && s[26] == |lacing|
      && s[27..bodyAt] == lacing && s[bodyAt..end] == payload && s[end..] == rest
      && s[26..end] == [|lacing|] + lacing + payload
      && s[..4] == front[..4] && s[4] == front[4] && s[5] == front[5]
      && s[6..14] == front[6..14] && s[14..18] == front[14..18] && s[18..22] == front[18..22]
    requires ReadLittleEndian(s[22..26]) == Value(Remainder(front + BLANK + ([|lacing|] + lacing + payload)))
    ensures ReadPage(s) ==
      Some((PageInfo(front[5], ReadLittleEndian(front[6..14]), ReadLittleEndian(front[14..18]),
                     ReadLittleEndian(front[18..22]), lacing, payload), rest))
  {
    hide Remainder, ReadLittleEndian, Sum, Value;
  }

  /** Where the parts of a page lie. */
  lemma SplitPage(front: seq<Byte>, sum: seq<Byte>, lacing: seq<Byte>, payload: seq<Byte>, rest: seq<Byte>)
    requires |front| == 22 && |sum| == 4 && |lacing| < 256
    ensures var s := front + sum + ([|lacing|] + lacing + payload) + rest;
      var bodyAt := 27 + |lacing|;
      var end := bodyAt + |payload|;
      && |s| == end + |rest|
      && s[..22] == front && s[22..26] == sum && s[26] == |lacing|
      && s[27..bodyAt] == lacing && s[bodyAt..end] == payload && s[end..] == rest
      && s[26..end] == [|lacing|] + lacing + payload
      && s[..4] == front[..4] && s[4] == front[4] && s[5] == front[5]
      && s[6..14] == front[6..14] && s[14..18] == front[14..18] && s[18..22] == front[18..22]
  {
  }

  /** The packets inside one page: the payload, unless its length is a multiple of 255. */
  lemma {:induction false} PayloadSegments(n: nat, body: seq<Byte>, p: Pending)
    requires |body| == n && p != Skipping
    ensures Sum(Lacing(n)) == n
    ensures n % 255 != 0 ==> Segments(Lacing(n), body, p) == ([Extend(p, body).data], Idle)
    ensures n % 255 == 0 ==> Segments(Lacing(n), body, p).0 == []
  {
    LacingSum(n);
    LacingStep(n);
    if n > 255 {
      var l := Lacing(n);
      LacingSum(n - 255);
      assert l[1..] == Lacing(n - 255);
      PayloadSegments(n - 255, body[255..], Extend(p, body[..255]));
      assert body[..255] + body[255..] == body;
      assert Extend(Extend(p, body[..255]), body[255..]) == Extend(p, body);
    } else if n > 0 {
      assert Lacing(n)[1..] == [] && body[n..] == [];
      assert body[..n] == body;
      assert Finished(Extend(p, body)) + [] == Finished(Extend(p, body));
    }
  }

  // ----- a whole stream -----

  /** A page still to be written. */
  datatype Planned = Planned(headerType: Byte, granule: nat, seqno: nat, payload: seq<Byte>)

  function Write(serial: nat, plan: seq<Planned>): seq<Byte> {
    if plan == [] then []
    else Page(plan[0].headerType, plan[0].granule, serial, plan[0].seqno, plan[0].payload) + Write(serial, plan[1..])
  }

  function Infos(serial: nat, plan: seq<Planned>): (infos: seq<PageInfo>)
    ensures |infos| == |plan|
  {
    seq(|plan|, i requires 0 <= i < |plan| =>
      Info(plan[i].headerType, plan[i].granule, serial, plan[i].seqno, plan[i].payload))
  }

  predicate Representable(plan: seq<Planned>) {
    forall i :: 0 <= i < |plan| ==>
      plan[i].granule < Pow256(8) && plan[i].seqno < Pow256(4) && |plan[i].payload| <= MAX_PAYLOAD
  }

  lemma ReadPagesStep(s: seq<Byte>, page: PageInfo, rest: seq<Byte>, pages: seq<PageInfo>)
    ensures ReadPage(s) == Some((page, rest)) && ReadPages(rest) == Some(pages)
            ==> ReadPages(s) == Some([page] + pages)
  {
  }

  lemma {:induction false} PagesReadBack(serial: nat, plan: seq<Planned>)
    requires serial < Pow256(4) && Representable(plan)
    ensures ReadPages(Write(serial, plan)) == Some(Infos(serial, plan))
    decreases |plan|
  {
    hide Page, ReadPage;
    if plan != [] {
      var p := plan[0];
      PageReadsBack(p.headerType, p.granule, serial, p.seqno, p.payload, Write(serial, plan[1..]));
      PagesReadBack(serial, plan[1..]);
      ReadPagesStep(Write(serial, plan), Infos(serial, plan)[0], Write(serial, plan[1..]), Infos(serial, plan[1..]));
      assert Infos(serial, plan) == [Infos(serial, plan)[0]] + Infos(serial, plan[1..]);
    }
  }

  lemma {:induction false} SumBound(s: seq<Byte>)
    ensures Sum(s) <= 255 * |s|
  {
    if s != [] {
      SumBound(s[1..]);
    }
  }

  /** No page that can be read has a longer body than the count byte allows. */
  lemma {:induction false} BodiesBounded(s: seq<Byte>, i: nat)
    requires ReadPages(s).Some? && i < |ReadPages(s).value|
    ensures |ReadPages(s).value[i].body| <= MAX_PAYLOAD
    decreases |s|
  {
    hide ReadLittleEndian, Remainder;
    var (page, rest) := ReadPage(s).value;
    SumBound(page.lacing);
    if i > 0 {
      BodiesBounded(rest, i - 1);
    }
  }

  /** The pages of any plan whose numbers fit read back as planned if and only if every payload fits one page. */
  lemma PagesReadBackExact(serial: nat, plan: seq<Planned>)
    requires serial < Pow256(4)
    requires forall i :: 0 <= i < |plan| ==> plan[i].granule < Pow256(8) && plan[i].seqno < Pow256(4)
    ensures ReadPages(Write(serial, plan)) == Some(Infos(serial, plan))
      <==> forall i :: 0 <= i < |plan| ==> |plan[i].payload| <= 65_025
  {
    hide ReadPages, Write, Pow256, Lacing;
    if forall i :: 0 <= i < |plan| ==> |plan[i].payload| <= MAX_PAYLOAD {
      PagesReadBack(serial, plan);
    } else if ReadPages(Write(serial, plan)) == Some(Infos(serial, plan)) {
      forall i | 0 <= i < |plan| ensures |plan[i].payload| <= MAX_PAYLOAD {
        BodiesBounded(Write(serial, plan), i);
        assert Infos(serial, plan)[i].body == plan[i].payload;
      }
    }
  }

  lemma InfosAreSound(serial: nat, plan: seq<Planned>)
    ensures SoundPages(Infos(serial, plan))
  {
    forall i | 0 <= i < |plan| ensures |Infos(serial, plan)[i].body| == Sum(Infos(serial, plan)[i].lacing) {
      LacingSum(|plan[i].payload|);
    }
  }

  function Payloads(plan: seq<Planned>): (r: seq<seq<Byte>>)
    ensures |r| == |plan|
  {
    seq(|plan|, i requires 0 <= i < |plan| => plan[i].payload)
  }

  /** Packets whose last segment is not full: the ones a reader can tell the end of. */
  function Terminated(packets: seq<seq<Byte>>): (r: seq<seq<Byte>>)
    ensures |r| <= |packets|
    ensures |r| == |packets| ==> r == packets
    ensures |r| == |packets| <==> forall i :: 0 <= i < |packets| ==> |packets[i]| % 255 != 0
  {
    if packets == [] then []
    else (if |packets[0]| % 255 != 0 then [packets[0]] else []) + Terminated(packets[1..])
  }

  /** No page of the plan continues a packet, so a lost end loses exactly that packet. */
  lemma {:induction false} PacketsOfPlan(serial: nat, plan: seq<Planned>, p: Pending)
    requires EvenTypes(plan)
    requires SoundPages(Infos(serial, plan))
    ensures Packets(Infos(serial, plan), p) == Terminated(Payloads(plan))
    decreases |plan|
  {
    if plan != [] {
      var infos := Infos(serial, plan);
      InfosAreSound(serial, plan[1..]);
      assert infos[1..] == Infos(serial, plan[1..]);
      assert Payloads(plan)[1..] == Payloads(plan[1..]);
      var payload := plan[0].payload;
      PayloadSegments(|payload|, payload, Idle);
      PacketsOfPlan(serial, plan[1..], Segments(infos[0].lacing, infos[0].body, Idle).1);
    }
  }

  /** No page of the plan is marked as continuing a packet. */
  predicate EvenTypes(plan: seq<Planned>) {
    forall i :: 0 <= i < |plan| ==> plan[i].headerType % 2 == 0
  }

  /** Everything a reader gets out of a byte stream. */
  function Demux(s: seq<Byte>): Option<seq<seq<Byte>>> {
    match ReadPages(s)
    case None => None
    case Some(pages) => if SoundPages(pages) then Some(Packets(pages, Idle)) else None
  }

  lemma DemuxPlan(serial: nat, plan: seq<Planned>)
    requires serial < Pow256(4) && Representable(plan)
    requires EvenTypes(plan)
    ensures Demux(Write(serial, plan)) == Some(Terminated(Payloads(plan)))
  {
    PagesReadBack(serial, plan);
    InfosAreSound(serial, plan);
    PacketsOfPlan(serial, plan, Idle);
  }

  // ----- the live stream -----

  const PACKET_SAMPLES := 960

  /** The audio pages for packets number `from` onward (counting from 0). */
  function AudioPlan(packets: seq<seq<Byte>>, from: nat): (plan: seq<Planned>)
    ensures |plan| == |packets|
  {
    seq(|packets|, i requires 0 <= i < |packets| =>
      Planned(0, (PACKET_SAMPLES * (from + i + 1)) % Pow256(8), (from + i + 2) % Pow256(4), packets[i]))
  }

  function StreamPlan(head: seq<Byte>, tags: seq<Byte>, packets: seq<seq<Byte>>): seq<Planned> {
    [Planned(2, 0, 0, head), Planned(0, 0, 1, tags)] + AudioPlan(packets, 0)
  }

  predicate Fit(packets: seq<seq<Byte>>) {
    forall i :: 0 <= i < |packets| ==> |packets[i]| <= 65_025
  }

  lemma PlanFits(head: seq<Byte>, tags: seq<Byte>, packets: seq<seq<Byte>>)
    requires |head| <= MAX_PAYLOAD && |tags| <= MAX_PAYLOAD && Fit(packets)
    ensures Representable(StreamPlan(head, tags, packets))
    ensures EvenTypes(StreamPlan(head, tags, packets))
  {
    assert Pow256(4) == 256 * Pow256(3);
  }

  /**
   Consecutive sequence numbers from 0, one serial number, and granule 960 * k on the k-th audio
   page (counting from 1) with that packet as its body; both numbers wrap only where their field ends.
   */
  ghost predicate StreamLayout(pages: seq<PageInfo>, serial: nat, packets: seq<seq<Byte>>) {
    && |pages| == |packets| + 2
    && (forall i :: 0 <= i < |pages| ==> pages[i].seqno == i % Pow256(4) && pages[i].serial == serial)
    && pages[0].headerType == 2 && pages[1].headerType == 0 && pages[0].granule == pages[1].granule == 0
    && (forall i :: 0 <= i < |packets| ==> AudioPage(pages[i + 2], i + 1, packets[i]))
  }

  /** The k-th audio page. */
  predicate AudioPage(page: PageInfo, k: nat, packet: seq<Byte>) {
    page.granule == (960 * k) % Pow256(8) && page.headerType == 0 && page.body == packet
  }

  lemma StreamFields(serial: nat, head: seq<Byte>, tags: seq<Byte>, packets: seq<seq<Byte>>)
    ensures StreamLayout(Infos(serial, StreamPlan(head, tags, packets)), serial, packets)
  {
    hide Pow256, Lacing;
    Widths();
    var infos := Infos(serial, StreamPlan(head, tags, packets));
    forall i | 0 <= i < |packets| ensures AudioPage(infos[i + 2], i + 1, packets[i]) {
      assert AudioPlan(packets, 0)[i].payload == packets[i];
    }
  }

  /**
   The pages of a live stream are readable and lie as RFC 3533 and RFC 7845 ask, exactly if each packet
   fits one page.
   */
  lemma StreamPagesExact(serial: nat, head: seq<Byte>, tags: seq<Byte>, packets: seq<seq<Byte>>)
    requires serial < Pow256(4) && |head| <= MAX_PAYLOAD && |tags| <= MAX_PAYLOAD
    ensures var r := ReadPages(Write(serial, StreamPlan(head, tags, packets)));
      r.Some? && StreamLayout(r.value, serial, packets) <==> Fit(packets)
  {
    hide *;
    var s := Write(serial, StreamPlan(head, tags, packets));
    if Fit(packets) {
      PlanFits(head, tags, packets);
      PagesReadBack(serial, StreamPlan(head, tags, packets));
      StreamFields(serial, head, tags, packets);
    }
    if ReadPages(s).Some? && StreamLayout(ReadPages(s).value, serial, packets) {
      LayoutFits(s, serial, packets);
    }
  }

  lemma LayoutFits(s: seq<Byte>, serial: nat, packets: seq<seq<Byte>>)
    requires ReadPages(s).Some? && StreamLayout(ReadPages(s).value, serial, packets)
    ensures Fit(packets)
  {
    hide ReadPages;
    forall i | 0 <= i < |packets| ensures |packets[i]| <= MAX_PAYLOAD {
      BodiesBounded(s, i + 2);
      assert AudioPage(ReadPages(s).value[i + 2], i + 1, packets[i]);
    }
  }

  /**
   A reader of the live stream gets the two header packets and the audio packets whose length is
   not a multiple of 255, in order; the others are dropped without a trace.
   */
  lemma StreamDemux(serial: nat, head: seq<Byte>, tags: seq<Byte>, packets: seq<seq<Byte>>)
    requires serial < Pow256(4)
    requires |head| <= MAX_PAYLOAD && |tags| <= MAX_PAYLOAD && Fit(packets)
    ensures Demux(Write(serial, StreamPlan(head, tags, packets))) == Some(Terminated([head, tags] + packets))
  {
    hide *;
    var plan := StreamPlan(head, tags, packets);
    PlanFits(head, tags, packets);
    DemuxPlan(serial, plan);
    StreamPayloads(head, tags, packets);
  }

  lemma StreamPayloads(head: seq<Byte>, tags: seq<Byte>, packets: seq<seq<Byte>>)
    ensures Payloads(StreamPlan(head, tags, packets)) == [head, tags] + packets
  {
  }

  /** A player gets the stream as it was meant: its pages lie as they should, and its packets are the ones framed. */
  ghost predicate Faithful(s: seq<Byte>, serial: nat, head: seq<Byte>, tags: seq<Byte>, packets: seq<seq<Byte>>) {
    && ReadPages(s).Some? && StreamLayout(ReadPages(s).value, serial, packets)
    && Demux(s) == Some([head, tags] + packets)
  }

  /**
   Any packets at all: the round trip holds exactly when no packet length is a multiple of 255, and
   none exceeds a page.
   */
  lemma StreamRoundTripExact(serial: nat, head: seq<Byte>, tags: seq<Byte>, packets: seq<seq<Byte>>)
    requires serial < Pow256(4) && 0 < |head| < 255 && 0 < |tags| < 255
    ensures Faithful(Write(serial, StreamPlan(head, tags, packets)), serial, head, tags, packets)
       <==> forall i :: 0 <= i < |packets| ==> |packets[i]| % 255 != 0 && |packets[i]| <= 65_025
  {
    hide Demux, Write, StreamPlan, AudioPlan, ReadPages, StreamLayout;
    StreamPagesExact(serial, head, tags, packets);
    if Fit(packets) {
      StreamDemux(serial, head, tags, packets);
      AllTerminated(head, tags, packets);
    }
  }

  lemma AllTerminated(head: seq<Byte>, tags: seq<Byte>, packets: seq<seq<Byte>>)
    requires 0 < |head| < 255 && 0 < |tags| < 255
    ensures Terminated([head, tags] + packets) == [head, tags] + packets
        <==> forall i :: 0 <= i < |packets| ==> |packets[i]| % 255 != 0
  {
    var all := [head, tags] + packets;
    if forall i :: 0 <= i < |packets| ==> |packets[i]| % 255 != 0 {
      assert forall i :: 0 <= i < |all| ==> |all[i]| % 255 != 0;
    } else {
      var i :| 0 <= i < |packets| && |packets[i]| % 255 == 0;
      assert all[i + 2] == packets[i];
    }
  }

  /**
   A payload too long for the count byte leaves a stream that cannot be read past that page, as
   long as the cut falls inside the segment table: the reader meets 255 where a page must begin.
   */
  lemma OversizeUnreadable(headerType: Byte, granule: nat, serial: nat, seqno: nat, payload: seq<Byte>, rest: seq<Byte>)
    requires |payload| > MAX_PAYLOAD
    requires 256 * (((|payload| + 254) / 255) % 256) < (|payload| + 254) / 255 - 1
    ensures ReadPages(Page(headerType, granule, serial, seqno, payload) + rest).None?
  {
    hide Remainder, LittleEndian, ReadLittleEndian, Value, Front, Segments;
    var s := Page(headerType, granule, serial, seqno, payload) + rest;
    var lacing := Lacing(|payload|);
    var n := |lacing| % 256;
    var front := Front(headerType, granule, serial, seqno);
    var sum := LittleEndian(Value(Remainder(front + BLANK + Back(payload))), 4);
    CutPage(front, sum, n, lacing, payload + rest);
    assert s == front + sum + ([n] + lacing + (payload + rest));
    FullSegments(lacing[..n]);
    assert lacing[256 * n] == 255;
    CutReader(s, n);
  }

  lemma CutPage(front: seq<Byte>, sum: seq<Byte>, n: Byte, lacing: seq<Byte>, more: seq<Byte>)
    requires |front| == 22 && |sum| == 4 && 256 * n < |lacing|
    ensures var s := front + sum + ([n] + lacing + more);
      s[26] == n && s[27..27 + n] == lacing[..n] && s[27 + 256 * n] == lacing[256 * n]
  {
  }

  lemma {:induction false} CutReader(s: seq<Byte>, n: Byte)
    requires |s| > 27 + 256 * n && s[26] == n
    requires Sum(s[27..27 + n]) == 255 * n && s[27 + 256 * n] == 255
    ensures ReadPages(s).None?
  {
    var page := ReadPage(s);
    if page.Some? {
      var after := page.value.1;
      assert after[0] == 255;
      assert |after| >= 4 ==> after[..4][0] == 255;
      assert ReadPage(after).None?;
    }
  }

  lemma {:induction false} FullSegments(s: seq<Byte>)
    requires forall i :: 0 <= i < |s| ==> s[i] == 255
    ensures Sum(s) == 255 * |s|
  {
    if s != [] {
      FullSegments(s[1..]);
    }
  }

  // ----- the builder -----

  /** The identification header of section 5.1 of RFC 7845 as the program writes it. */
  function OpusHead(channels: Byte, rate: nat): (s: seq<Byte>)
    ensures |s| == 19
  {
    [0x4F, 0x70, 0x75, 0x73, 0x48, 0x65, 0x61, 0x64] + [1, channels]
    + LittleEndian(0, 2) + LittleEndian(rate, 4) + LittleEndian(0, 2) + [0]
  }

  const VENDOR: seq<Byte> := [0x4D, 0x69, 0x42, 0x65, 0x65, 0x4E, 0x76, 0x72]  // MiBeeNvr

  function OpusTags(): (s: seq<Byte>)
    ensures |s| == 24
  {
    [0x4F, 0x70, 0x75, 0x73, 0x54, 0x61, 0x67, 0x73] + LittleEndian(8, 4) + VENDOR + LittleEndian(0, 4)
  }

  datatype Head = Head(channels: nat, preSkip: nat, rate: nat, gain: nat)

  /**
   The identification header as a player reads it: version 1, and with mapping family 0, which the
   program always writes, one or two channels (section 5.1.1.1 of RFC 7845).
   */
  function ReadOpusHead(s: seq<Byte>): Option<Head> {
    if |s| != 19 || s[..8] != [0x4F, 0x70, 0x75, 0x73, 0x48, 0x65, 0x61, 0x64] || s[8] != 1 || s[18] != 0
       || !(1 <= s[9] <= 2) then None
    else Some(Head(s[9], ReadLittleEndian(s[10..12]), ReadLittleEndian(s[12..16]), ReadLittleEndian(s[16..18])))
  }

  /** The header is a valid one, with the channels and rate it was written for, exactly up to two channels. */
  lemma OpusHeadExact(channels: Byte, rate: nat)
    requires 1 <= channels && rate < TWO_32
    ensures ReadOpusHead(OpusHead(channels, rate)) == Some(Head(channels, 0, rate, 0)) <==> channels <= 2
  {
    Widths();
    assert Pow256(2) == 0x1_0000;
    LittleEndianRoundTrip(rate, 4);
    LittleEndianRoundTrip(0, 2);
    hide LittleEndian, ReadLittleEndian, Pow256;
    HeadParts(channels, LittleEndian(0, 2), LittleEndian(rate, 4));
  }

  lemma HeadParts(channels: Byte, zero: seq<Byte>, rate: seq<Byte>)
    requires |zero| == 2 && |rate| == 4
    ensures var s := [0x4F, 0x70, 0x75, 0x73, 0x48, 0x65, 0x61, 0x64] + [1, channels] + zero + rate + zero + [0];
      && s[..8] == [0x4F, 0x70, 0x75, 0x73, 0x48, 0x65, 0x61, 0x64] && s[8] == 1 && s[9] == channels && s[18] == 0
      && s[10..12] == zero && s[12..16] == rate && s[16..18] == zero
  {
  }

  /** The comment header as a player reads it: the vendor and the number of comments (section 5.2 of RFC 7845). */
  function ReadOpusTags(s: seq<Byte>): Option<(seq<Byte>, nat)> {
    if |s| < 12 || s[..8] != [0x4F, 0x70, 0x75, 0x73, 0x54, 0x61, 0x67, 0x73] then None else
    var n := ReadLittleEndian(s[8..12]);
    if |s| < 12 + n + 4 then None else Some((s[12..12 + n], ReadLittleEndian(s[12 + n..12 + n + 4])))
  }

  lemma OpusTagsReadBack()
    ensures ReadOpusTags(OpusTags()) == Some(([0x4D, 0x69, 0x42, 0x65, 0x65, 0x4E, 0x76, 0x72], 0))
  {
    Widths();
    LittleEndianRoundTrip(8, 4);
    LittleEndianRoundTrip(0, 4);
    hide LittleEndian, ReadLittleEndian, Pow256, OpusTags;
    TagsWhole();
    TagParts(OpusTags()[..8], LittleEndian(8, 4), LittleEndian(0, 4));
  }

  lemma TagsWhole()
    ensures OpusTags() == OpusTags()[..8] + LittleEndian(8, 4) + VENDOR + LittleEndian(0, 4)
    ensures OpusTags()[..8] == [0x4F, 0x70, 0x75, 0x73, 0x54, 0x61, 0x67, 0x73]
  {
    hide LittleEndian;
  }

  lemma TagParts(magic: seq<Byte>, n: seq<Byte>, count: seq<Byte>)
    requires |magic| == 8 && |n| == |count| == 4
    ensures var s := magic + n + VENDOR + count;
      s[..8] == magic && s[8..12] == n && s[12..20] == VENDOR && s[20..24] == count
  {
  }

  /** The channel count the live stream announces, given what the recorder knows. */
  function Channels(armed: nat, config: seq<Byte>): (c: Byte)
    ensures 1 <= c <= 8
  {
    var known: nat := if armed == 0 && |config| > 0 && config[0] > 0 then config[0] else armed;
    if known == 0 || known > 8 then 1 else known
  }

  /** One to eight as armed; else as configured, if nothing was armed and that is one to eight; else one. */
  lemma ChannelsExact(armed: nat, config: seq<Byte>)
    ensures armed != 0 ==> Channels(armed, config) == if armed <= 8 then armed else 1
    ensures armed == 0 ==>
      Channels(armed, config) == if config != [] && 1 <= config[0] <= 8 then config[0] else 1
  {
  }

  lemma {:induction false} WriteAppend(serial: nat, a: seq<Planned>, b: seq<Planned>)
    ensures Write(serial, a + b) == Write(serial, a) + Write(serial, b)
  {
    if a == [] {
      assert a + b == b;
    } else {
      assert (a + b)[1..] == a[1..] + b;
      WriteAppend(serial, a[1..], b);
    }
  }

  lemma StreamGrows(serial: nat, head: seq<Byte>, tags: seq<Byte>, packets: seq<seq<Byte>>, next: seq<Byte>)
    ensures Write(serial, StreamPlan(head, tags, packets + [next]))
            == Write(serial, StreamPlan(head, tags, packets)) + Write(serial, AudioPlan([next], |packets|))
  {
    assert StreamPlan(head, tags, packets + [next])
        == StreamPlan(head, tags, packets) + AudioPlan([next], |packets|);
    WriteAppend(serial, StreamPlan(head, tags, packets), AudioPlan([next], |packets|));
  }

  lemma WrapAdds(granule: int, k: nat)
    requires granule % TWO_64 == (PACKET_SAMPLES * k) % TWO_64
    ensures -(TWO_64 / 2) <= Wrap64(granule + PACKET_SAMPLES) < TWO_64 / 2
    ensures Wrap64(granule + PACKET_SAMPLES) % TWO_64 == (PACKET_SAMPLES * (k + 1)) % TWO_64
  {
    Congruent(granule + PACKET_SAMPLES + TWO_64 / 2, PACKET_SAMPLES, PACKET_SAMPLES * k, TWO_64);
  }

  /** Equal remainders stay equal when the same amount is added, and when a multiple is taken off. */
  lemma Congruent(shifted: int, step: int, known: int, m: int)
    requires m > 1 && m % 2 == 0
    requires (shifted - m / 2 - step) % m == known % m
    ensures (shifted % m - m / 2) % m == (known + step) % m
  {
    var base := shifted - m / 2 - step;
    var q := base / m - known / m - shifted / m;
    assert shifted % m - m / 2 == known + step + q * m by {
      assert base == m * (base / m) + base % m;
      assert known == m * (known / m) + known % m;
      assert shifted == m * (shifted / m) + shifted % m;
      assert m * (base / m) - m * (known / m) - m * (shifted / m) == q * m;
    }
    AddMultiple(known + step, q, m);
  }

  lemma NextNumber(k: nat, m: nat)
    requires m > 0
    ensures (k % m + 1) % m == (k + 1) % m
  {
    var q := k / m;
    assert k % m + 1 == (k + 1) + (-q) * m;
    AddMultiple(k + 1, -q, m);
  }

  lemma NextPlanned(k: nat, packet: seq<Byte>)
    ensures AudioPlan([packet], k)
            == [Planned(0, (PACKET_SAMPLES * (k + 1)) % TWO_64, (k + 2) % TWO_32, packet)]
  {
    Widths();
  }

  lemma NextPage(serial: nat, k: nat, granule: int, packet: seq<Byte>)
    requires granule % TWO_64 == (PACKET_SAMPLES * k) % TWO_64
    ensures ((k + 2) % TWO_32 + 1) % TWO_32 == (k + 3) % TWO_32
    ensures -(TWO_64 / 2) <= Wrap64(granule + PACKET_SAMPLES) < TWO_64 / 2
    ensures Wrap64(granule + PACKET_SAMPLES) % TWO_64 == (PACKET_SAMPLES * (k + 1)) % TWO_64
    ensures Write(serial, AudioPlan([packet], k))
            == Page(0, Wrap64(granule + PACKET_SAMPLES) % TWO_64, serial, (k + 2) % TWO_32, packet)
  {
    hide Page;
    WrapAdds(granule, k);
    NextNumber(k + 2, TWO_32);
    NextPlanned(k, packet);
    var plan := AudioPlan([packet], k);
    assert plan[1..] == [] && Write(serial, plan[1..]) == [];
  }

  method SegmentTable(n: nat) returns (segs: array<Byte>)
    ensures fresh(segs) && segs[..] == Lacing(n)
  {
    var count := (n + 254) / 255;
    segs := new Byte[count](_ => 0);
    for i := 0 to count
      invariant forall k :: 0 <= k < i ==> segs[k] == 255
    {
      segs[i] := 255;
    }
    if n % 255 > 0 {
      segs[count - 1] := n % 255;
    }
  }

  /** Writes the fixed fields into a buffer of zero bytes. */
  method FillFront(buf: array<Byte>, headerType: Byte, granule: nat, serial: nat, seqno: nat)
    requires buf.Length >= 27 && buf[4] == 0
    modifies buf
    ensures buf[..] == Front(headerType, granule, serial, seqno) + old(buf[22..])
  {
    ghost var start := buf[..];
    CopyInto(buf, 0, MAGIC);
    CopyInto(buf, 5, [headerType]);
    CopyInto(buf, 6, LittleEndian(granule, 8));
    CopyInto(buf, 14, LittleEndian(serial, 4));
    CopyInto(buf, 18, LittleEndian(seqno, 4));
    FrontCopies(start, headerType, LittleEndian(granule, 8), LittleEndian(serial, 4), LittleEndian(seqno, 4));
  }

  function Splice(s: seq<Byte>, at: nat, src: seq<Byte>): (r: seq<Byte>)
    requires at + |src| <= |s|
    ensures |r| == |s|
  {
    s[..at] + src + s[at + |src|..]
  }

  lemma FrontCopies(s: seq<Byte>, headerType: Byte, g: seq<Byte>, n: seq<Byte>, k: seq<Byte>)
    requires |s| >= 27 && s[4] == 0 && |g| == 8 && |n| == |k| == 4
    ensures var t := Splice(Splice(Splice(s, 0, MAGIC), 5, [headerType]), 6, g);
      Splice(Splice(t, 14, n), 18, k) == MAGIC + [0, headerType] + g + n + k + s[22..]
  {
    var t2 := Splice(Splice(s, 0, MAGIC), 5, [headerType]);
    assert t2 == MAGIC + [0, headerType] + s[6..];
    var t3 := Splice(t2, 6, g);
    assert t3 == MAGIC + [0, headerType] + g + s[14..];
    var t4 := Splice(t3, 14, n);
    assert t4 == MAGIC + [0, headerType] + g + n + s[18..];
  }

  /** The page with its checksum field still blank. */
  method FillPage(headerType: Byte, granule: nat, serial: nat, seqno: nat, payload: seq<Byte>)
    returns (buf: array<Byte>)
    ensures fresh(buf) && buf[..] == Front(headerType, granule, serial, seqno) + BLANK + Back(payload)
  {
    var segs := SegmentTable(|payload|);
    var count := segs.Length;
    buf := new Byte[27 + count + |payload|](_ => 0);
    FillFront(buf, headerType, granule, serial, seqno);
    ghost var front := Front(headerType, granule, serial, seqno);
    assert buf[..26] == front + BLANK;
    FillBack(buf, segs[..], payload);
  }

  /** The segment count, the segment table and the payload, behind the first 26 bytes. */
  method FillBack(buf: array<Byte>, segs: seq<Byte>, payload: seq<Byte>)
    requires buf.Length == 27 + |segs| + |payload|
    modifies buf
    ensures buf[..] == old(buf[..26]) + ([|segs| % 256] + segs + payload)
  {
    ghost var start := buf[..];
    CopyInto(buf, 26, [|segs| % 256]);
    CopyInto(buf, 27, segs);
    CopyInto(buf, 27 + |segs|, payload);
    ThreeCopies(start, [|segs| % 256], segs, payload);
  }

  /** What three adjacent copies leave in a buffer. */
  lemma ThreeCopies(s: seq<Byte>, a: seq<Byte>, b: seq<Byte>, c: seq<Byte>)
    requires |a| == 1 && |s| == 27 + |b| + |c|
    ensures var s1 := s[..26] + a + s[27..];
      var s2 := s1[..27] + b + s1[27 + |b|..];
      s2[..27 + |b|] + c + s2[27 + |b| + |c|..] == s[..26] + (a + b + c)
  {
  }

  class OggOpusBuilder {
    const serial: nat
    const table: array<Word32>
    var seqno: nat
    var granule: int

    // The stream so far, for the specification only.
    ghost const head: seq<Byte>
    ghost var packets: seq<seq<Byte>>
    ghost var sent: seq<Byte>

    /** Everything sent so far is the stream of the packets framed so far. */
    ghost predicate Valid()
      reads this, table
    {
      && serial < TWO_32 && IsTable(table[..])
      && seqno == (|packets| + 2) % TWO_32
      && -(TWO_64 / 2) <= granule < TWO_64 / 2
      && granule % TWO_64 == (PACKET_SAMPLES * |packets|) % TWO_64
      && sent == Write(serial, StreamPlan(head, OpusTags(), packets))
    }

    constructor (t: array<Word32>, serial: nat, ghost head: seq<Byte>)
      ensures this.serial == serial && table == t && seqno == 0 && granule == 0 && this.head == head
      ensures packets == [] && sent == []
    {
      this.serial, table, seqno, granule, this.head := serial, t, 0, 0, head;
      packets, sent := [], [];
    }

    /** Builds one page in place: fields, segment table, payload, and last the checksum. */
    method EmitPage(headerType: Byte, position: int, payload: seq<Byte>) returns (page: seq<Byte>)
      requires serial < TWO_32 && seqno < TWO_32 && IsTable(table[..])
      modifies this`seqno
      ensures page == Page(headerType, position % TWO_64, serial, old(seqno), payload)
      ensures seqno == (old(seqno) + 1) % TWO_32
    {
      hide Remainder, Divide, Entry;
      var buf := FillPage(headerType, position % TWO_64, serial, seqno, payload);
      ghost var front := Front(headerType, position % TWO_64, serial, seqno);
      seqno := (seqno + 1) % TWO_32;
      var crc := Checksum(table, buf[..]);
      CopyInto(buf, 22, LittleEndian(Value(crc), 4));
      page := buf[..];
      assert page == Sealed(front, Back(payload));
    }

    /** Frames one packet: the granule advances by 20 ms, and the page joins the stream. */
    method Frame(packet: seq<Byte>) returns (page: seq<Byte>)
      requires Valid()
      modifies this
      ensures Valid() && packets == old(packets) + [packet] && sent == old(sent) + page
    {
      hide Page, Write, StreamPlan, AudioPlan, IsTable, Wrap64, OpusTags;
      granule := Wrap64(granule + PACKET_SAMPLES);
      ghost var k := |packets|;
      page := EmitPage(0, granule, packet);
      NextPage(serial, k, old(granule), packet);
      StreamGrows(serial, head, OpusTags(), packets, packet);
      packets := packets + [packet];
      sent := sent + page;
      assert table[..] == old(table[..]);
    }
  }

  /** Opens a live stream: a fresh builder, and the two header pages to send first. */
  method NewLiveOggOpus(t: array<Word32>, armed: nat, config: seq<Byte>, armedRate: nat, clock: nat)
    returns (b: OggOpusBuilder, header: seq<Byte>)
    requires IsTable(t[..])
    ensures fresh(b) && b.Valid() && b.packets == [] && b.sent == header && b.table == t
    ensures b.head == OpusHead(Channels(armed, config), if armedRate == 0 then 48000 else armedRate)
  {
    hide Page, Write, StreamPlan, IsTable, OpusHead, OpusTags;
    var head := OpusHead(Channels(armed, config), if armedRate == 0 then 48000 else armedRate);
    b := new OggOpusBuilder(t, clock % TWO_32, head);
    var first := b.EmitPage(2, 0, head);
    var second := b.EmitPage(0, 0, OpusTags());
    header := first + second;
    TwoPages(b.serial, head, OpusTags());
    b.sent := header;
  }

  lemma TwoPages(serial: nat, head: seq<Byte>, tags: seq<Byte>)
    ensures Write(serial, StreamPlan(head, tags, [])) == Page(2, 0, serial, 0, head) + Page(0, 0, serial, 1, tags)
  {
    hide Page;
    var plan := StreamPlan(head, tags, []);
    assert plan == [Planned(2, 0, 0, head), Planned(0, 0, 1, tags)];
    assert plan[1..] == [Planned(0, 0, 1, tags)] && plan[1..][1..] == [];
    assert Write(serial, plan[1..]) == Page(0, 0, serial, 1, tags) + [];
  }
}

/**
 One live listening session: frames arrive through a bounded queue that drops, are framed one after the
 other behind a header, and the body ends exactly at a declared length if there is one.
 */
module LiveSession {
  import opened Bytes
  import Adts
  import OggPages
  import Wav

  type Codec = string

  const QUEUE := 64

  const MAX_IDLE := 30_000_000_000   // 30 seconds in nanoseconds

  /** How a codec is framed; the frame function may depend on how many frames went before. */
  datatype Format = Format(accept: Codec, header: seq<Byte>, frame: (nat, seq<Byte>) -> seq<Byte>, contentLen: int)

  /** A declared length leaves room for the header. */
  predicate Consistent(f: Format) {
    f.contentLen > 0 ==> |f.header| <= f.contentLen
  }

  datatype Status = Running | Complete | HungUp | Broken

  /** A frame of the accepted codec, and whether it found room in the queue. */
  datatype Arrival = Arrival(data: seq<Byte>, kept: bool)

  datatype State = State(
    status: Status, queue: seq<seq<Byte>>, dropped: nat, out: seq<Byte>,
    delivered: seq<seq<Byte>>, arrivals: seq<Arrival>,
    last: int)   // when a frame was last taken from the queue, or else the begin

  /** Writes can fail after any part of the bytes; a listener who leaves and the six-hour cap both hang up. */
  datatype Step =
    | Audio(codec: Codec, data: seq<Byte>)
    | Deliver(ok: bool, partial: nat, now: int)
    | Flush(now: int)
    | HangUp

  // ----- the session as steps -----

  function Part(s: seq<Byte>, n: nat): seq<Byte> {
    if n < |s| then s[..n] else s
  }

  function Begin(f: Format, ok: bool, partial: nat, now: int): State {
    if f.header != [] && !ok then State(Broken, [], 0, Part(f.header, partial), [], [], now)
    else State(Running, [], 0, f.header, [], [], now)
  }

  function Receive(f: Format, st: State, codec: Codec, data: seq<Byte>): State {
    if codec != f.accept then st
    else if |st.queue| < QUEUE then st.(queue := st.queue + [data], arrivals := st.arrivals + [Arrival(data, true)])
    else st.(dropped := st.dropped + 1, arrivals := st.arrivals + [Arrival(data, false)])
  }

  /** The bytes of the next frame, cut at the declared length. */
  function NextBytes(f: Format, st: State): seq<Byte>
    requires st.queue != []
  {
    var bytes := f.frame(|st.delivered|, st.queue[0]);
    if f.contentLen > 0 && |st.out| + |bytes| > f.contentLen && |st.out| <= f.contentLen
    then bytes[..f.contentLen - |st.out|] else bytes
  }

  function Delivered(f: Format, st: State, ok: bool, partial: nat, now: int): State
    requires st.queue != []
  {
    var bytes := NextBytes(f, st);
    var st1 := st.(queue := st.queue[1..], delivered := st.delivered + [st.queue[0]], last := now);
    if bytes != [] && !ok then st1.(status := Broken, out := st.out + Part(bytes, partial))
    else
      var out := st.out + bytes;
      st1.(out := out, status := if f.contentLen > 0 && |out| >= f.contentLen then Complete else Running)
  }

  function Apply(f: Format, st: State, step: Step): State {
    if st.status != Running then st else
    match step
    case Audio(codec, data) => Receive(f, st, codec, data)
    case Deliver(ok, partial, now) => if st.queue == [] then st else Delivered(f, st, ok, partial, now)
    case Flush(now) => if now - st.last > MAX_IDLE then st.(status := HungUp) else st
    case HangUp => st.(status := HungUp)
  }

  function After(f: Format, st: State, steps: seq<Step>): State
    decreases |steps|
  {
    if steps == [] then st else After(f, Apply(f, st, steps[0]), steps[1..])
  }

  // ----- what every session keeps -----

  /** All frames behind one another, each with its number. */
  function Framed(f: Format, frames: seq<seq<Byte>>): seq<Byte> {
    if frames == [] then []
    else Framed(f, frames[..|frames| - 1]) + f.frame(|frames| - 1, frames[|frames| - 1])
  }

  /** The frames that found room, in order. */
  function Kept(arrivals: seq<Arrival>): seq<seq<Byte>> {
    if arrivals == [] then []
    else
      var last := arrivals[|arrivals| - 1];
      Kept(arrivals[..|arrivals| - 1]) + if last.kept then [last.data] else []
  }

  function Lost(arrivals: seq<Arrival>): nat {
    if arrivals == [] then 0
    else Lost(arrivals[..|arrivals| - 1]) + if arrivals[|arrivals| - 1].kept then 0 else 1
  }

  /** Everything the listener would get if nothing were cut. */
  function Stream(f: Format, st: State): seq<Byte> {
    f.header + Framed(f, st.delivered)
  }

  /** Every accepted frame is delivered, waiting or dropped, and the first two keep their order. */
  ghost predicate Conserved(st: State) {
    && |st.queue| <= QUEUE
    && Kept(st.arrivals) == st.delivered + st.queue
    && Lost(st.arrivals) == st.dropped
    && |st.arrivals| == |st.delivered| + |st.queue| + st.dropped
  }

  /**
   What has been written is a prefix of the stream, within the declared length and up to it where that
   ended the session.
   */
  ghost predicate Faithful(f: Format, st: State) {
    && st.out <= Stream(f, st)
    && (f.contentLen > 0 ==> |st.out| <= f.contentLen)
    && (st.status == Running || st.status == HungUp ==> st.out == Stream(f, st))
    && (st.status == Complete ==> f.contentLen > 0 && |st.out| == f.contentLen)
  }

  ghost predicate Sound(f: Format, st: State) {
    Conserved(st) && Faithful(f, st)
  }

  lemma FramedSnoc(f: Format, frames: seq<seq<Byte>>, next: seq<Byte>)
    ensures Framed(f, frames + [next]) == Framed(f, frames) + f.frame(|frames|, next)
  {
    assert (frames + [next])[..|frames|] == frames;
  }

  lemma KeptSnoc(arrivals: seq<Arrival>, a: Arrival)
    ensures Kept(arrivals + [a]) == Kept(arrivals) + (if a.kept then [a.data] else [])
    ensures Lost(arrivals + [a]) == Lost(arrivals) + (if a.kept then 0 else 1)
  {
    assert (arrivals + [a])[..|arrivals|] == arrivals;
  }

  lemma ReceiveSound(f: Format, st: State, codec: Codec, data: seq<Byte>)
    requires Sound(f, st)
    ensures Sound(f, Receive(f, st, codec, data))
  {
    hide Kept, Lost, Framed;
    KeptSnoc(st.arrivals, Arrival(data, true));
    KeptSnoc(st.arrivals, Arrival(data, false));
    var st1 := Receive(f, st, codec, data);
    if codec == f.accept && |st.queue| < QUEUE {
      assert st1.delivered + st1.queue == st.delivered + st.queue + [data];
    } else if codec == f.accept {
      assert Kept(st1.arrivals) == Kept(st.arrivals);
    }
  }

  lemma DeliveredSound(f: Format, st: State, ok: bool, partial: nat, now: int)
    requires Sound(f, st) && st.status == Running && st.queue != []
    ensures Sound(f, Delivered(f, st, ok, partial, now))
  {
    hide Kept, Lost, Framed;
    var st1 := Delivered(f, st, ok, partial, now);
    assert st1.delivered + st1.queue == st.delivered + st.queue;
    FramedSnoc(f, st.delivered, st.queue[0]);
    var raw := f.frame(|st.delivered|, st.queue[0]);
    assert Stream(f, st1) == st.out + raw;
  }

  lemma StepSound(f: Format, st: State, step: Step)
    requires Sound(f, st)
    ensures Sound(f, Apply(f, st, step))
  {
    hide Receive, Delivered, Conserved;
    match step
    case Audio(codec, data) =>
      ReceiveSound(f, st, codec, data);
    case Deliver(ok, partial, now) =>
      if st.status == Running && st.queue != [] {
        DeliveredSound(f, st, ok, partial, now);
      }
    case Flush(_) =>
      StatusOnly(st, HungUp);
    case HangUp =>
      StatusOnly(st, HungUp);
  }

  lemma StatusOnly(st: State, status: Status)
    requires Conserved(st)
    ensures Conserved(st.(status := status))
  {
  }

  lemma BeginSound(f: Format, ok: bool, partial: nat, now: int)
    requires Consistent(f)
    ensures Sound(f, Begin(f, ok, partial, now))
  {
  }

  lemma {:induction false} AfterSound(f: Format, st: State, steps: seq<Step>)
    requires Sound(f, st)
    ensures Sound(f, After(f, st, steps))
    decreases |steps|
  {
    hide Sound, Apply;
    if steps != [] {
      StepSound(f, st, steps[0]);
      AfterSound(f, Apply(f, st, steps[0]), steps[1..]);
    }
  }

  /** Whatever arrives in whatever order and whichever write fails. */
  lemma SessionSound(f: Format, ok: bool, partial: nat, now: int, steps: seq<Step>)
    requires Consistent(f)
    ensures Sound(f, After(f, Begin(f, ok, partial, now), steps))
  {
    BeginSound(f, ok, partial, now);
    AfterSound(f, Begin(f, ok, partial, now), steps);
  }

  /** A session that ended at its declared length sent exactly that much of the stream. */
  lemma CompleteBody(f: Format, now: int, steps: seq<Step>)
    requires Consistent(f)
    requires After(f, Begin(f, true, 0, now), steps).status == Complete
    ensures var st := After(f, Begin(f, true, 0, now), steps);
      && 0 < f.contentLen <= |Stream(f, st)|
      && st.out == Stream(f, st)[..f.contentLen]
  {
    SessionSound(f, true, 0, now, steps);
  }

  // ----- what becomes of a frame, and how a session ends -----

  /**
   A frame that arrives in a session still running: of another codec it changes nothing, and otherwise it waits
   behind the others, unless 64 are waiting already; only then it is lost.
   */
  lemma ArrivalExact(f: Format, ok: bool, partial: nat, now: int, steps: seq<Step>, codec: Codec, data: seq<Byte>)
    requires Consistent(f) && After(f, Begin(f, ok, partial, now), steps).status == Running
    ensures var st := After(f, Begin(f, ok, partial, now), steps);
      var next := After(f, Begin(f, ok, partial, now), steps + [Audio(codec, data)]);
      && |st.queue| <= 64
      && (codec != f.accept ==> next == st)
      && (codec == f.accept && |st.queue| < 64 ==>
            next.queue == st.queue + [data] && next.dropped == st.dropped)
      && (codec == f.accept && |st.queue| == 64 ==> next.queue == st.queue && next.dropped == st.dropped + 1)
      && next.status == Running && next.out == st.out && next.delivered == st.delivered && next.last == st.last
  {
    SessionSound(f, ok, partial, now, steps);
    AfterSnoc(f, Begin(f, ok, partial, now), steps, Audio(codec, data));
  }

  lemma {:induction false} AfterSnoc(f: Format, st: State, steps: seq<Step>, step: Step)
    ensures After(f, st, steps + [step]) == Apply(f, After(f, st, steps), step)
    decreases |steps|
  {
    hide Apply;
    if steps == [] {
      assert [] + [step] == [step] && [step][1..] == [];
    } else {
      assert (steps + [step])[1..] == steps[1..] + [step];
      AfterSnoc(f, Apply(f, st, steps[0]), steps[1..], step);
    }
  }

  /**
   How the steps of the loop end a session: taking a frame, by a write that fails or at the declared length;
   a flush, exactly if no frame was taken for more than 30 seconds; a hang-up; and nothing else does.
   */
  lemma EndExact(f: Format, st: State, step: Step)
    requires Sound(f, st) && st.status == Running
    ensures var b := Apply(f, st, step);
      match step
      case Audio(_, _) => b.status == Running && b.last == st.last
      case Deliver(ok, _, now) =>
        if st.queue == [] then b == st else
        var bytes := f.frame(|st.delivered|, st.queue[0]);
        var full := f.contentLen > 0 && |st.out| + |bytes| >= f.contentLen;
        var piece := if full then bytes[..f.contentLen - |st.out|] else bytes;
        && b.queue == st.queue[1..] && b.delivered == st.delivered + [st.queue[0]] && b.last == now
        && (if ok || piece == [] then b.out == st.out + piece && b.status == (if full then Complete else Running)
            else b.status == Broken && st.out <= b.out <= st.out + piece)
      case Flush(now) => b == if now - st.last > 30_000_000_000 then st.(status := HungUp) else st
      case HangUp => b == st.(status := HungUp)
  {
    hide Conserved;
    if step.Deliver? && st.queue != [] {
      var bytes := f.frame(|st.delivered|, st.queue[0]);
      if f.contentLen > 0 && |st.out| + |bytes| == f.contentLen {
        assert bytes[..f.contentLen - |st.out|] == bytes;
      }
    }
  }

  /** A session begins with the whole header, or ends with part of it if that cannot be written. */
  lemma BeginExact(f: Format, ok: bool, partial: nat, now: int)
    ensures var st := Begin(f, ok, partial, now);
      if ok || f.header == [] then st == State(Running, [], 0, f.header, [], [], now)
      else st.status == Broken && st.out <= f.header
  {
  }

  /** Nothing happens in a session that has ended. */
  lemma {:induction false} EndIsFinal(f: Format, st: State, steps: seq<Step>)
    requires st.status != Running
    ensures After(f, st, steps) == st
    decreases |steps|
  {
    if steps != [] {
      EndIsFinal(f, st, steps[1..]);
    }
  }

  /**
   A queue that is served, with writes that succeed and nothing else happening, is delivered to its end in order,
   or the body is complete before that.
   */
  lemma {:induction false} Drains(f: Format, st: State, steps: seq<Step>)
    requires Sound(f, st) && st.status == Running && |steps| == |st.queue|
    requires forall i :: 0 <= i < |steps| ==> steps[i].Deliver? && steps[i].ok
    ensures var b := After(f, st, steps);
      if b.status == Complete then f.contentLen > 0 && |b.out| == f.contentLen
      else b.status == Running && b.queue == [] && b.delivered == st.delivered + st.queue && b.dropped == st.dropped
    decreases |steps|
  {
    if steps == [] {
      assert st.delivered + st.queue == st.delivered;
    } else {
      var st1, rest := Apply(f, st, steps[0]), steps[1..];
      EndExact(f, st, steps[0]);
      StepSound(f, st, steps[0]);
      hide Sound, Apply;
      if st1.status == Running {
        Drains(f, st1, rest);
        assert st1.delivered + st1.queue == st.delivered + st.queue;
        SameDropped(f, st, steps[0]);
      } else {
        EndIsFinal(f, st1, rest);
        assert st1.status == Complete;
        StillSound(f, st, steps[0]);
      }
    }
  }

  lemma SameDropped(f: Format, st: State, step: Step)
    requires step.Deliver?
    ensures Apply(f, st, step).dropped == st.dropped
  {
  }

  lemma StillSound(f: Format, st: State, step: Step)
    requires Sound(f, st)
    ensures Faithful(f, Apply(f, st, step))
  {
    StepSound(f, st, step);
  }

  // ----- the three formats -----

  function AdtsFormat(codec: Codec, p: Adts.Params): Format
    requires Adts.Usable(p)
  {
    Format(codec, [], (k: nat, au: seq<Byte>) => Adts.Frame(p, au), 0)
  }

  lemma {:induction false} AdtsStream(codec: Codec, p: Adts.Params, units: seq<seq<Byte>>)
    requires Adts.Usable(p)
    ensures Framed(AdtsFormat(codec, p), units) == Adts.Write(p, units)
  {
    hide Adts.Frame;
    if units != [] {
      var n := |units| - 1;
      AdtsStream(codec, p, units[..n]);
      AdtsAppend(p, units[..n], units[n]);
      assert units == units[..n] + [units[n]];
    }
  }

  lemma {:induction false} AdtsAppend(p: Adts.Params, units: seq<seq<Byte>>, last: seq<Byte>)
    requires Adts.Usable(p)
    ensures Adts.Write(p, units + [last]) == Adts.Write(p, units) + Adts.Frame(p, last)
  {
    hide Adts.Frame;
    if units == [] {
      assert (units + [last])[1..] == [];
    } else {
      assert (units + [last])[1..] == units[1..] + [last];
      AdtsAppend(p, units[1..], last);
    }
  }

  /**
   From the hub to the player: however an AAC session goes, as long as its writes succeed the player
   parses exactly the delivered units, in order, if and only if their lengths fit the header field.
   */
  lemma AdtsListener(codec: Codec, p: Adts.Params, now: int, steps: seq<Step>)
    requires Adts.Usable(p)
    requires After(AdtsFormat(codec, p), Begin(AdtsFormat(codec, p), true, 0, now), steps).status != Broken
    ensures var st := After(AdtsFormat(codec, p), Begin(AdtsFormat(codec, p), true, 0, now), steps);
      && Conserved(st)
      && (Adts.ReadFrames(st.out) == Some(Adts.Reported(p, st.delivered)) <==> Adts.ShortEnough(st.delivered))
  {
    hide Adts.ReadFrames, Adts.ShortEnough, Adts.Reported, Conserved;
    var f := AdtsFormat(codec, p);
    var st := After(f, Begin(f, true, 0, now), steps);
    SessionSound(f, true, 0, now, steps);
    AdtsStream(codec, p, st.delivered);
    assert [] + Adts.Write(p, st.delivered) == Adts.Write(p, st.delivered);
    Adts.StreamRoundTripExact(p, st.delivered);
  }

  function OpusFormat(codec: Codec, serial: nat, head: seq<Byte>, tags: seq<Byte>): Format {
    Format(codec, OggPages.Write(serial, OggPages.StreamPlan(head, tags, [])),
           (k: nat, packet: seq<Byte>) => OggPages.Write(serial, OggPages.AudioPlan([packet], k)), 0)
  }

  lemma {:induction false} OpusStream(codec: Codec, serial: nat, head: seq<Byte>, tags: seq<Byte>,
      packets: seq<seq<Byte>>)
    ensures OpusFormat(codec, serial, head, tags).header + Framed(OpusFormat(codec, serial, head, tags), packets)
            == OggPages.Write(serial, OggPages.StreamPlan(head, tags, packets))
  {
    hide OggPages.Write, OggPages.StreamPlan, OggPages.AudioPlan;
    var f := OpusFormat(codec, serial, head, tags);
    if packets == [] {
      assert f.header + [] == f.header;
    } else {
      var n := |packets| - 1;
      var front := packets[..n];
      OpusStream(codec, serial, head, tags, front);
      OggPages.StreamGrows(serial, head, tags, front, packets[n]);
      assert packets == front + [packets[n]];
      Assoc(f.header, Framed(f, front), f.frame(n, packets[n]));
    }
  }

  lemma Assoc(a: seq<Byte>, b: seq<Byte>, c: seq<Byte>)
    ensures a + (b + c) == (a + b) + c
  {
  }

  /**
   From the hub to the player: of an Opus session whose writes succeed the player gets the pages and the
   delivered packets as they were meant, if and only if no delivered length is a multiple of 255 or
   exceeds a page; and where all fit a page it gets exactly those whose length is no multiple of 255.
   */
  lemma {:induction false} OpusListener(codec: Codec, serial: nat, head: seq<Byte>, tags: seq<Byte>, now: int,
      steps: seq<Step>)
    requires serial < Pow256(4) && 0 < |head| < 255 && 0 < |tags| < 255
    requires After(OpusFormat(codec, serial, head, tags), Begin(OpusFormat(codec, serial, head, tags), true, 0, now),
        steps).status != Broken
    ensures var st := After(OpusFormat(codec, serial, head, tags),
        Begin(OpusFormat(codec, serial, head, tags), true, 0, now), steps);
      && Conserved(st)
      && (OggPages.Faithful(st.out, serial, head, tags, st.delivered) <==>
            forall i :: 0 <= i < |st.delivered| ==>
              |st.delivered[i]| % 255 != 0 && |st.delivered[i]| <= OggPages.MAX_PAYLOAD)
      && (OggPages.Fit(st.delivered) ==>
            OggPages.Demux(st.out) == Some(OggPages.Terminated([head, tags] + st.delivered)))
  {
    hide OggPages.Write, OggPages.StreamPlan, OggPages.AudioPlan, OggPages.Demux, OggPages.Terminated, OggPages.Fit,
        OggPages.Faithful;
    hide Pow256, Conserved;
    var f := OpusFormat(codec, serial, head, tags);
    var st := After(f, Begin(f, true, 0, now), steps);
    SessionSound(f, true, 0, now, steps);
    OpusStream(codec, serial, head, tags, st.delivered);
    OggPages.StreamRoundTripExact(serial, head, tags, st.delivered);
    if OggPages.Fit(st.delivered) {
      OggPages.StreamDemux(serial, head, tags, st.delivered);
    }
  }

  const SECOND := 1_000_000_000

  /** Division that truncates toward zero. */
  function Quotient(n: int, m: int): int
    requires m > 0
  {
    if n >= 0 then n / m else 0 - (0 - n) / m
  }

  /** The declared length: the header and the samples of a nominal window, given in nanoseconds. */
  function WavLength(rate: nat, channels: nat, window: nat): int {
    Wav.HEADER + Quotient(Wrap64(rate * channels * 2 * window), SECOND)
  }

  function WavFormat(codec: Codec, rate: nat, channels: nat, window: nat, decode: Wav.Decoder): Format {
    Format(codec, Wav.Header(Wav.Pcm16(rate, channels, 0xFFFF_FFFF, 0xFFFF_FFFF)),
           (k: nat, data: seq<Byte>) => Wav.Pcm(data, decode), WavLength(rate, channels, window))
  }

  /** The product that the length is computed from, wrapped to 64 bits. */
  function WavProduct(rate: nat, channels: nat, window: nat): int {
    Wrap64(rate * channels * 2 * window)
  }

  /**
   The declared length leaves room for the header, or is no length, exactly unless the wrapped product
   is negative by a second or more but by less than the header's 44; without overflow it is the length
   of the window's samples behind the header.
   */
  lemma WavConsistentExact(codec: Codec, rate: nat, channels: nat, window: nat, decode: Wav.Decoder)
    ensures Consistent(WavFormat(codec, rate, channels, window, decode)) <==>
      !(-44 * SECOND < WavProduct(rate, channels, window) <= -SECOND)
    ensures rate * channels * 2 * window < 0x8000_0000_0000_0000 ==>
      WavLength(rate, channels, window) == Wav.HEADER + rate * channels * 2 * window / SECOND
  {
    hide Wav.Header, Wav.Pcm16, Wrap64, Quotient;
    SmallQuotient(WavProduct(rate, channels, window));
    if rate * channels * 2 * window < 0x8000_0000_0000_0000 {
      NoWrap(rate * channels * 2 * window);
    }
  }

  lemma SmallQuotient(n: int)
    ensures -44 < Quotient(n, SECOND) < 0 <==> -44 * SECOND < n <= -SECOND
  {
    if n < 0 {
      var q, r := (0 - n) / SECOND, (0 - n) % SECOND;
      assert 0 - n == SECOND * q + r;
    }
  }

  lemma NoWrap(n: nat)
    requires n < 0x8000_0000_0000_0000
    ensures Wrap64(n) == n && Quotient(Wrap64(n), SECOND) == n / SECOND
  {
  }

  /** The samples of all frames together. */
  lemma {:induction false} WavStream(
      codec: Codec, rate: nat, channels: nat, window: nat, decode: Wav.Decoder, frames: seq<seq<Byte>>)
    ensures Framed(WavFormat(codec, rate, channels, window, decode), frames) == Wav.Pcm(Concat(frames), decode)
  {
    hide Wav.Pcm, Wav.Header, Wav.Pcm16;
    if frames == [] {
      NoSamples(decode);
    } else {
      var n := |frames| - 1;
      WavStream(codec, rate, channels, window, decode, frames[..n]);
      assert frames == frames[..n] + [frames[n]];
      ConcatAppend(frames[..n], [frames[n]]);
      OnePart(frames[n]);
      Wav.PcmAppend(Concat(frames[..n]), frames[n], decode);
    }
  }

  lemma NoSamples(decode: Wav.Decoder)
    ensures Wav.Pcm([], decode) == []
  {
  }

  lemma OnePart(s: seq<Byte>)
    ensures Concat([s]) == s
  {
    assert [s][1..] == [] && s + [] == s;
  }

  /**
   From the hub to the player: a G.711 session that ends at its declared length has sent the header and
   exactly as many of the decoded samples' bytes as the declared length holds behind it.
   */
  lemma WavListener(
      codec: Codec, rate: nat, channels: nat, window: nat, decode: Wav.Decoder, now: int, steps: seq<Step>)
    requires Consistent(WavFormat(codec, rate, channels, window, decode))
    ensures var f := WavFormat(codec, rate, channels, window, decode);
      var st := After(f, Begin(f, true, 0, now), steps);
      var pcm := Wav.Pcm(Concat(st.delivered), decode);
      var n := f.contentLen - Wav.HEADER;
      var info := Wav.Cut(Wav.Info(0xFFFF_FFFF, channels, rate, rate * channels * 2, channels * 2, 16, 0xFFFF_FFFF));
      Conserved(st) && (st.status == Complete ==> 0 <= n <= |pcm| && Wav.ReadFile(st.out) == Some((info, pcm[..n])))
  {
    hide Wav.Pcm, Wav.Header, Wav.ReadFile, Wav.Cut, Framed, Conserved, Concat, WavLength;
    var f := WavFormat(codec, rate, channels, window, decode);
    var st := After(f, Begin(f, true, 0, now), steps);
    SessionSound(f, true, 0, now, steps);
    WavStream(codec, rate, channels, window, decode, st.delivered);
    if st.status == Complete {
      var pcm := Wav.Pcm(Concat(st.delivered), decode);
      var n := f.contentLen - Wav.HEADER;
      CompleteBody(f, now, steps);
      assert st.out == f.header + pcm[..n];
      Wav.HeaderReadsBack(Wav.Pcm16(rate, channels, 0xFFFF_FFFF, 0xFFFF_FFFF), pcm[..n]);
    }
  }

  // ----- the program -----

  class Session {
    const f: Format
    var frames: seq<seq<Byte>>
    var dropped: nat
    var written: nat
    var body: seq<Byte>
    var status: Status
    var delivered: seq<seq<Byte>>
    var lastFrame: int
    ghost var arrivals: seq<Arrival>

    ghost function View(): State
      reads this
    {
      State(status, frames, dropped, body, delivered, arrivals, lastFrame)
    }

    ghost predicate Valid()
      reads this
    {
      && Consistent(f) && Sound(f, View())
      && (status == Running ==> written == |body|)
    }

    /** Subscribes, and writes the header. */
    constructor (f: Format, ok: bool, partial: nat, now: int)
      requires Consistent(f)
      ensures Valid() && this.f == f && View() == Begin(f, ok, partial, now)
    {
      this.f := f;
      frames, dropped, delivered, arrivals, lastFrame := [], 0, [], [], now;
      if |f.header| > 0 && !ok {
        status, body, written := Broken, Part(f.header, partial), 0;
      } else {
        status, body, written := Running, f.header, |f.header|;
      }
      new;
      BeginSound(f, ok, partial, now);
    }

    /** The hub's callback: never blocks. */
    method OnAudio(codec: Codec, data: seq<Byte>)
      requires Valid() && status == Running
      modifies this`frames, this`dropped, this`arrivals
      ensures Valid() && View() == Receive(f, old(View()), codec, data)
    {
      hide Sound;
      ReceiveSound(f, View(), codec, data);
      if codec != f.accept {
        return;
      }
      if |frames| < QUEUE {
        frames := frames + [data];
        arrivals := arrivals + [Arrival(data, true)];
      } else {
        dropped := dropped + 1;
        arrivals := arrivals + [Arrival(data, false)];
      }
    }

    /** Takes one frame from the queue, and writes it as far as the declared length goes. */
    method DeliverOne(ok: bool, partial: nat, now: int)
      requires Valid() && status == Running && frames != []
      modifies this
      ensures Valid() && View() == Delivered(f, old(View()), ok, partial, now)
    {
      hide Conserved;
      DeliveredSound(f, View(), ok, partial, now);
      var data := frames[0];
      lastFrame := now;
      var out := f.frame(|delivered|, data);
      if f.contentLen > 0 && written + |out| > f.contentLen {
        out := out[..f.contentLen - written];
      }
      assert out == NextBytes(f, View());
      frames, delivered := frames[1..], delivered + [data];
      assert body + [] == body;
      if |out| > 0 {
        if !ok {
          body := body + Part(out, partial);
          status := Broken;
          return;
        }
        body := body + out;
        written := written + |out|;
      }
      if f.contentLen > 0 && written >= f.contentLen {
        status := Complete;
      }
      assert View() == Delivered(f, old(View()), ok, partial, now);
    }

    /** The session loop over what happens to it. */
    method Serve(steps: seq<Step>)
      requires Valid()
      modifies this
      ensures Valid() && View() == After(f, old(View()), steps)
    {
      hide Sound, Receive, Delivered;
      for i := 0 to |steps|
        invariant Valid()
        invariant After(f, View(), steps[i..]) == After(f, old(View()), steps)
      {
        assert steps[i..][0] == steps[i] && steps[i..][1..] == steps[i + 1..];
        StepSound(f, View(), steps[i]);
        if status == Running {
          match steps[i]
          case Audio(codec, data) => OnAudio(codec, data);
          case Deliver(ok, partial, now) =>
            if |frames| > 0 {
              DeliverOne(ok, partial, now);
            }
          case Flush(now) =>
            if now - lastFrame > MAX_IDLE {
              status := HungUp;
            }
          case HangUp => status := HungUp;
        }
      }
    }
  }
}

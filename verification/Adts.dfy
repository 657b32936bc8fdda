/**
 AAC access units framed as an ADTS stream, and the frame reader of section 6.2 of ISO/IEC 13818-7
 as the reference to read them back with.

 Shifts are written as multiplications and divisions, and a bitwise or of fields that share no bit as
 their sum.
 */
module Adts {
  import opened Arithmetic
  import opened Bytes

  // ----- where the header fields come from -----

  datatype Config = Config(objectType: nat, freqIndex: nat, channels: nat)

  /** What ADTS can express according to the program. */
  predicate Accepted(c: Config) {
    2 <= c.objectType <= 5 && c.freqIndex <= 12 && 1 <= c.channels <= 6
  }

  /** The fields of a two-byte AudioSpecificConfig. */
  function ParseConfig(asc: seq<Byte>): Option<Config> {
    if |asc| < 2 then None else
    var b0: nat, b1: nat := asc[0], asc[1];
    var c := Config((b0 / 8) % 32, (b0 % 8) * 2 + b1 / 128, (b1 / 8) % 16);
    if Accepted(c) then Some(c) else None
  }

  /** The AudioSpecificConfig with those fields: 5, 4 and 4 bits, then three flag bits. */
  function WriteConfig(c: Config, flags: nat): seq<Byte>
    requires c.objectType < 32 && c.freqIndex < 16 && c.channels < 16 && flags < 8
  {
    [c.objectType * 8 + c.freqIndex / 2, (c.freqIndex % 2) * 128 + c.channels * 8 + flags]
  }

  /** Parsing inverts writing on exactly the accepted configurations, and ignores what follows. */
  lemma ConfigRoundTrip(c: Config, flags: nat, rest: seq<Byte>)
    requires c.objectType < 32 && c.freqIndex < 16 && c.channels < 16 && flags < 8
    ensures ParseConfig(WriteConfig(c, flags) + rest)
            == if 2 <= c.objectType <= 5 && c.freqIndex <= 12 && 1 <= c.channels <= 6 then Some(c) else None
  {
    var s := WriteConfig(c, flags) + rest;
    var b0: nat := c.objectType * 8 + c.freqIndex / 2;
    var b1: nat := (c.freqIndex % 2) * 128 + c.channels * 8 + flags;
    assert s[0] == b0 && s[1] == b1;
    ConfigFields(c, flags);
    hide WriteConfig;
  }

  lemma ConfigFields(c: Config, flags: nat)
    requires c.objectType < 32 && c.freqIndex < 16 && c.channels < 16 && flags < 8
    ensures var b0: nat := c.objectType * 8 + c.freqIndex / 2;
      var b1: nat := (c.freqIndex % 2) * 128 + c.channels * 8 + flags;
      && (b0 / 8) % 32 == c.objectType
      && (b0 % 8) * 2 + b1 / 128 == c.freqIndex
      && (b1 / 8) % 16 == c.channels
  {
    TwoFields(c.objectType, c.freqIndex / 2, 8);
    TwoFields(c.freqIndex % 2, c.channels * 8 + flags, 128);
    TwoFields((c.freqIndex % 2) * 16 + c.channels, flags, 8);
    TwoFields(c.freqIndex % 2, c.channels, 16);
  }

  /** Every configuration the parser returns was written in the first two bytes. */
  lemma ConfigIsWritten(asc: seq<Byte>)
    requires ParseConfig(asc).Some?
    ensures asc[..2] == WriteConfig(ParseConfig(asc).value, asc[1] % 8)
  {
    var c := ParseConfig(asc).value;
    var b0: nat, b1: nat := asc[0], asc[1];
    assert c.freqIndex / 2 == b0 % 8 && c.freqIndex % 2 == b1 / 128;
    assert asc[..2] == [b0, b1];
  }

  const RATES: seq<nat> :=
    [96000, 88200, 64000, 48000, 44100, 32000, 24000, 22050, 16000, 12000, 11025, 8000, 7350]

  /** The table of the standard: three rates, halved three times, and one more. */
  lemma RatesHalve()
    ensures |RATES| == 13 && RATES[0] == 96000 && RATES[1] == 88200 && RATES[2] == 64000 && RATES[12] == 7350
    ensures forall i :: 0 <= i < 9 ==> RATES[i] == 2 * RATES[i + 3]
  {
  }

  method FreqIndex(rate: int) returns (r: Option<nat>)
    ensures r.Some? ==> r.value < |RATES| && RATES[r.value] == rate
    ensures r.None? ==> rate !in RATES
  {
    for i := 0 to |RATES|
      invariant forall k :: 0 <= k < i ==> RATES[k] != rate
    {
      if RATES[i] == rate {
        return Some(i);
      }
    }
    return None;
  }

  /** The three numbers every header of a session carries. */
  datatype Params = Params(profile: nat, freqIndex: nat, channels: nat)

  predicate Usable(p: Params) {
    1 <= p.profile <= 4 && p.freqIndex <= 12 && 1 <= p.channels <= 6
  }

  /** Fixes the header fields: from the AudioSpecificConfig if it parses, else from the armed rate. */
  method SessionParams(asc: seq<Byte>, rate: int, armed: int) returns (r: Option<Params>)
    ensures r.Some? ==> Usable(r.value)
    ensures ParseConfig(asc).Some? ==>
      var c := ParseConfig(asc).value; r == Some(Params(c.objectType - 1, c.freqIndex, c.channels))
    ensures ParseConfig(asc).None? ==> (r.None? <==> rate !in RATES)
    ensures ParseConfig(asc).None? && r.Some? ==>
      && r.value.profile == 1 && RATES[r.value.freqIndex] == rate
      && r.value.channels == if 1 <= armed <= 6 then armed else 1
  {
    var parsed := ParseConfig(asc);
    if parsed.Some? {
      return Some(Params(parsed.value.objectType - 1, parsed.value.freqIndex, parsed.value.channels));
    }
    var index := FreqIndex(rate);
    if index.None? {
      return None;
    }
    var channels := if armed < 1 || armed > 6 then 1 else armed;
    return Some(Params(1, index.value, channels));
  }

  // ----- framing -----

  const HEADER := 7

  function Header(p: Params, n: nat): (h: seq<Byte>)
    requires Usable(p)
    ensures |h| == HEADER
  {
    [0xFF, 0xF1,
     (p.profile * 64) % 256 + p.freqIndex * 4 + p.channels / 4,
     (p.channels % 4) * 64 + (n / 2048) % 4,
     (n / 8) % 256,
     (n % 8) * 32 + 0x1F,
     0xFC]
  }

  function Frame(p: Params, au: seq<Byte>): seq<Byte>
    requires Usable(p)
  {
    Header(p, |au| + HEADER) + au
  }

  /** Fills one frame's buffer byte by byte. */
  method EmitFrame(p: Params, au: seq<Byte>) returns (out: array<Byte>)
    requires Usable(p)
    ensures fresh(out) && out[..] == Frame(p, au)
  {
    out := new Byte[HEADER + |au|](_ => 0);
    var n := |au| + HEADER;
    out[0], out[1] := 0xFF, 0xF1;
    out[2] := (p.profile * 64) % 256 + p.freqIndex * 4 + p.channels / 4;
    out[3] := (p.channels % 4) * 64 + (n / 2048) % 4;
    out[4] := (n / 8) % 256;
    out[5] := (n % 8) * 32 + 0x1F;
    out[6] := 0xFC;
    assert out[..HEADER] == Header(p, n);
    CopyInto(out, HEADER, au);
  }

  // ----- reading frames back (ISO/IEC 13818-7, section 6.2) -----

  datatype FrameInfo = FrameInfo(profile: nat, freqIndex: nat, channels: nat, unit: seq<Byte>)

  /** The first frame of a byte string and what follows it. */
  function ReadFrame(s: seq<Byte>): (r: Option<(FrameInfo, seq<Byte>)>)
    ensures r.Some? ==> |r.value.1| < |s|
  {
    if |s| < 7 then None else
    var b1: nat, b2: nat, b3: nat, b4: nat, b5: nat := s[1], s[2], s[3], s[4], s[5];
    if s[0] != 0xFF || b1 / 16 != 15 || (b1 / 2) % 4 != 0 then None else
    var start := if b1 % 2 == 1 then 7 else 9;
    var length := (b3 % 4) * 2048 + b4 * 8 + b5 / 32;
    var freqIndex := (b2 / 4) % 16;
    if length < start || |s| < length || freqIndex > 12 then None else
    Some((FrameInfo(b2 / 64, freqIndex, (b2 % 2) * 4 + b3 / 64, s[start..length]), s[length..]))
  }

  function ReadFrames(s: seq<Byte>): Option<seq<FrameInfo>>
    decreases |s|
  {
    if s == [] then Some([]) else
    match ReadFrame(s)
    case None => None
    case Some((frame, rest)) =>
      match ReadFrames(rest)
      case None => None
      case Some(frames) => Some([frame] + frames)
  }

  /** The bit fields of a header: everything as given, except that the length is cut to 13 bits. */
  lemma HeaderFields(p: Params, n: nat)
    requires Usable(p)
    ensures var h := Header(p, n);
      var b2: nat, b3: nat, b4: nat, b5: nat := h[2], h[3], h[4], h[5];
      && b2 / 64 == p.profile % 4 && (b2 / 4) % 16 == p.freqIndex
      && (b2 % 2) * 4 + b3 / 64 == p.channels
      && (b3 % 4) * 2048 + b4 * 8 + b5 / 32 == n % 8192
  {
    LengthBits(n);
    ThirdByte(p.profile, p.freqIndex, p.channels / 4);
    TwoFields(p.channels % 4, (n / 2048) % 4, 64);
    FourthByte(p.channels % 4, (n / 2048) % 4);
    TwoFields(n % 8, 0x1F, 32);
  }

  lemma ThirdByte(profile: nat, freqIndex: nat, top: nat)
    requires freqIndex < 16 && top < 2
    ensures var b := (profile * 64) % 256 + freqIndex * 4 + top;
      b / 64 == profile % 4 && (b / 4) % 16 == freqIndex && b % 2 == top
  {
    assert (profile * 64) % 256 == (profile % 4) * 64;
    TwoFields(profile % 4, freqIndex * 4 + top, 64);
    TwoFields((profile % 4) * 16 + freqIndex, top, 4);
    TwoFields(profile % 4, freqIndex, 16);
    TwoFields((profile % 4) * 32 + freqIndex * 2, top, 2);
  }

  lemma FourthByte(low: nat, high: nat)
    requires high < 4
    ensures (low * 64 + high) % 4 == high
  {
    TwoFields(low * 16, high, 4);
  }

  lemma LengthBits(n: nat)
    ensures ((n / 2048) % 4) * 2048 + ((n / 8) % 256) * 8 + n % 8 == n % 8192
  {
    assert n / 8 / 256 == n / 2048;
    assert n / 8 == 256 * (n / 2048) + (n / 8) % 256;
    assert n / 2048 == 4 * (n / 8192) + (n / 2048) % 4;
  }

  lemma ReadHeader(p: Params, n: nat, s: seq<Byte>)
    requires Usable(p) && n >= HEADER && |s| >= n
    requires s[..HEADER] == Header(p, n)
    ensures var length := n % 8192;
      ReadFrame(s) ==
        if length < HEADER then None
        else Some((FrameInfo(p.profile % 4, p.freqIndex, p.channels, s[HEADER..length]), s[length..]))
  {
    HeaderFields(p, n);
    FirstBytes(p, n);
    var h := Header(p, n);
    assert s[0] == h[0] && s[1] == h[1] && s[2] == h[2] && s[3] == h[3] && s[4] == h[4] && s[5] == h[5];
    hide Header, Usable;
  }

  lemma FirstBytes(p: Params, n: nat)
    requires Usable(p)
    ensures Header(p, n)[0] == 0xFF && Header(p, n)[1] == 0xF1
  {
  }

  /** A frame of at most 8191 bytes reads back, whatever follows it. */
  lemma FrameReadsBack(p: Params, au: seq<Byte>, rest: seq<Byte>)
    requires Usable(p) && |au| + HEADER <= 8191
    ensures ReadFrame(Frame(p, au) + rest)
            == Some((FrameInfo(p.profile % 4, p.freqIndex, p.channels, au), rest))
  {
    hide Header, ReadFrame, Usable;
    var n := |au| + HEADER;
    FrameParts(Header(p, n), au, rest);
    ReadHeader(p, n, Frame(p, au) + rest);
  }

  lemma FrameParts(h: seq<Byte>, au: seq<Byte>, rest: seq<Byte>)
    requires |h| == HEADER
    ensures var s := (h + au) + rest;
      s[..HEADER] == h && s[HEADER..|au| + HEADER] == au && s[|au| + HEADER..] == rest
  {
  }

  function Write(p: Params, units: seq<seq<Byte>>): seq<Byte>
    requires Usable(p)
  {
    if units == [] then [] else Frame(p, units[0]) + Write(p, units[1..])
  }

  /** What a reader should report of a session's units. */
  function Reported(p: Params, units: seq<seq<Byte>>): (r: seq<FrameInfo>)
    ensures |r| == |units|
  {
    seq(|units|, i requires 0 <= i < |units| => FrameInfo(p.profile % 4, p.freqIndex, p.channels, units[i]))
  }

  predicate ShortEnough(units: seq<seq<Byte>>) {
    forall i :: 0 <= i < |units| ==> |units[i]| + HEADER <= 8191
  }

  /** The stream reads back to its units exactly when every frame's length fits 13 bits. */
  lemma {:induction false} StreamRoundTripExact(p: Params, units: seq<seq<Byte>>)
    requires Usable(p)
    ensures ReadFrames(Write(p, units)) == Some(Reported(p, units)) <==> ShortEnough(units)
  {
    if units != [] {
      var au, rest := units[0], Write(p, units[1..]);
      StreamRoundTripExact(p, units[1..]);
      assert Reported(p, units) == [Reported(p, units)[0]] + Reported(p, units[1..]);
      assert ShortEnough(units) <==> |au| + HEADER <= 8191 && ShortEnough(units[1..]) by {
        assert forall i :: 0 <= i < |units| ==> units[i] == if i == 0 then au else units[1..][i - 1];
        assert forall i :: 0 <= i < |units[1..]| ==> units[1..][i] == units[i + 1];
      }
      hide Frame, ReadFrame, ShortEnough;
      if |au| + HEADER <= 8191 {
        FrameReadsBack(p, au, rest);
        ReadFramesStep(Frame(p, au) + rest, Reported(p, units)[0], rest, Reported(p, units[1..]));
      } else {
        LongFrame(p, au, rest);
        assert Reported(p, units)[0].unit == au;
      }
    }
  }

  /** A longer frame announces fewer bytes than it has, so its unit is not what comes back. */
  lemma LongFrame(p: Params, au: seq<Byte>, rest: seq<Byte>)
    requires Usable(p) && |au| + HEADER > 8191
    ensures var r := ReadFrames(Frame(p, au) + rest); r.Some? ==> r.value != [] && r.value[0].unit != au
  {
    var s := Frame(p, au) + rest;
    var n := |au| + HEADER;
    assert s[..HEADER] == Header(p, n);
    ReadHeader(p, n, s);
  }

  lemma ReadFramesStep(s: seq<Byte>, frame: FrameInfo, rest: seq<Byte>, frames: seq<FrameInfo>)
    requires ReadFrame(s) == Some((frame, rest))
    ensures ReadFrames(s) == Some([frame] + frames) <==> ReadFrames(rest) == Some(frames)
  {
    if ReadFrames(rest).Some? {
      assert ([frame] + ReadFrames(rest).value)[1..] == ReadFrames(rest).value;
      assert ([frame] + frames)[1..] == frames;
    }
  }

  /**
   The object type a reader recovers (profile + 1) is the one in the AudioSpecificConfig except for
   type 5, which the program accepts although its profile needs a third bit: it reads back as type 1.
   */
  lemma ObjectTypeExact(c: Config)
    requires Accepted(c)
    ensures var p := Params(c.objectType - 1, c.freqIndex, c.channels);
      && Usable(p)
      && (Reported(p, [[]])[0].profile + 1 == c.objectType <==> c.objectType <= 4)
      && (c.objectType == 5 ==> Reported(p, [[]])[0].profile + 1 == 1)
  {
  }
}

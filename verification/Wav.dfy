/** PCM WAV headers, written in place, and the samples decoded from G.711; the decoding tables are a parameter. */
module Wav {
  import opened Arithmetic
  import opened Bytes

  const RIFF: seq<Byte> := [0x52, 0x49, 0x46, 0x46]
  const WAVE: seq<Byte> := [0x57, 0x41, 0x56, 0x45]
  const FMT: seq<Byte> := [0x66, 0x6D, 0x74, 0x20]
  const DATA: seq<Byte> := [0x64, 0x61, 0x74, 0x61]

  const HEADER := 44

  /** The fields of a canonical header. */
  datatype Info = Info(riffSize: nat, channels: nat, rate: nat, byteRate: nat, blockAlign: nat, bits: nat,
      dataSize: nat)

  /** Each number as many bytes as its field has. */
  function Header(i: Info): (h: seq<Byte>)
    ensures |h| == HEADER
  {
    Front(i) + LittleEndian(i.rate, 4) + LittleEndian(i.byteRate, 4)
    + LittleEndian(i.blockAlign, 2) + LittleEndian(i.bits, 2) + DATA + LittleEndian(i.dataSize, 4)
  }

  function Front(i: Info): (h: seq<Byte>)
    ensures |h| == 24
  {
    RIFF + LittleEndian(i.riffSize, 4) + WAVE + FMT + LittleEndian(16, 4) + LittleEndian(1, 2)
    + LittleEndian(i.channels, 2)
  }

  function Pcm16(rate: nat, channels: nat, riffSize: nat, dataSize: nat): Info {
    Info(riffSize, channels, rate, rate * channels * 2, channels * 2, 16, dataSize)
  }

  /** The next field of a header that is filled from the front. */
  method Put(buf: array<Byte>, at: nat, src: seq<Byte>)
    requires at + |src| <= buf.Length
    modifies buf
    ensures buf[..at + |src|] == old(buf[..at]) + src
  {
    CopyInto(buf, at, src);
  }

  method FillFront(buf: array<Byte>, i: Info)
    requires buf.Length == HEADER
    modifies buf
    ensures buf[..24] == Front(i)
  {
    hide Front, Header, LittleEndian;
    assert buf[..0] == [];
    Put(buf, 0, RIFF);
    Put(buf, 4, LittleEndian(i.riffSize, 4));
    Put(buf, 8, WAVE);
    Put(buf, 12, FMT);
    Put(buf, 16, LittleEndian(16, 4));
    Put(buf, 20, LittleEndian(1, 2));
    Put(buf, 22, LittleEndian(i.channels, 2));
    assert buf[..24] == Front(i) by { FrontIs(i); }
  }

  method FillHeader(i: Info) returns (buf: array<Byte>)
    ensures fresh(buf) && buf.Length == HEADER && buf[..] == Header(i)
  {
    hide Front, Header, LittleEndian;
    buf := new Byte[HEADER](_ => 0);
    FillFront(buf, i);
    Put(buf, 24, LittleEndian(i.rate, 4));
    Put(buf, 28, LittleEndian(i.byteRate, 4));
    Put(buf, 32, LittleEndian(i.blockAlign, 2));
    Put(buf, 34, LittleEndian(i.bits, 2));
    Put(buf, 36, DATA);
    Put(buf, 40, LittleEndian(i.dataSize, 4));
    assert buf[..] == buf[..HEADER];
    HeaderIs(i);
  }

  lemma FrontIs(i: Info)
    ensures Front(i) == [] + RIFF + LittleEndian(i.riffSize, 4) + WAVE + FMT + LittleEndian(16, 4) + LittleEndian(1, 2)
                        + LittleEndian(i.channels, 2)
  {
    hide LittleEndian;
    assert [] + RIFF == RIFF;
  }

  lemma HeaderIs(i: Info)
    ensures Header(i) == Front(i) + LittleEndian(i.rate, 4) + LittleEndian(i.byteRate, 4)
        + LittleEndian(i.blockAlign, 2)
                         + LittleEndian(i.bits, 2) + DATA + LittleEndian(i.dataSize, 4)
  {
    hide LittleEndian, Front;
  }

  /** A whole file. */
  method WriteWav(pcm: seq<Byte>, sampleRate: nat, channels: nat) returns (file: seq<Byte>)
    ensures file == File(pcm, sampleRate, channels)
  {
    var hdr := FillHeader(Pcm16(sampleRate, channels, 36 + |pcm|, |pcm|));
    file := hdr[..] + pcm;
  }

  function File(pcm: seq<Byte>, sampleRate: nat, channels: nat): seq<Byte> {
    Header(Pcm16(sampleRate, channels, 36 + |pcm|, |pcm|)) + pcm
  }

  // ----- reading -----

  /** A canonical header and what follows it. */
  function ReadFile(s: seq<Byte>): Option<(Info, seq<Byte>)> {
    if |s| < HEADER || s[..4] != RIFF || s[8..16] != WAVE + FMT || s[16..20] != LittleEndian(16, 4)
       || s[20..22] != LittleEndian(1, 2) || s[36..40] != DATA then None
    else Some((Info(ReadLittleEndian(s[4..8]), ReadLittleEndian(s[22..24]), ReadLittleEndian(s[24..28]),
                    ReadLittleEndian(s[28..32]), ReadLittleEndian(s[32..34]), ReadLittleEndian(s[34..36]),
                    ReadLittleEndian(s[40..44])), s[44..]))
  }

  lemma {:induction false} Truncated(n: nat, k: nat)
    ensures ReadLittleEndian(LittleEndian(n, k)) == n % Pow256(k)
    decreases k
  {
    if k > 0 {
      Truncated(n / 256, k - 1);
      assert LittleEndian(n, k)[1..] == LittleEndian(n / 256, k - 1);
      LowBytes(n, Pow256(k - 1));
    } else {
      assert n % 1 == 0;
    }
  }

  lemma LowBytes(n: nat, p: nat)
    requires p > 0
    ensures n % 256 + 256 * (n / 256 % p) == n % (256 * p)
  {
    var q, r := n / 256 / p, n / 256 % p;
    assert n / 256 == p * q + r;
    assert n == 256 * (p * q + r) + n % 256;
    assert 256 * (p * q + r) + n % 256 == q * (256 * p) + (256 * r + n % 256);
    Divided(n, q, 256 * r + n % 256, 256 * p);
  }

  /** What is left of the numbers in their fields. */
  function Cut(i: Info): Info {
    var w2, w4 := Pow256(2), Pow256(4);
    Info(i.riffSize % w4, i.channels % w2, i.rate % w4, i.byteRate % w4, i.blockAlign % w2, i.bits % w2,
        i.dataSize % w4)
  }

  lemma HeaderReadsBack(i: Info, rest: seq<Byte>)
    ensures ReadFile(Header(i) + rest) == Some((Cut(i), rest))
  {
    hide LittleEndian, ReadLittleEndian, Pow256;
    var a, b, c, d, e := LittleEndian(i.riffSize, 4), LittleEndian(16, 4), LittleEndian(1, 2),
        LittleEndian(i.channels, 2), LittleEndian(i.rate, 4);
    var f, g, h, k := LittleEndian(i.byteRate, 4), LittleEndian(i.blockAlign, 2), LittleEndian(i.bits, 2),
        LittleEndian(i.dataSize, 4);
    HeaderParts(a, b, c, d, e, f, g, h, k, rest);
    Truncated(i.riffSize, 4);
    Truncated(i.channels, 2);
    Truncated(i.rate, 4);
    Truncated(i.byteRate, 4);
    Truncated(i.blockAlign, 2);
    Truncated(i.bits, 2);
    Truncated(i.dataSize, 4);
  }

  lemma HeaderParts(
      a: seq<Byte>, b: seq<Byte>, c: seq<Byte>, d: seq<Byte>, e: seq<Byte>,
      f: seq<Byte>, g: seq<Byte>, h: seq<Byte>, k: seq<Byte>, rest: seq<Byte>)
    requires |a| == |b| == |e| == |f| == |k| == 4 && |c| == |d| == |g| == |h| == 2
    ensures var s := RIFF + a + WAVE + FMT + b + c + d + e + f + g + h + DATA + k + rest;
      && |s| == HEADER + |rest| && s[..4] == RIFF && s[4..8] == a && s[8..16] == WAVE + FMT && s[16..20] == b
      && s[20..22] == c && s[22..24] == d && s[24..28] == e && s[28..32] == f && s[32..34] == g
      && s[34..36] == h && s[36..40] == DATA && s[40..44] == k && s[44..] == rest
  {
  }

  /** A file reads back to its samples and parameters exactly when every number fits its field. */
  lemma FileRoundTripExact(pcm: seq<Byte>, rate: nat, channels: nat)
    ensures ReadFile(File(pcm, rate, channels))
            == Some((Info(36 + |pcm|, channels, rate, rate * channels * 2, channels * 2, 16, |pcm|), pcm))
      <==> 36 + |pcm| < Pow256(4) && rate < Pow256(4) && rate * channels * 2 < Pow256(4) && channels * 2 < Pow256(2)
  {
    hide Header, ReadFile, Pow256;
    var i := Pcm16(rate, channels, 36 + |pcm|, |pcm|);
    HeaderReadsBack(i, pcm);
    Fits(i.riffSize, 4);
    Fits(i.channels, 2);
    Fits(rate, 4);
    Fits(i.byteRate, 4);
    Fits(i.blockAlign, 2);
    Fits(i.dataSize, 4);
    Fits(16, 2);
    Small();
  }

  /** Where every player looks for them: the four marks, the length of the format, and PCM. */
  lemma {:induction false} Marks(i: Info)
    ensures var h := Header(i);
      && h[..4] == [0x52, 0x49, 0x46, 0x46] && h[8..12] == [0x57, 0x41, 0x56, 0x45]
      && h[12..16] == [0x66, 0x6D, 0x74, 0x20] && h[16..20] == [16, 0, 0, 0] && h[20..22] == [1, 0]
      && h[36..40] == [0x64, 0x61, 0x74, 0x61]
  {
    var a, d, e := LittleEndian(i.riffSize, 4), LittleEndian(i.channels, 2), LittleEndian(i.rate, 4);
    var f, g, h, k := LittleEndian(i.byteRate, 4), LittleEndian(i.blockAlign, 2), LittleEndian(i.bits, 2),
        LittleEndian(i.dataSize, 4);
    var b, c := LittleEndian(16, 4), LittleEndian(1, 2);
    SmallNumber(16, 3);
    SmallNumber(1, 1);
    SmallFields();
    hide LittleEndian;
    HeaderParts(a, b, c, d, e, f, g, h, k, []);
    var s := RIFF + a + WAVE + FMT + b + c + d + e + f + g + h + DATA + k + [];
    assert Header(i) == s;
    assert s[8..12] == s[8..16][..4] && s[12..16] == s[8..16][4..];
  }

  /** A number of one byte in a longer field. */
  lemma {:induction false} SmallNumber(n: nat, k: nat)
    requires n < 256
    ensures LittleEndian(n, k + 1) == [n as Byte] + LittleEndian(0, k)
  {
    assert n % 256 == n && n / 256 == 0;
  }

  lemma SmallFields()
    ensures LittleEndian(0, 3) == [0, 0, 0] && LittleEndian(0, 1) == [0]
  {
    assert LittleEndian(0, 0) == [];
    SmallNumber(0, 0);
    SmallNumber(0, 1);
    SmallNumber(0, 2);
  }

  lemma Small()
    ensures 16 < Pow256(2)
  {
    assert Pow256(1) == 256;
  }

  lemma Fits(n: nat, k: nat)
    ensures n % Pow256(k) == n <==> n < Pow256(k)
  {
    var m := Pow256(k);
    if n < m {
      Divided(n, 0, n, m);
    }
  }

  // ----- samples -----

  type Sample = s: int | -0x8000 <= s < 0x8000

  type Decoder = Byte -> Sample

  function Unsigned(s: Sample): nat {
    if s < 0 then s + 0x1_0000 else s
  }

  function Pcm(g711: seq<Byte>, decode: Decoder): (pcm: seq<Byte>)
    ensures |pcm| == 2 * |g711|
  {
    if g711 == [] then [] else Pcm(g711[..|g711| - 1], decode) + LittleEndian(Unsigned(decode(g711[|g711| - 1])), 2)
  }

  lemma PcmSnoc(s: seq<Byte>, x: Byte, decode: Decoder)
    ensures Pcm(s + [x], decode) == Pcm(s, decode) + LittleEndian(Unsigned(decode(x)), 2)
  {
    hide LittleEndian;
    assert (s + [x])[..|s|] == s;
  }

  lemma {:induction false} PcmAppend(a: seq<Byte>, b: seq<Byte>, decode: Decoder)
    ensures Pcm(a + b, decode) == Pcm(a, decode) + Pcm(b, decode)
    decreases |b|
  {
    hide LittleEndian, Pcm;
    if b == [] {
      assert a + b == a;
    } else {
      var front, last := b[..|b| - 1], b[|b| - 1];
      assert b == front + [last] && a + b == (a + front) + [last];
      PcmSnoc(front, last, decode);
      PcmSnoc(a + front, last, decode);
      PcmAppend(a, front, decode);
    }
  }

  method G711ToPCM(g711: seq<Byte>, decode: Decoder) returns (pcm: array<Byte>)
    ensures fresh(pcm) && pcm[..] == Pcm(g711, decode)
  {
    hide LittleEndian;
    pcm := new Byte[|g711| * 2](_ => 0);
    for i := 0 to |g711|
      invariant pcm[..2 * i] == Pcm(g711[..i], decode)
    {
      assert g711[..i + 1][..i] == g711[..i];
      Put(pcm, 2 * i, LittleEndian(Unsigned(decode(g711[i])), 2));
    }
    assert g711[..|g711|] == g711 && pcm[..] == pcm[..2 * |g711|];
  }

  /** Every sample is where a player looks for it, in two's complement. */
  lemma {:induction false} SampleAt(g711: seq<Byte>, decode: Byte -> Sample, i: nat)
    requires i < |g711|
    ensures var u := ReadLittleEndian(Pcm(g711, decode)[2 * i..2 * i + 2]);
      decode(g711[i]) == if u >= 0x8000 then u - 0x1_0000 else u
  {
    hide LittleEndian, ReadLittleEndian;
    var n := |g711| - 1;
    var front := g711[..n];
    if i < n {
      SampleAt(front, decode, i);
      assert Pcm(g711, decode)[2 * i..2 * i + 2] == Pcm(front, decode)[2 * i..2 * i + 2];
    } else {
      var s := decode(g711[n]);
      assert Pcm(g711, decode)[2 * n..2 * n + 2] == LittleEndian(Unsigned(s), 2);
      TwoBytes(Unsigned(s));
    }
  }

  lemma TwoBytes(u: nat)
    requires u < 0x1_0000
    ensures ReadLittleEndian(LittleEndian(u, 2)) == u
  {
    assert Pow256(1) == 256 && Pow256(2) == 0x1_0000;
    LittleEndianRoundTrip(u, 2);
  }
}

/**
 The Ogg page checksum: CRC-32 with polynomial 0x04c11db7, start value 0, no reflection and no
 final xor (section 6 of RFC 3533).  The program computes it through a 256-entry table.
 */
module OggCrc {
  import opened Bytes
  import opened Words

  type Word32 = w: seq<bool> | |w| == 32 witness Zeros(32)

  // ----- the reference: long division -----
  //
  // Write 32 zero digits after the message, bring its digits down one at a time, subtract the
  // generator whenever it fits, and keep the remainder: polynomials over GF(2).

  const POLYNOMIAL: nat := 0x04c11db7

  /** The generator's digits below x^32; its leading digit falls out of the register. */
  function Generator(): Word32 {
    ToDigits(POLYNOMIAL, 32)
  }

  function Multiple(take: bool): Word32 {
    if take then Generator() else Zeros(32)
  }

  /** One step of long division: bring down a digit, subtract the generator if it fits. */
  function BringDown(r: Word32, digit: bool): Word32 {
    Xor(r[1..] + [digit], Multiple(r[0]))
  }

  function Divide(r: Word32, digits: seq<bool>): Word32
    decreases |digits|
  {
    if digits == [] then r else Divide(BringDown(r, digits[0]), digits[1..])
  }

  /** The digits of a byte string in order, each byte most significant digit first. */
  function Digits(p: seq<Byte>): (d: seq<bool>)
    ensures |d| == 8 * |p|
  {
    if p == [] then [] else ToDigits(p[0], 8) + Digits(p[1..])
  }

  /** The remainder of the message times x^32 on division by the generator. */
  function Remainder(p: seq<Byte>): Word32 {
    Divide(Zeros(32), Digits(p) + Zeros(32))
  }

  // ----- the program: a table of byte steps -----

  /** Multiplication by x modulo the generator: the body of the table's inner loop. */
  function Shift(c: Word32): Word32 {
    BringDown(c, false)
  }

  function ShiftBy(c: Word32, k: nat): Word32 {
    if k == 0 then c else Shift(ShiftBy(c, k - 1))
  }

  /** A table entry: a byte moved to the top of the register, divided eight digits further. */
  function Entry(i: Byte): Word32 {
    ShiftBy(AtTop(i), 8)
  }

  function AtTop(i: Byte): Word32 {
    ToDigits(i, 8) + Zeros(24)
  }

  ghost predicate IsTable(t: seq<Word32>) {
    |t| == 256 && forall i: Byte :: t[i] == Entry(i)
  }

  method BuildTable() returns (t: array<Word32>)
    ensures fresh(t) && IsTable(t[..])
  {
    t := new Word32[256](_ => Zeros(32));
    for i := 0 to 256
      invariant forall k: Byte :: k < i ==> t[..][k] == Entry(k)
    {
      var c := BuildEntry(i);
      t[i] := c;
    }
  }

  method BuildEntry(i: Byte) returns (c: Word32)
    ensures c == Entry(i)
  {
    c := AtTop(i);
    for j := 0 to 8
      invariant c == ShiftBy(AtTop(i), j)
    {
      ShiftIsBranch(c);
      c := if c[0] then Xor(c[1..] + [false], Generator()) else c[1..] + [false];
    }
  }

  /** The table-driven loop leaves exactly the remainder of the long division. */
  method Checksum(t: array<Word32>, p: seq<Byte>) returns (c: Word32)
    requires IsTable(t[..])
    ensures c == Remainder(p)
  {
    hide Direct, Digits, Entry, Remainder;
    c := Zeros(32);
    NothingFed();
    for i := 0 to |p|
      invariant c == Direct(Zeros(32), Digits(p[..i]))
    {
      var digits := Xor(c[..8], ToDigits(p[i], 8));
      var index: Byte := Value(digits);
      assert t[..][index] == Entry(index);
      c := Xor(c[8..] + Zeros(8), t[index]);
      TableStep(p[..i], p[i]);
      assert p[..i + 1] == p[..i] + [p[i]];
    }
    assert p[..|p|] == p;
    DirectIsRemainder(p);
  }

  lemma NothingFed()
    ensures Direct(Zeros(32), Digits([])) == Zeros(32)
  {
  }

  /** Entry 1 of the table, known from any implementation: the polynomial of RFC 3533. */
  lemma FirstEntry()
    ensures Entry(1) == ToDigits(0x04c11db7, 32)
  {
    SingleMoves(7);
    hide ShiftBy, AtTop, ToDigits;
    var c := ShiftBy(AtTop(1), 7);
    ShiftIsBranch(c);
    assert c[1..] + [false] == Zeros(32);
    XorZero(Generator());
    LastShift();
  }

  lemma LastShift()
    ensures Entry(1) == Shift(ShiftBy(AtTop(1), 7))
  {
    hide AtTop, Shift;
  }

  lemma {:induction false} ZeroDigits(k: nat)
    ensures ToDigits(0, k) == Zeros(k)
  {
    if k > 0 {
      ZeroDigits(k - 1);
    }
  }

  lemma AtTopOne(i: nat)
    requires i < 32
    ensures AtTop(1)[i] <==> i == 7
  {
    ZeroDigits(7);
    assert ToDigits(1, 8) == ToDigits(0, 7) + [true];
  }

  /** A single digit moves up the register. */
  lemma {:induction false} SingleMoves(k: nat)
    requires k <= 7
    ensures forall i :: 0 <= i < 32 ==> (ShiftBy(AtTop(1), k)[i] <==> i == 7 - k)
  {
    hide AtTop, Shift;
    if k == 0 {
      forall i: nat | i < 32 ensures AtTop(1)[i] <==> i == 7 {
        AtTopOne(i);
      }
    } else {
      SingleMoves(k - 1);
      OneShift(ShiftBy(AtTop(1), k - 1));
    }
  }

  lemma OneShift(c: Word32)
    requires !c[0]
    ensures forall i :: 0 <= i < 32 ==> (Shift(c)[i] <==> i < 31 && c[i + 1])
  {
    ShiftIsBranch(c);
    hide Shift;
  }

  // ----- why the two agree -----

  lemma XorZero(a: seq<bool>)
    ensures Xor(a, Zeros(|a|)) == a
    ensures Xor(Zeros(|a|), a) == a
    ensures Xor(a, a) == Zeros(|a|)
  {
  }

  lemma ShiftIsBranch(c: Word32)
    ensures Shift(c) == if c[0] then Xor(c[1..] + [false], Generator()) else c[1..] + [false]
  {
  }

  lemma ShiftUnset(c: Word32)
    requires !c[0]
    ensures Shift(c) == c[1..] + [false]
  {
    XorZero(c[1..] + [false]);
  }

  lemma ShiftLinear(a: Word32, b: Word32)
    ensures Shift(Xor(a, b)) == Xor(Shift(a), Shift(b))
  {
  }

  lemma {:induction false} ShiftByLinear(a: Word32, b: Word32, k: nat)
    ensures ShiftBy(Xor(a, b), k) == Xor(ShiftBy(a, k), ShiftBy(b, k))
  {
    hide Shift, Xor;
    if k > 0 {
      ShiftByLinear(a, b, k - 1);
      ShiftLinear(ShiftBy(a, k - 1), ShiftBy(b, k - 1));
    }
  }

  lemma {:induction false} ShiftByCommutes(c: Word32, k: nat)
    ensures ShiftBy(Shift(c), k) == Shift(ShiftBy(c, k))
  {
    hide Shift;
    if k > 0 {
      ShiftByCommutes(c, k - 1);
    }
  }

  lemma {:induction false} DivideConcat(r: Word32, a: seq<bool>, b: seq<bool>)
    ensures Divide(r, a + b) == Divide(Divide(r, a), b)
    decreases |a|
  {
    if a == [] {
      assert a + b == b;
    } else {
      assert (a + b)[1..] == a[1..] + b;
      DivideConcat(BringDown(r, a[0]), a[1..], b);
    }
  }

  lemma {:induction false} DivideZeros(r: Word32, k: nat)
    ensures Divide(r, Zeros(k)) == ShiftBy(r, k)
    decreases k
  {
    if k > 0 {
      assert Zeros(k)[1..] == Zeros(k - 1);
      DivideZeros(Shift(r), k - 1);
      ShiftByCommutes(r, k - 1);
    }
  }

  /** The word x^k. */
  function Unit(k: nat): Word32
    requires k < 32
  {
    Zeros(31 - k) + [true] + Zeros(k)
  }

  lemma UnitMoves(k: nat)
    requires 0 < k < 32
    ensures !Unit(k - 1)[0]
    ensures Unit(k - 1)[1..] + [false] == Unit(k)
  {
  }

  lemma {:induction false} UnitShifts(k: nat)
    requires k < 32
    ensures ShiftBy(Unit(0), k) == Unit(k)
  {
    if k > 0 {
      UnitShifts(k - 1);
      UnitMoves(k);
      ShiftUnset(Unit(k - 1));
    }
  }

  lemma {:induction false} ZeroShifts(k: nat)
    ensures ShiftBy(Zeros(32), k) == Zeros(32)
  {
    hide Shift;
    if k > 0 {
      ZeroShifts(k - 1);
      ZeroShift();
    }
  }

  lemma ZeroShift()
    ensures Shift(Zeros(32)) == Zeros(32)
  {
    ShiftUnset(Zeros(32));
    assert Zeros(32)[1..] + [false] == Zeros(32);
  }

  /** x^32 is congruent to the generator's low digits. */
  lemma UnitWraps(digit: bool)
    ensures ShiftBy(Zeros(31) + [digit], 32) == Multiple(digit)
  {
    if digit {
      UnitShifts(31);
      assert Unit(0) == Zeros(31) + [true];
      assert Shift(Unit(31)) == Generator();
    } else {
      assert Zeros(31) + [false] == Zeros(32);
      ZeroShifts(32);
    }
  }

  /** The register form: each digit meets the leading digit, and no zeros are appended. */
  function Direct(c: Word32, digits: seq<bool>): Word32
    decreases |digits|
  {
    if digits == [] then c else Direct(Xor(Shift(c), Multiple(digits[0])), digits[1..])
  }

  lemma {:induction false} DirectConcat(c: Word32, a: seq<bool>, b: seq<bool>)
    ensures Direct(c, a + b) == Direct(Direct(c, a), b)
    decreases |a|
  {
    if a == [] {
      assert a + b == b;
    } else {
      assert (a + b)[1..] == a[1..] + b;
      DirectConcat(Xor(Shift(c), Multiple(a[0])), a[1..], b);
    }
  }

  /** Running ahead by 32 digits turns the long division into the register form. */
  lemma {:induction false} DirectIsAhead(r: Word32, digits: seq<bool>)
    ensures Direct(ShiftBy(r, 32), digits) == ShiftBy(Divide(r, digits), 32)
    decreases |digits|
  {
    if digits != [] {
      var low: Word32 := Zeros(31) + [digits[0]];
      assert BringDown(r, digits[0]) == Xor(Shift(r), low);
      ShiftByLinear(Shift(r), low, 32);
      UnitWraps(digits[0]);
      ShiftByCommutes(r, 32);
      DirectIsAhead(BringDown(r, digits[0]), digits[1..]);
    }
  }

  lemma DirectIsRemainder(p: seq<Byte>)
    ensures Direct(Zeros(32), Digits(p)) == Remainder(p)
  {
    ZeroShifts(32);
    DirectIsAhead(Zeros(32), Digits(p));
    DivideConcat(Zeros(32), Digits(p), Zeros(32));
    DivideZeros(Divide(Zeros(32), Digits(p)), 32);
  }

  lemma {:induction false} DigitsSnoc(p: seq<Byte>, b: Byte)
    ensures Digits(p + [b]) == Digits(p) + ToDigits(b, 8)
  {
    if p == [] {
      assert [b][1..] == [];
      assert p + [b] == [b];
    } else {
      assert (p + [b])[1..] == p[1..] + [b];
      DigitsSnoc(p[1..], b);
    }
  }

  /** Pending digits placed at the top of an empty register. */
  function Fed(d: seq<bool>): Word32
    requires |d| <= 32
  {
    d + Zeros(32 - |d|)
  }

  lemma ShiftFedWord(c: Word32, d: seq<bool>)
    requires 0 < |d| <= 32
    ensures Shift(Xor(c, Fed(d))) == Xor(Xor(Shift(c), Multiple(d[0])), Fed(d[1..]))
  {
    ShiftLinear(c, Fed(d));
    assert Fed(d)[1..] + [false] == Fed(d[1..]);
    assert Shift(Fed(d)) == Xor(Fed(d[1..]), Multiple(d[0]));
    XorRegroup(Shift(c), Fed(d[1..]), Multiple(d[0]));
  }

  lemma XorRegroup(a: seq<bool>, b: seq<bool>, c: seq<bool>)
    requires |a| == |b| == |c|
    ensures Xor(a, Xor(b, c)) == Xor(Xor(a, c), b)
  {
  }

  /** Digits fed one at a time can as well be added to the top of the register beforehand. */
  lemma {:induction false} FeedAtTop(c: Word32, d: seq<bool>)
    requires |d| <= 32
    ensures Direct(c, d) == ShiftBy(Xor(c, Fed(d)), |d|)
    decreases |d|
  {
    if d == [] {
      assert Fed(d) == Zeros(32);
      XorZero(c);
    } else {
      hide *;
      var w: Word32 := Xor(c, Fed(d));
      DirectStep(c, d);
      ShiftFedWord(c, d);
      FeedAtTop(Xor(Shift(c), Multiple(d[0])), d[1..]);
      ShiftByCommutes(w, |d| - 1);
      ShiftByStep(w, |d|);
    }
  }

  lemma DirectStep(c: Word32, d: seq<bool>)
    requires d != []
    ensures Direct(c, d) == Direct(Xor(Shift(c), Multiple(d[0])), d[1..])
  {
  }

  lemma ShiftByStep(c: Word32, k: nat)
    requires k > 0
    ensures ShiftBy(c, k) == Shift(ShiftBy(c, k - 1))
  {
  }

  /** Leading zeros leave the register without disturbing it. */
  lemma {:induction false} LeadingZeros(low: seq<bool>, k: nat)
    requires k + |low| == 32
    ensures ShiftBy(Zeros(k) + low, k) == low + Zeros(k)
    decreases k
  {
    MoveZero(k, low);
    if k > 0 {
      var w: Word32 := Zeros(k) + low;
      ShiftUnset(w);
      LeadingZeros(low + [false], k - 1);
      ShiftByCommutes(w, k - 1);
    }
  }

  lemma MoveZero(k: nat, low: seq<bool>)
    ensures k == 0 ==> Zeros(k) + low == low + Zeros(k)
    ensures k > 0 ==> (Zeros(k) + low)[1..] + [false] == Zeros(k - 1) + (low + [false])
    ensures k > 0 ==> (low + [false]) + Zeros(k - 1) == low + Zeros(k)
  {
  }

  /** Eight register steps on the digits of a byte are one table step. */
  lemma {:induction false} ByteStep(c: Word32, b: seq<bool>)
    requires |b| == 8
    ensures Direct(c, b) == Xor(c[8..] + Zeros(8), ShiftBy(Xor(c[..8], b) + Zeros(24), 8))
  {
    hide Direct, ShiftBy;
    var top: Word32 := Xor(c[..8], b) + Zeros(24);
    var low: Word32 := Zeros(8) + c[8..];
    FeedAtTop(c, b);
    assert Xor(c, Fed(b)) == Xor(low, top);
    ShiftByLinear(low, top, 8);
    LeadingZeros(c[8..], 8);
  }

  /** One turn of the table-driven loop. */
  lemma {:induction false} TableStep(seen: seq<Byte>, b: Byte)
    ensures var c := Direct(Zeros(32), Digits(seen));
      Direct(Zeros(32), Digits(seen + [b])) == Xor(c[8..] + Zeros(8), Entry(Value(Xor(c[..8], ToDigits(b, 8)))))
  {
    var c := Direct(Zeros(32), Digits(seen));
    DigitsOfValue(Xor(c[..8], ToDigits(b, 8)));
    ByteStep(c, ToDigits(b, 8));
    DigitsSnoc(seen, b);
    DirectConcat(Zeros(32), Digits(seen), ToDigits(b, 8));
  }

  // ----- what the checksum is for -----

  lemma {:induction false} DivideLinear(r: Word32, s: Word32, a: seq<bool>, b: seq<bool>)
    requires |a| == |b|
    ensures Divide(Xor(r, s), Xor(a, b)) == Xor(Divide(r, a), Divide(s, b))
    decreases |a|
  {
    if a != [] {
      assert Xor(a, b)[1..] == Xor(a[1..], b[1..]);
      assert BringDown(Xor(r, s), Xor(a, b)[0]) == Xor(BringDown(r, a[0]), BringDown(s, b[0]));
      DivideLinear(BringDown(r, a[0]), BringDown(s, b[0]), a[1..], b[1..]);
    }
  }

  /** A register whose last digits are those seen so far. */
  function Padded(seen: seq<bool>): Word32
    requires |seen| <= 32
  {
    Zeros(32 - |seen|) + seen
  }

  lemma CollectOne(seen: seq<bool>, digit: bool)
    requires |seen| < 32
    ensures BringDown(Padded(seen), digit) == Padded(seen + [digit])
  {
    XorZero(Padded(seen)[1..] + [digit]);
    assert Padded(seen)[1..] + [digit] == Padded(seen + [digit]);
  }

  lemma DivideNothing(r: Word32)
    ensures Divide(r, []) == r
  {
  }

  lemma DivideStep(r: Word32, d: seq<bool>)
    requires d != []
    ensures Divide(r, d) == Divide(BringDown(r, d[0]), d[1..])
  {
  }

  /** Until the register is full, digits are only collected. */
  lemma {:induction false} Collect(seen: seq<bool>, d: seq<bool>)
    requires |seen| + |d| <= 32
    ensures Divide(Padded(seen), d) == Padded(seen + d)
    decreases |d|
  {
    hide Padded, BringDown, Divide;
    if d == [] {
      assert seen + d == seen;
      DivideNothing(Padded(seen));
    } else {
      DivideStep(Padded(seen), d);
      CollectOne(seen, d[0]);
      Collect(seen + [d[0]], d[1..]);
      assert (seen + [d[0]]) + d[1..] == seen + d;
    }
  }

  lemma GeneratorIsOdd()
    ensures Generator()[31]
  {
    hide ToDigits;
    LastDigit(POLYNOMIAL, 32);
  }

  lemma LastDigit(n: nat, k: nat)
    requires k > 0
    ensures ToDigits(n, k)[k - 1] == (n % 2 == 1)
  {
  }

  /** The generator has a constant term, so multiplication by x loses nothing. */
  lemma ShiftKeepsNonZero(c: Word32)
    requires c != Zeros(32)
    ensures Shift(c) != Zeros(32)
  {
    GeneratorIsOdd();
    if c[0] {
      ShiftIsBranch(c);
      assert Xor(c[1..] + [false], Generator())[31];
    } else {
      ShiftUnset(c);
      var i :| 0 <= i < 32 && c[i];
      assert (c[1..] + [false])[i - 1];
    }
  }

  lemma {:induction false} ShiftByKeepsNonZero(c: Word32, k: nat)
    requires c != Zeros(32)
    ensures ShiftBy(c, k) != Zeros(32)
  {
    hide Shift;
    if k > 0 {
      ShiftByKeepsNonZero(c, k - 1);
      ShiftKeepsNonZero(ShiftBy(c, k - 1));
    }
  }

  /** A nonzero error confined to at most 32 consecutive digits leaves a nonzero remainder. */
  lemma {:induction false} BurstRemainder(before: nat, burst: seq<bool>, after: nat)
    requires |burst| <= 32
    requires exists i :: 0 <= i < |burst| && burst[i]
    ensures Divide(Zeros(32), Zeros(before) + burst + Zeros(after)) != Zeros(32)
  {
    DivideConcat(Zeros(32), Zeros(before) + burst, Zeros(after));
    DivideConcat(Zeros(32), Zeros(before), burst);
    DivideZeros(Zeros(32), before);
    ZeroShifts(before);
    FullRegister(burst);
    DivideZeros(Divide(Zeros(32), burst), after);
    ShiftByKeepsNonZero(Divide(Zeros(32), burst), after);
  }

  lemma {:induction false} FullRegister(burst: seq<bool>)
    requires |burst| <= 32
    requires exists i :: 0 <= i < |burst| && burst[i]
    ensures Divide(Zeros(32), burst) != Zeros(32)
  {
    hide Divide;
    assert Padded([]) == Zeros(32);
    assert [] + burst == burst;
    Collect([], burst);
    var i :| 0 <= i < |burst| && burst[i];
    assert Padded(burst)[32 - |burst| + i];
  }

  /**
   Two byte strings of one length that differ only inside a window of four bytes have different
   checksums: the checksum detects every such burst.
   */
  lemma BurstDetected(head: seq<Byte>, a: seq<Byte>, b: seq<Byte>, tail: seq<Byte>)
    requires |a| == |b| <= 4 && a != b
    ensures Remainder(head + a + tail) != Remainder(head + b + tail)
  {
    hide Digits, Divide, Xor;
    var da := Digits(head + a + tail) + Zeros(32);
    var db := Digits(head + b + tail) + Zeros(32);
    MessageDifference(head, a, b, tail);
    DigitsDiffer(a, b);
    BurstRemainder(8 * |head|, Xor(Digits(a), Digits(b)), 8 * |tail| + 32);
    DivideLinear(Zeros(32), Zeros(32), da, db);
    XorZero(Zeros(32));
    XorZero(Remainder(head + a + tail));
  }

  lemma MessageDifference(head: seq<Byte>, a: seq<Byte>, b: seq<Byte>, tail: seq<Byte>)
    requires |a| == |b|
    ensures Xor(Digits(head + a + tail) + Zeros(32), Digits(head + b + tail) + Zeros(32))
            == Zeros(8 * |head|) + Xor(Digits(a), Digits(b)) + Zeros(8 * |tail| + 32)
  {
    hide Digits, Xor;
    MessageParts(head, a, tail);
    MessageParts(head, b, tail);
    XorInContext(Digits(head), Digits(a), Digits(b), Digits(tail) + Zeros(32));
  }

  lemma MessageParts(head: seq<Byte>, a: seq<Byte>, tail: seq<Byte>)
    ensures Digits(head + a + tail) + Zeros(32) == Digits(head) + Digits(a) + (Digits(tail) + Zeros(32))
  {
    hide Digits;
    DigitsConcat(head + a, tail);
    DigitsConcat(head, a);
  }

  lemma XorInContext(h: seq<bool>, a: seq<bool>, b: seq<bool>, t: seq<bool>)
    requires |a| == |b|
    ensures Xor(h + a + t, h + b + t) == Zeros(|h|) + Xor(a, b) + Zeros(|t|)
  {
  }

  lemma {:induction false} DigitsConcat(p: seq<Byte>, q: seq<Byte>)
    ensures Digits(p + q) == Digits(p) + Digits(q)
  {
    if p == [] {
      assert p + q == q;
    } else {
      assert (p + q)[1..] == p[1..] + q;
      DigitsConcat(p[1..], q);
    }
  }

  lemma DigitsDiffer(a: seq<Byte>, b: seq<Byte>)
    requires |a| == |b| && a != b
    ensures exists i :: 0 <= i < |Digits(a)| && Xor(Digits(a), Digits(b))[i]
  {
    if Digits(a) == Digits(b) {
      DigitsInjective(a, b);
    } else {
      var i :| 0 <= i < |Digits(a)| && Digits(a)[i] != Digits(b)[i];
      assert Xor(Digits(a), Digits(b))[i];
    }
  }

  lemma {:induction false} DigitsInjective(a: seq<Byte>, b: seq<Byte>)
    requires |a| == |b| && Digits(a) == Digits(b)
    ensures a == b
  {
    if a != [] {
      assert Digits(a)[..8] == ToDigits(a[0], 8) && Digits(a)[8..] == Digits(a[1..]);
      assert Digits(b)[..8] == ToDigits(b[0], 8) && Digits(b)[8..] == Digits(b[1..]);
      ValueOfDigits(a[0], 8);
      ValueOfDigits(b[0], 8);
      DigitsInjective(a[1..], b[1..]);
      assert a == [a[0]] + a[1..] && b == [b[0]] + b[1..];
    }
  }
}

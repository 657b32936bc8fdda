/** Decimal numbers as text: printing, and the two parsers of Go that the program relies on. */
module Decimal {
  import opened Bytes

  const MAX_INT64: int := 0x7FFF_FFFF_FFFF_FFFF
  const MIN_INT64: int := -0x8000_0000_0000_0000

  function DigitChar(d: nat): char
    requires d < 10
  {
    '0' + d as char
  }

  predicate IsDigit(c: char) {
    '0' <= c <= '9'
  }

  function DigitValue(c: char): nat
    requires IsDigit(c)
  {
    (c - '0') as nat
  }

  function Print(n: nat): (s: string)
    ensures s != "" && forall i :: 0 <= i < |s| ==> IsDigit(s[i])
  {
    if n < 10 then [DigitChar(n)] else Print(n / 10) + [DigitChar(n % 10)]
  }

  predicate AllDigits(s: string) {
    s != "" && forall i :: 0 <= i < |s| ==> IsDigit(s[i])
  }

  function DigitsToNat(s: string): nat
    requires forall i :: 0 <= i < |s| ==> IsDigit(s[i])
  {
    if s == "" then 0 else 10 * DigitsToNat(s[..|s| - 1]) + DigitValue(s[|s| - 1])
  }

  lemma {:induction false} PrintedValue(n: nat)
    ensures DigitsToNat(Print(n)) == n
  {
    var s := Print(n);
    if n >= 10 {
      assert s[..|s| - 1] == Print(n / 10);
      PrintedValue(n / 10);
    } else {
      assert s[..0] == "";
    }
  }

  function InRange(n: int): Option<int> {
    if MIN_INT64 <= n <= MAX_INT64 then Some(n) else None
  }

  /** strconv.ParseInt with base 10 and 64 bits: an optional sign, then digits and nothing else. */
  function ParseInt(s: string): Option<int> {
    if s == "" then None
    else if s[0] == '-' then if AllDigits(s[1..]) then InRange(0 - DigitsToNat(s[1..])) else None
    else if s[0] == '+' then if AllDigits(s[1..]) then InRange(DigitsToNat(s[1..])) else None
    else if AllDigits(s) then InRange(DigitsToNat(s)) else None
  }

  lemma ParsePrinted(n: nat)
    requires n <= MAX_INT64
    ensures ParseInt(Print(n)) == Some(n)
  {
    PrintedValue(n);
    assert IsDigit(Print(n)[0]);
  }

  /** The longest run of digits at the front. */
  function DigitRun(s: string): (r: string)
    ensures r <= s
    ensures forall i :: 0 <= i < |r| ==> IsDigit(r[i])
    ensures |r| < |s| ==> !IsDigit(s[|r|])
    decreases |s|
  {
    if s != "" && IsDigit(s[0]) then [s[0]] + DigitRun(s[1..]) else ""
  }

  function SkipBlanks(s: string): (r: string)
    ensures |r| <= |s|
    decreases |s|
  {
    if s != "" && s[0] == ' ' then SkipBlanks(s[1..]) else s
  }

  /** fmt.Sscanf with "%d": blanks, an optional sign, digits; what follows is ignored. */
  function ScanInt(s: string): Option<int> {
    var t := SkipBlanks(s);
    var negative := t != "" && t[0] == '-';
    var run := DigitRun(if t != "" && (t[0] == '-' || t[0] == '+') then t[1..] else t);
    if run == "" then None
    else InRange(if negative then 0 - DigitsToNat(run) else DigitsToNat(run))
  }

  lemma {:induction false} RunOfDigits(s: string, rest: string)
    requires forall i :: 0 <= i < |s| ==> IsDigit(s[i])
    requires rest == "" || !IsDigit(rest[0])
    ensures DigitRun(s + rest) == s
    decreases |s|
  {
    if s == "" {
      assert s + rest == rest;
    } else {
      assert (s + rest)[1..] == s[1..] + rest;
      RunOfDigits(s[1..], rest);
    }
  }

  lemma ScanPrinted(n: nat, rest: string)
    requires n <= MAX_INT64
    requires rest == "" || !IsDigit(rest[0])
    ensures ScanInt(Print(n) + rest) == Some(n)
  {
    PrintedValue(n);
    var s := Print(n) + rest;
    assert IsDigit(s[0]) by { assert s[0] == Print(n)[0]; }
    RunOfDigits(Print(n), rest);
  }
}

/**
 Serving a remote object in parts: parsing a single byte range, and the status, headers and bytes that
 answer it. The reference is section 14.1.2 of RFC 9110.
 */
module RangeHeader {
  import opened Bytes
  import opened Decimal

  // ----- text -----

  /** Unicode white space. */
  predicate IsSpace(c: char) {
    || '\t' <= c <= '\r' || c == ' ' || c == '\U{0085}' || c == '\U{00A0}' || c == '\U{1680}'
    || '\U{2000}' <= c <= '\U{200A}' || c == '\U{2028}' || c == '\U{2029}' || c == '\U{202F}'
    || c == '\U{205F}' || c == '\U{3000}'
  }

  function TrimLeft(s: string): string {
    if s != "" && IsSpace(s[0]) then TrimLeft(s[1..]) else s
  }

  function TrimRight(s: string): string {
    if s != "" && IsSpace(s[|s| - 1]) then TrimRight(s[..|s| - 1]) else s
  }

  function TrimSpace(s: string): string {
    TrimRight(TrimLeft(s))
  }

  /** The place of the first c, or -1. */
  function IndexOf(s: string, c: char): (k: int)
    ensures -1 <= k < |s|
    ensures k >= 0 ==> s[k] == c && c !in s[..k]
    ensures k < 0 ==> c !in s
  {
    if s == "" then -1
    else if s[0] == c then 0
    else
      var k := IndexOf(s[1..], c);
      if k < 0 then -1 else
      assert s[..k + 1] == [s[0]] + s[1..][..k];
      k + 1
  }

  // ----- the parser -----

  const PREFIX := "bytes="

  /** The two ends of the range, and whether it can be served; both ends -1 ask for the whole object. */
  datatype Parsed = Parsed(start: int, end: int, ok: bool)

  const WHOLE := Parsed(-1, -1, true)
  const REFUSED := Parsed(0, 0, false)

  function ParseSingleRange(hdr: string, total: int): Parsed {
    if hdr == "" then WHOLE
    else if !(PREFIX <= hdr) || ',' in hdr then WHOLE
    else
      var spec := TrimSpace(hdr[|PREFIX|..]);
      var dash := IndexOf(spec, '-');
      if dash < 0 then REFUSED
      else ParseEnds(TrimSpace(spec[..dash]), TrimSpace(spec[dash + 1..]), total)
  }

  function ParseEnds(left: string, right: string, total: int): Parsed {
    if left == "" && right != "" then
      match ParseInt(right)
      case None => REFUSED
      case Some(n) => if n <= 0 then REFUSED else Parsed(total - (if n > total then total else n), total - 1, true)
    else if left != "" && right == "" then
      match ParseInt(left)
      case None => REFUSED
      case Some(s) => if s < 0 || s >= total then REFUSED else Parsed(s, total - 1, true)
    else
      match (ParseInt(left), ParseInt(right))
      case (Some(s), Some(e)) =>
        if s < 0 || e < s || s >= total then REFUSED
        else Parsed(s, if e >= total then total - 1 else e, true)
      case _ => REFUSED
  }

  /** For any header at all: it is ignored, or refused, or names a range inside the object. */
  lemma ParsedInside(hdr: string, total: int)
    requires total > 0
    ensures var p := ParseSingleRange(hdr, total);
      && (p == WHOLE <==> !(PREFIX <= hdr) || ',' in hdr)
      && (p != WHOLE && p.ok ==> 0 <= p.start <= p.end < total)
      && (!p.ok ==> p == REFUSED)
  {
  }

  // ----- agreement with the standard -----

  /** A range as the standard writes it, its numbers as digit strings. */
  datatype Spec = Span(first: string, last: string) | From(first: string) | Suffix(length: string)

  /** Well formed: digits, and the first position no larger than the last. */
  predicate Valid(spec: Spec) {
    match spec
    case Span(a, b) => AllDigits(a) && AllDigits(b) && DigitsToNat(a) <= DigitsToNat(b)
    case From(a) => AllDigits(a)
    case Suffix(n) => AllDigits(n)
  }

  function Text(spec: Spec): string {
    match spec
    case Span(a, b) => PREFIX + (a + "-" + b)
    case From(a) => PREFIX + (a + "-")
    case Suffix(n) => PREFIX + ("-" + n)
  }

  /** The positions of the object that a range asks for. */
  predicate Selects(spec: Spec, total: int, p: int)
    requires Valid(spec)
  {
    0 <= p < total &&
    match spec
    case Span(a, b) => DigitsToNat(a) <= p <= DigitsToNat(b)
    case From(a) => DigitsToNat(a) <= p
    case Suffix(n) => total - DigitsToNat(n) <= p
  }

  /** The parser's answer selects exactly those positions, and is a refusal exactly if there are none. */
  ghost predicate Right(spec: Spec, total: int)
    requires Valid(spec)
  {
    var p := ParseSingleRange(Text(spec), total);
    if p.ok then 0 <= p.start <= p.end < total && forall q :: Selects(spec, total, q) <==> p.start <= q <= p.end
    else p == REFUSED && forall q :: !Selects(spec, total, q)
  }

  /** The number that decides the answer fits the parser's 64 bits. */
  predicate Fits(spec: Spec, total: int)
    requires Valid(spec)
  {
    match spec
    case Span(a, b) => DigitsToNat(b) <= MAX_INT64 || DigitsToNat(a) >= total
    case From(a) => true
    case Suffix(n) => DigitsToNat(n) <= MAX_INT64
  }

  lemma NoTrim(s: string)
    requires s != "" ==> !IsSpace(s[0]) && !IsSpace(s[|s| - 1])
    ensures TrimSpace(s) == s
  {
  }

  lemma DigitsPlain(s: string)
    requires forall i :: 0 <= i < |s| ==> IsDigit(s[i])
    ensures '-' !in s && ',' !in s && '/' !in s && TrimSpace(s) == s
  {
    NoTrim(s);
  }

  lemma {:induction false} FirstOf(a: string, c: char, b: string)
    requires c !in a
    ensures IndexOf(a + [c] + b, c) == |a|
  {
    var s := a + [c] + b;
    if a == "" {
      assert s[0] == c;
    } else {
      assert s[0] == a[0] && a[0] in a;
      assert s[1..] == a[1..] + [c] + b;
      FirstOf(a[1..], c, b);
    }
  }

  /** What the parser makes of two digit strings, either of them possibly empty, around a dash. */
  lemma ParsesText(a: string, b: string, total: int)
    requires forall i :: 0 <= i < |a| ==> IsDigit(a[i])
    requires forall i :: 0 <= i < |b| ==> IsDigit(b[i])
    ensures ParseSingleRange(PREFIX + (a + "-" + b), total) == ParseEnds(a, b, total)
  {
    hide ParseEnds, TrimSpace;
    var spec := a + "-" + b;
    var hdr := PREFIX + spec;
    DigitsPlain(a);
    DigitsPlain(b);
    FirstOf(a, '-', b);
    assert hdr[|PREFIX|..] == spec && hdr[..|PREFIX|] == PREFIX;
    assert ',' !in hdr;
    NoTrimAround(a, b);
    assert spec[..|a|] == a && spec[|a| + 1..] == b;
  }

  lemma NoTrimAround(a: string, b: string)
    requires forall i :: 0 <= i < |a| ==> IsDigit(a[i])
    requires forall i :: 0 <= i < |b| ==> IsDigit(b[i])
    ensures TrimSpace(a + "-" + b) == a + "-" + b
  {
    var spec := a + "-" + b;
    assert spec[0] == if a == "" then '-' else a[0];
    assert spec[|spec| - 1] == if b == "" then '-' else b[|b| - 1];
    NoTrim(spec);
  }

  lemma ParseDigits(s: string)
    requires AllDigits(s)
    ensures ParseInt(s) == if DigitsToNat(s) <= MAX_INT64 then Some(DigitsToNat(s)) else None
  {
    assert IsDigit(s[0]);
  }

  /**
   On every well formed range of every object the parser agrees with the standard, exactly when the
   number that decides fits 64 bits.
   */
  lemma {:induction false} AgreesExactly(spec: Spec, total: int)
    requires Valid(spec) && 0 < total <= MAX_INT64
    ensures Right(spec, total) <==> Fits(spec, total)
  {
    hide ParseSingleRange, ParseInt;
    match spec
    case Span(a, b) =>
      ParsesText(a, b, total);
      ParseDigits(a);
      ParseDigits(b);
      assert DigitsToNat(a) < total ==> Selects(spec, total, DigitsToNat(a));
    case From(a) =>
      assert a + "-" + "" == a + "-";
      ParsesText(a, "", total);
      ParseDigits(a);
      assert DigitsToNat(a) < total ==> Selects(spec, total, DigitsToNat(a));
    case Suffix(n) =>
      assert "" + "-" + n == "-" + n;
      ParsesText("", n, total);
      ParseDigits(n);
      assert DigitsToNat(n) > 0 ==> Selects(spec, total, total - 1);
  }

  /** A range that ends before it starts is refused; to the standard it is malformed, not unsatisfiable. */
  lemma {:induction false} BackwardsRefused(a: string, b: string, total: int)
    requires AllDigits(a) && AllDigits(b) && DigitsToNat(b) < DigitsToNat(a)
    ensures ParseSingleRange(PREFIX + (a + "-" + b), total) == REFUSED
  {
    ParsesText(a, b, total);
    ParseDigits(a);
    ParseDigits(b);
  }

  // ----- every other header -----

  predicate Blank(s: string) {
    forall i :: 0 <= i < |s| ==> IsSpace(s[i])
  }

  /** No space at either end. */
  predicate Tight(s: string) {
    s != "" ==> !IsSpace(s[0]) && !IsSpace(s[|s| - 1])
  }

  /** A header with two ends around its first dash, and blanks around these. */
  datatype Spelling = Spelling(blank0: string, left: string, blank1: string, blank2: string, right: string,
      blank3: string)
  {
    predicate Valid() {
      && Blank(blank0) && Blank(blank1) && Blank(blank2) && Blank(blank3)
      && Tight(left) && Tight(right) && '-' !in left
    }

    function Text(): string {
      "bytes=" + (blank0 + left + blank1 + "-" + blank2 + right + blank3)
    }
  }

  lemma {:induction false} TrimsLeft(a: string, s: string)
    requires Blank(a) && (s != "" ==> !IsSpace(s[0]))
    ensures TrimLeft(a + s) == s
  {
    hide IsSpace;
    if a == "" {
      assert a + s == s;
    } else {
      assert (a + s)[1..] == a[1..] + s;
      TrimsLeft(a[1..], s);
    }
  }

  lemma {:induction false} TrimsRight(s: string, b: string)
    requires Blank(b) && (s != "" ==> !IsSpace(s[|s| - 1]))
    ensures TrimRight(s + b) == s
  {
    hide IsSpace;
    if b == "" {
      assert s + b == s;
    } else {
      assert (s + b)[..|s + b| - 1] == s + b[..|b| - 1];
      TrimsRight(s, b[..|b| - 1]);
    }
  }

  lemma BlankBoth(a: string, b: string)
    requires Blank(a) && Blank(b)
    ensures Blank(a + b)
  {
    hide IsSpace;
  }

  lemma TrimsAround(a: string, s: string, b: string)
    requires Blank(a) && Blank(b) && Tight(s)
    ensures TrimSpace(a + s + b) == s
  {
    hide IsSpace, TrimLeft, TrimRight;
    if s == "" {
      assert a + s + b == (a + b) + "" && s + "" == "";
      BlankBoth(a, b);
      TrimsLeft(a + b, "");
      TrimsRight(s, "");
    } else {
      assert a + s + b == a + (s + b);
      TrimsLeft(a, s + b);
      TrimsRight(s, b);
    }
  }

  /** What was trimmed is blank. */
  lemma {:induction false} LeftTrimmed(s: string) returns (a: string)
    ensures Blank(a) && s == a + TrimLeft(s) && (TrimLeft(s) != "" ==> !IsSpace(TrimLeft(s)[0]))
  {
    hide IsSpace;
    if s != "" && IsSpace(s[0]) {
      var rest := LeftTrimmed(s[1..]);
      a := [s[0]] + rest;
    } else {
      a := "";
    }
  }

  lemma {:induction false} RightTrimmed(s: string) returns (b: string)
    ensures Blank(b) && s == TrimRight(s) + b && (TrimRight(s) != "" ==> !IsSpace(TrimRight(s)[|TrimRight(s)| - 1]))
  {
    hide IsSpace;
    if s != "" && IsSpace(s[|s| - 1]) {
      var front := s[..|s| - 1];
      var rest := RightTrimmed(front);
      b := rest + [s[|s| - 1]];
      assert s == front + [s[|s| - 1]];
      assert TrimRight(s) + b == (TrimRight(front) + rest) + [s[|s| - 1]];
    } else {
      b := "";
      assert s == s + b;
    }
  }

  lemma Trimmed(s: string) returns (a: string, b: string)
    ensures Blank(a) && Blank(b) && s == a + TrimSpace(s) + b && Tight(TrimSpace(s))
  {
    hide IsSpace, TrimLeft, TrimRight;
    a := LeftTrimmed(s);
    b := RightTrimmed(TrimLeft(s));
    assert TrimSpace(s) != "" ==> TrimSpace(s)[0] == TrimLeft(s)[0];
  }

  /** The part before the dash: its blanks go with those in front if there is nothing between them. */
  lemma LeftPart(f: Spelling) returns (front: string, left: string)
    requires f.Valid()
    ensures f.blank0 + f.left + f.blank1 == front + left && Blank(front)
    ensures '-' !in left && TrimSpace(left) == f.left && (left != "" ==> !IsSpace(left[0]))
  {
    assert forall i :: 0 <= i < |f.blank1| ==> f.blank1[i] != '-';
    hide IsSpace, TrimSpace;
    if f.left == "" {
      front, left := f.blank0 + f.blank1, "";
      TrimsAround("", "", "");
      assert "" + "" + "" == "";
    } else {
      front, left := f.blank0, f.left + f.blank1;
      TrimsAround("", f.left, f.blank1);
      assert "" + f.left + f.blank1 == left;
    }
  }

  /** And the part after it. */
  lemma RightPart(f: Spelling) returns (right: string, back: string)
    requires f.Valid()
    ensures f.blank2 + f.right + f.blank3 == right + back && Blank(back)
    ensures TrimSpace(right) == f.right && (right != "" ==> !IsSpace(right[|right| - 1]))
  {
    hide IsSpace, TrimSpace;
    if f.right == "" {
      right, back := "", f.blank2 + f.blank3;
      TrimsAround("", "", "");
      assert "" + "" + "" == "";
    } else {
      right, back := f.blank2 + f.right, f.blank3;
      TrimsAround(f.blank2, f.right, "");
      assert f.blank2 + f.right + "" == right;
    }
  }

  /** However it is spelled, the parser takes its two ends. */
  lemma {:induction false} ParsesSpelling(f: Spelling, total: int)
    requires f.Valid() && ',' !in f.Text()
    ensures ParseSingleRange(f.Text(), total) == ParseEnds(f.left, f.right, total)
  {
    hide ParseEnds, IndexOf, TrimSpace, Blank, Tight;
    var front, left := LeftPart(f);
    var right, back := RightPart(f);
    var core := left + "-" + right;
    var all := f.blank0 + f.left + f.blank1 + "-" + f.blank2 + f.right + f.blank3;
    assert all == (f.blank0 + f.left + f.blank1) + "-" + (f.blank2 + f.right + f.blank3);
    assert all == front + core + back;
    var hdr := f.Text();
    assert PREFIX <= hdr && hdr[|PREFIX|..] == all;
    CoreTight(left, right);
    TrimsAround(front, core, back);
    FirstOf(left, '-', right);
    assert core[..|left|] == left && core[|left| + 1..] == right;
  }

  lemma CoreTight(left: string, right: string)
    requires left != "" ==> !IsSpace(left[0])
    requires right != "" ==> !IsSpace(right[|right| - 1])
    ensures Tight(left + "-" + right)
  {
  }

  /** And every header with a dash is so spelled. */
  lemma {:induction false} EverySpelling(hdr: string) returns (f: Spelling)
    requires "bytes=" <= hdr && '-' in hdr[6..]
    ensures f.Valid() && f.Text() == hdr
  {
    hide TrimSpace, IndexOf;
    var rest := hdr[6..];
    var a, b := Trimmed(rest);
    var spec := TrimSpace(rest);
    DashInside(rest, a, spec, b);
    var dash := IndexOf(spec, '-');
    var l0, l1 := Trimmed(spec[..dash]);
    var r0, r1 := Trimmed(spec[dash + 1..]);
    var left, right := TrimSpace(spec[..dash]), TrimSpace(spec[dash + 1..]);
    f := Spelling(a + l0, left, l1, r0, right, r1 + b);
    assert '-' !in left by {
      assert forall c :: c in left ==> c in spec[..dash];
    }
    assert spec == spec[..dash] + "-" + spec[dash + 1..];
    hide IsSpace, Blank, Tight;
    Regroup(a, l0, left, l1, r0, right, r1, b);
    assert hdr == "bytes=" + rest;
    assert f.Valid() by {
      BlankBoth(a, l0);
      BlankBoth(r1, b);
    }
  }

  lemma DashInside(s: string, a: string, core: string, b: string)
    requires Blank(a) && Blank(b) && s == a + core + b && '-' in s
    ensures '-' in core
  {
    assert !IsSpace('-');
    assert forall i :: 0 <= i < |a| ==> a[i] != '-';
    assert forall i :: 0 <= i < |b| ==> b[i] != '-';
  }

  lemma Regroup(a: string, l0: string, left: string, l1: string, r0: string, right: string, r1: string, b: string)
    ensures a + ((l0 + left + l1) + "-" + (r0 + right + r1)) + b
            == (a + l0) + left + l1 + "-" + r0 + right + (r1 + b)
  {
  }

  /** Digits with at most a sign before them, that are this number. */
  predicate Numeral(s: string, n: int) {
    s != "" &&
    if s[0] == '+' then AllDigits(s[1..]) && n == DigitsToNat(s[1..])
    else if s[0] == '-' then AllDigits(s[1..]) && n == 0 - DigitsToNat(s[1..])
    else AllDigits(s) && n == DigitsToNat(s)
  }

  lemma NumeralExact(s: string, n: int)
    ensures ParseInt(s) == Some(n) <==> Numeral(s, n) && MIN_INT64 <= n <= MAX_INT64
  {
    assert IsDigit('+') == IsDigit('-') == false;
  }

  /** What the two ends ask for of an object of this size: from the first place to the last one. */
  predicate AsksFor(left: string, right: string, total: int, first: int, last: int) {
    if left == "" then
      exists n :: Numeral(right, n) && 0 < n <= MAX_INT64
                  && first == (if n < total then total - n else 0) && last == total - 1
    else if right == "" then Numeral(left, first) && 0 <= first < total && last == total - 1
    else
      && Numeral(left, first) && 0 <= first < total
      && exists n :: Numeral(right, n) && first <= n <= MAX_INT64 && last == if n < total then n else total - 1
  }

  lemma {:induction false} EndsExact(left: string, right: string, total: int)
    requires 0 < total <= MAX_INT64
    ensures var p := ParseEnds(left, right, total);
      if p.ok then AsksFor(left, right, total, p.start, p.end)
      else p == REFUSED && forall first, last :: !AsksFor(left, right, total, first, last)
  {
    forall n ensures (ParseInt(left) == Some(n) <==> Numeral(left, n) && MIN_INT64 <= n <= MAX_INT64)
      && (ParseInt(right) == Some(n) <==> Numeral(right, n) && MIN_INT64 <= n <= MAX_INT64)
    {
      NumeralExact(left, n);
      NumeralExact(right, n);
    }
    hide ParseInt, Numeral;
  }

  /**
   Every header there is: without "bytes=" in front, or with a comma, it is ignored; otherwise it is refused
   unless around its first dash, blanks aside, there are two ends that ask for something. Then that is the answer.
   */
  lemma {:induction false} EveryHeader(hdr: string, total: int)
    requires 0 < total <= MAX_INT64
    ensures var p := ParseSingleRange(hdr, total);
      if !("bytes=" <= hdr) || ',' in hdr then p == Parsed(-1, -1, true)
      else if '-' !in hdr[6..] then p == Parsed(0, 0, false)
      else exists f: Spelling :: f.Valid() && f.Text() == hdr &&
             if p.ok then AsksFor(f.left, f.right, total, p.start, p.end)
             else p == Parsed(0, 0, false) && forall first, last :: !AsksFor(f.left, f.right, total, first, last)
  {
    hide AsksFor, ParseEnds, Spelling.Valid, Spelling.Text, TrimSpace, IndexOf;
    if "bytes=" <= hdr && ',' !in hdr {
      if '-' in hdr[6..] {
        var f := EverySpelling(hdr);
        ParsesSpelling(f, total);
        EndsExact(f.left, f.right, total);
      } else {
        NoDash(hdr[6..]);
      }
    }
  }

  lemma NoDash(s: string)
    requires '-' !in s
    ensures IndexOf(TrimSpace(s), '-') < 0
  {
    hide TrimSpace;
    var a, b := Trimmed(s);
    assert forall c :: c in TrimSpace(s) ==> c in s;
  }

  // ----- the response -----

  datatype Response = Response(status: nat, contentRange: Option<string>, contentLength: Option<nat>, body: seq<Byte>)

  /** The bytes a request with this header gets. */
  function BodyOf(hdr: string, obj: seq<Byte>): seq<Byte> {
    var p := ParseSingleRange(hdr, |obj|);
    if p == WHOLE then obj
    else if p.ok && 0 <= p.start <= p.end < |obj| then obj[p.start..p.end + 1]
    else []
  }

  function RangeText(start: nat, end: nat, total: nat): string {
    "bytes " + Print(start) + "-" + Print(end) + "/" + Print(total)
  }

  /** The first, last and complete length that a Content-Range field names (section 14.4 of RFC 9110). */
  function ReadRangeText(s: string): Option<(int, int, int)> {
    if !("bytes " <= s) then None else
    var rest := s[6..];
    var dash := IndexOf(rest, '-');
    if dash < 0 then None else
    var more := rest[dash + 1..];
    var slash := IndexOf(more, '/');
    if slash < 0 then None else
    match (ParseInt(rest[..dash]), ParseInt(more[..slash]), ParseInt(more[slash + 1..]))
    case (Some(first), Some(last), Some(total)) => Some((first, last, total))
    case _ => None
  }

  /** A client reads back the range that was served. */
  lemma RangeTextReadsBack(start: nat, end: nat, total: nat)
    requires start <= end < total <= MAX_INT64
    ensures ReadRangeText(RangeText(start, end, total)) == Some((start, end, total))
  {
    hide Print, ParseInt, IndexOf, TrimSpace;
    var a, b, c := Print(start), Print(end), Print(total);
    var s := RangeText(start, end, total);
    var rest, more := a + "-" + (b + "/" + c), b + "/" + c;
    assert s == "bytes " + rest && s[..6] == "bytes " && s[6..] == rest;
    DigitsPlain(a);
    DigitsPlain(b);
    FirstOf(a, '-', more);
    FirstOf(b, '/', c);
    assert rest[..|a|] == a && rest[|a| + 1..] == more && more[..|b|] == b && more[|b| + 1..] == c;
    ParsePrinted(start);
    ParsePrinted(end);
    ParsePrinted(total);
  }

  lemma BodyWhere(hdr: string, obj: seq<Byte>)
    requires obj != []
    ensures var p := ParseSingleRange(hdr, |obj|);
      && (p == WHOLE ==> p.ok && p.start < 0 && BodyOf(hdr, obj) == obj[0..|obj|] == obj)
      && (p != WHOLE && p.ok ==> 0 <= p.start <= p.end < |obj| && BodyOf(hdr, obj) == obj[p.start..p.end + 1])
  {
    hide ParseSingleRange;
    ParsedInside(hdr, |obj|);
  }

  /** Answers a request for an object: status, headers, and its bytes. */
  method HandleOffloadObject(hdr: string, obj: seq<Byte>, head: bool, upstream: bool) returns (r: Response)
    ensures obj == [] ==> r == Response(404, None, None, [])
    ensures obj != [] ==>
      var p := ParseSingleRange(hdr, |obj|);
      && (!p.ok ==> r == Response(416, Some("bytes */" + Print(|obj|)), None, []))
      && (p.ok ==> r.contentLength == Some(|BodyOf(hdr, obj)|))
      && (p.ok ==> r.body == if head || !upstream then [] else BodyOf(hdr, obj))
      && (p.ok ==> r.status == if !head && !upstream then 502 else if p == WHOLE then 200 else 206)
      && (p.ok ==> (r.contentRange.Some? <==> p != WHOLE))
      && (r.contentRange.Some? && p.ok ==>
            0 <= p.start <= p.end < |obj|
            && r.contentRange.value == RangeText(p.start, p.end, |obj|)
            && BodyOf(hdr, obj) == obj[p.start..p.end + 1])
  {
    var total := |obj|;
    if total <= 0 {
      return Response(404, None, None, []);
    }
    hide *;
    BodyWhere(hdr, obj);
    var p := ParseSingleRange(hdr, total);
    if !p.ok {
      return Response(416, Some("bytes */" + Print(total)), None, []);
    }
    var status, contentRange := 200, None;
    var serveStart, serveEnd := 0, total - 1;
    if p.start >= 0 {
      status := 206;
      serveStart, serveEnd := p.start, p.end;
      contentRange := Some(RangeText(p.start, p.end, total));
    }
    var body := obj[serveStart..serveEnd + 1];
    assert body == BodyOf(hdr, obj) && |body| == serveEnd - serveStart + 1;
    var length := Some(serveEnd - serveStart + 1);
    if head {
      return Response(status, contentRange, length, []);
    }
    if !upstream {
      return Response(502, contentRange, length, []);
    }
    r := Response(status, contentRange, length, body);
  }

  // ----- reassembly -----

  /** Asking for everything from a position on resumes there. */
  lemma Resumes(obj: seq<Byte>, at: nat)
    requires at < |obj| <= MAX_INT64
    ensures BodyOf(PREFIX + (Print(at) + "-"), obj) == obj[at..]
  {
    hide ParseSingleRange, Print, ParseInt;
    assert Print(at) + "-" + "" == Print(at) + "-";
    ParsesText(Print(at), "", |obj|);
    ParsePrinted(at);
    assert ParseEnds(Print(at), "", |obj|) == Parsed(at, |obj| - 1, true);
    assert obj[at..|obj|] == obj[at..];
  }

  lemma {:induction false} SpanBody(obj: seq<Byte>, first: nat, last: nat)
    requires first <= last < |obj| <= MAX_INT64
    ensures BodyOf(PREFIX + (Print(first) + "-" + Print(last)), obj) == obj[first..last + 1]
  {
    hide ParseSingleRange, Print;
    ParsesText(Print(first), Print(last), |obj|);
    ParsePrinted(first);
    ParsePrinted(last);
  }

  predicate Cuts(cuts: seq<nat>, total: nat) {
    && |cuts| >= 1 && cuts[0] == 0 && cuts[|cuts| - 1] <= total
    && forall i :: 0 < i < |cuts| ==> cuts[i - 1] < cuts[i]
  }

  /** What a client gets that asks for one stretch after the other. */
  function Fetched(obj: seq<Byte>, cuts: seq<nat>): seq<Byte>
    requires Cuts(cuts, |obj|)
  {
    var n := |cuts| - 1;
    if n == 0 then []
    else Fetched(obj, cuts[..n]) + BodyOf(PREFIX + (Print(cuts[n - 1]) + "-" + Print(cuts[n] - 1)), obj)
  }

  /** Consecutive ranges of any sizes reassemble the object, up to the last one asked for. */
  lemma {:induction false} Reassembles(obj: seq<Byte>, cuts: seq<nat>)
    requires Cuts(cuts, |obj|) && |obj| <= MAX_INT64
    ensures Fetched(obj, cuts) == obj[..cuts[|cuts| - 1]]
  {
    hide BodyOf, Print;
    var n := |cuts| - 1;
    if n > 0 {
      var front := cuts[..n];
      assert front[|front| - 1] == cuts[n - 1];
      Reassembles(obj, front);
      SpanBody(obj, cuts[n - 1], cuts[n] - 1);
      assert obj[..cuts[n - 1]] + obj[cuts[n - 1]..cuts[n]] == obj[..cuts[n]];
    }
  }
}

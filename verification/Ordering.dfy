/** Sorting by strings in byte order, as Go's sort package does; elements with one key end up in any order. */
module Ordering {

  predicate Leq(a: string, b: string) {
    a == [] || (b != [] && (a[0] < b[0] || (a[0] == b[0] && Leq(a[1..], b[1..]))))
  }

  lemma {:induction false} LeqTotal(a: string, b: string)
    ensures Leq(a, b) || Leq(b, a)
  {
    if a != [] && b != [] && a[0] == b[0] {
      LeqTotal(a[1..], b[1..]);
    }
  }

  lemma {:induction false} LeqTrans(a: string, b: string, c: string)
    requires Leq(a, b) && Leq(b, c)
    ensures Leq(a, c)
  {
    if a != [] && a[0] == b[0] && b[0] == c[0] {
      LeqTrans(a[1..], b[1..], c[1..]);
    }
  }

  lemma {:induction false} LeqAntisymmetric(a: string, b: string)
    requires Leq(a, b) && Leq(b, a)
    ensures a == b
  {
    if a != [] {
      LeqAntisymmetric(a[1..], b[1..]);
      assert a == [a[0]] + a[1..] && b == [b[0]] + b[1..];
    }
  }

  predicate SortedBy<T>(key: T -> string, s: seq<T>) {
    forall i, j :: 0 <= i < j < |s| ==> Leq(key(s[i]), key(s[j]))
  }

  /** Elements of one key stand back to back. */
  lemma KeysTogether<T>(key: T -> string, s: seq<T>, i: nat, j: nat, k: nat)
    requires SortedBy(key, s) && i <= j <= k < |s| && key(s[i]) == key(s[k])
    ensures key(s[j]) == key(s[i])
  {
    if i < j < k {
      LeqAntisymmetric(key(s[i]), key(s[j]));
    }
  }

  method SortBy<T>(key: T -> string, s: seq<T>) returns (t: seq<T>)
    ensures multiset(t) == multiset(s) && SortedBy(key, t)
  {
    t := [];
    for n := 0 to |s|
      invariant multiset(t) == multiset(s[..n]) && SortedBy(key, t)
    {
      t := InsertBy(key, t, s[n]);
      assert s[..n + 1] == s[..n] + [s[n]];
    }
    assert s[..|s|] == s;
  }

  method InsertBy<T>(key: T -> string, s: seq<T>, x: T) returns (t: seq<T>)
    requires SortedBy(key, s)
    ensures multiset(t) == multiset(s) + multiset{x} && SortedBy(key, t)
  {
    hide Leq, SortedBy;
    var at := |s|;
    while at > 0 && !Leq(key(s[at - 1]), key(x))
      invariant 0 <= at <= |s|
      invariant forall i :: at <= i < |s| ==> Leq(key(x), key(s[i]))
    {
      at := at - 1;
      LeqTotal(key(s[at]), key(x));
    }
    t := s[..at] + [x] + s[at..];
    assert s == s[..at] + s[at..];
    FrontBelow(key, s, x, at);
    InsertedOrder(key, s, x, at);
  }

  lemma FrontBelow<T>(key: T -> string, s: seq<T>, x: T, at: nat)
    requires SortedBy(key, s) && at <= |s| && (at > 0 ==> Leq(key(s[at - 1]), key(x)))
    ensures forall i :: 0 <= i < at ==> Leq(key(s[i]), key(x))
  {
    hide Leq;
    forall i | 0 <= i < at - 1 ensures Leq(key(s[i]), key(x)) {
      LeqTrans(key(s[i]), key(s[at - 1]), key(x));
    }
  }

  lemma InsertedOrder<T>(key: T -> string, s: seq<T>, x: T, at: nat)
    requires SortedBy(key, s) && at <= |s|
    requires forall i :: 0 <= i < at ==> Leq(key(s[i]), key(x))
    requires forall i :: at <= i < |s| ==> Leq(key(x), key(s[i]))
    ensures SortedBy(key, s[..at] + [x] + s[at..])
  {
    hide Leq;
    var t := s[..at] + [x] + s[at..];
    forall i, j | 0 <= i < j < |t| ensures Leq(key(t[i]), key(t[j])) {
      var u := if i < at then s[i] else if i == at then x else s[i - 1];
      var v := if j < at then s[j] else if j == at then x else s[j - 1];
      assert t[i] == u && t[j] == v;
    }
  }
}

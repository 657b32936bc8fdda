/**
 Machine words as their binary digits, most significant first, and the operations on them that the
 Ogg checksum uses.
 */
module Words {

  function Zeros(k: nat): (z: seq<bool>)
    ensures |z| == k
    ensures forall i :: 0 <= i < k ==> !z[i]
  {
    seq(k, _ => false)
  }

  function Xor(a: seq<bool>, b: seq<bool>): (r: seq<bool>)
    requires |a| == |b|
    ensures |r| == |a|
    ensures forall i :: 0 <= i < |a| ==> r[i] == (a[i] != b[i])
  {
    seq(|a|, i requires 0 <= i < |a| => a[i] != b[i])
  }

  function Pow2(k: nat): (n: nat)
    ensures n > 0
  {
    if k == 0 then 1 else 2 * Pow2(k - 1)
  }

  /** The k lowest binary digits of a number. */
  function ToDigits(n: nat, k: nat): (d: seq<bool>)
    ensures |d| == k
    decreases k, n
  {
    if k == 0 then [] else ToDigits(n / 2, k - 1) + [n % 2 == 1]
  }

  function Value(d: seq<bool>): (n: nat)
    ensures n < Pow2(|d|)
  {
    if d == [] then 0 else 2 * Value(d[..|d| - 1]) + (if d[|d| - 1] then 1 else 0)
  }

  lemma {:induction false} ValueOfDigits(n: nat, k: nat)
    requires n < Pow2(k)
    ensures Value(ToDigits(n, k)) == n
    decreases k
  {
    if k > 0 {
      var d := ToDigits(n, k);
      assert d[..k - 1] == ToDigits(n / 2, k - 1);
      ValueOfDigits(n / 2, k - 1);
    }
  }

  lemma {:induction false} DigitsOfValue(d: seq<bool>)
    ensures ToDigits(Value(d), |d|) == d
    decreases |d|
  {
    if d != [] {
      var front := d[..|d| - 1];
      assert Value(d) / 2 == Value(front);
      assert Value(d) % 2 == (if d[|d| - 1] then 1 else 0);
      DigitsOfValue(front);
      assert d == front + [d[|d| - 1]];
    }
  }
}

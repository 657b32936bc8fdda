/** The few facts about quotients and remainders that the other modules need. */
module Arithmetic {

  lemma SmallMultiple(d: int, m: int)
    requires m > 0 && -m < d * m < m
    ensures d == 0
  {
  }

  /** A quotient and a remainder in range are the quotient and the remainder. */
  lemma Divided(n: int, q: int, r: int, m: int)
    requires m > 0 && 0 <= r < m && n == q * m + r
    ensures n / m == q && n % m == r
  {
    var d := n / m - q;
    assert d * m == r - n % m by {
      assert n == m * (n / m) + n % m;
      assert d * m == m * (n / m) - q * m;
    }
    SmallMultiple(d, m);
  }

  /** Two bit fields side by side come apart again. */
  lemma TwoFields(high: nat, low: nat, m: nat)
    requires low < m
    ensures (high * m + low) / m == high && (high * m + low) % m == low
  {
    Divided(high * m + low, high, low, m);
  }

  /** Multiples of the modulus do not change the remainder. */
  lemma AddMultiple(a: int, q: int, m: int)
    requires m > 0
    ensures (a + q * m) % m == a % m
  {
    var k := a / m;
    assert a == m * k + a % m;
    assert (k + q) * m == m * k + q * m;
    Divided(a + q * m, k + q, a % m, m);
  }
}

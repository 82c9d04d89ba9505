/** Division: C's, and the facts about quotients the proofs share. */
module Arith {
  /** C division and remainder: towards zero. */
  function Quot(a: int, b: int): int
    requires b > 0
  {
    if a >= 0 then a / b else -((-a) / b)
  }

  function Rem(a: int, b: int): int
    requires b > 0
  {
    a - Quot(a, b) * b
  }

  lemma AtLeastOne(a: int, b: int)
    requires a >= 1 && b > 0
    ensures a * b >= b
  {
  }

  /** Quotient and remainder are the only pair that fits. */
  lemma DivModOf(m: int, d: int, b: int)
    requires b > 0 && 0 <= d < b
    ensures (m * b + d) / b == m && (m * b + d) % b == d
  {
    var x := m * b + d;
    var q, r := x / b, x % b;
    assert q * b + r == x;
    assert (q - m) * b == d - r;
    if q > m {
      AtLeastOne(q - m, b);
    } else if q < m {
      AtLeastOne(m - q, b);
    }
  }

  lemma DivFacts(n: nat, b: int)
    requires b >= 2
    ensures n / b * b + n % b == n && 0 <= n % b < b && 0 <= n / b
    ensures n > 0 ==> n / b < n
    ensures n >= b ==> n / b > 0
    ensures n < b ==> n / b == 0
  {
    var q := n / b;
    assert q * b + n % b == n;
    if q > 0 {
      assert q * b >= q * 2;
    } else if q < 0 {
      AtLeastOne(-q, b);
    }
  }

  /** C's quotient and remainder, corrected below zero, are the mathematical ones. */
  lemma FloorCorrection(a: int, b: int)
    requires b > 1
    ensures Rem(a, b) >= 0 ==> Quot(a, b) == a / b && Rem(a, b) == a % b
    ensures Rem(a, b) < 0 ==> Quot(a, b) - 1 == a / b && Rem(a, b) + b == a % b
    ensures -b < Rem(a, b) < b
  {
    if a < 0 {
      NegativeQuotient(-a, b);
    }
  }

  lemma NegativeQuotient(n: int, b: int)
    requires b > 1 && n >= 0
    ensures n % b == 0 ==> (-n) / b == -(n / b) && (-n) % b == 0
    ensures n % b > 0 ==> (-n) / b == -(n / b) - 1 && (-n) % b == b - n % b
  {
    var q, r := n / b, n % b;
    assert q * b + r == n;
    if r == 0 {
      Opposite(q, -q, b);
      DivModOf(-q, 0, b);
    } else {
      Opposite(q, -q - 1, b);
      DivModOf(-q - 1, b - r, b);
    }
  }

  lemma Opposite(q: int, m: int, b: int)
    ensures m * b == (m + q) * b - q * b
  {
  }
}

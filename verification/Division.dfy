/** Facts about division by a variable divisor. */
module Division {

  lemma Multiples(k: int, d: int)
    requires d > 0
    ensures k >= 1 ==> k * d >= d
    ensures k <= -1 ==> k * d <= -d
  {
    if k >= 1 {
      assert k * d == d + (k - 1) * d;
    } else if k <= -1 {
      assert k * d == -d + (k + 1) * d;
    }
  }

  /** The quotient and remainder that division gives. */
  lemma Divided(n: int, d: int)
    requires d > 0
    ensures n == n / d * d + n % d && 0 <= n % d < d
  {
  }

  /** Quotient and remainder are the only ones there are. */
  lemma QuotientUnique(n: int, d: int, q: int, r: int)
    requires 0 <= r < d && n == q * d + r
    ensures n / d == q && n % d == r
  {
    Divided(n, d);
    Difference(n / d, n % d, q, r, d);
  }

  lemma Difference(q1: int, r1: int, q2: int, r2: int, d: int)
    requires 0 <= r1 < d && 0 <= r2 < d && q1 * d + r1 == q2 * d + r2
    ensures q1 == q2 && r1 == r2
  {
    Multiples(q1 - q2, d);
    assert (q1 - q2) * d == r2 - r1;
  }

  function Quotient(n: nat, d: nat): nat
    requires d > 0
  {
    QuotientNonnegative(n, d);
    n / d
  }

  lemma QuotientNonnegative(n: nat, d: nat)
    requires d > 0
    ensures n / d >= 0
  {
    Divided(n, d);
    Multiples(n / d, d);
  }

  lemma DivideTwice(n: nat, a: nat, b: nat)
    requires a > 0 && b > 0
    ensures n / a / b == n / (a * b)
  {
    Divided(n, a);
    Divided(n / a, b);
    Combine(n, a, b, n / a / b, n / a % b, n % a);
  }

  lemma Combine(n: int, a: int, b: int, q: int, d: int, r: int)
    requires 0 <= d < b && 0 <= r < a && n == (q * b + d) * a + r
    ensures a * b > 0 && n / (a * b) == q
  {
    Regroup(a, b, q, d, r);
    QuotientUnique(n, a * b, q, d * a + r);
  }

  lemma Regroup(a: int, b: int, q: int, d: int, r: int)
    requires 0 <= d < b && 0 <= r < a
    ensures (q * b + d) * a + r == q * (a * b) + (d * a + r)
    ensures 0 <= d * a + r < a * b
  {
    assert q * b * a == q * (a * b);
    Multiples(b - d, a);
    assert (b - d) * a == a * b - d * a;
  }
}

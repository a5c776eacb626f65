/** Quotients and rests of natural numbers. */
module Division {
  /** Division has one quotient and one rest. */
  lemma QuotientAndRest(n: nat, m: nat, q: nat, r: nat)
    requires r < m && n == m * q + r
    ensures n / m == q && n % m == r
  {
    OneQuotient(m, n / m, n % m, q, r);
  }

  lemma OneQuotient(m: nat, q: nat, r: nat, k: nat, rest: nat)
    requires r < m && rest < m && m * q + r == m * k + rest
    ensures q == k && r == rest
  {
    NextMultiple(m, q, k);
    NextMultiple(m, k, q);
  }

  lemma NextMultiple(m: nat, a: nat, b: nat)
    ensures a < b ==> m * a + m <= m * b
  {
    if a < b {
      assert m * b == m * a + m * (b - a);
      AtLeast(m, b - a);
    }
  }

  lemma AtLeast(m: nat, d: nat)
    requires d >= 1
    ensures m * d >= m
  {
  }
}

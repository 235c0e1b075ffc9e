/** Quotients and remainders of natural numbers. */
module IntFacts {
  lemma ProductAtMost(a: nat, b: nat, m: nat)
    requires a <= b
    ensures a * m <= b * m
  {}

  /** The division of `v` by `m` is determined by any decomposition with a small remainder. */
  lemma DivisionIs(v: nat, m: nat, a: nat, r: nat)
    requires r < m && v == a * m + r
    ensures v / m == a && v % m == r
  {
    var q := v / m;
    assert v == q * m + v % m;
    assert (q + 1) * m == q * m + m && (a + 1) * m == a * m + m;
    if q < a {
      ProductAtMost(q + 1, a, m);
    } else if q > a {
      ProductAtMost(a + 1, q, m);
    }
  }
}

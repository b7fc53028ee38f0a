/** Small facts about products and quotients that the solver does not find alone. */
module Arithmetic {
  lemma {:induction false} MultiplesApart(a: nat, i: nat, j: nat)
    requires i < j
    ensures i * a + a <= j * a
  {
    if i + 1 < j {
      MultiplesApart(a, i, j - 1);
      assert j * a == (j - 1) * a + a;
    } else {
      assert j * a == (i + 1) * a == i * a + a;
    }
  }

  /** The quotient is the number whose multiple leaves less than the divisor. */
  lemma QuotientIs(x: nat, n: nat, q: nat)
    requires n > 0 && q * n <= x < q * n + n
    ensures x / n == q
  {
    var p := x / n;
    assert p * n <= x < p * n + n;
    if p < q {
      MultiplesApart(n, p, q);
    } else if q < p {
      MultiplesApart(n, q, p);
    }
  }
}

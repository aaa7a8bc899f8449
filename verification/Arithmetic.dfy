/** Products and quotients of natural numbers that the solver does not find on its own. */
module Arithmetic {

  lemma {:induction false} ProductStep(a: nat, b: nat, p: nat)
    requires a < b
    ensures a * p + p <= b * p
  {
    if a + 1 == b {
    } else {
      ProductStep(a, b - 1, p);
    }
    assert b * p == (b - 1) * p + p;
  }

  lemma QuotientBounds(x: nat, d: nat)
    requires d > 0
    ensures x / d * d <= x < x / d * d + d
  {
  }

  lemma DivModUnique(x: nat, d: nat, q: nat, r: nat)
    requires d > 0 && x == q * d + r && r < d
    ensures x / d == q && x % d == r
  {
    QuotientBounds(x, d);
    if q < x / d {
      ProductStep(q, x / d, d);
    } else if x / d < q {
      ProductStep(x / d, q, d);
    }
  }

  lemma DividesFactor(n: nat, a: nat, b: nat)
    requires a > 0 && b > 0 && a * b > 0 && n % (a * b) == 0
    ensures n % a == 0
  {
    var q := n / (a * b);
    assert n == q * (a * b);
    assert n == (q * b) * a;
    DivModUnique(n, a, q * b, 0);
  }

  lemma QuotientAtMost(total: nat, d: nat, limit: nat)
    requires d > 0 && limit * d >= total
    ensures total / d <= limit
  {
    QuotientBounds(total, d);
    if limit < total / d {
      ProductStep(limit, total / d, d);
    }
  }
}

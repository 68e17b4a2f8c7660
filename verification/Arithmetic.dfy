/** Facts about products and quotients that the solver should not rediscover. */
module Arithmetic {

  lemma MultiplyUp(a: nat, b: nat, c: nat)
    ensures a <= b ==> a * c <= b * c
  {
  }

  lemma SmallRemainder(x: nat, m: nat)
    ensures x < m ==> x % m == x
  {
  }

  lemma QuotientIs(y: nat, q: nat, r: nat, p: nat)
    requires y == q * p + r && r < p
    ensures y / p == q
  {
    MultiplyUp(y / p + 1, q, p);
    MultiplyUp(q + 1, y / p, p);
    assert y == y / p * p + y % p;
  }
}

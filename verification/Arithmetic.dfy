/** Facts about products and quotients that the solver does not find on its own. */
module Arithmetic {

  lemma CancelFactor(x: int, y: int, d: nat)
    requires x * d < y * d
    ensures x < y
  {}

  lemma ProductGrows(x: int, y: int, d: nat)
    requires x <= y
    ensures x * d <= y * d
  {}

  lemma Distribute(c: int, q: int, d: int)
    ensures (c + q) * d == c * d + q * d
  {}

  lemma DivisionBounds(a: nat, d: nat)
    requires d > 0
    ensures (a / d) * d <= a < (a / d + 1) * d
  {
    assert a == (a / d) * d + a % d;
  }

  lemma QuotientsOrdered(a: nat, b: nat, d: nat, qa: nat, qb: nat)
    requires qa * d <= a <= b < (qb + 1) * d
    ensures qa <= qb
  {
    CancelFactor(qa, qb + 1, d);
  }

  lemma QuotientIs(a: nat, d: nat, q: nat)
    requires d > 0 && q * d <= a < (q + 1) * d
    ensures a / d == q
  {
    hide Quotient;
    QuotientBounds(a, d);
    OneQuotient(a, d, q, Quotient(a, d));
    QuotientIsDivision(a, d);
  }

  lemma QuotientIsDivision(a: nat, d: nat)
    requires d > 0
    ensures Quotient(a, d) == a / d
  {}

  lemma OneQuotient(a: nat, d: nat, q: nat, r: nat)
    requires q * d <= a < (q + 1) * d && r * d <= a < (r + 1) * d
    ensures q == r
  {
    CancelFactor(q, r + 1, d);
    CancelFactor(r, q + 1, d);
  }

  function Quotient(a: nat, d: nat): (q: nat)
    requires d > 0
  {
    a / d
  }

  function Remainder(a: nat, d: nat): (r: nat)
    requires d > 0
  {
    a % d
  }

  lemma QuotientRemainder(a: nat, d: nat)
    requires d > 0
    ensures a == Quotient(a, d) * d + Remainder(a, d) && Remainder(a, d) < d
  {
    assert a == (a / d) * d + a % d;
  }

  lemma RemainderOfSmall(a: nat, d: nat)
    requires a < d
    ensures Remainder(a, d) == a
  {}

  lemma QuotientBounds(a: nat, d: nat)
    requires d > 0
    ensures Quotient(a, d) * d <= a < (Quotient(a, d) + 1) * d
  {
    DivisionBounds(a, d);
  }

  lemma QuotientGrows(a: nat, b: nat, d: nat)
    requires a <= b && d > 0
    ensures Quotient(a, d) <= Quotient(b, d)
  {
    hide Quotient;
    QuotientBounds(a, d);
    QuotientBounds(b, d);
    QuotientsOrdered(a, b, d, Quotient(a, d), Quotient(b, d));
  }

  lemma DivisionGrows(a: nat, b: nat, d: nat)
    requires a <= b && d > 0
    ensures a / d <= b / d
  {
    QuotientGrows(a, b, d);
  }
}

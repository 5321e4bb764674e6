/** Sizes of sets of integers given by bounds on a multiple. */
module Counting {
  import opened Arithmetic

  predicate Within(x: int, lo: int, hi: int) {
    lo <= x < hi
  }

  function Range(lo: int, hi: int): (r: set<int>)
    ensures forall x :: x in r <==> lo <= x < hi
  {
    set x | lo <= x < hi && Within(x, lo, hi)
  }

  lemma {:induction false} RangeSize(lo: int, hi: int)
    requires lo <= hi
    ensures |Range(lo, hi)| == hi - lo
    decreases hi - lo
  {
    if lo < hi {
      RangeSize(lo, hi - 1);
      assert Range(lo, hi) == Range(lo, hi - 1) + {hi - 1};
    } else {
      assert Range(lo, hi) == {};
    }
  }

  /** The least x with x * d >= a. */
  function Ceiling(a: nat, d: nat): (c: int)
    requires d > 0
    ensures (c - 1) * d < a <= c * d
  {
    DivisionBounds(a + d - 1, d);
    (a + d - 1) / d
  }

  lemma MultipleAtLeast(x: int, a: nat, d: nat)
    requires d > 0
    ensures x * d >= a <==> x >= Ceiling(a, d)
  {
    var c := Ceiling(a, d);
    hide Ceiling;
    if x >= c {
      ProductGrows(c, x, d);
    } else {
      ProductGrows(x, c - 1, d);
    }
  }

  /** The numbers whose multiple of d lies in a range starting at `a`. */
  lemma MultiplesAre(words: set<int>, a: nat, b: nat, d: nat)
    requires d > 0 && a <= b
    requires forall x :: x in words <==> a <= x * d < b
    ensures words == Range(Ceiling(a, d), Ceiling(b, d))
    ensures |words| == Ceiling(b, d) - Ceiling(a, d) >= 0
  {
    hide Ceiling;
    forall x
      ensures x in words <==> Ceiling(a, d) <= x < Ceiling(b, d)
    {
      MultipleAtLeast(x, a, d);
      MultipleAtLeast(x, b, d);
    }
    assert words == Range(Ceiling(a, d), Ceiling(b, d));
    MultipleAtLeast(Ceiling(b, d), a, d);
    RangeSize(Ceiling(a, d), Ceiling(b, d));
  }

  /** q multiples of d lie in any range of length q * d. */
  lemma CeilingStep(a: nat, q: nat, d: nat)
    requires d > 0
    ensures Ceiling(a + q * d, d) == Ceiling(a, d) + q
  {
    var c, e := Ceiling(a, d), Ceiling(a + q * d, d);
    hide Ceiling;
    Distribute(c, q, d);
    Distribute(c - 1, q, d);
    CancelFactor(e - 1, c + q, d);
    CancelFactor(c - 1 + q, e, d);
  }
}

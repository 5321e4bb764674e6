/** How the m words of a bit generator spread over d results, when a word x gives
    the result x * d / m and is rejected when x * d % m is below a threshold. */
module WordCounts {
  import opened Arithmetic
  import opened Counting

  function Upper(x: nat, d: nat, m: nat): nat
    requires m > 0
  {
    x * d / m
  }

  function Lower(x: nat, d: nat, m: nat): nat
    requires m > 0
  {
    x * d % m
  }

  /** The accepted words that give the result k. */
  function WordsFor(k: nat, d: nat, m: nat, threshold: nat): set<int>
    requires m > 0
  {
    set x: nat | x < m && Upper(x, d, m) == k && Lower(x, d, m) >= threshold :: x as int
  }

  function Rejected(d: nat, m: nat, threshold: nat): set<int>
    requires m > 0
  {
    set x: nat | x < m && Lower(x, d, m) < threshold :: x as int
  }

  /** Every result is given by equally many accepted words. */
  ghost predicate Fair(d: nat, m: nat, threshold: nat)
    requires m > 0
  {
    exists c: nat :: FairBy(c, d, m, threshold)
  }

  ghost predicate FairBy(c: nat, d: nat, m: nat, threshold: nat)
    requires m > 0
  {
    forall k: nat | k < d :: |WordsFor(k, d, m, threshold)| == c
  }

  lemma UpperLower(x: nat, d: nat, m: nat, k: nat)
    requires m > 0
    ensures Upper(x, d, m) == k <==> k * m <= x * d < (k + 1) * m
    ensures Upper(x, d, m) * m + Lower(x, d, m) == x * d && Lower(x, d, m) < m
  {
    DivisionBounds(x * d, m);
    if k * m <= x * d < (k + 1) * m {
      QuotientIs(x * d, m, k);
    }
  }

  lemma {:induction false} WordIs(x: int, k: nat, d: nat, m: nat, threshold: nat)
    requires m > 0 && k < d
    ensures x in WordsFor(k, d, m, threshold) <==> k * m + threshold <= x * d < (k + 1) * m
  {
    hide Upper, Lower;
    if k * m + threshold <= x * d < (k + 1) * m {
      ProductGrows(k + 1, d, m);
      CancelFactor(-1, x, d);
      CancelFactor(x, m, d);
      UpperLower(x, d, m, k);
    }
    if x in WordsFor(k, d, m, threshold) {
      UpperLower(x, d, m, k);
    }
  }

  /** The words for a result, when the threshold leaves room for any. */
  lemma WordsForSize(k: nat, d: nat, m: nat, threshold: nat)
    requires 0 < m && k < d && threshold <= m
    ensures |WordsFor(k, d, m, threshold)| == Ceiling((k + 1) * m, d) - Ceiling(k * m + threshold, d)
  {
    hide WordsFor, Ceiling;
    Distribute(k, 1, m);
    forall x
      ensures x in WordsFor(k, d, m, threshold) <==> k * m + threshold <= x * d < (k + 1) * m
    {
      WordIs(x, k, d, m, threshold);
    }
    MultiplesAre(WordsFor(k, d, m, threshold), k * m + threshold, (k + 1) * m, d);
  }

  /** With the threshold m % d, each result has exactly m / d words. */
  lemma ExactShare(k: nat, d: nat, m: nat)
    requires 0 < m && k < d
    ensures |WordsFor(k, d, m, m % d)| == m / d
  {
    hide WordsFor, Ceiling;
    WordsForSize(k, d, m, m % d);
    CeilingStep(k * m + m % d, m / d, d);
    Distribute(k, 1, m);
    assert m == (m / d) * d + m % d;
  }

  // Rejected words.

  function AcceptedBelow(n: nat, d: nat, m: nat, threshold: nat): set<int>
    requires m > 0
  {
    set x: nat | x < m && Upper(x, d, m) < n && Lower(x, d, m) >= threshold :: x as int
  }

  lemma {:induction false} AcceptedSize(n: nat, d: nat, m: nat)
    requires 0 < m && n <= d && 0 < d
    ensures |AcceptedBelow(n, d, m, m % d)| == n * (m / d)
  {
    hide Upper, Lower;
    var t := m % d;
    if n == 0 {
      assert AcceptedBelow(0, d, m, t) == {};
    } else {
      AcceptedSize(n - 1, d, m);
      ExactShare(n - 1, d, m);
      assert AcceptedBelow(n, d, m, t) == AcceptedBelow(n - 1, d, m, t) + WordsFor(n - 1, d, m, t);
      Distribute(n - 1, 1, m / d);
    }
  }

  /** Exactly m % d words are rejected, fewer than half of them. */
  lemma RejectedSize(d: nat, m: nat)
    requires 0 < d < m
    ensures |Rejected(d, m, m % d)| == m % d && 2 * (m % d) < m
  {
    var t := m % d;
    AcceptedSize(d, d, m);
    RangeSize(0, m);
    UppersBelow(d, m);
    AcceptedOrRejected(d, m, t);
    assert m == (m / d) * d + t;
    SmallRemainder(d, m, m / d);
  }

  lemma UppersBelow(d: nat, m: nat)
    requires 0 < d && 0 < m
    ensures forall x: nat | x < m :: Upper(x, d, m) < d
  {
    hide Upper;
    forall x: nat | x < m
      ensures Upper(x, d, m) < d
    {
      UpperLower(x, d, m, Upper(x, d, m));
      ProductGrows(x, m - 1, d);
      CancelFactor(Upper(x, d, m), d, m);
    }
  }

  lemma AcceptedOrRejected(d: nat, m: nat, t: nat)
    requires 0 < m && forall x: nat | x < m :: Upper(x, d, m) < d
    ensures |Range(0, m)| == |AcceptedBelow(d, d, m, t)| + |Rejected(d, m, t)|
  {
    hide Upper, Lower;
    forall x | x in Range(0, m)
      ensures x in AcceptedBelow(d, d, m, t) + Rejected(d, m, t)
    {
      assert Upper(x, d, m) < d;
    }
    assert Range(0, m) == AcceptedBelow(d, d, m, t) + Rejected(d, m, t);
    assert AcceptedBelow(d, d, m, t) !! Rejected(d, m, t);
  }

  lemma SmallRemainder(d: nat, m: nat, q: nat)
    requires 0 < d < m && q == m / d
    ensures 2 * (m % d) < m
  {
    assert m == q * d + m % d;
    if q >= 1 {
      ProductGrows(1, q, d);
    }
  }

  // Without a threshold.

  /** Nothing is rejected, and shares differ by at most one. */
  lemma RoundedShare(k: nat, d: nat, m: nat)
    requires 0 < m && k < d
    ensures m / d <= |WordsFor(k, d, m, 0)| <= m / d + 1
  {
    hide WordsFor;
    DivisionBounds(m, d);
    RoundedShareOf(k, d, m, m / d);
  }

  lemma RoundedShareOf(k: nat, d: nat, m: nat, q: nat)
    requires 0 < m && k < d && q * d <= m < (q + 1) * d
    ensures q <= |WordsFor(k, d, m, 0)| <= q + 1
  {
    hide WordsFor, Ceiling;
    WordsForSize(k, d, m, 0);
    Distribute(k, 1, m);
    RoundedCeiling(k * m, (k + 1) * m, q, d);
  }

  lemma RoundedCeiling(a: nat, b: nat, q: nat, d: nat)
    requires 0 < d && a + q * d <= b < a + (q + 1) * d
    ensures q <= Ceiling(b, d) - Ceiling(a, d) <= q + 1
  {
    hide Ceiling;
    CeilingStep(a, q, d);
    CeilingStep(a, q + 1, d);
    CeilingGrows(a + q * d, b, d);
    CeilingGrows(b, a + (q + 1) * d, d);
  }

  lemma CeilingGrows(a: nat, b: nat, d: nat)
    requires 0 < d && a <= b
    ensures Ceiling(a, d) <= Ceiling(b, d)
  {
    hide Ceiling;
    MultipleAtLeast(Ceiling(b, d), a, d);
  }

  lemma {:induction false} EqualSharesAddUp(c: nat, n: nat, d: nat, m: nat)
    requires 0 < m && 0 < d && n <= d && FairBy(c, d, m, 0)
    ensures Ceiling(n * m, d) == n * c
  {
    if n == 0 {
      MultipleAtLeast(0, 0, d);
      MultipleAtLeast(-1, 0, d);
    } else {
      hide Ceiling, WordsFor;
      EqualSharesAddUp(c, n - 1, d, m);
      WordsForSize(n - 1, d, m, 0);
      assert |WordsFor(n - 1, d, m, 0)| == c;
      Distribute(n - 1, 1, c);
    }
  }

  /** Without a threshold the shares are equal only when d divides m. */
  lemma FairWithoutRejection(d: nat, m: nat)
    requires 0 < d && 0 < m
    ensures Fair(d, m, 0) <==> m % d == 0
  {
    if m % d == 0 {
      forall k: nat | k < d
        ensures |WordsFor(k, d, m, 0)| == m / d
      {
        ExactShare(k, d, m);
      }
      assert FairBy(m / d, d, m, 0);
    }
    if Fair(d, m, 0) {
      var c: nat :| FairBy(c, d, m, 0);
      EqualSharesAddUp(c, d, d, m);
      CeilingStep(0, m, d);
      MultipleAtLeast(0, 0, d);
      MultipleAtLeast(-1, 0, d);
      MultipleHasNoRemainder(c, d, m);
    }
  }

  lemma MultipleHasNoRemainder(c: nat, d: nat, m: nat)
    requires 0 < d && m == d * c
    ensures m % d == 0
  {
    QuotientIs(m, d, c);
    assert m == (m / d) * d + m % d;
  }
}

/** The order in which the shrinker compares choice sequences: shorter first,
    then lexicographically smaller. */
module Shortlex {
  import opened Words

  /** `std::lexicographical_compare` */
  predicate LexLess(a: Choices, b: Choices) {
    if |b| == 0 then false
    else if |a| == 0 then true
    else if a[0] != b[0] then a[0] < b[0]
    else LexLess(a[1..], b[1..])
  }

  predicate IsSimpler(candidate: Choices, current: Choices) {
    if |candidate| != |current| then |candidate| < |current|
    else LexLess(candidate, current)
  }

  /** The number of sequences simpler than `s`: bijective numeration in base
      2^64. */
  ghost function Rank(s: Choices): nat {
    if s == [] then 0
    else Rank(s[..|s| - 1]) * TWO_TO_64 + s[|s| - 1] as int + 1
  }

  /** Sequences of one length compare by all but the last choice, then by the
      last one. */
  lemma {:induction false} LexByLast(a: Choices, b: Choices)
    requires |a| == |b| > 0
    ensures var n := |a| - 1;
            LexLess(a, b) <==> LexLess(a[..n], b[..n]) || (a[..n] == b[..n] && a[n] < b[n])
  {
    var n := |a| - 1;
    if n > 0 && a[0] == b[0] {
      LexByLast(a[1..], b[1..]);
      assert a[1..][..n - 1] == a[..n][1..] && b[1..][..n - 1] == b[..n][1..];
      assert a[..n] == [a[0]] + a[..n][1..] && b[..n] == [b[0]] + b[..n][1..];
    } else if n == 0 {
      assert a[..n] == b[..n] == [];
    }
  }

  lemma {:induction false} SimplerRanksLower(a: Choices, b: Choices)
    requires IsSimpler(a, b)
    ensures Rank(a) < Rank(b)
    decreases |b|
  {
    if a == [] {
    } else {
      var fa, fb := a[..|a| - 1], b[..|b| - 1];
      if |a| == |b| {
        LexByLast(a, b);
      }
      if IsSimpler(fa, fb) {
        SimplerRanksLower(fa, fb);
      }
    }
  }

  lemma {:induction false} Trichotomy(a: Choices, b: Choices)
    ensures a == b || IsSimpler(a, b) || IsSimpler(b, a)
    decreases |a|
  {
    if |a| == |b| > 0 {
      Trichotomy(a[1..], b[1..]);
      assert a == [a[0]] + a[1..] && b == [b[0]] + b[1..];
    }
  }

  /** Shortlex is the order of the natural numbers: a strict total order with
      no infinite descent. */
  lemma IsSimplerIsRankOrder(a: Choices, b: Choices)
    ensures IsSimpler(a, b) <==> Rank(a) < Rank(b)
    ensures a == b <==> Rank(a) == Rank(b)
  {
    Trichotomy(a, b);
    if IsSimpler(a, b) {
      SimplerRanksLower(a, b);
    }
    if IsSimpler(b, a) {
      SimplerRanksLower(b, a);
    }
  }

  /** No rank is skipped, so `Rank(s)` counts the sequences simpler than `s`. */
  lemma {:induction false} EveryRankIsTaken(n: nat)
    ensures exists s :: Rank(s) == n
  {
    if n == 0 {
      assert Rank([]) == 0;
    } else {
      EveryRankIsTaken((n - 1) / TWO_TO_64);
      var front :| Rank(front) == (n - 1) / TWO_TO_64;
      var s := front + [((n - 1) % TWO_TO_64) as uint64];
      assert s[..|s| - 1] == front;
      assert Rank(s) == n;
    }
  }

  /** What makes a candidate of the same length simpler: its first difference
      is a smaller choice. */
  lemma {:induction false} SimplerByFirstDifference(a: Choices, b: Choices, k: nat)
    requires |a| == |b| && k < |a|
    requires a[..k] == b[..k] && a[k] < b[k]
    ensures IsSimpler(a, b)
  {
    if k == 0 {
    } else {
      assert a[0] == a[..k][0] == b[..k][0] == b[0];
      assert a[1..][..k - 1] == a[..k][1..] && b[1..][..k - 1] == b[..k][1..];
      SimplerByFirstDifference(a[1..], b[1..], k - 1);
    }
  }

  /** Shorter, or of the same length and smaller at the first difference. */
  lemma {:induction false} IsSimplerMeans(a: Choices, b: Choices)
    ensures IsSimpler(a, b) <==>
      || |a| < |b|
      || (|a| == |b| && exists k | 0 <= k < |a| :: a[..k] == b[..k] && a[k] < b[k])
  {
    if |a| == |b| && IsSimpler(a, b) {
      var k := FirstDifference(a, b);
      assert a[..k] == b[..k] && a[k] < b[k];
    }
    if |a| == |b| {
      forall k | 0 <= k < |a| && a[..k] == b[..k] && a[k] < b[k]
        ensures IsSimpler(a, b)
      {
        SimplerByFirstDifference(a, b, k);
      }
    }
  }

  lemma {:induction false} FirstDifference(a: Choices, b: Choices) returns (k: nat)
    requires |a| == |b| && IsSimpler(a, b)
    ensures k < |a| && a[..k] == b[..k] && a[k] < b[k]
  {
    if a[0] != b[0] {
      k := 0;
    } else {
      var l := FirstDifference(a[1..], b[1..]);
      k := l + 1;
      assert a[..k] == [a[0]] + a[1..][..l] && b[..k] == [b[0]] + b[1..][..l];
    }
  }
}

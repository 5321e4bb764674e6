/** Whether two ranges are permutations of each other, by counting. */
module Permutation {

  ghost predicate Equivalence<T(!new)>(cmp: (T, T) -> bool) {
    && (forall x :: cmp(x, x))
    && (forall x, y :: cmp(x, y) ==> cmp(y, x))
    && (forall x, y, z :: cmp(x, y) && cmp(y, z) ==> cmp(x, z))
  }

  /** How many elements compare equal to `value`. */
  function Count<T>(s: seq<T>, value: T, cmp: (T, T) -> bool): nat {
    if s == [] then 0
    else Count(s[..|s| - 1], value, cmp) + if cmp(s[|s| - 1], value) then 1 else 0
  }

  /** Every class of equal elements occurs as often in both sequences. */
  ghost predicate SameCounts<T(!new)>(a: seq<T>, b: seq<T>, cmp: (T, T) -> bool) {
    forall value :: Count(a, value, cmp) == Count(b, value, cmp)
  }

  lemma {:induction false} CountAppend<T>(a: seq<T>, b: seq<T>, value: T, cmp: (T, T) -> bool)
    ensures Count(a + b, value, cmp) == Count(a, value, cmp) + Count(b, value, cmp)
  {
    if b == [] {
      assert a + b == a;
    } else {
      var n := |b| - 1;
      assert (a + b)[..|a| + n] == a + b[..n];
      CountAppend(a, b[..n], value, cmp);
    }
  }

  lemma {:induction false} CountNone<T>(s: seq<T>, value: T, cmp: (T, T) -> bool)
    ensures Count(s, value, cmp) == 0 <==> forall i | 0 <= i < |s| :: !cmp(s[i], value)
    ensures Count(s, value, cmp) <= |s|
  {
    if s == [] {
    } else {
      CountNone(s[..|s| - 1], value, cmp);
    }
  }

  /** Elements of one class are counted alike. */
  lemma {:induction false} CountOfClass<T(!new)>(s: seq<T>, x: T, y: T, cmp: (T, T) -> bool)
    requires Equivalence(cmp) && cmp(x, y)
    ensures Count(s, x, cmp) == Count(s, y, cmp)
  {
    if s == [] {
    } else {
      CountOfClass(s[..|s| - 1], x, y, cmp);
      var last := s[|s| - 1];
      assert cmp(y, x);
      assert cmp(last, x) <==> cmp(last, y);
    }
  }

  /** `find_sentinel` */
  method FindSentinel<T>(s: seq<T>, start: nat, end: nat, value: T, cmp: (T, T) -> bool) returns (at: nat)
    requires start <= end <= |s|
    ensures start <= at <= end && forall i | start <= i < at :: !cmp(s[i], value)
    ensures at < end ==> cmp(s[at], value)
  {
    at := start;
    while at != end
      invariant start <= at <= end && forall i | start <= i < at :: !cmp(s[i], value)
      decreases end - at
    {
      if cmp(s[at], value) {
        break;
      }
      at := at + 1;
    }
  }

  /** `count_sentinel` */
  method CountSentinel<T>(s: seq<T>, start: nat, end: nat, value: T, cmp: (T, T) -> bool) returns (count: nat)
    requires start <= end <= |s|
    ensures count == Count(s[start..end], value, cmp)
  {
    count := 0;
    var at := start;
    while at != end
      invariant start <= at <= end && count == Count(s[start..at], value, cmp)
      decreases end - at
    {
      assert s[start..at + 1][..at - start] == s[start..at];
      if cmp(s[at], value) {
        count := count + 1;
      }
      at := at + 1;
    }
  }

  /** `check_element_counts`: only the first element of each class in `a` is looked
      at, and counted from there. */
  method CheckElementCounts<T(!new)>(a: seq<T>, b: seq<T>, cmp: (T, T) -> bool) returns (same: bool)
    requires Equivalence(cmp) && |a| == |b|
    ensures same <==> SameCounts(a, b, cmp)
  {
    var cursor := 0;
    while cursor != |a|
      invariant cursor <= |a|
      invariant forall i | 0 <= i < cursor :: Count(a, a[i], cmp) == Count(b, a[i], cmp)
      decreases |a| - cursor
    {
      var found := FindSentinel(a, 0, cursor, a[cursor], cmp);
      if found == cursor {
        var countInB := CountSentinel(b, 0, |b|, a[cursor], cmp);
        FirstOfClass(a, cursor, cmp);
        assert b[..|b|] == b;
        if countInB == 0 {
          assert Count(a, a[cursor], cmp) != Count(b, a[cursor], cmp);
          return false;
        }
        var countInA := CountSentinel(a, cursor, |a|, a[cursor], cmp);
        assert a[cursor..|a|] == a[cursor..];
        if countInA != countInB {
          assert Count(a, a[cursor], cmp) != Count(b, a[cursor], cmp);
          return false;
        }
      } else {
        CountOfClass(a, a[found], a[cursor], cmp);
        CountOfClass(b, a[found], a[cursor], cmp);
      }
      cursor := cursor + 1;
    }
    CountsOfElementsSuffice(a, b, cmp);
    return true;
  }

  /** Nothing before the first element of a class is counted with it. */
  lemma FirstOfClass<T(!new)>(a: seq<T>, cursor: nat, cmp: (T, T) -> bool)
    requires Equivalence(cmp) && cursor < |a|
    requires forall i | 0 <= i < cursor :: !cmp(a[i], a[cursor])
    ensures Count(a, a[cursor], cmp) == Count(a[cursor..], a[cursor], cmp) > 0
  {
    CountNone(a[..cursor], a[cursor], cmp);
    CountNone(a[cursor..], a[cursor], cmp);
    assert cmp(a[cursor..][0], a[cursor]);
    assert a == a[..cursor] + a[cursor..];
    CountAppend(a[..cursor], a[cursor..], a[cursor], cmp);
  }

  function Outside<T>(s: seq<T>, value: T, cmp: (T, T) -> bool): (rest: seq<T>)
    ensures |rest| + Count(s, value, cmp) == |s|
  {
    if s == [] then []
    else
      var rest := Outside(s[..|s| - 1], value, cmp);
      if cmp(s[|s| - 1], value) then rest else rest + [s[|s| - 1]]
  }

  lemma {:induction false} OutsideElements<T>(s: seq<T>, value: T, cmp: (T, T) -> bool)
    ensures forall x | x in Outside(s, value, cmp) :: x in s && !cmp(x, value)
  {
    if s == [] {
    } else {
      OutsideElements(s[..|s| - 1], value, cmp);
    }
  }

  /** Elements of different classes do not compare equal. */
  lemma ClassesDiffer<T(!new)>(x: T, y: T, value: T, cmp: (T, T) -> bool)
    requires Equivalence(cmp)
    ensures cmp(x, value) && !cmp(y, value) ==> !cmp(x, y)
    ensures cmp(value, y) && !cmp(x, y) ==> !cmp(x, value)
  {}

  lemma {:induction false} CountOutside<T(!new)>(s: seq<T>, value: T, other: T, cmp: (T, T) -> bool)
    requires Equivalence(cmp) && !cmp(other, value)
    ensures Count(Outside(s, value, cmp), other, cmp) == Count(s, other, cmp)
  {
    if s == [] {
    } else {
      var n := |s| - 1;
      var rest := Outside(s[..n], value, cmp);
      assert Outside(s, value, cmp) == if cmp(s[n], value) then rest else rest + [s[n]];
      assert Count(s, other, cmp) == Count(s[..n], other, cmp) + if cmp(s[n], other) then 1 else 0;
      hide *;
      CountOutside(s[..n], value, other, cmp);
      CountSnoc(rest, s[n], other, cmp);
      ClassesDiffer(s[n], other, value, cmp);
    }
  }

  lemma CountSnoc<T>(s: seq<T>, x: T, value: T, cmp: (T, T) -> bool)
    ensures Count(s + [x], value, cmp) == Count(s, value, cmp) + if cmp(x, value) then 1 else 0
  {
    assert (s + [x])[..|s|] == s;
  }

  /** When the lengths agree, equal counts of the elements of one sequence leave no
      room for others in the second. */
  lemma {:induction false} CountsOfElementsSuffice<T(!new)>(a: seq<T>, b: seq<T>, cmp: (T, T) -> bool)
    requires Equivalence(cmp) && |a| == |b|
    requires forall i | 0 <= i < |a| :: Count(a, a[i], cmp) == Count(b, a[i], cmp)
    ensures SameCounts(a, b, cmp)
    decreases |a|
  {
    if a == [] {
    } else {
      var x := a[0];
      var a', b' := Outside(a, x, cmp), Outside(b, x, cmp);
      CountNone(a, x, cmp);
      assert cmp(a[0], x);
      OutsideElements(a, x, cmp);
      forall i | 0 <= i < |a'|
        ensures Count(a', a'[i], cmp) == Count(b', a'[i], cmp)
      {
        CountOutside(a, x, a'[i], cmp);
        CountOutside(b, x, a'[i], cmp);
      }
      CountsOfElementsSuffice(a', b', cmp);
      forall value
        ensures Count(a, value, cmp) == Count(b, value, cmp)
      {
        if cmp(value, x) {
          CountOfClass(a, value, x, cmp);
          CountOfClass(b, value, x, cmp);
        } else {
          CountOutside(a, x, value, cmp);
          CountOutside(b, x, value, cmp);
          assert Count(a', value, cmp) == Count(b', value, cmp);
        }
      }
    }
  }

  lemma {:induction false} SameCountsSameLength<T(!new)>(a: seq<T>, b: seq<T>, cmp: (T, T) -> bool)
    requires Equivalence(cmp) && SameCounts(a, b, cmp)
    ensures |a| == |b|
    decreases |a| + |b|
  {
    if a == b == [] {
    } else {
      var x := if a != [] then a[0] else b[0];
      CountNone(a, x, cmp);
      CountNone(b, x, cmp);
      assert cmp(x, x);
      var a', b' := Outside(a, x, cmp), Outside(b, x, cmp);
      forall value
        ensures Count(a', value, cmp) == Count(b', value, cmp)
      {
        if cmp(value, x) {
          NoneOutside(a, x, value, cmp);
          NoneOutside(b, x, value, cmp);
        } else {
          CountOutside(a, x, value, cmp);
          CountOutside(b, x, value, cmp);
        }
      }
      assert Count(a, x, cmp) == Count(b, x, cmp) > 0;
      SameCountsSameLength(a', b', cmp);
    }
  }

  lemma NoneOutside<T(!new)>(s: seq<T>, x: T, value: T, cmp: (T, T) -> bool)
    requires Equivalence(cmp) && cmp(value, x)
    ensures Count(Outside(s, x, cmp), value, cmp) == 0
  {
    var rest := Outside(s, x, cmp);
    OutsideElements(s, x, cmp);
    forall i | 0 <= i < |rest|
      ensures !cmp(rest[i], value)
    {
      ClassesDiffer(rest[i], x, value, cmp);
    }
    CountNone(rest, value, cmp);
  }

  /** Elements that are pairwise equal can be dropped from the front of both. */
  lemma {:induction false} CommonPrefix<T(!new)>(a: seq<T>, b: seq<T>, n: nat, cmp: (T, T) -> bool)
    requires Equivalence(cmp) && n <= |a| && n <= |b|
    requires forall i | 0 <= i < n :: cmp(a[i], b[i])
    ensures SameCounts(a, b, cmp) <==> SameCounts(a[n..], b[n..], cmp)
  {
    forall value
      ensures Count(a, value, cmp) - Count(a[n..], value, cmp) == Count(b, value, cmp) - Count(b[n..], value, cmp)
    {
      assert a == a[..n] + a[n..] && b == b[..n] + b[n..];
      CountAppend(a[..n], a[n..], value, cmp);
      CountAppend(b[..n], b[n..], value, cmp);
      PairwiseEqual(a[..n], b[..n], value, cmp);
    }
  }

  lemma {:induction false} PairwiseEqual<T(!new)>(a: seq<T>, b: seq<T>, value: T, cmp: (T, T) -> bool)
    requires Equivalence(cmp) && |a| == |b| && forall i | 0 <= i < |a| :: cmp(a[i], b[i])
    ensures Count(a, value, cmp) == Count(b, value, cmp)
  {
    if a == [] {
    } else {
      var n := |a| - 1;
      PairwiseEqual(a[..n], b[..n], value, cmp);
      assert cmp(a[n], b[n]) && cmp(b[n], a[n]);
    }
  }

  /** `is_permutation`, for a comparator that is an equivalence. */
  method IsPermutation<T(!new)>(a: seq<T>, b: seq<T>, cmp: (T, T) -> bool) returns (yes: bool)
    requires Equivalence(cmp)
    ensures yes <==> SameCounts(a, b, cmp)
  {
    var n := 0;
    while n != |a| && n != |b| && cmp(a[n], b[n])
      invariant n <= |a| && n <= |b| && forall i | 0 <= i < n :: cmp(a[i], b[i])
      decreases |a| - n
    {
      n := n + 1;
    }
    CommonPrefix(a, b, n, cmp);
    if SameCounts(a, b, cmp) {
      SameCountsSameLength(a, b, cmp);
    }
    if n == |a| || n == |b| {
      assert n == |a| == |b| ==> a[n..] == b[n..];
      return n == |a| && n == |b|;
    }
    if |a| - n != |b| - n {
      return false;
    }
    yes := CheckElementCounts(a[n..], b[n..], cmp);
  }

  lemma {:induction false} CountIsMultiplicity<T(!new)>(s: seq<T>, value: T, cmp: (T, T) -> bool)
    requires forall x, y :: cmp(x, y) <==> x == y
    ensures Count(s, value, cmp) == multiset(s)[value]
  {
    if s == [] {
    } else {
      CountIsMultiplicity(s[..|s| - 1], value, cmp);
      assert s == s[..|s| - 1] + [s[|s| - 1]];
    }
  }

  /** With plain equality, equal counts mean equal multisets. */
  lemma SameCountsIsPermutation<T(!new)>(a: seq<T>, b: seq<T>, cmp: (T, T) -> bool)
    requires forall x, y :: cmp(x, y) <==> x == y
    ensures SameCounts(a, b, cmp) <==> multiset(a) == multiset(b)
  {
    forall value
      ensures Count(a, value, cmp) == multiset(a)[value] && Count(b, value, cmp) == multiset(b)[value]
    {
      CountIsMultiplicity(a, value, cmp);
      CountIsMultiplicity(b, value, cmp);
    }
  }
}

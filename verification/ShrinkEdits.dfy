/** The edits the shrinking passes try, and what it means that none of them
    helps any more. */
module ShrinkEdits {
  import opened Words
  import opened Shortlex

  /** `stillFails`: the answer to the k-th replay. An answer may depend on k, so
      that a flaky body is covered too. */
  type Oracle = (nat, Choices) -> Option<Choices>

  ghost predicate Deterministic(f: Oracle) {
    forall k: nat, c: Choices :: f(k, c) == f(0, c)
  }

  const BLOCK_SIZES: seq<nat> := [16, 8, 4, 2, 1]

  function Deleted(s: Choices, i: nat, block: nat): Choices
    requires i + block <= |s|
  {
    s[..i] + s[i + block..]
  }

  function Zeroed(s: Choices, i: nat, block: nat): (z: Choices)
    requires i + block <= |s|
    ensures |z| == |s|
  {
    s[..i] + seq(block, _ => 0 as uint64) + s[i + block..]
  }

  function Lowered(s: Choices, i: nat, v: uint64): (l: Choices)
    requires i < |s|
    ensures |l| == |s|
  {
    s[i := v]
  }

  predicate AllZero(s: Choices, i: nat, block: nat)
    requires i + block <= |s|
  {
    forall j | i <= j < i + block :: s[j] == 0
  }

  function Swapped(s: Choices, i: nat): Choices
    requires i + 1 < |s|
  {
    s[i := s[i + 1]][i + 1 := s[i]]
  }

  predicate CanMove(s: Choices, i: nat, offset: nat) {
    1 <= offset <= 4 && i + offset < |s| && s[i] != 0
    && forall j | i < j <= i + offset :: s[j] != UINT64_MAX
  }

  function Moved(s: Choices, i: nat, offset: nat): Choices
    requires 1 <= offset && i + offset < |s| && s[i] != 0 && s[i + offset] != UINT64_MAX
  {
    s[i := s[i] - 1][i + offset := s[i + offset] + 1]
  }

  /** Replaying `candidate` does not give anything simpler than `s`. */
  ghost predicate Rejects(f: Oracle, candidate: Choices, s: Choices) {
    f(0, candidate).None? || !IsSimpler(f(0, candidate).value, s)
  }

  ghost predicate NoDeletionHelps(f: Oracle, s: Choices, block: nat, from: nat) {
    forall i | from <= i && i + block <= |s| :: Rejects(f, Deleted(s, i, block), s)
  }

  ghost predicate NoZeroingHelps(f: Oracle, s: Choices, block: nat, until: nat) {
    forall i: nat | i < until && i + block <= |s| && !AllZero(s, i, block) ::
      Rejects(f, Zeroed(s, i, block), s)
  }

  ghost predicate NoStepHelps(f: Oracle, s: Choices, i: nat, until: uint64)
    requires i < |s|
  {
    forall v | v < s[i] && s[i] - v < until :: Rejects(f, Lowered(s, i, v), s)
  }

  ghost predicate NoLoweringHelps(f: Oracle, s: Choices, i: nat)
    requires i < |s|
  {
    s[i] != 0 ==> Rejects(f, Lowered(s, i, 0), s) && NoStepHelps(f, s, i, 9)
  }

  ghost predicate NoSwapHelps(f: Oracle, s: Choices, i: nat)
    requires i + 1 < |s|
  {
    s[i] > s[i + 1] ==> Rejects(f, Swapped(s, i), s)
  }

  ghost predicate NoMoveHelps(f: Oracle, s: Choices, i: nat, until: nat) {
    forall offset: nat | offset < until && CanMove(s, i, offset) :: Rejects(f, Moved(s, i, offset), s)
  }

  /** `s` is the answer to one of the replays. */
  ghost predicate Answered(f: Oracle, asked: seq<Choices>, s: Choices) {
    exists k | 0 <= k < |asked| :: f(k, asked[k]) == Some(s)
  }

  /** No edit of any pass leads to a simpler failing sequence. */
  ghost predicate LocallyMinimal(f: Oracle, s: Choices) {
    && (forall b | b in BLOCK_SIZES :: NoDeletionHelps(f, s, b, 0) && NoZeroingHelps(f, s, b, |s|))
    && (forall i | 0 <= i < |s| :: NoLoweringHelps(f, s, i))
    && (forall i | 0 <= i < |s| - 1 :: NoSwapHelps(f, s, i))
    && (forall i | 0 <= i < |s| :: NoMoveHelps(f, s, i, 5))
  }

  /** With every other choice as in `s`, the failure is exactly that choice i is
      at least `threshold`, and a replay consumes what it is given. */
  ghost predicate FailsFrom(f: Oracle, s: Choices, i: nat, threshold: uint64) {
    i < |s| && threshold <= s[i]
    && forall k: nat, v: uint64 :: f(k, Lowered(s, i, v)) == if threshold <= v then Some(Lowered(s, i, v)) else None
  }

  /** Lowering the choice to a value that still fails keeps the threshold. */
  lemma FailsFromLowered(f: Oracle, s: Choices, i: nat, threshold: uint64, value: uint64)
    requires FailsFrom(f, s, i, threshold) && threshold <= value
    ensures FailsFrom(f, Lowered(s, i, value), i, threshold)
  {
    forall k: nat, v: uint64
      ensures f(k, Lowered(Lowered(s, i, value), i, v))
           == if threshold <= v then Some(Lowered(Lowered(s, i, value), i, v)) else None
    {
      assert Lowered(Lowered(s, i, value), i, v) == Lowered(s, i, v);
    }
  }

  // Every edit makes a simpler sequence.

  lemma DeletionIsSimpler(s: Choices, i: nat, block: nat)
    requires 0 < block && i + block <= |s|
    ensures IsSimpler(Deleted(s, i, block), s)
  {}

  lemma LoweringIsSimpler(s: Choices, i: nat, v: uint64)
    requires i < |s| && v < s[i]
    ensures IsSimpler(Lowered(s, i, v), s)
  {
    SimplerByFirstDifference(Lowered(s, i, v), s, i);
  }

  lemma ZeroingIsSimpler(s: Choices, i: nat, block: nat)
    requires i + block <= |s| && !AllZero(s, i, block)
    ensures IsSimpler(Zeroed(s, i, block), s)
  {
    var j := i;
    while s[j] == 0
      invariant i <= j < i + block
      invariant forall l | i <= l < j :: s[l] == 0
      decreases |s| - j
    {
      j := j + 1;
    }
    SimplerByFirstDifference(Zeroed(s, i, block), s, j);
  }

  lemma SwapIsSimpler(s: Choices, i: nat)
    requires i + 1 < |s| && s[i + 1] < s[i]
    ensures IsSimpler(Swapped(s, i), s)
  {
    SimplerByFirstDifference(Swapped(s, i), s, i);
  }

  lemma MoveIsSimpler(s: Choices, i: nat, offset: nat)
    requires 1 <= offset && i + offset < |s| && s[i] != 0 && s[i + offset] != UINT64_MAX
    ensures IsSimpler(Moved(s, i, offset), s)
  {
    SimplerByFirstDifference(Moved(s, i, offset), s, i);
  }

  // What the edits are, and what local minimality means for a sequence in parts.

  lemma DeterministicMeans(f: Oracle)
    ensures Deterministic(f) <==> forall j: nat, k: nat, c: Choices :: f(j, c) == f(k, c)
  {
    if Deterministic(f) {
      forall j: nat, k: nat, c: Choices
        ensures f(j, c) == f(k, c)
      {
        assert f(j, c) == f(0, c) && f(k, c) == f(0, c);
      }
    }
  }

  lemma DeletedIs(a: Choices, b: Choices, c: Choices)
    ensures Deleted(a + b + c, |a|, |b|) == a + c
  {
    assert (a + b + c)[..|a|] == a && (a + b + c)[|a| + |b|..] == c;
  }

  lemma ZeroedIs(a: Choices, b: Choices, c: Choices, zeros: Choices)
    requires |zeros| == |b| && forall i | 0 <= i < |zeros| :: zeros[i] == 0
    ensures Zeroed(a + b + c, |a|, |b|) == a + zeros + c
    ensures AllZero(a + b + c, |a|, |b|) <==> b == zeros
  {
    var s := a + b + c;
    assert forall i | 0 <= i < |b| :: s[|a| + i] == b[i];
    if AllZero(s, |a|, |b|) {
      assert forall i | 0 <= i < |b| :: b[i] == s[|a| + i];
    }
  }

  lemma LoweredIs(a: Choices, x: uint64, c: Choices, v: uint64)
    ensures Lowered(a + [x] + c, |a|, v) == a + [v] + c
  {}

  lemma SwappedIs(a: Choices, x: uint64, y: uint64, c: Choices)
    ensures Swapped(a + [x, y] + c, |a|) == a + [y, x] + c
  {}

  lemma MovedIs(a: Choices, x: uint64, m: Choices, y: uint64, c: Choices)
    requires x != 0 && y != UINT64_MAX
    ensures (a + [x] + m + [y] + c)[|a| + 1 + |m|] == y
    ensures Moved(a + [x] + m + [y] + c, |a|, |m| + 1) == a + [x - 1] + m + [y + 1] + c
  {}

  /** What is replayed does not fail, or draws nothing simpler. */
  lemma RejectsMeans(f: Oracle, candidate: Choices, s: Choices)
    ensures Rejects(f, candidate, s) <==>
      f(0, candidate) == None || !IsSimpler(f(0, candidate).value, s)
  {}

  /** No block of the sequence can be left out or zeroed. */
  lemma NoBlockHelps(f: Oracle, a: Choices, b: Choices, c: Choices, zeros: Choices)
    requires LocallyMinimal(f, a + b + c) && |b| in {16, 8, 4, 2, 1}
    requires |zeros| == |b| && forall i | 0 <= i < |zeros| :: zeros[i] == 0
    ensures Rejects(f, a + c, a + b + c)
    ensures b != zeros ==> Rejects(f, a + zeros + c, a + b + c)
  {
    DeletedIs(a, b, c);
    ZeroedIs(a, b, c, zeros);
    assert |b| in BLOCK_SIZES by {
      assert BLOCK_SIZES == [16, 8, 4, 2, 1];
    }
    assert NoDeletionHelps(f, a + b + c, |b|, 0) && NoZeroingHelps(f, a + b + c, |b|, |a + b + c|);
  }

  /** No choice can be lowered to 0 or by 1 to 8. */
  lemma NoLowerChoiceHelps(f: Oracle, a: Choices, x: uint64, c: Choices, v: uint64)
    requires LocallyMinimal(f, a + [x] + c) && v < x && (v == 0 || x - v <= 8)
    ensures Rejects(f, a + [v] + c, a + [x] + c)
  {
    LoweredIs(a, x, c, v);
    assert NoLoweringHelps(f, a + [x] + c, |a|);
  }

  /** No inverted neighbours can be swapped. */
  lemma NoSortedPairHelps(f: Oracle, a: Choices, x: uint64, y: uint64, c: Choices)
    requires LocallyMinimal(f, a + [x, y] + c) && y < x
    ensures Rejects(f, a + [y, x] + c, a + [x, y] + c)
  {
    var s := a + [x, y] + c;
    SwappedIs(a, x, y, c);
    assert s[|a|] == x && s[|a| + 1] == y;
    assert NoSwapHelps(f, s, |a|);
  }

  /** No unit can be moved over up to three choices to the next, as long as none of
      them is the largest word. */
  lemma NoMovedUnitHelps(f: Oracle, a: Choices, x: uint64, m: Choices, y: uint64, c: Choices)
    requires LocallyMinimal(f, a + [x] + m + [y] + c)
    requires x != 0 && |m| <= 3 && UINT64_MAX !in m + [y]
    ensures Rejects(f, a + [x - 1] + m + [y + 1] + c, a + [x] + m + [y] + c)
  {
    var s := a + [x] + m + [y] + c;
    assert y in m + [y];
    MovedIs(a, x, m, y, c);
    assert s[|a|] == x;
    forall j | |a| < j <= |a| + |m| + 1
      ensures s[j] != UINT64_MAX
    {
      assert s[j] == (m + [y])[j - |a| - 1];
    }
    assert CanMove(s, |a|, |m| + 1) && NoMoveHelps(f, s, |a|, 5);
  }
}

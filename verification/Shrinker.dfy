/** The choice-sequence shrinker: five passes that look for a simpler failing
    sequence, repeated until none of them helps or the budget is spent. */
module Shrinker {
  import opened Words
  import opened Shortlex
  import opened ShrinkEdits

  class Shrinker {
    var current: Choices
    const budget: nat
    var calls: nat
    const stillFails: Oracle

    /** The candidates replayed so far, in order. */
    ghost var asked: seq<Choices>
    /** How often the order guard of `Try` refused a candidate unasked. */
    ghost var guardRefusals: nat
    ghost const start: Choices

    /** The result so far is the input, or a simpler answer to some replay. */
    ghost predicate Valid()
      reads this
    {
      && calls == |asked| <= budget
      && (current == start || (Rank(current) < Rank(start) && Answered(stillFails, asked, current)))
    }

    /** What every pass does, whatever the answers: it may ask more, and it
        moves to a simpler sequence or stays. The order guard stays idle. */
    twostate predicate Progress(improved: bool)
      reads this
    {
      && Valid()
      && old(asked) <= asked
      && guardRefusals == old(guardRefusals)
      && |current| <= |old(current)|
      && (if improved then Rank(current) < Rank(old(current)) else current == old(current))
    }

    /** The answers are those of one function, and the budget is not spent. */
    ghost predicate Settled()
      reads this
    {
      calls < budget && Deterministic(stillFails)
    }

    constructor (failing: Choices, budget: nat, stillFails: Oracle)
      ensures Valid() && current == start == failing && calls == 0 && guardRefusals == 0
      ensures this.budget == budget && this.stillFails == stillFails
    {
      this.current := failing;
      this.budget := budget;
      this.calls := 0;
      this.stillFails := stillFails;
      this.asked := [];
      this.guardRefusals := 0;
      this.start := failing;
    }

    predicate Spent()
      reads this
    {
      calls >= budget
    }

    /** Replays a candidate that the order guard lets through; moves to what the
        replay consumed when that fails too and is simpler. */
    method Try(candidate: Choices) returns (improved: bool)
      requires Valid()
      modifies this
      ensures Valid()
      ensures asked == if old(Spent()) || !IsSimpler(candidate, old(current)) then old(asked)
                       else old(asked) + [candidate]
      ensures improved <==>
        && !old(Spent()) && IsSimpler(candidate, old(current))
        && stillFails(old(calls), candidate).Some?
        && IsSimpler(stillFails(old(calls), candidate).value, old(current))
      ensures current == if improved then stillFails(old(calls), candidate).value else old(current)
      ensures IsSimpler(candidate, old(current)) ==> Progress(improved)
      ensures IsSimpler(candidate, old(current)) && !improved && Settled() ==>
        Rejects(stillFails, candidate, current)
    {
      if Spent() {
        return false;
      }
      if !IsSimpler(candidate, current) {
        guardRefusals := guardRefusals + 1;
        return false;
      }
      calls := calls + 1;
      asked := asked + [candidate];
      var consumed := stillFails(calls - 1, candidate);
      assert forall j | 0 <= j < calls - 1 :: asked[j] == old(asked)[j];
      if consumed.None? || !IsSimpler(consumed.value, current) {
        return false;
      }
      SimplerRanksLower(consumed.value, current);
      current := consumed.value;
      assert asked[calls - 1] == candidate;
      return true;
    }

    method DeleteBlocks() returns (improved: bool)
      requires Valid()
      modifies this
      ensures Progress(improved)
      ensures !improved && Settled() ==>
        forall b | b in BLOCK_SIZES :: NoDeletionHelps(stillFails, current, b, 0)
    {
      hide Rank, Answered, Deterministic, IsSimpler;
      improved := false;
      for n := 0 to |BLOCK_SIZES|
        invariant Progress(improved)
        invariant !improved && Settled() ==>
          forall m | 0 <= m < n :: NoDeletionHelps(stillFails, current, BLOCK_SIZES[m], 0)
      {
        var shorter := DeleteBlocksOf(BLOCK_SIZES[n]);
        improved := improved || shorter;
      }
    }

    /** One round of `DeleteBlocks`, from the end. */
    method DeleteBlocksOf(block: nat) returns (improved: bool)
      requires Valid() && block > 0
      modifies this
      ensures Progress(improved)
      ensures !improved && Settled() ==> NoDeletionHelps(stillFails, current, block, 0)
    {
      hide Rank, Answered, Deterministic, IsSimpler;
      improved := false;
      var index := |current|;
      while index > 0 && !Spent()
        invariant 0 <= index && Progress(improved)
        invariant !improved && Settled() ==> NoDeletionHelps(stillFails, current, block, index)
      {
        index := index - 1;
        if index + block > |current| {
          continue;
        }
        DeletionIsSimpler(current, index, block);
        var tried := Try(Deleted(current, index, block));
        improved := improved || tried;
      }
    }

    method ZeroBlocks() returns (improved: bool)
      requires Valid()
      modifies this
      ensures Progress(improved)
      ensures !improved && Settled() ==>
        forall b | b in BLOCK_SIZES :: NoZeroingHelps(stillFails, current, b, |current|)
    {
      hide Rank, Answered, Deterministic, IsSimpler;
      improved := false;
      for n := 0 to |BLOCK_SIZES|
        invariant Progress(improved)
        invariant !improved && Settled() ==>
          forall m | 0 <= m < n :: NoZeroingHelps(stillFails, current, BLOCK_SIZES[m], |current|)
      {
        var zeroed := ZeroBlocksOf(BLOCK_SIZES[n]);
        improved := improved || zeroed;
      }
    }

    /** One round of `ZeroBlocks`, from the start. */
    method ZeroBlocksOf(block: nat) returns (improved: bool)
      requires Valid()
      modifies this
      ensures Progress(improved)
      ensures !improved && Settled() ==> NoZeroingHelps(stillFails, current, block, |current|)
    {
      hide Rank, Answered, Deterministic, IsSimpler;
      improved := false;
      var index := 0;
      while index + block <= |current| && !Spent()
        invariant 0 <= index && Progress(improved)
        invariant !improved && Settled() ==> NoZeroingHelps(stillFails, current, block, index)
        decreases |current| + 1 - index
      {
        if AllZero(current, index, block) {
          index := index + 1;
          continue;
        }
        ZeroingIsSimpler(current, index, block);
        var tried := Try(Zeroed(current, index, block));
        improved := improved || tried;
        index := index + 1;
      }
    }

    /** Tries to lower one choice to `value`. */
    method TryValue(index: nat, value: uint64, ghost threshold: uint64) returns (improved: bool)
      requires Valid()
      modifies this
      ensures Progress(improved)
      ensures !improved && Settled() && index < |current| && value < current[index] ==>
        Rejects(stillFails, Lowered(current, index, value), current)
      ensures FailsFrom(stillFails, old(current), index, threshold) && value < old(current)[index] && calls < budget ==>
        && improved == (threshold <= value)
        && (improved ==> current == Lowered(old(current), index, value)
                         && FailsFrom(stillFails, current, index, threshold))
    {
      if index >= |current| || current[index] <= value {
        return false;
      }
      LoweringIsSimpler(current, index, value);
      ghost var before := current;
      improved := Try(Lowered(current, index, value));
      if FailsFrom(stillFails, before, index, threshold) && threshold <= value {
        FailsFromLowered(stillFails, before, index, threshold, value);
      }
    }

    method MinimizeChoices() returns (improved: bool)
      requires Valid()
      modifies this
      ensures Progress(improved)
      ensures !improved && Settled() ==>
        forall i | 0 <= i < |current| :: NoLoweringHelps(stillFails, current, i)
    {
      hide Rank, Answered, Deterministic, IsSimpler;
      improved := false;
      var index := 0;
      while index < |current| && !Spent()
        invariant 0 <= index && Progress(improved)
        invariant !improved && Settled() ==>
          forall i | 0 <= i < index && i < |current| :: NoLoweringHelps(stillFails, current, i)
        decreases |current| + 1 - index
      {
        var lowered := MinimizeChoice(index);
        improved := improved || lowered;
        index := index + 1;
      }
    }

    /** One round of `MinimizeChoices`: zero, then the binary search, then a few
        single steps. When the failure is a threshold on this choice alone, the
        search finds the threshold, whichever it is. */
    method MinimizeChoice(index: nat, ghost threshold: uint64 := 0) returns (improved: bool)
      requires Valid() && index < |current| && !Spent()
      modifies this
      ensures Progress(improved)
      ensures !improved && Settled() ==> |current| == |old(current)| && NoLoweringHelps(stillFails, current, index)
      ensures FailsFrom(stillFails, old(current), index, threshold) && calls < budget ==>
                current == Lowered(old(current), index, threshold)
    {
      hide Rank, Answered, Deterministic, IsSimpler;
      if current[index] == 0 {
        return false;
      }
      var zeroed := TryValue(index, 0, threshold);
      if zeroed {
        return true;
      }
      var found := Search(index, threshold);
      var stepped := StepDown(index, threshold);
      return found || stepped;
    }

    /** The choice is still `high`, and the threshold lies above the refused
        `low`, or they have met. */
    ghost predicate Bracketed(initial: Choices, index: nat, threshold: uint64, low: uint64, high: uint64)
      reads this
    {
      && FailsFrom(stillFails, current, index, threshold)
      && (low < threshold <= high || low == threshold == high)
      && index < |initial| && current == Lowered(initial, index, high)
    }

    /** The binary search between 0, already refused, and the current value. No
        operation wraps: as long as `high` is the largest word, the gap
        `high - low` is one less than a power of two. */
    method Search(index: nat, ghost threshold: uint64) returns (improved: bool)
      requires Valid() && index < |current| && current[index] != 0
      modifies this
      ensures Progress(improved)
      ensures FailsFrom(stillFails, old(current), index, threshold) && 0 < threshold && calls < budget ==>
        && current == Lowered(old(current), index, threshold)
        && FailsFrom(stillFails, current, index, threshold)
    {
      hide Rank, Answered, Deterministic, IsSimpler, FailsFrom, Pow2;
      FailsFromBelow(stillFails, current, index, threshold);
      improved := false;
      var high := current[index];
      var low: uint64 := 0;
      ghost var k := 64;
      Pow2At64();
      while low + 1 < high && !Spent() && index < |current|
        invariant Progress(improved)
        invariant low <= high && low < UINT64_MAX
        invariant high == UINT64_MAX ==> 1 <= k && (high - low) as int == Pow2(k) - 1
        invariant FailsFrom(stillFails, old(current), index, threshold) && 0 < threshold && calls < budget ==>
          Bracketed(old(current), index, threshold, low, high)
        decreases high - low
      {
        if high == UINT64_MAX {
          GapHalves((high - low) as int, k);
        }
        var lowered;
        low, high, lowered := Halve(index, low, high, old(current), threshold);
        improved := improved || lowered;
        k := k - 1;
      }
    }

    /** One step of the search. It assumes that failures are monotone in the
        choice, but gives the neighbour of the middle a chance too. */
    method Halve(index: nat, low: uint64, high: uint64, ghost initial: Choices, ghost threshold: uint64)
      returns (low': uint64, high': uint64, improved: bool)
      requires Valid() && index < |current| && low as int + 1 < high as int
      modifies this
      ensures Progress(improved)
      ensures if improved then low' == low && low < high' < high
              else low' as int == low as int + (high - low) as int / 2 + 1 && high' == high
      ensures old(Bracketed(initial, index, threshold, low, high)) && calls < budget ==>
        Bracketed(initial, index, threshold, low', high')
    {
      hide Rank, Answered, Deterministic, IsSimpler, FailsFrom;
      low', high' := low, high;
      var middle := low + (high - low) / 2;
      improved := TryValue(index, middle, threshold);
      if improved {
        high' := middle;
        return;
      }
      if middle + 1 < high {
        improved := TryValue(index, middle + 1, threshold);
      }
      if improved {
        high' := middle + 1;
      } else {
        low' := middle + 1;
      }
    }

    /** A few single steps below the result of the search, once. */
    method StepDown(index: nat, ghost threshold: uint64) returns (improved: bool)
      requires Valid()
      modifies this
      ensures Progress(improved)
      ensures !improved && Settled() && index < |current| ==> NoStepHelps(stillFails, current, index, 9)
      ensures FailsFrom(stillFails, old(current), index, threshold) && calls < budget ==>
        threshold == old(current)[index] ==> !improved
    {
      hide Rank, Answered, Deterministic, IsSimpler;
      var step: uint64 := 1;
      while step <= 8 && !Spent() && index < |current| && current[index] >= step
        invariant 1 <= step <= 9 && Progress(false)
        invariant Settled() && index < |current| ==> NoStepHelps(stillFails, current, index, step)
      {
        var tried := TryValue(index, current[index] - step, threshold);
        if tried {
          return true;
        }
        step := step + 1;
      }
      return false;
    }

    method SortNeighbours() returns (improved: bool)
      requires Valid()
      modifies this
      ensures Progress(improved)
      ensures !improved && Settled() ==>
        forall i | 0 <= i < |current| - 1 :: NoSwapHelps(stillFails, current, i)
    {
      hide Rank, Answered, Deterministic, IsSimpler;
      improved := false;
      var index := 0;
      while index + 1 < |current| && !Spent()
        invariant 0 <= index && Progress(improved)
        invariant !improved && Settled() ==>
          forall i | 0 <= i < index && i < |current| - 1 :: NoSwapHelps(stillFails, current, i)
        decreases |current| + 1 - index
      {
        if current[index] <= current[index + 1] {
          index := index + 1;
          continue;
        }
        SwapIsSimpler(current, index);
        var tried := Try(Swapped(current, index));
        improved := improved || tried;
        index := index + 1;
      }
    }

    method MoveBetweenNeighbours() returns (improved: bool)
      requires Valid()
      modifies this
      ensures Progress(improved)
      ensures !improved && Settled() ==>
        forall i | 0 <= i < |current| :: NoMoveHelps(stillFails, current, i, 5)
    {
      hide Rank, Answered, Deterministic, IsSimpler;
      improved := false;
      var index := 0;
      while index < |current| && !Spent()
        invariant 0 <= index && Progress(improved)
        invariant !improved && Settled() ==>
          forall i | 0 <= i < index && i < |current| :: NoMoveHelps(stillFails, current, i, 5)
        decreases |current| + 1 - index
      {
        var moved := MoveFrom(index);
        improved := improved || moved;
        index := index + 1;
      }
    }

    /** One round of `MoveBetweenNeighbours`: the units that leave one choice. */
    method MoveFrom(index: nat) returns (improved: bool)
      requires Valid()
      modifies this
      ensures Progress(improved)
      ensures !improved && Settled() ==> NoMoveHelps(stillFails, current, index, 5)
    {
      hide Rank, Answered, Deterministic, IsSimpler;
      improved := false;
      var offset := 1;
      while offset <= 4 && index + offset < |current| && !Spent()
        invariant 1 <= offset <= 5 && Progress(improved)
        invariant !improved && Settled() ==> NoMoveHelps(stillFails, current, index, offset)
      {
        if current[index] == 0 || current[index + offset] == UINT64_MAX {
          break;
        }
        MoveIsSimpler(current, index, offset);
        var tried := Try(Moved(current, index, offset));
        improved := improved || tried;
        offset := offset + 1;
      }
    }

    /** All passes, until none of them helps or the budget is spent. The rank
        of the result falls in every round but the last, so the loop ends for
        any budget. */
    method Run() returns (result: Choices)
      requires Valid() && guardRefusals == 0
      modifies this
      ensures Valid() && guardRefusals == 0 && result == current
      ensures Settled() ==> LocallyMinimal(stillFails, result)
    {
      var improved := true;
      while improved && !Spent()
        invariant Valid() && guardRefusals == 0
        invariant !improved && Settled() ==> LocallyMinimal(stillFails, current)
        decreases Rank(current), improved
      {
        improved := Round();
      }
      return current;
    }

    method Round() returns (improved: bool)
      requires Valid()
      modifies this
      ensures Progress(improved)
      ensures !improved && Settled() ==> LocallyMinimal(stillFails, current)
    {
      hide Rank, Answered, Deterministic, IsSimpler;
      var deleted := DeleteBlocks();
      var zeroed := ZeroBlocks();
      var lowered := MinimizeChoices();
      var sorted := SortNeighbours();
      var moved := MoveBetweenNeighbours();
      improved := deleted || zeroed || lowered || sorted || moved;
    }
  }

  lemma FailsFromBelow(f: Oracle, s: Choices, index: nat, threshold: uint64)
    requires index < |s|
    ensures FailsFrom(f, s, index, threshold) ==> threshold <= s[index] && Lowered(s, index, s[index]) == s
  {}

  lemma GapHalves(gap: int, k: nat)
    requires gap >= 2 && 1 <= k && gap == Pow2(k) - 1
    ensures 2 <= k && 1 <= gap - gap / 2 - 1 == Pow2(k - 1) - 1
  {}

  /** Minimizes a failing sequence within `budget` replays. Whatever the answers,
      the result is the input or a simpler sequence that some replay returned; when
      they come from one function and the budget lasted, no edit of any pass helps
      any more. */
  method ShrinkChoices(failing: Choices, budget: nat, stillFails: Oracle)
    returns (minimized: Choices, calls: nat, ghost asked: seq<Choices>)
    ensures calls == |asked| <= budget
    ensures minimized == failing || (IsSimpler(minimized, failing) && Answered(stillFails, asked, minimized))
    ensures calls < budget && Deterministic(stillFails) ==> LocallyMinimal(stillFails, minimized)
  {
    var shrinker := new Shrinker(failing, budget, stillFails);
    minimized := shrinker.Run();
    calls, asked := shrinker.calls, shrinker.asked;
    IsSimplerIsRankOrder(minimized, failing);
  }

  /** A local minimum is a minimum for each choice on its own, when lowering it
      further never makes a failure come back and a failing replay consumes what it
      is given. */
  lemma MonotoneChoiceIsMinimal(f: Oracle, s: Choices, i: nat, v: uint64)
    requires LocallyMinimal(f, s) && i < |s| && v < s[i]
    requires forall u | u < s[i] && f(0, Lowered(s, i, u)).Some? ::
               f(0, Lowered(s, i, u)) == Some(Lowered(s, i, u))
    requires forall u, w | u <= w < s[i] && f(0, Lowered(s, i, u)).Some? :: f(0, Lowered(s, i, w)).Some?
    ensures f(0, Lowered(s, i, v)) == None
  {
    assert NoLoweringHelps(f, s, i);
    assert Rejects(f, Lowered(s, i, s[i] - 1), s);
    LoweringIsSimpler(s, i, s[i] - 1);
  }
}

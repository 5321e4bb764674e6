/** The mocks of a program and what they share. Every method runs under the one lock
    of all mocks, so each is one step. */
module Mocks {
  import opened Words
  import opened MockModel
  import opened MockRuns

  class Mocks {
    var states: seq<State>
    var sequences: seq<Sequence>
    var mocks: seq<Mock>

    function World(): World
      reads this
    {
      MockModel.World(states, sequences, mocks)
    }

    constructor ()
      ensures World() == MockModel.World([], [], []) && Valid(World())
    {
      states, sequences, mocks := [], [], [];
    }

    /** `MockSequence::Enter`: moves the sequence to the step, retiring the live steps
        before it. Returns those that were left undone. */
    method Enter(q: nat, step: nat) returns (undone: seq<Undone>)
      requires Shaped(World()) && q < |sequences|
      modifies this`states, this`sequences
      ensures World() == Entered(old(World()), q, step)
      ensures undone == EnterReport(old(World()), q, step)
    {
      hide Shaped, Retire, UndoneBetween, Positions;
      ShapedSteps(World(), q);
      var steps, start := sequences[q].steps, sequences[q].current;
      var target := FindStep(q, step);
      if target == |steps| {
        target := start;
      }
      undone := PassSteps(q, target);
    }

    /** The loop of `Enter`. */
    method PassSteps(q: nat, target: nat) returns (undone: seq<Undone>)
      requires q < |sequences| && sequences[q].current <= target <= |sequences[q].steps|
      requires forall i | 0 <= i < |sequences[q].steps| :: sequences[q].steps[i] < |states|
      modifies this`states, this`sequences
      ensures states == Retire(old(states), old(sequences)[q].steps[old(sequences)[q].current..target])
      ensures sequences == old(sequences)[q := Sequence(old(sequences)[q].steps, target)]
      ensures undone
           == Positions(q, UndoneBetween(old(states), old(sequences)[q].steps, old(sequences)[q].current, target))
    {
      hide Retire, UndoneBetween, Positions, LeftUndone;
      undone := [];
      var steps, start := sequences[q].steps, sequences[q].current;
      ghost var before := states;
      NothingPassed(before, steps, q, start);
      ghost var others := sequences;
      assert sequences == others[q := Sequence(steps, start)];
      for at := start to target
        invariant sequences == others[q := Sequence(steps, at)]
        invariant states == Retire(before, steps[start..at])
        invariant undone == Positions(q, UndoneBetween(before, steps, start, at))
      {
        var earlier := steps[at];
        OnePassed(before, steps, q, start, at);
        if states[earlier].alive {
          if !states[earlier].Satisfied() {
            undone := undone + [Undone(q, at)];
          }
          states := states[earlier := states[earlier].(retired := true)];
        }
        sequences := sequences[q := Sequence(steps, at + 1)];
      }
    }

    /** The first position of the step from the current one on. */
    method FindStep(q: nat, step: nat) returns (at: nat)
      requires Shaped(World()) && q < |sequences|
      ensures at == Find(sequences[q].steps, sequences[q].current, step)
    {
      at := sequences[q].current;
      while at < |sequences[q].steps| && sequences[q].steps[at] != step
        invariant sequences[q].current <= at <= |sequences[q].steps|
        invariant Find(sequences[q].steps, sequences[q].current, step) == Find(sequences[q].steps, at, step)
      {
        at := at + 1;
      }
    }

    /** `MockFunction::Take`: counts the call and enters all sequences of the
        expectation. */
    method Take(step: nat) returns (undone: seq<Undone>)
      requires Shaped(World()) && step < |states|
      modifies this`states, this`sequences
      ensures World() == Took(old(World()), step)
      ensures undone == EnterAllReport(Counted(old(World()), step), old(states[step].sequences), step)
    {
      hide Shaped, Entered, EnterReport, EnteredAll, EnterAllReport;
      CountedIsShaped(World(), step);
      states := states[step := states[step].(calls := states[step].calls + 1)];
      ghost var counted := World();
      undone := [];
      var qs := states[step].sequences;
      NothingEntered(counted, step);
      for i := 0 to |qs|
        invariant World() == EnteredAll(counted, qs[..i], step)
        invariant undone == EnterAllReport(counted, qs[..i], step)
      {
        OneEntered(counted, qs[..i], qs[i], step);
        assert qs[..i] + [qs[i]] == qs[..i + 1];
        var more := Enter(qs[i], step);
        undone := undone + more;
      }
      assert qs[..|qs|] == qs;
    }

    /** `MockFunction::Decide`: the call goes to the first declared expectation that
        accepts it and can take it. When none can, the last one that accepts it is
        named. */
    method CallMock(m: nat, call: Call) returns (decision: Decision)
      requires Valid(World()) && m < |mocks|
      modifies this`states, this`sequences
      ensures Valid(World())
      ensures World() == Called(old(World()), m, call)
      ensures decision == Decide(old(World()), m, call)
    {
      hide Valid, Shaped, Called, Decide, Took, LastAccepting, FirstTaker, EnterAllReport, Counted;
      ghost var w := World();
      CalledIsSafe(w, m, call);
      HeldIsShaped(w, m);
      var mock := mocks[m];
      var used: Option<nat> := None;
      NothingAccepts(mock, call);
      for k := 0 to |mock|
        invariant World() == w
        invariant forall i | 0 <= i < k :: !Takes(w, mock[i], call)
        invariant used == LastAccepting(mock[..k], call)
      {
        LastAcceptingStep(mock, call, k);
        if mock[k].accepts(call) {
          if states[mock[k].state].Available() {
            DecidedIs(w, m, call, k);
            var undone := Take(mock[k].state);
            return Taken(k, undone);
          }
          used := Some(k);
        }
      }
      DecidedIs(w, m, call, |mock|);
      return Refused(used);
    }

    /** `MockFunction::VerifyAll`: reports exactly the expectations called too rarely,
        and holds none any more. */
    method Verify(m: nat) returns (unmet: seq<nat>)
      requires Valid(World()) && m < |mocks|
      modifies this`states, this`mocks
      ensures Valid(World()) && World() == Verified(old(World()), m)
      ensures mocks[m] == []
      ensures unmet == Unmet(old(states), old(mocks)[m])
    {
      hide Valid, Shaped, Released, Unmet;
      HeldIsShaped(World(), m);
      VerifiedKeepsValid(World(), m);
      var checked := mocks[m];
      mocks := mocks[m := []];
      unmet := Check(checked);
      Release(checked);
    }

    method Check(checked: Mock) returns (unmet: seq<nat>)
      requires forall i | 0 <= i < |checked| :: checked[i].state < |states|
      ensures unmet == Unmet(states, checked)
    {
      unmet := [];
      for k := 0 to |checked|
        invariant unmet == Unmet(states, checked[..k])
      {
        assert checked[..k + 1][..k] == checked[..k];
        if !states[checked[k].state].Satisfied() {
          unmet := unmet + [k];
        }
      }
      assert checked[..|checked|] == checked;
    }

    method Release(checked: Mock)
      requires forall i | 0 <= i < |checked| :: checked[i].state < |states|
      modifies this`states
      ensures states == Released(old(states), checked)
    {
      for k := 0 to |checked|
        invariant states == Released(old(states), checked[..k])
      {
        assert checked[..k + 1][..k] == checked[..k];
        states := states[checked[k].state := states[checked[k].state].(alive := false)];
      }
      assert checked[..|checked|] == checked;
    }

    /** `MockFunction::Add` with the bounds that are set on the expectation. */
    method Expect(m: nat, accepts: Call -> bool, minimum: nat, maximum: nat) returns (k: nat)
      requires Valid(World()) && m < |mocks| && minimum <= maximum
      modifies this`states, this`mocks
      ensures Valid(World()) && World() == Declared(old(World()), m, accepts, minimum, maximum)
      ensures k == |old(mocks)[m]|
      ensures mocks == old(mocks)[m := old(mocks)[m] + [Expectation(|old(states)|, accepts)]]
      ensures states[..|old(states)|] == old(states) && |states| == |old(states)| + 1
      ensures var state := states[|old(states)|];
              && state.minimum == minimum && state.maximum == maximum && state.calls == 0
              && !state.retired && state.alive && state.sequences == []
    {
      DeclaredKeepsValid(World(), m, accepts, minimum, maximum);
      k := |mocks[m]|;
      states := states + [State(minimum, maximum, 0, false, true, [], m, k)];
      mocks := mocks[m := mocks[m] + [Expectation(|states| - 1, accepts)]];
    }

    /** `MockExpectation::InSequence`, with `MockSequence::Add`. */
    method InSequence(m: nat, k: nat, q: nat)
      requires Valid(World()) && m < |mocks| && k < |mocks[m]| && q < |sequences|
      modifies this`states, this`sequences
      ensures Valid(World()) && World() == Joined(old(World()), m, k, q)
      ensures var step := old(mocks)[m][k].state;
              && sequences[q].steps == old(sequences[q].steps) + [step]
              && sequences[q].current == old(sequences[q].current)
              && states[step] == old(states)[step].(sequences := old(states)[step].sequences + [q])
    {
      JoinedKeepsValid(World(), m, k, q);
      var step := mocks[m][k].state;
      sequences := sequences[q := Sequence(sequences[q].steps + [step], sequences[q].current)];
      states := states[step := states[step].(sequences := states[step].sequences + [q])];
    }
  }

  lemma {:induction false} FirstTakerIs(w: World, mock: Mock, call: Call, k: nat)
    requires forall i | 0 <= i < |mock| :: mock[i].state < |w.states|
    requires k <= |mock| && forall i | 0 <= i < k :: !Takes(w, mock[i], call)
    requires k < |mock| ==> Takes(w, mock[k], call)
    ensures FirstTaker(w, mock, call) == k
  {
    if k == 0 {
    } else {
      FirstTakerIs(w, mock[1..], call, k - 1);
    }
  }

  lemma NothingAccepts(mock: Mock, call: Call)
    ensures LastAccepting(mock[..0], call) == None
  {}

  lemma LastAcceptingStep(mock: Mock, call: Call, k: nat)
    requires k < |mock|
    ensures LastAccepting(mock[..k + 1], call)
         == if mock[k].accepts(call) then Some(k) else LastAccepting(mock[..k], call)
  {
    assert mock[..k + 1][..k] == mock[..k];
  }

  lemma DecidedIs(w: World, m: nat, call: Call, k: nat)
    requires Shaped(w) && m < |w.mocks| && k <= |w.mocks[m]|
    requires forall i | 0 <= i < k :: !Takes(w, w.mocks[m][i], call)
    requires k < |w.mocks[m]| ==> Takes(w, w.mocks[m][k], call)
    ensures k == |w.mocks[m]| ==>
      Called(w, m, call) == w && Decide(w, m, call) == Refused(LastAccepting(w.mocks[m][..k], call))
    ensures k < |w.mocks[m]| ==>
      var step := w.mocks[m][k].state;
      && Called(w, m, call) == Took(w, step)
      && Decide(w, m, call) == Taken(k, EnterAllReport(Counted(w, step), w.states[step].sequences, step))
  {
    FirstTakerIs(w, w.mocks[m], call, k);
    assert w.mocks[m][..|w.mocks[m]|] == w.mocks[m];
  }

  lemma ShapedSteps(w: World, q: nat)
    requires Shaped(w) && q < |w.sequences|
    ensures w.sequences[q].current <= |w.sequences[q].steps|
    ensures forall i | 0 <= i < |w.sequences[q].steps| :: w.sequences[q].steps[i] < |w.states|
  {}

  lemma HeldIsShaped(w: World, m: nat)
    requires Valid(w) && m < |w.mocks|
    ensures Shaped(w) && forall i | 0 <= i < |w.mocks[m]| :: w.mocks[m][i].state < |w.states|
  {}

  lemma NothingPassed(states: seq<State>, steps: seq<nat>, q: nat, start: nat)
    requires start <= |steps| && forall i | 0 <= i < |steps| :: steps[i] < |states|
    ensures Retire(states, steps[start..start]) == states
    ensures Positions(q, UndoneBetween(states, steps, start, start)) == []
  {}

  lemma OnePassed(states: seq<State>, steps: seq<nat>, q: nat, start: nat, at: nat)
    requires start <= at < |steps| && forall i | 0 <= i < |steps| :: steps[i] < |states|
    ensures var before := Retire(states, steps[start..at]);
            && before[steps[at]] == states[steps[at]].(retired := before[steps[at]].retired)
            && Retire(states, steps[start..at + 1])
               == (if states[steps[at]].alive
                   then before[steps[at] := before[steps[at]].(retired := true)] else before)
    ensures Positions(q, UndoneBetween(states, steps, start, at + 1))
         == Positions(q, UndoneBetween(states, steps, start, at))
            + (if LeftUndone(states, steps[at]) then [Undone(q, at)] else [])
    ensures LeftUndone(states, steps[at]) <==> states[steps[at]].alive && !states[steps[at]].Satisfied()
  {
    hide Positions, Retire, UndoneBetween;
    RetireOneMore(states, steps[start..at + 1]);
    assert steps[start..at + 1][..at - start] == steps[start..at];
    UndoneOneMore(states, steps, q, start, at);
  }

  lemma RetireOneMore(states: seq<State>, steps: seq<nat>)
    requires steps != [] && forall i | 0 <= i < |steps| :: steps[i] < |states|
    ensures var n := |steps| - 1;
            var before := Retire(states, steps[..n]);
            Retire(states, steps) == if before[steps[n]].alive
                                     then before[steps[n] := before[steps[n]].(retired := true)] else before
  {}

  lemma UndoneOneMore(states: seq<State>, steps: seq<nat>, q: nat, start: nat, at: nat)
    requires start <= at < |steps| && forall i | 0 <= i < |steps| :: steps[i] < |states|
    ensures Positions(q, UndoneBetween(states, steps, start, at + 1))
         == Positions(q, UndoneBetween(states, steps, start, at))
            + (if LeftUndone(states, steps[at]) then [Undone(q, at)] else [])
  {}

  lemma CountedIsShaped(w: World, step: nat)
    requires Shaped(w) && step < |w.states|
    ensures Shaped(Counted(w, step))
    ensures forall i | 0 <= i < |w.states[step].sequences| :: w.states[step].sequences[i] < |w.sequences|
  {}

  lemma NothingEntered(w: World, step: nat)
    requires Shaped(w)
    ensures EnteredAll(w, [], step) == w && EnterAllReport(w, [], step) == []
  {}

  lemma OneEntered(w: World, qs: seq<nat>, q: nat, step: nat)
    requires Shaped(w) && q < |w.sequences| && forall i | 0 <= i < |qs| :: qs[i] < |w.sequences|
    ensures EnteredAll(w, qs + [q], step) == Entered(EnteredAll(w, qs, step), q, step)
    ensures EnterAllReport(w, qs + [q], step)
         == EnterAllReport(w, qs, step) + EnterReport(EnteredAll(w, qs, step), q, step)
  {
    assert (qs + [q])[..|qs|] == qs;
  }
}

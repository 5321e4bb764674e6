/** What calls, verifications and runs mean for the fields of expectations and
    sequences, without the notions the program tests them by. */
module MockMeaning {
  import opened Words
  import opened MockModel
  import opened MockRuns
  import opened MockHistory

  /** Entering a sequence goes to the first place of the step from the current one on, or
      nowhere. What it moves over and nothing else is retired, unless it is gone. */
  lemma EnteredMeans(w: World, q: nat, step: nat)
    requires Shaped(w) && q < |w.sequences|
    ensures var w' := Entered(w, q, step);
            var steps, from, at := w.sequences[q].steps, w.sequences[q].current, w'.sequences[q].current;
            && from <= at <= |steps|
            && (if step in steps[from..] then at < |steps| && steps[at] == step && step !in steps[from..at]
                else at == from)
            && w'.sequences == w.sequences[q := Sequence(steps, at)] && w'.mocks == w.mocks
            && |w'.states| == |w.states|
            && (forall s | 0 <= s < |w.states| ::
                  && w'.states[s] == w.states[s].(retired := w'.states[s].retired)
                  && (w'.states[s].retired <==> w.states[s].retired || (w.states[s].alive && s in steps[from..at])))
  {
    var steps, from := w.sequences[q].steps, w.sequences[q].current;
    var at := Find(steps, from, step);
    if step in steps[from..] {
      var i :| 0 <= i < |steps[from..]| && steps[from..][i] == step;
      assert steps[from + i] == step && at <= from + i;
      assert step !in steps[from..at];
    }
  }

  /** A call is refused if and only if each expectation of the mock does not accept it,
      is retired, or was called as often as it may be. */
  lemma RefusedExactly(w: World, m: nat, call: Call)
    requires Valid(w) && m < |w.mocks|
    ensures Decide(w, m, call).Refused? <==>
      forall k | 0 <= k < |w.mocks[m]| ::
        var state := w.states[w.mocks[m][k].state];
        !w.mocks[m][k].accepts(call) || state.retired || state.calls >= state.maximum
    ensures Decide(w, m, call).Refused? ==> Called(w, m, call) == w
  {
    var k := FirstTaker(w, w.mocks[m], call);
  }

  /** A refusal names the last expectation that accepts the call, if one does. */
  lemma RefusedNames(w: World, m: nat, call: Call)
    requires Valid(w) && m < |w.mocks| && Decide(w, m, call).Refused?
    ensures var used := Decide(w, m, call).used;
            && (used.None? ==> forall k | 0 <= k < |w.mocks[m]| :: !w.mocks[m][k].accepts(call))
            && (used.Some? ==>
                  && used.value < |w.mocks[m]| && w.mocks[m][used.value].accepts(call)
                  && forall k | used.value < k < |w.mocks[m]| :: !w.mocks[m][k].accepts(call))
  {}

  /** A taken call goes to the first expectation for which none of these holds. */
  lemma TakenByFirst(w: World, m: nat, call: Call)
    requires Valid(w) && m < |w.mocks| && Decide(w, m, call).Taken?
    ensures var place := Decide(w, m, call).place;
            var state := w.states[w.mocks[m][place].state];
            && w.mocks[m][place].accepts(call) && !state.retired && state.calls < state.maximum
            && (forall k | 0 <= k < place ::
                  var other := w.states[w.mocks[m][k].state];
                  !w.mocks[m][k].accepts(call) || other.retired || other.calls >= other.maximum)
  {
    var k := FirstTaker(w, w.mocks[m], call);
    forall i | 0 <= i < k
      ensures !Takes(w, w.mocks[m][i], call)
    {}
  }

  /** It is counted there and nowhere else, and afterwards all sequences of the
      expectation stand at it. */
  lemma TakenCounts(w: World, m: nat, call: Call)
    requires Valid(w) && m < |w.mocks| && Decide(w, m, call).Taken?
    ensures var step := w.mocks[m][Decide(w, m, call).place].state;
            var w' := Called(w, m, call);
            && w'.mocks == w.mocks && |w'.states| == |w.states| && |w'.sequences| == |w.sequences|
            && (forall s | 0 <= s < |w.states| ::
                  w'.states[s].calls == w.states[s].calls + if s == step then 1 else 0)
            && (forall q | q in w.states[step].sequences ::
                  && q < |w'.sequences| && w'.sequences[q].current < |w'.sequences[q].steps|
                  && w'.sequences[q].steps[w'.sequences[q].current] == step)
  {
    hide Shaped, Called, Decide, PassedAreRetired, ReportsPassed, StepsOfTheirSequences, HeldOnce, WithinBounds,
         Takes;
    CalledIsSafe(w, m, call);
    HeldIsAlive(w, m, Decide(w, m, call).place);
    var step := w.mocks[m][Decide(w, m, call).place].state;
    var qs := w.states[step].sequences;
    CallsAfter(w, step, Called(w, m, call));
    forall q | q in qs
      ensures q < |Called(w, m, call).sequences| && StandsAt(Called(w, m, call).sequences[q], step)
    {
      var i :| 0 <= i < |qs| && qs[i] == q;
    }
  }

  /** It reports exactly the positions it moves over whose expectation is still there
      and was called less often than its minimum; each once. */
  lemma TakenReports(w: World, m: nat, call: Call)
    requires Valid(w) && m < |w.mocks| && Decide(w, m, call).Taken?
    ensures var report := Decide(w, m, call).undone;
            var taker := w.mocks[m][Decide(w, m, call).place].state;
            var w' := Called(w, m, call);
            && (forall i, j | 0 <= i < j < |report| :: report[i] != report[j])
            && |w'.sequences| == |w.sequences|
            && (forall q, p | 0 <= q < |w.sequences| && 0 <= p < |w.sequences[q].steps| ::
                  var step := w.sequences[q].steps[p];
                  Undone(q, p) in report <==>
                  && w.sequences[q].current <= p < w'.sequences[q].current && w.states[step].alive
                  && w.states[step].calls + (if step == taker then 1 else 0) < w.states[step].minimum)
  {
    hide Called, Decide, PassedAreRetired, StandAt, StepsOfTheirSequences, HeldOnce, WithinBounds, Takes;
    var report := Decide(w, m, call).undone;
    HeldIsAlive(w, m, Decide(w, m, call).place);
    var taker := w.mocks[m][Decide(w, m, call).place].state;
    var counted := Counted(w, taker);
    var w' := Called(w, m, call);
    CalledIsSafe(w, m, call);
    forall q, p | 0 <= q < |w.sequences| && 0 <= p < |w.sequences[q].steps|
      ensures var step := w.sequences[q].steps[p];
              Undone(q, p) in report <==>
              && w.sequences[q].current <= p < w'.sequences[q].current && w.states[step].alive
              && w.states[step].calls + (if step == taker then 1 else 0) < w.states[step].minimum
    {
      assert Undone(q, p) in report <==> WasLeft(counted, w', Undone(q, p));
    }
  }

  /** A verification reports exactly the expectations called less often than their
      minimum, once each and in order. It lets go of those of its mock and of no other. */
  lemma VerifiedMeans(w: World, m: nat)
    requires Valid(w) && m < |w.mocks|
    ensures var places := Unmet(w.states, w.mocks[m]);
            && (forall k :: k in places <==>
                  0 <= k < |w.mocks[m]| && w.states[w.mocks[m][k].state].calls < w.states[w.mocks[m][k].state].minimum)
            && (forall i, j | 0 <= i < j < |places| :: places[i] < places[j])
    ensures var w' := Verified(w, m);
            && w'.mocks == w.mocks[m := []] && w'.sequences == w.sequences && |w'.states| == |w.states|
            && (forall k | 0 <= k < |w.mocks[m]| :: !w'.states[w.mocks[m][k].state].alive)
            && (forall n, k | 0 <= n < |w.mocks| && n != m && 0 <= k < |w.mocks[n]| ::
                  w'.states[w.mocks[n][k].state] == w.states[w.mocks[n][k].state])
  {
    forall n, k | 0 <= n < |w.mocks| && n != m && 0 <= k < |w.mocks[n]|
      ensures Verified(w, m).states[w.mocks[n][k].state] == w.states[w.mocks[n][k].state]
    {
      HeldElsewhere(w, m, n, k);
    }
  }

  /** In every state that can be reached: what a sequence has passed is retired or gone,
      no expectation was called more often than it may be, and a mock holds only live
      ones. */
  lemma ReachableMeans(steps: seq<Step>)
    ensures var w := Run(EMPTY, steps);
            && (forall q, i | 0 <= q < |w.sequences| && 0 <= i < w.sequences[q].current ::
                  && i < |w.sequences[q].steps| && w.sequences[q].steps[i] < |w.states|
                  && var state := w.states[w.sequences[q].steps[i]];
                     state.alive ==> state.retired)
            && (forall s | 0 <= s < |w.states| :: w.states[s].calls <= w.states[s].maximum)
            && (forall m, k | 0 <= m < |w.mocks| && 0 <= k < |w.mocks[m]| ::
                  w.mocks[m][k].state < |w.states| && w.states[w.mocks[m][k].state].alive)
  {
    hide Run;
    ReachableIsValid(steps);
    var w := Run(EMPTY, steps);
    forall q, i | 0 <= q < |w.sequences| && 0 <= i < w.sequences[q].current
      ensures i < |w.sequences[q].steps| && Passed(w.states, w.sequences[q].steps[i])
    {}
  }
}

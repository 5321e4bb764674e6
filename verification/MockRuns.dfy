/** What every step of a program with mocks keeps, and what holds over whole runs. */
module MockRuns {
  import opened Words
  import opened MockModel

  lemma OnwardTransitive(a: World, b: World, c: World)
    requires Shaped(a) && Shaped(b) && Shaped(c) && Onward(a, b) && Onward(b, c)
    ensures Onward(a, c)
  {
    hide Shaped;
    forall s | 0 <= s < |a.states|
      ensures OnlyRetired(a.states[s], c.states[s])
    {
      assert OnlyRetired(a.states[s], b.states[s]) && OnlyRetired(b.states[s], c.states[s]);
    }
  }

  /** Going on keeps the other invariants. */
  lemma OnwardKeeps(w: World, w': World)
    requires Shaped(w) && Shaped(w') && Onward(w, w')
    ensures StepsOfTheirSequences(w) ==> StepsOfTheirSequences(w')
    ensures HeldOnce(w) ==> HeldOnce(w')
    ensures WithinBounds(w) ==> WithinBounds(w')
  {
    forall s | 0 <= s < |w.states|
      ensures w'.states[s] == w.states[s].(retired := w'.states[s].retired)
    {
      assert OnlyRetired(w.states[s], w'.states[s]);
    }
  }

  ghost predicate Members(w: World, qs: seq<nat>, step: nat)
    requires Shaped(w)
  {
    forall i | 0 <= i < |qs| :: qs[i] < |w.sequences| && step in w.sequences[qs[i]].steps
  }

  /** The sequences in `qs` stand at the step. */
  ghost predicate StandAt(w: World, qs: seq<nat>, step: nat) {
    forall i | 0 <= i < |qs| :: qs[i] < |w.sequences| && StandsAt(w.sequences[qs[i]], step)
  }

  ghost predicate StandsAt(sequence: Sequence, step: nat) {
    sequence.current < |sequence.steps| && sequence.steps[sequence.current] == step
  }

  /** From w, a step that could be taken was found in the sequences `qs`. */
  ghost predicate Found(w: World, w': World, qs: seq<nat>, step: nat)
    requires Shaped(w) && step < |w.states|
  {
    && Shaped(w') && Onward(w, w') && PassedAreRetired(w')
    && !w'.states[step].retired && StandAt(w', qs, step)
  }

  /** Entering all its sequences, a step that can be taken is found in each of them
      and not retired by any; each of them stands at it then. */
  lemma {:induction false} EnteredAllFinds(w: World, qs: seq<nat>, step: nat)
    requires Shaped(w) && PassedAreRetired(w) && step < |w.states| && Members(w, qs, step)
    requires w.states[step].alive && !w.states[step].retired
    ensures Found(w, EnteredAll(w, qs, step), qs, step)
  {
    hide Shaped, Entered, PassedAreRetired, StandsAt;
    if qs == [] {
    } else {
      var n := |qs| - 1;
      EnteredAllFinds(w, qs[..n], step);
      FindsOneMore(w, EnteredAll(w, qs[..n], step), qs[..n], qs[n], step);
      assert qs == qs[..n] + [qs[n]];
    }
  }

  lemma FindsOneMore(w: World, w1: World, qs: seq<nat>, q: nat, step: nat)
    requires Shaped(w) && step < |w.states| && Found(w, w1, qs, step) && w.states[step].alive
    requires q < |w.sequences| && step in w.sequences[q].steps
    ensures Found(w, Entered(w1, q, step), qs + [q], step)
  {
    hide Shaped, Entered, PassedAreRetired;
    assert OnlyRetired(w.states[step], w1.states[step]);
    EnteredKeepsPassed(w1, q, step);
    EnteredFinds(w1, q, step);
    EnteredOnward(w1, q, step);
    OnwardTransitive(w, w1, Entered(w1, q, step));
    forall i | 0 <= i < |qs|
      ensures StandsAt(Entered(w1, q, step).sequences[qs[i]], step)
    {
      assert StandsAt(w1.sequences[qs[i]], step);
      EnteringAgain(w1, q, step, qs[i]);
    }
  }

  lemma EnteringAgain(w: World, q: nat, step: nat, p: nat)
    requires Shaped(w) && q < |w.sequences| && p < |w.sequences| && StandsAt(w.sequences[p], step)
    ensures StandsAt(Entered(w, q, step).sequences[p], step)
  {}

  // What a call leaves undone.

  /** The report of entering some sequences from w, ending in w': no position twice,
      only positions that were passed, and all of those whose live step had been
      called too rarely. */
  ghost predicate ReportsPassed(w: World, w': World, report: seq<Undone>)
    requires Shaped(w) && Shaped(w') && Onward(w, w')
  {
    && (forall i, j | 0 <= i < j < |report| :: report[i] != report[j])
    && (forall u | u in report :: WasLeft(w, w', u))
    && (forall u | WasLeft(w, w', u) :: u in report)
  }

  ghost predicate WasLeft(w: World, w': World, u: Undone)
    requires Shaped(w) && Shaped(w') && Onward(w, w')
  {
    && u.sequence < |w.sequences|
    && w.sequences[u.sequence].current <= u.position < w'.sequences[u.sequence].current
    && LeftUndone(w.states, w.sequences[u.sequence].steps[u.position])
  }

  lemma EnterReportsPassed(w: World, q: nat, step: nat)
    requires Shaped(w) && q < |w.sequences|
    ensures Onward(w, Entered(w, q, step))
    ensures ReportsPassed(w, Entered(w, q, step), EnterReport(w, q, step))
  {
    EnteredOnward(w, q, step);
    var sequence := w.sequences[q];
    var positions := UndoneBetween(w.states, sequence.steps, sequence.current, Target(w, q, step));
    var report := EnterReport(w, q, step);
    assert report == Positions(q, positions);
    hide Shaped;
    forall u | WasLeft(w, Entered(w, q, step), u)
      ensures u in report
    {
      assert u.position in positions;
      var k :| 0 <= k < |positions| && positions[k] == u.position;
      assert report[k] == u;
    }
  }

  lemma ReportsAddUp(a: World, b: World, c: World, first: seq<Undone>, second: seq<Undone>)
    requires Shaped(a) && Shaped(b) && Shaped(c) && Onward(a, b) && Onward(b, c)
    requires ReportsPassed(a, b, first) && ReportsPassed(b, c, second)
    ensures Onward(a, c) && ReportsPassed(a, c, first + second)
  {
    hide Shaped;
    OnwardTransitive(a, b, c);
    forall u: Undone
      ensures WasLeft(a, c, u) <==> WasLeft(a, b, u) || WasLeft(b, c, u)
    {
      LeftInEither(a, b, c, u);
    }
    forall i, j | 0 <= i < |first| && 0 <= j < |second|
      ensures first[i] != second[j]
    {
      assert first[i] in first && second[j] in second;
      assert WasLeft(a, b, first[i]) && WasLeft(b, c, second[j]);
    }
  }

  lemma LeftInEither(a: World, b: World, c: World, u: Undone)
    requires Shaped(a) && Shaped(b) && Shaped(c) && Onward(a, b) && Onward(b, c) && Onward(a, c)
    ensures WasLeft(a, c, u) <==> WasLeft(a, b, u) || WasLeft(b, c, u)
  {
    if u.sequence < |a.sequences| && u.position < |a.sequences[u.sequence].steps| {
      var step := a.sequences[u.sequence].steps[u.position];
      assert OnlyRetired(a.states[step], b.states[step]);
    }
  }

  lemma {:induction false} EnterAllReportsPassed(w: World, qs: seq<nat>, step: nat)
    requires Shaped(w) && forall i | 0 <= i < |qs| :: qs[i] < |w.sequences|
    ensures Onward(w, EnteredAll(w, qs, step))
    ensures ReportsPassed(w, EnteredAll(w, qs, step), EnterAllReport(w, qs, step))
  {
    if qs == [] {
    } else {
      var n := |qs| - 1;
      EnterAllReportsPassed(w, qs[..n], step);
      var w1 := EnteredAll(w, qs[..n], step);
      EnterReportsPassed(w1, qs[n], step);
      ReportsAddUp(w, w1, Entered(w1, qs[n], step), EnterAllReport(w, qs[..n], step), EnterReport(w1, qs[n], step));
    }
  }

  // One step of the program.

  lemma CountedKeepsValid(w: World, step: nat)
    requires Valid(w) && step < |w.states| && w.states[step].Available()
    ensures Valid(Counted(w, step))
  {
    var w' := Counted(w, step);
    assert PassedAreRetired(w') by {
      forall q, i | 0 <= q < |w'.sequences| && 0 <= i < w'.sequences[q].current
        ensures Passed(w'.states, w'.sequences[q].steps[i])
      {
        assert Passed(w.states, w.sequences[q].steps[i]);
      }
    }
  }

  /** A call that is taken: the step was found in all its sequences, and what they
      report is what was passed there. */
  lemma TookIsSafe(w: World, step: nat)
    requires Valid(w) && step < |w.states| && w.states[step].alive && w.states[step].Available()
    ensures var qs := w.states[step].sequences;
            var counted := Counted(w, step);
            && Valid(counted) && Valid(Took(w, step))
            && Found(counted, Took(w, step), qs, step)
            && ReportsPassed(counted, Took(w, step), EnterAllReport(counted, qs, step))
  {
    hide Shaped, PassedAreRetired, EnteredAll, EnterAllReport, StandAt, ReportsPassed;
    var qs := w.states[step].sequences;
    var counted := Counted(w, step);
    CountedKeepsValid(w, step);
    JoinedAreMembers(counted, step);
    EnteredAllFinds(counted, qs, step);
    EnterAllReportsPassed(counted, qs, step);
    OnwardKeeps(counted, Took(w, step));
  }

  lemma JoinedAreMembers(w: World, step: nat)
    requires Valid(w) && step < |w.states|
    ensures Members(w, w.states[step].sequences, step)
  {}

  /** A call of a mock. It is counted by the first declared expectation that accepts
      it and can take it, or by none. */
  lemma CalledIsSafe(w: World, m: nat, call: Call)
    requires Valid(w) && m < |w.mocks|
    ensures Valid(Called(w, m, call))
    ensures Decide(w, m, call).Refused? ==> Called(w, m, call) == w
    ensures Decide(w, m, call).Taken? ==>
      var k := Decide(w, m, call).place;
      var step := w.mocks[m][k].state;
      var counted := Counted(w, step);
      && Takes(w, w.mocks[m][k], call) && (forall i | 0 <= i < k :: !Takes(w, w.mocks[m][i], call))
      && Valid(counted) && Found(counted, Called(w, m, call), w.states[step].sequences, step)
      && ReportsPassed(counted, Called(w, m, call), Decide(w, m, call).undone)
  {
    var k := FirstTaker(w, w.mocks[m], call);
    if k < |w.mocks[m]| {
      HeldIsAlive(w, m, k);
      hide Valid, Shaped, Found, ReportsPassed, EnteredAll, EnterAllReport;
      TookIsSafe(w, w.mocks[m][k].state);
    }
  }

  lemma HeldIsAlive(w: World, m: nat, k: nat)
    requires Valid(w) && m < |w.mocks| && k < |w.mocks[m]|
    ensures w.mocks[m][k].state < |w.states| && w.states[w.mocks[m][k].state].alive
  {}

  lemma VerifiedKeepsValid(w: World, m: nat)
    requires Valid(w) && m < |w.mocks|
    ensures Valid(Verified(w, m))
  {
    var w' := Verified(w, m);
    assert PassedAreRetired(w') by {
      forall q, i | 0 <= q < |w'.sequences| && 0 <= i < w'.sequences[q].current
        ensures Passed(w'.states, w'.sequences[q].steps[i])
      {
        assert Passed(w.states, w.sequences[q].steps[i]);
      }
    }
    forall n, k | 0 <= n < |w'.mocks| && 0 <= k < |w'.mocks[n]|
      ensures w'.states[w'.mocks[n][k].state] == w.states[w.mocks[n][k].state]
    {
      HeldElsewhere(w, m, n, k);
    }
  }

  lemma HeldElsewhere(w: World, m: nat, n: nat, k: nat)
    requires Valid(w) && m < |w.mocks| && n < |w.mocks| && n != m && k < |w.mocks[n]|
    ensures forall i | 0 <= i < |w.mocks[m]| :: w.mocks[m][i].state != w.mocks[n][k].state
  {
    forall i | 0 <= i < |w.mocks[m]|
      ensures w.states[w.mocks[m][i].state].mock == m
    {
    }
  }

  lemma DeclaredKeepsValid(w: World, m: nat, accepts: Call -> bool, minimum: nat, maximum: nat)
    requires Valid(w) && m < |w.mocks| && minimum <= maximum
    ensures Valid(Declared(w, m, accepts, minimum, maximum))
  {
    var w' := Declared(w, m, accepts, minimum, maximum);
    assert PassedAreRetired(w') by {
      forall q, i | 0 <= q < |w'.sequences| && 0 <= i < w'.sequences[q].current
        ensures Passed(w'.states, w'.sequences[q].steps[i])
      {
        assert Passed(w.states, w.sequences[q].steps[i]);
      }
    }
  }

  lemma JoinedKeepsValid(w: World, m: nat, k: nat, q: nat)
    requires Valid(w) && m < |w.mocks| && k < |w.mocks[m]| && q < |w.sequences|
    ensures Valid(Joined(w, m, k, q))
  {
    var w' := Joined(w, m, k, q);
    assert PassedAreRetired(w') by {
      forall p, i | 0 <= p < |w'.sequences| && 0 <= i < w'.sequences[p].current
        ensures Passed(w'.states, w'.sequences[p].steps[i])
      {
        assert Passed(w.states, w.sequences[p].steps[i]);
      }
    }
    assert StepsOfTheirSequences(w') by {
      forall s, i | 0 <= s < |w'.states| && 0 <= i < |w'.states[s].sequences|
        ensures s in w'.sequences[w'.states[s].sequences[i]].steps
      {
        if i < |w.states[s].sequences| {
          assert s in w.sequences[w.states[s].sequences[i]].steps;
        }
      }
    }
  }
}

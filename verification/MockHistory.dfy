/** Whole runs of a program with mocks: any interleaving of declarations, calls and
    verifications. */
module MockHistory {
  import opened Words
  import opened MockModel
  import opened MockRuns

  datatype Step =
    | NewMock
    | NewSequence
    | Declare(m: nat, accepts: Call -> bool, minimum: nat, maximum: nat)
    | Join(m: nat, k: nat, q: nat)
    | CallMock(m: nat, call: Call)
    | Verify(m: nat)

  /** Steps on something that does not exist, and bounds the wrong way round, do
      nothing. */
  predicate Possible(w: World, step: Step) {
    match step
    case NewMock => true
    case NewSequence => true
    case Declare(m, _, minimum, maximum) => m < |w.mocks| && minimum <= maximum
    case Join(m, k, q) => m < |w.mocks| && k < |w.mocks[m]| && q < |w.sequences|
    case CallMock(m, _) => m < |w.mocks|
    case Verify(m) => m < |w.mocks|
  }

  function Performed(w: World, step: Step): (w': World)
    requires Shaped(w)
    ensures Shaped(w')
  {
    if !Possible(w, step) then w
    else
      match step
      case NewMock => w.(mocks := w.mocks + [[]])
      case NewSequence => w.(sequences := w.sequences + [Sequence([], 0)])
      case Declare(m, accepts, minimum, maximum) => Declared(w, m, accepts, minimum, maximum)
      case Join(m, k, q) => Joined(w, m, k, q)
      case CallMock(m, call) => Called(w, m, call)
      case Verify(m) => Verified(w, m)
  }

  function Run(w: World, steps: seq<Step>): (w': World)
    requires Shaped(w)
    ensures Shaped(w')
    decreases |steps|
  {
    if steps == [] then w else Run(Performed(w, steps[0]), steps[1..])
  }

  const EMPTY := World([], [], [])

  lemma PerformedKeepsValid(w: World, step: Step)
    requires Valid(w)
    ensures Valid(Performed(w, step))
  {
    if Possible(w, step) {
      match step {
        case NewMock =>
        case NewSequence => NewSequenceKeepsValid(w);
        case Declare(m, accepts, minimum, maximum) => DeclaredKeepsValid(w, m, accepts, minimum, maximum);
        case Join(m, k, q) => JoinedKeepsValid(w, m, k, q);
        case CallMock(m, call) => CalledIsSafe(w, m, call);
        case Verify(m) => VerifiedKeepsValid(w, m);
      }
    }
  }

  lemma NewSequenceKeepsValid(w: World)
    requires Valid(w)
    ensures Valid(Performed(w, NewSequence))
  {
    var w' := Performed(w, NewSequence);
    forall q, i | 0 <= q < |w'.sequences| && 0 <= i < w'.sequences[q].current
      ensures Passed(w'.states, w'.sequences[q].steps[i])
    {
      assert Passed(w.states, w.sequences[q].steps[i]);
    }
  }

  /** The invariants hold in every state a program can reach. */
  lemma {:induction false} EveryRunIsValid(w: World, steps: seq<Step>)
    requires Valid(w)
    ensures Valid(Run(w, steps))
    decreases |steps|
  {
    hide Valid, Performed;
    if steps == [] {
    } else {
      PerformedKeepsValid(w, steps[0]);
      ValidIsShaped(w);
      EveryRunIsValid(Performed(w, steps[0]), steps[1..]);
    }
  }

  lemma ValidIsShaped(w: World)
    requires Valid(w)
    ensures Shaped(w)
  {}

  /** Every state that can be reached from the beginning is valid. */
  lemma ReachableIsValid(steps: seq<Step>)
    ensures Valid(Run(EMPTY, steps))
  {
    EveryRunIsValid(EMPTY, steps);
  }

  // Positions and states.

  /** Sequences only get longer, and positions only move forward. Expectations stay
      retired and gone, and their counts only grow. */
  ghost predicate MovesOn(w: World, w': World) {
    && |w.sequences| <= |w'.sequences|
    && (forall q | 0 <= q < |w.sequences| :: MovedOn(w.sequences[q], w'.sequences[q]))
    && |w.states| <= |w'.states|
    && (forall s | 0 <= s < |w.states| :: Aged(w.states[s], w'.states[s]))
  }

  ghost predicate MovedOn(s: Sequence, s': Sequence) {
    s.steps <= s'.steps && s.current <= s'.current
  }

  ghost predicate Aged(s: State, s': State) {
    && (s.retired ==> s'.retired) && (!s.alive ==> !s'.alive) && s.calls <= s'.calls
    && s'.minimum == s.minimum && s'.maximum == s.maximum
  }

  lemma MovesOnTransitive(a: World, b: World, c: World)
    requires MovesOn(a, b) && MovesOn(b, c)
    ensures MovesOn(a, c)
  {
    forall q | 0 <= q < |a.sequences|
      ensures MovedOn(a.sequences[q], c.sequences[q])
    {
      assert MovedOn(a.sequences[q], b.sequences[q]) && MovedOn(b.sequences[q], c.sequences[q]);
    }
    forall s | 0 <= s < |a.states|
      ensures Aged(a.states[s], c.states[s])
    {
      assert Aged(a.states[s], b.states[s]) && Aged(b.states[s], c.states[s]);
    }
  }

  lemma PerformedMovesOn(w: World, step: Step)
    requires Valid(w)
    ensures MovesOn(w, Performed(w, step))
  {
    hide Called, Entered, EnteredAll, Decide, PassedAreRetired, StepsOfTheirSequences, HeldOnce, WithinBounds;
    if Possible(w, step) && step.CallMock? {
      CallMovesOn(w, step.m, step.call);
    }
  }

  lemma CallMovesOn(w: World, m: nat, call: Call)
    requires Valid(w) && m < |w.mocks|
    ensures MovesOn(w, Called(w, m, call))
  {
    hide Called, Decide, Shaped, PassedAreRetired, StepsOfTheirSequences, HeldOnce, WithinBounds, StandAt,
         ReportsPassed;
    CalledIsSafe(w, m, call);
    if Decide(w, m, call).Taken? {
      HeldIsAlive(w, m, Decide(w, m, call).place);
    }
  }

  lemma {:induction false} RunMovesOn(w: World, steps: seq<Step>)
    requires Valid(w)
    ensures MovesOn(w, Run(w, steps))
    decreases |steps|
  {
    ValidIsShaped(w);
    hide Valid, Performed, Shaped;
    if steps == [] {
      assert forall q | 0 <= q < |w.sequences| :: MovedOn(w.sequences[q], w.sequences[q]);
    } else {
      PerformedKeepsValid(w, steps[0]);
      PerformedMovesOn(w, steps[0]);
      RunMovesOn(Performed(w, steps[0]), steps[1..]);
      MovesOnTransitive(w, Performed(w, steps[0]), Run(w, steps));
    }
  }

  // Reports.

  function ReportOf(w: World, step: Step): seq<Undone>
    requires Shaped(w)
  {
    if step.CallMock? && Possible(w, step) && Decide(w, step.m, step.call).Taken?
    then Decide(w, step.m, step.call).undone else []
  }

  function RunReport(w: World, steps: seq<Step>): seq<Undone>
    requires Shaped(w)
    decreases |steps|
  {
    if steps == [] then [] else ReportOf(w, steps[0]) + RunReport(Performed(w, steps[0]), steps[1..])
  }

  /** Positions between those of w and of w', none twice. */
  ghost predicate Between(w: World, w': World, report: seq<Undone>) {
    && (forall u | u in report :: IsBetween(w, w', u))
    && (forall i, j | 0 <= i < j < |report| :: report[i] != report[j])
  }

  ghost predicate IsBetween(w: World, w': World, u: Undone) {
    && u.sequence < |w'.sequences|
    && (u.sequence < |w.sequences| ==> w.sequences[u.sequence].current <= u.position)
    && u.position < w'.sequences[u.sequence].current
  }

  lemma ReportOfBetween(w: World, step: Step)
    requires Valid(w)
    ensures Between(w, Performed(w, step), ReportOf(w, step))
  {
    if step.CallMock? && Possible(w, step) && Decide(w, step.m, step.call).Taken? {
      hide Shaped, Called, Decide, StepsOfTheirSequences, PassedAreRetired, HeldOnce, WithinBounds;
      CallReportBetween(w, step.m, step.call);
    }
  }

  lemma CallReportBetween(w: World, m: nat, call: Call)
    requires Valid(w) && m < |w.mocks| && Decide(w, m, call).Taken?
    ensures Between(w, Called(w, m, call), Decide(w, m, call).undone)
  {
    hide Shaped, Onward, PassedAreRetired, StandAt, ReportsPassed, Between, Called, Decide,
         StepsOfTheirSequences, HeldOnce, WithinBounds, Takes;
    CalledIsSafe(w, m, call);
    HeldIsAlive(w, m, Decide(w, m, call).place);
    var counted := Counted(w, w.mocks[m][Decide(w, m, call).place].state);
    PassedAreBetween(w, counted, Called(w, m, call), Decide(w, m, call).undone);
  }

  lemma PassedAreBetween(w: World, counted: World, w': World, report: seq<Undone>)
    requires Shaped(counted) && Shaped(w') && Onward(counted, w') && counted.sequences == w.sequences
    requires ReportsPassed(counted, w', report)
    ensures Between(w, w', report)
  {
    hide Shaped;
    forall u | u in report
      ensures IsBetween(w, w', u)
    {
      assert WasLeft(counted, w', u);
    }
  }

  lemma BetweenAddsUp(a: World, b: World, c: World, first: seq<Undone>, second: seq<Undone>)
    requires MovesOn(a, b) && MovesOn(b, c) && Between(a, b, first) && Between(b, c, second)
    ensures Between(a, c, first + second)
  {
    forall u | u in first + second
      ensures IsBetween(a, c, u)
    {
      assert u in first || u in second;
      if u in first {
        assert IsBetween(a, b, u) && MovedOn(b.sequences[u.sequence], c.sequences[u.sequence]);
      } else {
        assert IsBetween(b, c, u);
        assert u.sequence < |a.sequences| ==> MovedOn(a.sequences[u.sequence], b.sequences[u.sequence]);
      }
    }
    forall i, j | 0 <= i < |first| && 0 <= j < |second|
      ensures first[i] != second[j]
    {
      assert first[i] in first && second[j] in second;
      assert IsBetween(a, b, first[i]) && IsBetween(b, c, second[j]);
    }
  }

  /** Over a whole run, each position of a sequence is reported at most once, and
      only after it was passed. */
  lemma {:induction false} ReportedAtMostOnce(w: World, steps: seq<Step>)
    requires Valid(w)
    ensures Between(w, Run(w, steps), RunReport(w, steps))
    decreases |steps|
  {
    ValidIsShaped(w);
    hide Valid, Performed, Shaped, ReportOf, Between, MovesOn;
    if steps == [] {
      NothingIsBetween(w);
    } else {
      var next := Performed(w, steps[0]);
      PerformedKeepsValid(w, steps[0]);
      PerformedMovesOn(w, steps[0]);
      RunMovesOn(next, steps[1..]);
      ReportOfBetween(w, steps[0]);
      ReportedAtMostOnce(next, steps[1..]);
      BetweenAddsUp(w, next, Run(w, steps), ReportOf(w, steps[0]), RunReport(next, steps[1..]));
    }
  }

  lemma NothingIsBetween(w: World)
    ensures Between(w, w, [])
  {}

  // Accounting.

  function SumCalls(states: seq<State>, mock: Mock): nat
    requires forall i | 0 <= i < |mock| :: mock[i].state < |states|
  {
    if mock == [] then 0
    else SumCalls(states, mock[..|mock| - 1]) + states[mock[|mock| - 1].state].calls
  }

  ghost predicate SameCalls(states: seq<State>, states': seq<State>, mock: Mock) {
    forall i | 0 <= i < |mock| ::
      mock[i].state < |states| && mock[i].state < |states'|
      && states'[mock[i].state].calls == states[mock[i].state].calls
  }

  lemma {:induction false} SameSum(states: seq<State>, states': seq<State>, mock: Mock)
    requires SameCalls(states, states', mock)
    ensures SumCalls(states', mock) == SumCalls(states, mock)
  {
    if mock == [] {
    } else {
      SameSum(states, states', mock[..|mock| - 1]);
    }
  }

  /** One more call of the expectation at place k, and of no other. */
  lemma {:induction false} OneMore(states: seq<State>, states': seq<State>, mock: Mock, k: nat)
    requires k < |mock| && SameCalls(states, states', mock[..k]) && SameCalls(states, states', mock[k + 1..])
    requires mock[k].state < |states| && mock[k].state < |states'|
    requires states'[mock[k].state].calls == states[mock[k].state].calls + 1
    requires forall i | 0 <= i < |mock| :: mock[i].state < |states| && mock[i].state < |states'|
    ensures SumCalls(states', mock) == SumCalls(states, mock) + 1
  {
    var last := |mock| - 1;
    if k == last {
      SameSum(states, states', mock[..last]);
    } else {
      assert mock[..last][..k] == mock[..k];
      assert mock[..last][k + 1..] == mock[k + 1..][..last - k - 1];
      OneMore(states, states', mock[..last], k);
      assert mock[k + 1..][last - k - 1] == mock[last];
    }
  }

  ghost predicate IsCall(w: World, step: Step, m: nat)
    requires Shaped(w)
  {
    step.CallMock? && step.m == m && Possible(w, step)
  }

  ghost predicate IsRefused(w: World, step: Step, m: nat)
    requires Shaped(w)
  {
    IsCall(w, step, m) && Decide(w, m, step.call).Refused?
  }

  /** A step adds a call to the expectations of a mock when it is a call of this mock
      that is taken, and otherwise none. */
  lemma StepCounts(w: World, step: Step, m: nat)
    requires Valid(w) && m < |w.mocks| && step != Verify(m)
    ensures var w' := Performed(w, step);
            && m < |w'.mocks|
            && SumCalls(w'.states, w'.mocks[m])
               == SumCalls(w.states, w.mocks[m]) + if IsCall(w, step, m) && !IsRefused(w, step, m) then 1 else 0
  {
    var w' := Performed(w, step);
    if !Possible(w, step) || step.NewMock? || step.NewSequence? || step.Join? {
      SameSum(w.states, w'.states, w.mocks[m]);
    } else if step.Declare? {
      DeclareCounts(w, step, m);
    } else if step.CallMock? {
      CallCounts(w, step.m, step.call, m);
    } else {
      VerifyCounts(w, step.m, m);
    }
  }

  lemma DeclareCounts(w: World, step: Step, m: nat)
    requires Valid(w) && m < |w.mocks| && step.Declare? && Possible(w, step)
    ensures var w' := Declared(w, step.m, step.accepts, step.minimum, step.maximum);
            SumCalls(w'.states, w'.mocks[m]) == SumCalls(w.states, w.mocks[m])
  {
    var w' := Declared(w, step.m, step.accepts, step.minimum, step.maximum);
    SameSum(w.states, w'.states, w.mocks[m]);
    if m == step.m {
      assert w'.mocks[m][..|w.mocks[m]|] == w.mocks[m];
    }
  }

  lemma VerifyCounts(w: World, n: nat, m: nat)
    requires Valid(w) && m < |w.mocks| && n < |w.mocks| && n != m
    ensures var w' := Verified(w, n);
            SumCalls(w'.states, w'.mocks[m]) == SumCalls(w.states, w.mocks[m])
  {
    SameSum(w.states, Verified(w, n).states, w.mocks[m]);
  }

  lemma CallCounts(w: World, n: nat, call: Call, m: nat)
    requires Valid(w) && m < |w.mocks| && n < |w.mocks|
    ensures var w' := Called(w, n, call);
            && w'.mocks == w.mocks
            && SumCalls(w'.states, w'.mocks[m])
               == SumCalls(w.states, w.mocks[m]) + if n == m && Decide(w, n, call).Taken? then 1 else 0
  {
    hide ReportsPassed, PassedAreRetired, StepsOfTheirSequences, HeldOnce, WithinBounds, EnteredAll,
         EnterAllReport, StandAt;
    CalledIsSafe(w, n, call);
    if Decide(w, n, call).Taken? {
      var k := Decide(w, n, call).place;
      var step := w.mocks[n][k].state;
      var w' := Called(w, n, call);
      CallsAfter(w, step, w');
      forall i | 0 <= i < |w.mocks[m]| && !(m == n && i == k)
        ensures w.mocks[m][i].state != step
      {
        HeldApart(w, m, i, n, k);
      }
      if m == n {
        OneMore(w.states, w'.states, w.mocks[m], k);
      } else {
        SameSum(w.states, w'.states, w.mocks[m]);
      }
    }
  }

  lemma HeldApart(w: World, m: nat, i: nat, n: nat, k: nat)
    requires Valid(w) && m < |w.mocks| && i < |w.mocks[m]| && n < |w.mocks| && k < |w.mocks[n]|
    requires m != n || i != k
    ensures w.mocks[m][i].state != w.mocks[n][k].state
  {
    var a, b := w.states[w.mocks[m][i].state], w.states[w.mocks[n][k].state];
    assert a.mock == m && a.place == i && b.mock == n && b.place == k;
  }

  lemma CallsAfter(w: World, step: nat, w': World)
    requires Shaped(w) && step < |w.states| && Shaped(w') && Onward(Counted(w, step), w')
    ensures forall s | 0 <= s < |w.states| ::
      s < |w'.states| && w'.states[s].calls == w.states[s].calls + if s == step then 1 else 0
  {
    forall s | 0 <= s < |w.states|
      ensures w'.states[s].calls == Counted(w, step).states[s].calls
    {
      assert OnlyRetired(Counted(w, step).states[s], w'.states[s]);
    }
  }

  /** How many calls of a mock a run makes, and how many of them are refused. */
  ghost function CallsIn(w: World, steps: seq<Step>, m: nat): nat
    requires Shaped(w)
    decreases |steps|
  {
    if steps == [] then 0
    else (if IsCall(w, steps[0], m) then 1 else 0) + CallsIn(Performed(w, steps[0]), steps[1..], m)
  }

  ghost function RefusedIn(w: World, steps: seq<Step>, m: nat): nat
    requires Shaped(w)
    decreases |steps|
  {
    if steps == [] then 0
    else (if IsRefused(w, steps[0], m) then 1 else 0) + RefusedIn(Performed(w, steps[0]), steps[1..], m)
  }

  /** Between two verifications of a mock, its calls are those its expectations
      counted and those that were refused. */
  lemma {:induction false} CallsAddUp(w: World, steps: seq<Step>, m: nat)
    requires Valid(w) && m < |w.mocks| && Verify(m) !in steps
    ensures var w' := Run(w, steps);
            && m < |w'.mocks|
            && SumCalls(w'.states, w'.mocks[m]) + RefusedIn(w, steps, m)
               == SumCalls(w.states, w.mocks[m]) + CallsIn(w, steps, m)
    decreases |steps|
  {
    ValidIsShaped(w);
    hide Valid, Performed, SumCalls, IsCall;
    if steps == [] {
    } else {
      PerformedKeepsValid(w, steps[0]);
      StepCounts(w, steps[0], m);
      CallsAddUp(Performed(w, steps[0]), steps[1..], m);
    }
  }
}

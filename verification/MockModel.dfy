/** Mock expectations and the sequences that order them across mocks, as values.
    Expectation states, sequences and mocks are shared in the program; here they go
    by their number. */
module MockModel {
  import opened Words

  /** The arguments of a call; matchers are predicates on them. */
  type Call = nat

  /** An expectation state. It is alive as long as the mock holds it; `mock` and
      `place` tell where that is. */
  datatype State = State(
    minimum: nat, maximum: nat, calls: nat, retired: bool, alive: bool,
    sequences: seq<nat>, mock: nat, place: nat)
  {
    predicate Satisfied() {
      calls >= minimum
    }

    predicate Available() {
      !retired && calls < maximum
    }
  }

  /** The steps of a sequence, which it does not keep alive, and its position. */
  datatype Sequence = Sequence(steps: seq<nat>, current: nat)

  datatype Expectation = Expectation(state: nat, accepts: Call -> bool)

  type Mock = seq<Expectation>

  datatype World = World(states: seq<State>, sequences: seq<Sequence>, mocks: seq<Mock>)

  /** A step that a sequence left undone. */
  datatype Undone = Undone(sequence: nat, position: nat)

  /** Who takes a call, and what that leaves undone; or which expectation last
      accepted it although it could not take it. */
  datatype Decision = Taken(place: nat, undone: seq<Undone>) | Refused(used: Option<nat>)

  /** All numbers name something. */
  ghost predicate Shaped(w: World) {
    && (forall q | 0 <= q < |w.sequences| :: w.sequences[q].current <= |w.sequences[q].steps|)
    && (forall q, i | 0 <= q < |w.sequences| && 0 <= i < |w.sequences[q].steps| ::
          w.sequences[q].steps[i] < |w.states|)
    && (forall s, i | 0 <= s < |w.states| && 0 <= i < |w.states[s].sequences| ::
          w.states[s].sequences[i] < |w.sequences|)
    && (forall m, k | 0 <= m < |w.mocks| && 0 <= k < |w.mocks[m]| :: w.mocks[m][k].state < |w.states|)
  }

  // One sequence.

  function Find(steps: seq<nat>, from: nat, step: nat): (at: nat)
    requires from <= |steps|
    ensures from <= at <= |steps|
    ensures forall i | from <= i < at :: steps[i] != step
    ensures at < |steps| ==> steps[at] == step
    decreases |steps| - from
  {
    if from == |steps| || steps[from] == step then from else Find(steps, from + 1, step)
  }

  predicate LeftUndone(states: seq<State>, step: nat)
    requires step < |states|
  {
    states[step].alive && !states[step].Satisfied()
  }

  /** The live ones among the steps are retired. */
  function Retire(states: seq<State>, steps: seq<nat>): (r: seq<State>)
    requires forall i | 0 <= i < |steps| :: steps[i] < |states|
    ensures |r| == |states|
    ensures forall s | 0 <= s < |states| ::
      r[s] == states[s].(retired := states[s].retired || (states[s].alive && s in steps))
  {
    if steps == [] then states
    else
      var last := steps[|steps| - 1];
      var before := Retire(states, steps[..|steps| - 1]);
      if before[last].alive then before[last := before[last].(retired := true)] else before
  }

  /** The positions left undone from `from` to `until`. */
  function UndoneBetween(states: seq<State>, steps: seq<nat>, from: nat, until: nat): (undone: seq<nat>)
    requires from <= until <= |steps| && forall i | 0 <= i < |steps| :: steps[i] < |states|
    ensures forall i :: i in undone <==> from <= i < until && LeftUndone(states, steps[i])
    ensures forall k | 0 <= k < |undone| :: from <= undone[k] < until
    ensures forall j, k | 0 <= j < k < |undone| :: undone[j] < undone[k]
    decreases until
  {
    if from == until then []
    else
      var before := UndoneBetween(states, steps, from, until - 1);
      if LeftUndone(states, steps[until - 1]) then before + [until - 1] else before
  }

  /** Where `Enter` ends up: at the step, or where it was when there is none. */
  function Target(w: World, q: nat, step: nat): (at: nat)
    requires q < |w.sequences| && w.sequences[q].current <= |w.sequences[q].steps|
    ensures w.sequences[q].current <= at <= |w.sequences[q].steps|
  {
    var sequence := w.sequences[q];
    var at := Find(sequence.steps, sequence.current, step);
    if at == |sequence.steps| then sequence.current else at
  }

  function Entered(w: World, q: nat, step: nat): (w': World)
    requires Shaped(w) && q < |w.sequences|
    ensures Shaped(w')
  {
    var sequence := w.sequences[q];
    var at := Target(w, q, step);
    w.(states := Retire(w.states, sequence.steps[sequence.current..at]),
       sequences := w.sequences[q := sequence.(current := at)])
  }

  function EnterReport(w: World, q: nat, step: nat): (report: seq<Undone>)
    requires Shaped(w) && q < |w.sequences|
  {
    var sequence := w.sequences[q];
    Positions(q, UndoneBetween(w.states, sequence.steps, sequence.current, Target(w, q, step)))
  }

  function Positions(q: nat, positions: seq<nat>): (report: seq<Undone>)
    ensures |report| == |positions| && forall k | 0 <= k < |report| :: report[k] == Undone(q, positions[k])
  {
    seq(|positions|, k requires 0 <= k < |positions| => Undone(q, positions[k]))
  }

  // All sequences of an expectation, in the order it joined them.

  function EnteredAll(w: World, qs: seq<nat>, step: nat): (w': World)
    requires Shaped(w) && forall i | 0 <= i < |qs| :: qs[i] < |w.sequences|
    ensures Shaped(w') && |w'.sequences| == |w.sequences|
  {
    if qs == [] then w
    else Entered(EnteredAll(w, qs[..|qs| - 1], step), qs[|qs| - 1], step)
  }

  function EnterAllReport(w: World, qs: seq<nat>, step: nat): seq<Undone>
    requires Shaped(w) && forall i | 0 <= i < |qs| :: qs[i] < |w.sequences|
  {
    if qs == [] then []
    else
      EnterAllReport(w, qs[..|qs| - 1], step)
      + EnterReport(EnteredAll(w, qs[..|qs| - 1], step), qs[|qs| - 1], step)
  }

  // Calls.

  predicate Takes(w: World, e: Expectation, call: Call)
    requires e.state < |w.states|
  {
    e.accepts(call) && w.states[e.state].Available()
  }

  /** The first declared expectation that accepts the call and can take it. */
  function FirstTaker(w: World, mock: Mock, call: Call): (k: nat)
    requires forall i | 0 <= i < |mock| :: mock[i].state < |w.states|
    ensures k <= |mock|
    ensures forall i | 0 <= i < k :: !Takes(w, mock[i], call)
    ensures k < |mock| ==> Takes(w, mock[k], call)
  {
    if mock == [] || Takes(w, mock[0], call) then 0 else 1 + FirstTaker(w, mock[1..], call)
  }

  function LastAccepting(mock: Mock, call: Call): (k: Option<nat>)
    ensures k.None? ==> forall i | 0 <= i < |mock| :: !mock[i].accepts(call)
    ensures k.Some? ==> k.value < |mock| && mock[k.value].accepts(call)
                        && forall i | k.value < i < |mock| :: !mock[i].accepts(call)
  {
    if mock == [] then None
    else if mock[|mock| - 1].accepts(call) then Some(|mock| - 1)
    else LastAccepting(mock[..|mock| - 1], call)
  }

  function Counted(w: World, step: nat): World
    requires step < |w.states|
  {
    w.(states := w.states[step := w.states[step].(calls := w.states[step].calls + 1)])
  }

  function Took(w: World, step: nat): (w': World)
    requires Shaped(w) && step < |w.states|
    ensures Shaped(w')
  {
    EnteredAll(Counted(w, step), w.states[step].sequences, step)
  }

  function Decide(w: World, m: nat, call: Call): (d: Decision)
    requires Shaped(w) && m < |w.mocks|
    ensures d.Taken? ==> d.place < |w.mocks[m]|
  {
    var k := FirstTaker(w, w.mocks[m], call);
    if k == |w.mocks[m]| then Refused(LastAccepting(w.mocks[m], call))
    else
      var step := w.mocks[m][k].state;
      Taken(k, EnterAllReport(Counted(w, step), w.states[step].sequences, step))
  }

  function Called(w: World, m: nat, call: Call): (w': World)
    requires Shaped(w) && m < |w.mocks|
    ensures Shaped(w')
  {
    var k := FirstTaker(w, w.mocks[m], call);
    if k == |w.mocks[m]| then w else Took(w, w.mocks[m][k].state)
  }

  // Verification.

  /** The places of the unmet expectations, in order. */
  function Unmet(states: seq<State>, mock: Mock): (places: seq<nat>)
    requires forall i | 0 <= i < |mock| :: mock[i].state < |states|
    ensures forall i | 0 <= i < |places| :: places[i] < |mock|
    ensures forall k :: k in places <==> 0 <= k < |mock| && !states[mock[k].state].Satisfied()
    ensures forall i, j | 0 <= i < j < |places| :: places[i] < places[j]
  {
    if mock == [] then []
    else
      var last := |mock| - 1;
      Unmet(states, mock[..last]) + if states[mock[last].state].Satisfied() then [] else [last]
  }

  /** The states that only this mock held are gone. */
  function Released(states: seq<State>, mock: Mock): (r: seq<State>)
    requires forall i | 0 <= i < |mock| :: mock[i].state < |states|
    ensures |r| == |states|
    ensures forall s | 0 <= s < |states| ::
      r[s] == if exists i | 0 <= i < |mock| :: mock[i].state == s then states[s].(alive := false) else states[s]
  {
    if mock == [] then states
    else
      var last := |mock| - 1;
      var before := Released(states, mock[..last]);
      before[mock[last].state := before[mock[last].state].(alive := false)]
  }

  function Verified(w: World, m: nat): (w': World)
    requires Shaped(w) && m < |w.mocks|
    ensures Shaped(w')
  {
    w.(states := Released(w.states, w.mocks[m]), mocks := w.mocks[m := []])
  }

  // Declarations.

  function Declared(w: World, m: nat, accepts: Call -> bool, minimum: nat, maximum: nat): (w': World)
    requires Shaped(w) && m < |w.mocks|
    ensures Shaped(w')
  {
    w.(states := w.states + [State(minimum, maximum, 0, false, true, [], m, |w.mocks[m]|)],
       mocks := w.mocks[m := w.mocks[m] + [Expectation(|w.states|, accepts)]])
  }

  function Joined(w: World, m: nat, k: nat, q: nat): (w': World)
    requires Shaped(w) && m < |w.mocks| && k < |w.mocks[m]| && q < |w.sequences|
    ensures Shaped(w')
  {
    var step := w.mocks[m][k].state;
    w.(states := w.states[step := w.states[step].(sequences := w.states[step].sequences + [q])],
       sequences := w.sequences[q := w.sequences[q].(steps := w.sequences[q].steps + [step])])
  }

  // Invariants.

  /** Every live step left of a sequence's position is retired. */
  ghost predicate PassedAreRetired(w: World)
    requires Shaped(w)
  {
    forall q, i | 0 <= q < |w.sequences| && 0 <= i < w.sequences[q].current ::
      Passed(w.states, w.sequences[q].steps[i])
  }

  predicate Passed(states: seq<State>, step: nat)
    requires step < |states|
  {
    states[step].alive ==> states[step].retired
  }

  /** An expectation is a step of the sequences it joined. */
  ghost predicate StepsOfTheirSequences(w: World)
    requires Shaped(w)
  {
    forall s, i | 0 <= s < |w.states| && 0 <= i < |w.states[s].sequences| ::
      s in w.sequences[w.states[s].sequences[i]].steps
  }

  /** A mock holds its own live expectations, each once. */
  ghost predicate HeldOnce(w: World)
    requires Shaped(w)
  {
    forall m, k | 0 <= m < |w.mocks| && 0 <= k < |w.mocks[m]| ::
      var state := w.states[w.mocks[m][k].state];
      state.mock == m && state.place == k && state.alive
  }

  ghost predicate WithinBounds(w: World) {
    forall s | 0 <= s < |w.states| ::
      w.states[s].minimum <= w.states[s].maximum && w.states[s].calls <= w.states[s].maximum
  }

  ghost predicate Valid(w: World) {
    Shaped(w) && PassedAreRetired(w) && StepsOfTheirSequences(w) && HeldOnce(w) && WithinBounds(w)
  }

  /** Nothing but retirement changed, and positions only moved forward. */
  ghost predicate Onward(w: World, w': World)
    requires Shaped(w) && Shaped(w')
  {
    && w'.mocks == w.mocks && |w'.states| == |w.states| && |w'.sequences| == |w.sequences|
    && (forall s | 0 <= s < |w.states| :: OnlyRetired(w.states[s], w'.states[s]))
    && (forall q | 0 <= q < |w.sequences| ::
          w'.sequences[q].steps == w.sequences[q].steps && w.sequences[q].current <= w'.sequences[q].current)
  }

  predicate OnlyRetired(s: State, s': State) {
    s' == s.(retired := s'.retired) && (s.retired ==> s'.retired)
  }

  lemma EnteredOnward(w: World, q: nat, step: nat)
    requires Shaped(w) && q < |w.sequences|
    ensures Onward(w, Entered(w, q, step))
  {}

  /** Entering a sequence keeps what it passed retired. */
  lemma EnteredKeepsPassed(w: World, q: nat, step: nat)
    requires Shaped(w) && PassedAreRetired(w) && q < |w.sequences|
    ensures PassedAreRetired(Entered(w, q, step))
  {
    var w' := Entered(w, q, step);
    var sequence := w.sequences[q];
    var at := Target(w, q, step);
    var passing := sequence.steps[sequence.current..at];
    forall p, i | 0 <= p < |w'.sequences| && 0 <= i < w'.sequences[p].current
      ensures Passed(w'.states, w'.sequences[p].steps[i])
    {
      if p == q && sequence.current <= i {
        assert passing[i - sequence.current] == sequence.steps[i];
      } else {
        assert Passed(w.states, w.sequences[p].steps[i]);
      }
    }
  }

  /** A step that can be taken is still ahead in each of its sequences: entering one
      finds it, puts the sequence there, and does not retire it. */
  lemma EnteredFinds(w: World, q: nat, step: nat)
    requires Shaped(w) && PassedAreRetired(w) && q < |w.sequences| && step < |w.states|
    requires step in w.sequences[q].steps && w.states[step].alive && !w.states[step].retired
    ensures var w' := Entered(w, q, step);
            && !w'.states[step].retired
            && w'.sequences[q].current < |w'.sequences[q].steps|
            && w'.sequences[q].steps[w'.sequences[q].current] == step
  {
    var sequence := w.sequences[q];
    forall i | 0 <= i < sequence.current
      ensures sequence.steps[i] != step
    {
      assert Passed(w.states, sequence.steps[i]);
    }
    var at := Find(sequence.steps, sequence.current, step);
    assert at < |sequence.steps|;
    assert step !in sequence.steps[sequence.current..at];
  }
}

/** One trial of a property: a strategy and a body that draw choices from a
    `ChoiceSource`, which generates them or reads them back from a recording. */
module Trials {
  import opened Words

  datatype Verdict = Passed | Failed | Discarded | Invalid | Errored

  /** One score the body reported. */
  datatype Target = Target(name: string, score: int)

  datatype Outcome = Outcome(verdict: Verdict, targets: seq<Target>)

  datatype Request = AnyChoice(maximum: uint64) | Biased(maximum: uint64) | Boolean
  {
    function Maximum(): uint64 {
      if Boolean? then 1 else maximum
    }
  }

  /** What a trial does next, knowing the values drawn so far. */
  datatype Action = Draw(request: Request) | Stop(outcome: Outcome)

  /** `TrialRunner`: the action of the run-th execution, at a size, after the
      given draws. It may depend on the run, as a flaky body does. */
  datatype Program = Program(next: (nat, nat, Choices) -> Action, limit: nat)

  /** Strategies stop drawing at some number of choices, which a vector can hold. */
  ghost predicate Halts(p: Program) {
    p.limit < TWO_TO_64 &&
    forall run: nat, size: nat, drawn: Choices | |drawn| >= p.limit :: p.next(run, size, drawn).Stop?
  }

  type Trial = p: Program | Halts(p)
    witness Program((run, size, drawn) => Stop(Outcome(Passed, [])), 0)

  /** Every execution at one size with the same draws does the same. */
  ghost predicate Repeatable(t: Trial) {
    forall run: nat, size: nat, drawn: Choices :: t.next(run, size, drawn) == t.next(0, size, drawn)
  }

  /** `choices` is what some execution drew from start to stop: each choice in the
      range it was asked for. */
  ghost predicate IsRecording(t: Trial, run: nat, size: nat, choices: Choices) {
    && t.next(run, size, choices).Stop?
    && Drawable(t, run, size, choices)
  }

  ghost predicate Drawable(t: Trial, run: nat, size: nat, choices: Choices) {
    forall i | 0 <= i < |choices| ::
      var action := t.next(run, size, choices[..i]);
      action.Draw? && choices[i] <= action.request.Maximum()
  }

  /** What reading choice `position` of a recording gives: zero past its end, and
      never more than asked for. */
  function ReadBack(replay: Choices, position: nat, maximum: uint64): (value: uint64)
    ensures value <= maximum
  {
    if position >= |replay| then 0
    else if replay[position] > maximum then maximum
    else replay[position]
  }

  /** The choices an execution that replays `replay` ends with, after `drawn`. */
  function Play(t: Trial, run: nat, size: nat, replay: Choices, drawn: Choices): Choices
    decreases if |drawn| < t.limit then t.limit - |drawn| else 0
  {
    match t.next(run, size, drawn)
    case Stop(_) => drawn
    case Draw(request) =>
      Play(t, run, size, replay, drawn + [ReadBack(replay, |drawn|, request.Maximum())])
  }

  /** Every choice of a replay is the recorded one, the maximum where the recorded one is
      larger, or 0 where none is recorded. */
  lemma {:induction false} PlayReadsBack(t: Trial, run: nat, size: nat, replay: Choices, drawn: Choices)
    ensures var played := Play(t, run, size, replay, drawn);
            && drawn <= played
            && forall i | |drawn| <= i < |played| ::
                 var action := t.next(run, size, played[..i]);
                 && action.Draw?
                 && (i >= |replay| ==> played[i] == 0)
                 && (i < |replay| && replay[i] <= action.request.Maximum() ==> played[i] == replay[i])
                 && (i < |replay| && replay[i] > action.request.Maximum() ==> played[i] == action.request.Maximum())
    decreases if |drawn| < t.limit then t.limit - |drawn| else 0
  {
    var action := t.next(run, size, drawn);
    if action.Stop? {
    } else {
      var more := drawn + [ReadBack(replay, |drawn|, action.request.Maximum())];
      PlayReadsBack(t, run, size, replay, more);
      var played := Play(t, run, size, replay, drawn);
      assert played == Play(t, run, size, replay, more) && more <= played;
      assert played[..|drawn|] == drawn && played[|drawn|] == more[|drawn|];
    }
  }

  /** What a trial draws from random numbers, the next of which is number `asked`. */
  ghost function Generated(t: Trial, run: nat, size: nat, random: RandomAnswers, asked: nat, drawn: Choices): Choices
    decreases if |drawn| < t.limit then t.limit - |drawn| else 0
  {
    match t.next(run, size, drawn)
    case Stop(_) => drawn
    case Draw(request) =>
      Generated(t, run, size, random, asked + NumbersFor(random, asked, request),
                drawn + [ValueFor(random, asked, size, request)])
  }

  /** A word from 0 to the maximum; every word is asked for by a bound of 0. */
  function UniformValue(random: RandomAnswers, asked: nat, maximum: uint64): uint64 {
    random(asked, if maximum == UINT64_MAX then 0 else maximum + 1)
  }

  /** The value a request gets, and how many random numbers that takes. */
  ghost function ValueFor(random: RandomAnswers, asked: nat, size: nat, request: Request): uint64 {
    match request
    case AnyChoice(maximum) => UniformValue(random, asked, maximum)
    case Boolean => random(asked, 2)
    case Biased(maximum) =>
      var roll := random(asked, 32);
      if roll == 0 then 0
      else if roll == 1 then maximum
      else if roll < 4 then if maximum == 0 then 0 else random(asked + 1, 2)
      else if roll < 8 || maximum <= 1 then UniformValue(random, asked + 1, maximum)
      else UniformValue(random, asked + 1, ScaledMaximum(size, maximum))
  }

  function NumbersFor(random: RandomAnswers, asked: nat, request: Request): nat {
    match request
    case AnyChoice(_) => 1
    case Boolean => 1
    case Biased(maximum) =>
      var roll := random(asked, 32);
      if roll < 2 || (roll < 4 && maximum == 0) then 1 else 2
  }

  /** Generation can give any value in range, whatever the kind of the request. */
  lemma AnyValueIsDrawn(size: nat, request: Request, value: uint64) returns (random: RandomAnswers)
    requires value <= request.Maximum()
    ensures StaysBelow(random) && ValueFor(random, 0, size, request) == value
  {
    random := (k: nat, bound: uint64) =>
      if request.Biased? && k == 0 && bound == 32 then 4
      else if bound == 0 || value < bound then value
      else 0;
  }

  function OutcomeOf(t: Trial, run: nat, size: nat, choices: Choices): Outcome {
    match t.next(run, size, choices)
    case Stop(outcome) => outcome
    case Draw(_) => Outcome(Invalid, [])
  }

  /** A source of choices. Random numbers are a parameter: the k-th call of
      `Below(bound)` answers `random(k, bound)`. */
  type RandomAnswers = (nat, uint64) -> uint64

  /** `Below` stays below its bound; a bound of zero asks for any word. */
  ghost predicate StaysBelow(random: RandomAnswers) {
    forall k: nat, bound: uint64 | bound != 0 :: random(k, bound) < bound
  }

  class ChoiceSource {
    const random: RandomAnswers
    var asked: nat
    const replay: Choices
    const replaying: bool
    var position: nat
    var overran: bool
    const size: nat
    var choices: Choices

    ghost predicate Valid()
      reads this
    {
      && StaysBelow(random)
      && (replaying ==>
            && position == (if |choices| < |replay| then |choices| else |replay|)
            && (overran <==> |choices| > |replay|))
    }

    constructor Generate(random: RandomAnswers, size: nat)
      requires StaysBelow(random)
      ensures Valid() && !replaying && this.size == size && choices == []
      ensures this.random == random && asked == 0
    {
      this.random := random;
      this.asked := 0;
      this.replay := [];
      this.replaying := false;
      this.position := 0;
      this.overran := false;
      this.size := size;
      this.choices := [];
    }

    constructor Replay(random: RandomAnswers, replay: Choices, size: nat)
      requires StaysBelow(random)
      ensures Valid() && replaying && this.replay == replay && this.size == size && choices == []
    {
      this.random := random;
      this.asked := 0;
      this.replay := replay;
      this.replaying := true;
      this.position := 0;
      this.overran := false;
      this.size := size;
      this.choices := [];
    }

    method Below(bound: uint64) returns (value: uint64)
      requires Valid()
      modifies this`asked
      ensures Valid() && value == random(old(asked), bound) && asked == old(asked) + 1
      ensures bound != 0 ==> value < bound
    {
      value := random(asked, bound);
      asked := asked + 1;
    }

    method ReadReplay(maximum: uint64) returns (value: uint64)
      requires replaying
      modifies this`position, this`overran
      ensures value == ReadBack(replay, old(position), maximum)
      ensures old(position) >= |replay| ==> value == 0
      ensures old(position) < |replay| ==>
                value == if replay[old(position)] <= maximum then replay[old(position)] else maximum
      ensures position == if old(position) >= |replay| then old(position) else old(position) + 1
      ensures overran == (old(overran) || old(position) >= |replay|)
    {
      if position >= |replay| {
        overran := true;
        return 0;
      }
      value := replay[position];
      position := position + 1;
      if value > maximum {
        value := maximum;
      }
    }

    /** 2^(size / 4 + 2) - 1, at most `maximum`. */
    method ScaledLimit(maximum: uint64) returns (limit: uint64)
      ensures limit == ScaledMaximum(size, maximum) <= maximum
    {
      var bits := size / 4 + 2;
      if bits >= 64 {
        LargePower(bits);
        return maximum;
      }
      limit := (PowerOfTwo(bits) - 1) as uint64;
      if limit >= maximum {
        limit := maximum;
      }
    }

    /** A draw of any kind. Only generation tells the kinds apart; a replay reads
        the same recorded choice for each. */
    method Next(request: Request) returns (value: uint64)
      requires Valid()
      modifies this
      ensures Valid()
      ensures value <= request.Maximum()
      ensures choices == old(choices) + [value]
      ensures replaying ==> value == ReadBack(replay, |old(choices)|, request.Maximum())
      ensures !replaying ==>
        && value == ValueFor(random, old(asked), size, request)
        && asked == old(asked) + NumbersFor(random, old(asked), request)
    {
      if replaying {
        value := ReadReplay(request.Maximum());
      } else {
        match request {
          case AnyChoice(maximum) => value := Uniform(maximum);
          case Biased(maximum) => value := DrawBiased(maximum);
          case Boolean => value := Below(2);
        }
      }
      choices := choices + [value];
    }

    method Uniform(maximum: uint64) returns (value: uint64)
      requires Valid()
      modifies this`asked
      ensures Valid() && value <= maximum
      ensures value == UniformValue(random, old(asked), maximum) && asked == old(asked) + 1
    {
      if maximum == UINT64_MAX {
        value := Below(0);
      } else {
        value := Below(maximum + 1);
      }
    }

    /** Small values and the edges of the range, more often than others: one of 32
        rolls gives 0 and one the maximum, two give at most 1, four any value, and all
        others a value that grows with the size. */
    method DrawBiased(maximum: uint64) returns (value: uint64)
      requires Valid()
      modifies this`asked
      ensures Valid() && value <= maximum
      ensures value == ValueFor(random, old(asked), size, Biased(maximum))
      ensures asked == old(asked) + NumbersFor(random, old(asked), Biased(maximum))
      ensures var roll := random(old(asked), 32);
              && (roll == 0 ==> value == 0)
              && (roll == 1 ==> value == maximum)
              && (roll in {2, 3} ==> value <= 1)
              && (roll >= 8 ==> value <= ScaledMaximum(size, maximum))
    {
      var roll := Below(32);
      if roll == 0 {
        value := 0;
      } else if roll == 1 {
        value := maximum;
      } else if roll < 4 {
        if maximum == 0 {
          value := 0;
        } else {
          value := Below(2);
        }
      } else if roll < 8 || maximum <= 1 {
        value := Uniform(maximum);
      } else {
        var limit := ScaledLimit(maximum);
        // For the largest limit, `limit + 1` wraps to 0, which asks for any word.
        value := Uniform(limit);
      }
    }
  }

  /** The limit of most biased draws at a size. */
  ghost function ScaledMaximum(size: nat, maximum: uint64): uint64 {
    var power := Pow2(size / 4 + 2);
    if power <= maximum as nat then (power - 1) as uint64 else maximum
  }

  function PowerOfTwo(bits: nat): (p: nat)
    requires bits < 64
    ensures 1 <= p <= 0x8000_0000_0000_0000
    ensures p == Pow2(bits)
  {
    if bits == 0 then 1 else (
      PowerOfTwoFits(bits);
      2 * PowerOfTwo(bits - 1))
  }

  lemma {:induction false} LargePower(bits: nat)
    requires bits >= 64
    ensures Pow2(bits) >= TWO_TO_64
  {
    if bits == 64 {
      Pow2At64();
    } else {
      LargePower(bits - 1);
    }
  }

  lemma {:induction false} PowerOfTwoFits(bits: nat)
    requires bits < 64
    ensures Pow2(bits) <= 0x8000_0000_0000_0000
    decreases 64 - bits
  {
    if bits == 63 {
      Pow2At64();
    } else {
      PowerOfTwoFits(bits + 1);
    }
  }

  /** Executes one trial on a source. */
  method Execute(t: Trial, run: nat, source: ChoiceSource) returns (outcome: Outcome)
    requires source.Valid() && source.choices == []
    modifies source
    ensures source.Valid()
    ensures IsRecording(t, run, source.size, source.choices)
    ensures outcome == OutcomeOf(t, run, source.size, source.choices)
    ensures source.replaying ==> source.choices == Play(t, run, source.size, source.replay, [])
    ensures !source.replaying ==>
      source.choices == Generated(t, run, source.size, source.random, old(source.asked), [])
  {
    var action := t.next(run, source.size, []);
    while action.Draw?
      invariant source.Valid()
      invariant action == t.next(run, source.size, source.choices)
      invariant Drawable(t, run, source.size, source.choices)
      invariant source.replaying ==>
        Play(t, run, source.size, source.replay, []) == Play(t, run, source.size, source.replay, source.choices)
      invariant !source.replaying ==>
        Generated(t, run, source.size, source.random, old(source.asked), [])
        == Generated(t, run, source.size, source.random, source.asked, source.choices)
      decreases t.limit - |source.choices|
    {
      ghost var before := source.choices;
      var value := source.Next(action.request);
      DrawableGrows(t, run, source.size, before, value);
      action := t.next(run, source.size, source.choices);
    }
    outcome := action.outcome;
  }

  lemma DrawableGrows(t: Trial, run: nat, size: nat, choices: Choices, value: uint64)
    requires Drawable(t, run, size, choices)
    requires t.next(run, size, choices).Draw? && value <= t.next(run, size, choices).request.Maximum()
    ensures Drawable(t, run, size, choices + [value])
  {
    forall i | 0 <= i < |choices + [value]|
      ensures t.next(run, size, (choices + [value])[..i]).Draw?
      ensures (choices + [value])[i] <= t.next(run, size, (choices + [value])[..i]).request.Maximum()
    {
      assert (choices + [value])[..i] == choices[..i];
      if i == |choices| {
        assert choices[..i] == choices;
      }
    }
  }

  lemma RecordingIsShort(t: Trial, run: nat, size: nat, choices: Choices)
    requires IsRecording(t, run, size, choices)
    ensures |choices| <= t.limit
  {
    if choices != [] {
      assert t.next(run, size, choices[..|choices| - 1]).Draw?;
    }
  }

  /** Whatever is replayed, what comes out is a recording. */
  lemma {:induction false} PlayRecords(t: Trial, run: nat, size: nat, replay: Choices, drawn: Choices)
    requires Drawable(t, run, size, drawn)
    ensures IsRecording(t, run, size, Play(t, run, size, replay, drawn))
    decreases if |drawn| < t.limit then t.limit - |drawn| else 0
  {
    var action := t.next(run, size, drawn);
    if action.Stop? {
    } else {
      var value := ReadBack(replay, |drawn|, action.request.Maximum());
      DrawableGrows(t, run, size, drawn, value);
      PlayRecords(t, run, size, replay, drawn + [value]);
    }
  }

  /** Replaying a recording draws exactly the recording. */
  lemma {:induction false} RecordingReplays(t: Trial, run: nat, size: nat, choices: Choices, k: nat)
    requires IsRecording(t, run, size, choices) && k <= |choices|
    ensures Play(t, run, size, choices, choices[..k]) == choices
    decreases |choices| - k
  {
    if k < |choices| {
      assert choices[..k] + [choices[k]] == choices[..k + 1];
      RecordingReplays(t, run, size, choices, k + 1);
    } else {
      assert choices[..k] == choices;
    }
  }

  /** A recording of a repeatable trial is good for any other run of it: the same
      choices come back, and the same outcome. */
  lemma ReplayIsFaithful(t: Trial, run: nat, later: nat, size: nat, choices: Choices)
    requires Repeatable(t) && IsRecording(t, run, size, choices)
    ensures IsRecording(t, later, size, choices)
    ensures Play(t, later, size, choices, []) == choices
    ensures OutcomeOf(t, later, size, choices) == OutcomeOf(t, run, size, choices)
  {
    assert forall drawn: Choices :: t.next(later, size, drawn) == t.next(run, size, drawn) by {
      assert forall r: nat, drawn: Choices :: t.next(r, size, drawn) == t.next(0, size, drawn);
    }
    RecordingReplays(t, later, size, choices, 0);
    assert choices[..0] == [];
  }

  lemma {:induction false} PlayIsRepeatable(t: Trial, run: nat, size: nat, replay: Choices, drawn: Choices)
    requires Repeatable(t)
    ensures Play(t, run, size, replay, drawn) == Play(t, 0, size, replay, drawn)
    decreases if |drawn| < t.limit then t.limit - |drawn| else 0
  {
    var action := t.next(run, size, drawn);
    assert t.next(0, size, drawn) == action;
    if action.Stop? {
    } else {
      PlayIsRepeatable(t, run, size, replay, drawn + [ReadBack(replay, |drawn|, action.request.Maximum())]);
    }
  }
}

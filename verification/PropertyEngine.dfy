/** Runs a strategy-based property: stored examples, regular trials, targeted
    search, and the shrinking and reporting of a failure. */
module PropertyEngine {
  import opened Words
  import opened Shortlex
  import opened ShrinkEdits
  import opened Trials
  import opened Arithmetic
  import Shrinker
  import Tokens = ReplayToken

  datatype Options = Options(
    trials: uint64, seed: uint64, maxShrinkSteps: nat, replay: Option<string>,
    maxDiscardRatio: uint64, targetSteps: nat)

  datatype Status = PassedAll | FailedOne | ErroredOut | InvalidConfiguration | GaveUp

  datatype Failure = Failure(rootSeed: uint64, trialSeed: uint64, trial: nat, shrinkSteps: nat, replay: string)

  datatype Result = Result(status: Status, trialsRun: nat, discarded: nat, failure: Option<Failure>)

  /** A change of the example database. */
  datatype Change = Drop(tokens: seq<string>) | Insert(token: string)

  datatype Execution = Execution(outcome: Outcome, choices: Choices)

  /** The best score of one target, and the choices that reached it. */
  datatype Best = Best(score: int, choices: Choices)

  const MAXIMUM_SIZE: nat := 100

  /** The size of a trial. The product is a `std::size_t` and wraps. */
  function SizeAt(attempt: nat, trials: uint64): (size: nat)
    requires trials != 0
    ensures size <= MAXIMUM_SIZE
  {
    var scaled := attempt * 200 % TWO_TO_64 / trials as nat;
    if scaled < MAXIMUM_SIZE then scaled else MAXIMUM_SIZE
  }

  /** How many discards are allowed. The product is a `std::size_t` and wraps. */
  function AllowedDiscards(options: Options): nat {
    options.trials as nat * options.maxDiscardRatio as nat % TWO_TO_64
  }

  /** What replaying `choices` gives: the choices drawn when the trial fails. */
  function FailingReplay(t: Trial, run: nat, size: nat, choices: Choices): Option<Choices> {
    var drawn := Play(t, run, size, choices, []);
    if OutcomeOf(t, run, size, drawn).verdict == Failed then Some(drawn) else None
  }

  /** What the shrinker asks when its first replay is the run-th execution. */
  function ReplayOracle(t: Trial, run: nat, size: nat): Oracle {
    (k: nat, c: Choices) => FailingReplay(t, run + k, size, c)
  }

  /** `choices` make the trial fail, and are what it draws then. */
  ghost predicate FailsExactly(t: Trial, run: nat, size: nat, choices: Choices) {
    IsRecording(t, run, size, choices) && OutcomeOf(t, run, size, choices).verdict == Failed
  }

  /** What a run with `PropertyOptions::Replay` set to `token` reports: the token
      of the failure it finds. */
  function ReplayOf(t: Trial, run: nat, token: string): Option<string> {
    var decoded := Tokens.Decode(token);
    if decoded.None? then None
    else
      var size := decoded.value.size;
      var failing := FailingReplay(t, run, size as nat, decoded.value.choices);
      if failing.None? then None else Some(Tokens.Encode(size, failing.value))
  }

  /** `token` names a failure that its replay finds again, in any run. */
  ghost predicate Reproduces(t: Trial, token: string) {
    forall run: nat :: ReplayOf(t, run, token) == Some(token)
  }

  lemma RecordedFailureReproduces(t: Trial, run: nat, size: uint64, choices: Choices)
    requires Repeatable(t) && size as nat <= MAXIMUM_SIZE && FailsExactly(t, run, size as nat, choices)
    ensures Reproduces(t, Tokens.Encode(size, choices))
  {
    Tokens.RoundTrip(size, choices);
    forall later: nat
      ensures ReplayOf(t, later, Tokens.Encode(size, choices)) == Some(Tokens.Encode(size, choices))
    {
      ReplayIsFaithful(t, run, later, size as nat, choices);
    }
  }

  /** An answer of the oracle is a recording that fails. */
  lemma AnswerFailsExactly(t: Trial, run: nat, size: nat, choices: Choices)
    requires FailingReplay(t, run, size, choices).Some?
    ensures FailsExactly(t, run, size, FailingReplay(t, run, size, choices).value)
  {
    PlayRecords(t, run, size, choices, []);
  }

  lemma RepeatableOracleIsDeterministic(t: Trial, run: nat, size: nat)
    requires Repeatable(t)
    ensures Deterministic(ReplayOracle(t, run, size))
  {
    forall k: nat, c: Choices
      ensures ReplayOracle(t, run, size)(k, c) == ReplayOracle(t, run, size)(0, c)
    {
      FailingReplayIsRepeatable(t, run + k, size, c);
      FailingReplayIsRepeatable(t, run, size, c);
    }
  }

  lemma FailingReplayIsRepeatable(t: Trial, run: nat, size: nat, choices: Choices)
    requires Repeatable(t)
    ensures FailingReplay(t, run, size, choices) == FailingReplay(t, 0, size, choices)
  {
    PlayIsRepeatable(t, run, size, choices, []);
    var drawn := Play(t, 0, size, choices, []);
    assert t.next(run, size, drawn) == t.next(0, size, drawn);
  }

  /** What the database is told about a result. */
  function StoredBy(result: Option<Result>): seq<Change> {
    if result.Some? && result.value.status == FailedOne && result.value.failure.Some?
    then [Insert(result.value.failure.value.replay)] else []
  }

  // What happened so far.

  /** An execution other than those of the shrinker and the final replay: the
      run-th one, at a size. */
  datatype Entry = Entry(run: nat, size: nat, execution: Execution)

  type History = seq<Entry>

  ghost predicate Happened(t: Trial, e: Entry) {
    && e.size <= MAXIMUM_SIZE
    && IsRecording(t, e.run, e.size, e.execution.choices)
    && e.execution.outcome == OutcomeOf(t, e.run, e.size, e.execution.choices)
  }

  ghost predicate AllHappened(t: Trial, history: History) {
    forall i | 0 <= i < |history| :: Happened(t, history[i])
  }

  lemma LatestHappened(t: Trial, history: History)
    requires AllHappened(t, history) && history != []
    ensures Happened(t, history[|history| - 1])
  {}

  ghost predicate AllStayBelow(random: RandomAnswers, randomOf: uint64 -> RandomAnswers) {
    StaysBelow(random) && forall seed: uint64 :: StaysBelow(randomOf(seed))
  }

  /** A passed execution reported the best score of a target, and drew the choices
      kept with it. */
  ghost predicate Witnessed(history: History, name: string, best: Best) {
    exists i | 0 <= i < |history| ::
      && history[i].execution.outcome.verdict == Passed
      && Target(name, best.score) in history[i].execution.outcome.targets
      && history[i].execution.choices == best.choices
  }

  ghost predicate AllWitnessed(history: History, best: map<string, Best>) {
    forall name | name in best :: Witnessed(history, name, best[name])
  }

  lemma WitnessesStay(history: History, more: History, best: map<string, Best>)
    requires AllWitnessed(history, best) && history <= more
    ensures AllWitnessed(more, best)
  {
    forall name | name in best
      ensures Witnessed(more, name, best[name])
    {
      assert Witnessed(history, name, best[name]);
      var i :| 0 <= i < |history|
               && history[i].execution.outcome.verdict == Passed
               && Target(name, best[name].score) in history[i].execution.outcome.targets
               && history[i].execution.choices == best[name].choices;
      assert more[i] == history[i];
    }
  }

  ghost predicate NoneLower(before: map<string, Best>, after: map<string, Best>) {
    forall name | name in before :: name in after && before[name].score <= after[name].score
  }

  // Reports.

  /** The failure reports `choices` as the shrunk form of a failing execution: they
      fail, they are not less simple, their token replays to itself, and unless the
      budget ran out no edit of the shrinker helps any more. */
  ghost predicate Reports(t: Trial, failure: Failure, original: Entry, maxShrinkSteps: nat, choices: Choices) {
    && original.execution.outcome.verdict == Failed && original.size <= MAXIMUM_SIZE
    && failure.replay == Tokens.Encode(original.size as uint64, choices)
    && FailsExactly(t, 0, original.size, choices)
    && (choices == original.execution.choices || IsSimpler(choices, original.execution.choices))
    && Reproduces(t, failure.replay)
    && (failure.shrinkSteps < maxShrinkSteps ==>
          LocallyMinimal(ReplayOracle(t, 0, original.size), choices))
  }

  /** The number of executions that replaying these stored tokens takes: those that do
      not decode are passed over. */
  function Replays(tokens: seq<string>): nat {
    if tokens == [] then 0
    else Replays(tokens[..|tokens| - 1]) + if Tokens.Decode(tokens[|tokens| - 1]).Some? then 1 else 0
  }

  /** The replay of the i-th loaded token, after those of the tokens before it, fails. */
  predicate FailsWhenLoaded(t: Trial, loaded: seq<string>, i: nat)
    requires i < |loaded|
  {
    ReplayOf(t, Replays(loaded[..i]), loaded[i]).Some?
  }

  /** Replaying the loaded tokens in turn finds no failure. */
  predicate NoneFails(t: Trial, loaded: seq<string>) {
    forall i | 0 <= i < |loaded| :: !FailsWhenLoaded(t, loaded, i)
  }

  lemma RepeatableReplay(t: Trial, run: nat, token: string)
    requires Repeatable(t)
    ensures ReplayOf(t, run, token) == ReplayOf(t, 0, token)
  {
    var decoded := Tokens.Decode(token);
    if decoded.Some? {
      FailingReplayIsRepeatable(t, run, decoded.value.size as nat, decoded.value.choices);
    }
  }

  /** For a repeatable trial the order does not matter. */
  lemma NoneFailsRepeatably(t: Trial, loaded: seq<string>)
    requires Repeatable(t)
    ensures NoneFails(t, loaded) <==> forall token | token in loaded :: ReplayOf(t, 0, token).None?
  {
    forall i | 0 <= i < |loaded|
      ensures FailsWhenLoaded(t, loaded, i) <==> ReplayOf(t, 0, loaded[i]).Some?
    {
      RepeatableReplay(t, Replays(loaded[..i]), loaded[i]);
    }
  }

  /** What a run of the engine tells the database: the loaded tokens are dropped exactly
      when they are replayed and none of them fails, and a failure is stored. */
  function ChangesOf(options: Options, t: Trial, loaded: seq<string>, result: Result): seq<Change> {
    (if options.replay.None? && options.trials != 0 && loaded != [] && NoneFails(t, loaded)
     then [Drop(loaded)] else [])
    + StoredBy(Some(result))
  }

  function CountOf(history: History, verdicts: set<Verdict>): nat {
    if history == [] then 0
    else CountOf(history[..|history| - 1], verdicts)
         + if history[|history| - 1].execution.outcome.verdict in verdicts then 1 else 0
  }

  /** What regular trials after `start` came to: their sizes, and how many of them
      were valid and how many discarded. */
  ghost predicate Tallied(start: History, history: History, trials: uint64, valid: nat, discarded: nat)
    requires trials != 0
  {
    && start <= history
    && (forall i | |start| <= i < |history| :: history[i].size == SizeAt(i - |start|, trials))
    && valid == CountOf(history[|start|..], {Passed})
    && discarded == CountOf(history[|start|..], {Discarded, Invalid})
  }

  /** The executions after `start` are replays of the targeted search. */
  ghost predicate Searched(start: History, history: History) {
    start <= history && forall i | |start| <= i < |history| :: history[i].size == MAXIMUM_SIZE
  }

  /** No execution since `start` failed. */
  ghost predicate NoneFailed(start: History, history: History) {
    start <= history && forall i | |start| <= i < |history| :: history[i].execution.outcome.verdict != Failed
  }

  lemma NothingFailed(history: History)
    ensures NoneFailed(history, history)
  {}

  lemma OneMoreFailed(start: History, before: History, history: History)
    requires NoneFailed(start, before) && before <= history && |history| <= |before| + 1
    ensures NoneFailed(start, history) <==>
            |history| == |before| || history[|history| - 1].execution.outcome.verdict != Failed
    ensures (exists i | |start| <= i < |history| :: history[i].execution.outcome.verdict == Failed)
       <==> |history| > |before| && history[|history| - 1].execution.outcome.verdict == Failed
  {
    assert forall i | 0 <= i < |before| :: history[i] == before[i];
    if |history| == |before| {
      assert history == before;
    }
  }

  lemma NoneFailedMeans(start: History, history: History)
    requires start <= history
    ensures NoneFailed(start, history) <==>
            !(exists i | |start| <= i < |history| :: history[i].execution.outcome.verdict == Failed)
  {}

  lemma NoneFailedAddsUp(a: History, b: History, c: History)
    requires NoneFailed(a, b) && b <= c
    ensures NoneFailed(a, c) <==> NoneFailed(b, c)
  {
    assert forall i | 0 <= i < |b| :: c[i] == b[i];
  }

  /** The best input of every target drew something that can be changed. */
  ghost predicate AllDrew(best: map<string, Best>) {
    forall name | name in best :: best[name].choices != []
  }

  lemma DrewBefore(before: map<string, Best>, best: map<string, Best>, name: string)
    requires best.Keys == before.Keys && name in best
    requires forall other | other in best && other != name :: best[other] == before[other]
    requires before[name].choices == [] ==> best == before
    ensures AllDrew(best) ==> AllDrew(before) && before[name].choices != []
  {}

  lemma NothingSearched(history: History)
    ensures Searched(history, history)
  {}

  lemma OneSearched(start: History, history: History)
    requires start <= history && |history| == |start| + 1 && history[|start|].size == MAXIMUM_SIZE
    ensures Searched(start, history)
  {}

  lemma SearchedAddsUp(a: History, b: History, c: History)
    requires Searched(a, b) && Searched(b, c)
    ensures Searched(a, c)
  {}

  lemma NothingLower(best: map<string, Best>)
    ensures NoneLower(best, best)
  {}

  /** The best of a target is what it was, or a higher score of this execution. */
  ghost predicate KeptOrRaised(before: map<string, Best>, after: map<string, Best>, name: string, execution: Execution)
    requires name in after
  {
    || (name in before && after[name] == before[name])
    || (&& (name in before ==> before[name].score < after[name].score)
        && Target(name, after[name].score) in execution.outcome.targets
        && after[name].choices == execution.choices)
  }

  lemma RaisedOnce(before: map<string, Best>, best: map<string, Best>, execution: Execution, target: Target,
                   name: string)
    requires NoneLower(before, best) && target in execution.outcome.targets
    requires name in best || name == target.name
    requires name in best ==> KeptOrRaised(before, best, name, execution)
    requires target.name in best ==> best[target.name].score < target.score
    ensures KeptOrRaised(before, best[target.name := Best(target.score, execution.choices)], name, execution)
  {}

  lemma RaisedIsNotLower(before: map<string, Best>, best: map<string, Best>, name: string, raised: Best)
    requires NoneLower(before, best) && (name in best ==> best[name].score <= raised.score)
    ensures NoneLower(before, best[name := raised])
  {}

  lemma NoneLowerAddsUp(a: map<string, Best>, b: map<string, Best>, c: map<string, Best>)
    requires NoneLower(a, b) && NoneLower(b, c)
    ensures NoneLower(a, c)
  {}

  lemma NothingTallied(history: History, trials: uint64)
    requires trials != 0
    ensures Tallied(history, history, trials, 0, 0)
  {}

  lemma TallyNext(start: History, history: History, entry: Entry, trials: uint64, valid: nat, discarded: nat)
    requires trials != 0 && Tallied(start, history, trials, valid, discarded)
    requires entry.size == SizeAt(|history| - |start|, trials)
    ensures var verdict := entry.execution.outcome.verdict;
            Tallied(start, history + [entry], trials,
                    valid + (if verdict == Passed then 1 else 0),
                    discarded + (if verdict in {Discarded, Invalid} then 1 else 0))
  {
    assert (history + [entry])[|start|..] == history[|start|..] + [entry];
    CountOfSnoc(history[|start|..], entry, {Passed});
    CountOfSnoc(history[|start|..], entry, {Discarded, Invalid});
  }

  lemma CountOfSnoc(history: History, entry: Entry, verdicts: set<Verdict>)
    ensures CountOf(history + [entry], verdicts)
         == CountOf(history, verdicts) + if entry.execution.outcome.verdict in verdicts then 1 else 0
  {
    assert (history + [entry])[..|history|] == history;
  }

  /** Only the first answer to a candidate matters for local minimality. */
  lemma LocallyMinimalTransfers(f: Oracle, g: Oracle, s: Choices)
    requires LocallyMinimal(f, s) && forall c: Choices :: f(0, c) == g(0, c)
    ensures LocallyMinimal(g, s)
  {
    assert forall c: Choices :: Rejects(f, c, s) ==> Rejects(g, c, s);
    forall b | b in BLOCK_SIZES
      ensures NoDeletionHelps(g, s, b, 0) && NoZeroingHelps(g, s, b, |s|)
    {
      assert NoDeletionHelps(f, s, b, 0) && NoZeroingHelps(f, s, b, |s|);
    }
    forall i | 0 <= i < |s|
      ensures NoLoweringHelps(g, s, i) && NoMoveHelps(g, s, i, 5)
    {
      assert NoLoweringHelps(f, s, i) && NoMoveHelps(f, s, i, 5);
    }
    forall i | 0 <= i < |s| - 1
      ensures NoSwapHelps(g, s, i)
    {
      assert NoSwapHelps(f, s, i);
    }
  }

  /** What the shrinker makes of a failing execution: the input, or an answer of
      its oracle that is simpler. */
  ghost predicate ShrunkFrom(t: Trial, run: nat, original: Entry, minimized: Choices, asked: seq<Choices>) {
    && Happened(t, original) && original.execution.outcome.verdict == Failed
    && (minimized == original.execution.choices ||
        (IsSimpler(minimized, original.execution.choices)
         && Answered(ReplayOracle(t, run, original.size), asked, minimized)))
  }

  lemma ShrunkFromIs(t: Trial, run: nat, original: Entry, minimized: Choices, asked: seq<Choices>)
    requires Happened(t, original) && original.execution.outcome.verdict == Failed
    requires minimized == original.execution.choices ||
             (IsSimpler(minimized, original.execution.choices)
              && Answered(ReplayOracle(t, run, original.size), asked, minimized))
    ensures ShrunkFrom(t, run, original, minimized, asked)
  {}

  /** It fails in every run, drawing just itself. */
  lemma ShrunkFailsAgain(t: Trial, run: nat, original: Entry, minimized: Choices, asked: seq<Choices>, later: nat)
    requires Repeatable(t) && ShrunkFrom(t, run, original, minimized, asked)
    ensures FailsExactly(t, later, original.size, minimized)
    ensures Play(t, later, original.size, minimized, []) == minimized
  {
    var size := original.size;
    var at := original.run;
    if minimized != original.execution.choices {
      var k :| 0 <= k < |asked| && ReplayOracle(t, run, size)(k, asked[k]) == Some(minimized);
      AnswerFailsExactly(t, run + k, size, asked[k]);
      at := run + k;
    }
    ReplayIsFaithful(t, at, later, size, minimized);
  }

  /** What a report is about: a replay of the shrunk choices, or of the original ones when
      that does not fail. */
  function FinalReplay(t: Trial, run: nat, size: nat, shrunk: Choices, original: Choices): Choices {
    var last := Play(t, run, size, shrunk, []);
    if OutcomeOf(t, run, size, last).verdict == Failed then last else Play(t, run + 1, size, original, [])
  }

  lemma ShrunkIsReplayed(t: Trial, run: nat, original: Entry, minimized: Choices, asked: seq<Choices>, later: nat)
    requires Repeatable(t) && ShrunkFrom(t, run, original, minimized, asked)
    ensures FinalReplay(t, later, original.size, minimized, original.execution.choices) == minimized
  {
    ShrunkFailsAgain(t, run, original, minimized, asked, later);
  }

  lemma ShrunkReports(t: Trial, run: nat, original: Entry, maxShrinkSteps: nat, minimized: Choices,
                      asked: seq<Choices>, failure: Failure)
    requires Repeatable(t) && ShrunkFrom(t, run, original, minimized, asked)
    requires failure.shrinkSteps < maxShrinkSteps ==>
               LocallyMinimal(ReplayOracle(t, run, original.size), minimized)
    requires failure.replay == Tokens.Encode(original.size as uint64, minimized)
    ensures Reports(t, failure, original, maxShrinkSteps, minimized)
  {
    var size := original.size;
    ShrunkFailsAgain(t, run, original, minimized, asked, 0);
    RecordedFailureReproduces(t, 0, size as uint64, minimized);
    if failure.shrinkSteps < maxShrinkSteps {
      forall c: Choices
        ensures ReplayOracle(t, run, size)(0, c) == ReplayOracle(t, 0, size)(0, c)
      {
        FailingReplayIsRepeatable(t, run, size, c);
      }
      LocallyMinimalTransfers(ReplayOracle(t, run, size), ReplayOracle(t, 0, size), minimized);
    }
  }

  class Engine {
    const options: Options
    const trial: Trial
    /** The random numbers a trial's seed leads to, the seeds of the trials, and the
        random numbers of the targeted search. */
    const randomOf: uint64 -> RandomAnswers
    const deriveSeed: (uint64, nat) -> uint64
    const searchRandom: RandomAnswers
    /** How many executions there were, of any kind. */
    var runs: nat
    var trialsRun: nat
    var validTrials: nat
    var discarded: nat
    var best: map<string, Best>
    /** The changes of the database, in order. */
    var changes: seq<Change>

    ghost var history: History

    ghost predicate Valid()
      reads this
    {
      && AllStayBelow(searchRandom, randomOf)
      && AllHappened(trial, history)
      && AllWitnessed(history, best)
    }

    /** The history grows, and best scores only rise. */
    twostate predicate Advances()
      reads this
    {
      && Valid()
      && old(history) <= history
      && NoneLower(old(best), best)
    }

    constructor (options: Options, trial: Trial, randomOf: uint64 -> RandomAnswers,
                 deriveSeed: (uint64, nat) -> uint64, searchRandom: RandomAnswers)
      requires AllStayBelow(searchRandom, randomOf)
      ensures Valid() && this.options == options && this.trial == trial
      ensures runs == trialsRun == validTrials == discarded == 0 && best == map[] && changes == [] && history == []
    {
      this.options, this.trial := options, trial;
      this.randomOf, this.deriveSeed, this.searchRandom := randomOf, deriveSeed, searchRandom;
      runs, trialsRun, validTrials, discarded := 0, 0, 0, 0;
      best, changes, history := map[], [], [];
    }

    method Execute(source: ChoiceSource) returns (execution: Execution)
      requires source.Valid() && source.choices == []
      modifies source, this`runs
      ensures runs == old(runs) + 1
      ensures IsRecording(trial, old(runs), source.size, execution.choices)
      ensures execution.outcome == OutcomeOf(trial, old(runs), source.size, execution.choices)
      ensures source.replaying ==>
        execution.choices == Play(trial, old(runs), source.size, source.replay, [])
      ensures !source.replaying ==>
        execution.choices == Generated(trial, old(runs), source.size, source.random, old(source.asked), [])
    {
      var outcome := Trials.Execute(trial, runs, source);
      runs := runs + 1;
      execution := Execution(outcome, source.choices);
    }

    method Replay(choices: Choices, size: nat) returns (execution: Execution)
      requires Valid()
      modifies this`runs
      ensures Valid() && runs == old(runs) + 1
      ensures IsRecording(trial, old(runs), size, execution.choices)
      ensures execution.outcome == OutcomeOf(trial, old(runs), size, execution.choices)
      ensures execution.choices == Play(trial, old(runs), size, choices, [])
    {
      var source := new ChoiceSource.Replay(searchRandom, choices, size);
      execution := Execute(source);
    }

    /** Adds the latest execution to the history. */
    ghost method Log(execution: Execution, size: nat)
      requires Valid() && runs > 0 && Happened(trial, Entry(runs - 1, size, execution))
      modifies this`history
      ensures Advances()
      ensures history == old(history) + [Entry(runs - 1, size, execution)]
    {
      history := history + [Entry(runs - 1, size, execution)];
      WitnessesStay(old(history), history, best);
    }

    /** Executes a regular trial or a search step and keeps it in the history. */
    method ExecuteLogged(source: ChoiceSource) returns (execution: Execution)
      requires Valid() && source.Valid() && source.choices == [] && source.size <= MAXIMUM_SIZE
      modifies source, this`runs, this`history
      ensures Advances() && runs == old(runs) + 1
      ensures history == old(history) + [Entry(old(runs), source.size, execution)]
      ensures source.replaying ==>
        execution.choices == Play(trial, old(runs), source.size, source.replay, [])
      ensures !source.replaying ==>
        execution.choices == Generated(trial, old(runs), source.size, source.random, old(source.asked), [])
    {
      execution := Execute(source);
      Log(execution, source.size);
    }

    method ReplayLogged(choices: Choices, size: nat) returns (execution: Execution)
      requires Valid() && size <= MAXIMUM_SIZE
      modifies this`runs, this`history
      ensures Advances() && runs == old(runs) + 1
      ensures history == old(history) + [Entry(old(runs), size, execution)]
      ensures execution.choices == Play(trial, old(runs), size, choices, [])
    {
      var source := new ChoiceSource.Replay(searchRandom, choices, size);
      execution := ExecuteLogged(source);
    }

    method Report(failing: Execution, size: nat, trialSeed: uint64, number: nat, calls: nat) returns (result: Result)
      requires Valid() && size <= MAXIMUM_SIZE
      modifies this`changes
      ensures Valid()
      ensures result == Result(FailedOne, trialsRun, discarded,
        Some(Failure(options.seed, trialSeed, number, calls, Tokens.Encode(size as uint64, failing.choices))))
      ensures changes == old(changes) + StoredBy(Some(result))
    {
      var token := Tokens.Encode(size as uint64, failing.choices);
      var failure := Failure(options.seed, trialSeed, number, calls, token);
      changes := changes + [Insert(token)];
      result := Result(FailedOne, trialsRun, discarded, Some(failure));
    }

    method ReplayShrunk(shrunk: Choices, original: Choices, size: nat) returns (minimal: Execution)
      requires Valid()
      modifies this`runs
      ensures Valid() && minimal.choices == FinalReplay(trial, old(runs), size, shrunk, original)
    {
      hide AllHappened, AllWitnessed, AllStayBelow, IsRecording, Play, OutcomeOf;
      minimal := Replay(shrunk, size);
      if minimal.outcome.verdict != Failed {
        // A flaky body: report the original input, which did fail.
        minimal := Replay(original, size);
      }
    }

    /** Shrinks the latest execution, which failed, and reports what one more replay of
        the shrunk choices draws; if that does not fail, what a replay of the original
        ones draws. */
    method ShrinkAndReport(failing: Execution, size: nat, trialSeed: uint64, number: nat)
      returns (result: Result, ghost choices: Choices)
      requires Valid() && history != [] && history[|history| - 1].execution == failing
      requires history[|history| - 1].size == size && failing.outcome.verdict == Failed
      modifies this`runs, this`changes
      ensures Valid()
      ensures result.status == FailedOne && result.failure.Some? && result.trialsRun == trialsRun
      ensures result.failure.value.trial == number && result.failure.value.trialSeed == trialSeed
      ensures result.failure.value.shrinkSteps <= options.maxShrinkSteps
      ensures changes == old(changes) + StoredBy(Some(result))
      ensures choices == failing.choices || IsSimpler(choices, failing.choices)
      ensures var at := old(runs) + result.failure.value.shrinkSteps;
              result.failure.value.replay
              == Tokens.Encode(size as uint64, FinalReplay(trial, at, size, choices, failing.choices))
      ensures Repeatable(trial) ==>
        Reports(trial, result.failure.value, history[|history| - 1], options.maxShrinkSteps, choices)
    {
      hide AllHappened, AllWitnessed, AllStayBelow, Happened, ShrunkFrom, LocallyMinimal, Deterministic, Answered,
           IsSimpler, Reports, Repeatable, ReplayOracle, IsRecording, FinalReplay, Play, OutcomeOf;
      ghost var original := history[|history| - 1];
      ghost var run := runs;
      LatestHappened(trial, history);
      var oracle := ReplayOracle(trial, runs, size);
      var minimized, calls, asked := Shrinker.ShrinkChoices(failing.choices, options.maxShrinkSteps, oracle);
      ShrunkFromIs(trial, run, original, minimized, asked);
      choices := minimized;
      runs := runs + calls;
      if Repeatable(trial) {
        ShrunkIsReplayed(trial, run, original, minimized, asked, runs);
        RepeatableOracleIsDeterministic(trial, run, size);
      }
      var minimal := ReplayShrunk(minimized, failing.choices, size);
      result := Report(minimal, size, trialSeed, number, calls);
      if Repeatable(trial) {
        ShrunkReports(trial, run, original, options.maxShrinkSteps, minimized, asked, result.failure.value);
      }
    }

    /** `PropertyOptions::Replay`: exactly one execution, of the token's input. */
    method RunReplay(token: string) returns (result: Result)
      requires Valid()
      modifies this`runs, this`trialsRun, this`changes
      ensures Valid()
      ensures result.status == InvalidConfiguration <==> Tokens.Decode(token) == None
      ensures result.status == FailedOne <==> ReplayOf(trial, old(runs), token).Some?
      ensures result.status in {FailedOne, ErroredOut, PassedAll, InvalidConfiguration}
      ensures result.status != InvalidConfiguration ==> result.trialsRun == 1
      ensures result.status == ErroredOut <==>
        && Tokens.Decode(token).Some?
        && var d := Tokens.Decode(token).value;
           OutcomeOf(trial, old(runs), d.size as nat,
                     Play(trial, old(runs), d.size as nat, d.choices, [])).verdict == Errored
      ensures result.status == FailedOne ==>
        result.failure.Some? && Some(result.failure.value.replay) == ReplayOf(trial, old(runs), token)
      ensures changes == old(changes) + StoredBy(Some(result))
      ensures runs == if result.status == InvalidConfiguration then old(runs) else old(runs) + 1
    {
      var decoded := Tokens.Decode(token);
      if decoded.None? {
        return Result(InvalidConfiguration, 0, 0, None);
      }
      var size := decoded.value.size;
      DecodedSizeIsSmall(token);
      var execution := Replay(decoded.value.choices, size as nat);
      trialsRun := 1;
      if execution.outcome.verdict == Failed {
        result := Report(execution, size as nat, 0, 1, 0);
        return;
      }
      result := Result(if execution.outcome.verdict == Errored then ErroredOut else PassedAll, 1, 0, None);
    }

    /** Replays the stored examples. The first that still fails is shrunk further
        and reported; when none does, all that were loaded are dropped. */
    method ReplayDatabase(loaded: seq<string>) returns (result: Option<Result>, ghost choices: Choices)
      requires Valid() && runs == 0
      modifies this`runs, this`history, this`changes, this`trialsRun
      ensures Advances()
      ensures result.None? <==> NoneFails(trial, loaded)
      ensures result.None? <==> NoneFailed(old(history), history)
      ensures result.Some? ==> history[|history| - 1].execution.outcome.verdict == Failed
      ensures result.None? ==>
        && trialsRun == old(trialsRun)
        && changes == old(changes) + (if loaded == [] then [] else [Drop(loaded)])
      ensures result.Some? ==>
        && result.value.status == FailedOne && changes == old(changes) + StoredBy(result)
        && ReportsLast(result.value, choices)
    {
      hide AllHappened, AllWitnessed, AllStayBelow, NoneLower, Reports, Repeatable, FailsWhenLoaded, Replays,
           NoneFailed, ReplayOf, ReportsLast;
      NothingLower(best);
      NothingFailed(history);
      NoReplays(loaded);
      choices := [];
      result := None;
      for i := 0 to |loaded|
        invariant Advances() && changes == old(changes) && trialsRun == old(trialsRun) && result == None
        invariant NoneFailed(old(history), history)
        invariant runs == Replays(loaded[..i])
        invariant forall j | 0 <= j < i :: !FailsWhenLoaded(trial, loaded, j)
      {
        ReplaysNext(trial, loaded, i);
        ghost var before := history;
        result, choices := ReplayStored(loaded[i]);
        OneMoreFailed(old(history), before, history);
        if result.Some? {
          return;
        }
      }
      if loaded != [] {
        changes := changes + [Drop(loaded)];
      }
    }

    /** Replays one stored example, unless it does not decode. */
    method ReplayStored(token: string) returns (result: Option<Result>, ghost choices: Choices)
      requires Valid()
      modifies this`runs, this`history, this`changes, this`trialsRun
      ensures Advances()
      ensures result.Some? <==> ReplayOf(trial, old(runs), token).Some?
      ensures |history| <= |old(history)| + 1
      ensures result.Some? <==>
        |history| == |old(history)| + 1 && history[|history| - 1].execution.outcome.verdict == Failed
      ensures result.None? ==>
        && trialsRun == old(trialsRun) && changes == old(changes)
        && runs == old(runs) + if Tokens.Decode(token).Some? then 1 else 0
      ensures result.Some? ==>
        && result.value.status == FailedOne && changes == old(changes) + StoredBy(result)
        && ReportsLast(result.value, choices)
    {
      hide AllHappened, AllWitnessed, AllStayBelow, NoneLower, Reports, Repeatable;
      NothingLower(best);
      choices := [];
      result := None;
      var decoded := Tokens.Decode(token);
      if decoded.None? {
        return;
      }
      var size := decoded.value.size;
      DecodedSizeIsSmall(token);
      var execution := ReplayLogged(decoded.value.choices, size as nat);
      LatestHappened(trial, history);
      if execution.outcome.verdict == Failed {
        trialsRun := trialsRun + 1;
        var report;
        report, choices := ShrinkAndReport(execution, size as nat, 0, trialsRun);
        result := Some(report);
      }
    }

    /** The execution of the regular trial with this number: it has its size, and draws
        from the random numbers of its seed. */
    ghost predicate IsRegular(attempt: nat, entry: Entry)
      requires options.trials != 0
    {
      && entry.size == SizeAt(attempt, options.trials)
      && entry.execution.choices
         == Generated(trial, entry.run, entry.size, randomOf(deriveSeed(options.seed, attempt)), 0, [])
    }

    /** Regular trials that did not end the run. */
    ghost predicate AllRegular(start: History, history: History)
      requires options.trials != 0
    {
      && start <= history
      && forall i | |start| <= i < |history| ::
           && IsRegular(i - |start|, history[i])
           && history[i].execution.outcome.verdict in {Passed, Discarded, Invalid}
    }

    lemma NothingRegular(history: History)
      requires options.trials != 0
      ensures AllRegular(history, history)
    {}

    lemma OneMoreRegular(start: History, before: History, history: History)
      requires options.trials != 0 && AllRegular(start, before)
      requires before <= history && |history| == |before| + 1 && IsRegular(|before| - |start|, history[|before|])
      ensures history[|before|].execution.outcome.verdict in {Passed, Discarded, Invalid} ==>
                AllRegular(start, history)
      ensures forall i | |start| <= i < |history| :: IsRegular(i - |start|, history[i])
      ensures forall i | |start| <= i < |before| ::
                history[i].execution.outcome.verdict in {Passed, Discarded, Invalid}
      ensures NoneFailed(start, history) <==> history[|before|].execution.outcome.verdict != Failed
    {
      assert forall i | 0 <= i < |before| :: history[i] == before[i];
    }

    lemma RegularMeans(start: History, history: History)
      requires options.trials != 0 && AllRegular(start, history)
      ensures forall i | |start| <= i < |history| ::
                IsRegular(i - |start|, history[i])
                && history[i].execution.outcome.verdict in {Passed, Discarded, Invalid}
      ensures NoneFailed(start, history)
    {}

    /** One regular trial: its seed and size depend on its number only. */
    method Attempt(attempt: nat, ghost start: History) returns (execution: Execution, size: nat, seed: uint64)
      requires Valid() && options.trials != 0
      requires start <= history && attempt == |history| - |start|
      requires Tallied(start, history, options.trials, validTrials, discarded)
      modifies this`runs, this`history, this`trialsRun
      ensures Advances() && trialsRun == old(trialsRun) + 1
      ensures |history| == |old(history)| + 1 && history[|history| - 1] == Entry(old(runs), size, execution)
      ensures seed == deriveSeed(options.seed, attempt) && IsRegular(attempt, history[|history| - 1])
      ensures Tallied(start, history, options.trials,
                      validTrials + (if execution.outcome.verdict == Passed then 1 else 0),
                      discarded + (if execution.outcome.verdict in {Discarded, Invalid} then 1 else 0))
    {
      seed := deriveSeed(options.seed, attempt);
      size := SizeAt(attempt, options.trials);
      var source := new ChoiceSource.Generate(randomOf(seed), size);
      ghost var entry;
      execution := ExecuteLogged(source);
      entry := history[|history| - 1];
      TallyNext(start, old(history), entry, options.trials, validTrials, discarded);
      trialsRun := trialsRun + 1;
    }

    /** Why regular trials can end the run: a failure, an error, or one discard too
        many. */
    ghost predicate EndsRun(result: Result, choices: Choices)
      reads this
    {
      && result.status in {FailedOne, ErroredOut, GaveUp}
      && (result.status == GaveUp <==> discarded == AllowedDiscards(options) + 1)
      && (result.status == FailedOne ==> ReportsLast(result, choices))
    }

    /** The result reports the latest execution of the history. */
    ghost predicate ReportsLast(result: Result, choices: Choices)
      reads this
    {
      && result.failure.Some? && history != []
      && (Repeatable(trial) ==>
            Reports(trial, result.failure.value, history[|history| - 1], options.maxShrinkSteps, choices))
    }

    /** One regular trial and what follows from its verdict. */
    method Judge(attempt: nat, ghost start: History) returns (result: Option<Result>, ghost choices: Choices)
      requires Valid() && options.trials != 0
      requires start <= history && attempt == |history| - |start|
      requires Tallied(start, history, options.trials, validTrials, discarded)
      requires discarded <= AllowedDiscards(options)
      modifies this`runs, this`history, this`changes, this`trialsRun, this`validTrials, this`discarded, this`best
      ensures Advances() && trialsRun == old(trialsRun) + 1 && |history| == |old(history)| + 1
      ensures Tallied(start, history, options.trials, validTrials, discarded)
      ensures old(validTrials) <= validTrials && old(discarded) <= discarded
      ensures validTrials + discarded - old(validTrials + discarded)
        == if result.None? || result.value.status == GaveUp then 1 else 0
      ensures result.None? ==> discarded <= AllowedDiscards(options)
      ensures changes == old(changes) + StoredBy(result)
      ensures result.Some? ==> EndsRun(result.value, choices) && validTrials == old(validTrials)
      ensures IsRegular(attempt, history[|history| - 1])
      ensures var verdict := history[|history| - 1].execution.outcome.verdict;
              && (result.Some? && result.value.status == FailedOne <==> verdict == Failed)
              && (result.Some? && result.value.status == ErroredOut <==> verdict == Errored)
              && (result.Some? && result.value.status == GaveUp <==>
                    verdict in {Discarded, Invalid} && old(discarded) + 1 > AllowedDiscards(options))
              && (result.None? ==> verdict in {Passed, Discarded, Invalid})
      ensures result.Some? && result.value.status == FailedOne ==>
                && result.value.failure.Some? && result.value.failure.value.trial == trialsRun
                && result.value.failure.value.trialSeed == deriveSeed(options.seed, attempt)
    {
      hide AllHappened, AllWitnessed, AllStayBelow, NoneLower, Reports, Repeatable, Tallied, AllowedDiscards, SizeAt;
      NothingLower(best);
      choices := [];
      result := None;
      var execution, size, seed := Attempt(attempt, start);
      match execution.outcome.verdict {
        case Passed =>
          Count(execution);
          validTrials := validTrials + 1;
        case Failed =>
          var report;
          report, choices := ShrinkAndReport(execution, size, seed, trialsRun);
          result := Some(report);
        case Errored =>
          result := Some(Result(ErroredOut, trialsRun, 0, None));
        case Discarded | Invalid =>
          discarded := discarded + 1;
          if discarded > AllowedDiscards(options) {
            result := Some(Result(GaveUp, trialsRun, discarded, None));
          }
      }
    }

    /** Regular trials, until enough of them are valid. Every execution counts as
        valid, as discarded, or ends the run. */
    method RunTrials() returns (result: Option<Result>, ghost choices: Choices)
      requires Valid() && options.trials != 0
      requires validTrials == discarded == 0
      modifies this`runs, this`history, this`changes, this`trialsRun, this`validTrials, this`discarded, this`best
      ensures Advances()
      ensures trialsRun - old(trialsRun) == |history| - |old(history)|
      ensures |history| - |old(history)| <= options.trials as nat + AllowedDiscards(options)
      ensures Tallied(old(history), history, options.trials, validTrials, discarded)
      ensures |history| - |old(history)| == validTrials + discarded
              + (if result.Some? && result.value.status != GaveUp then 1 else 0)
      ensures result.None? ==>
        validTrials == options.trials as nat && discarded <= AllowedDiscards(options)
      ensures changes == old(changes) + StoredBy(result)
      ensures result.Some? ==> validTrials < options.trials as nat && EndsRun(result.value, choices)
      ensures |history| > |old(history)|
      ensures forall i | |old(history)| <= i < |history| :: IsRegular(i - |old(history)|, history[i])
      ensures forall i | |old(history)| <= i < |history| - 1 ::
                history[i].execution.outcome.verdict in {Passed, Discarded, Invalid}
      ensures var verdict := history[|history| - 1].execution.outcome.verdict;
              && (result.Some? && result.value.status == FailedOne <==> verdict == Failed)
              && (result.Some? && result.value.status == ErroredOut <==> verdict == Errored)
      ensures NoneFailed(old(history), history) <==> !(result.Some? && result.value.status == FailedOne)
    {
      hide NoneFailed, AllHappened, AllWitnessed, AllStayBelow, NoneLower, Tallied, AllowedDiscards, AllRegular,
           IsRegular, Reports, Repeatable;
      choices := [];
      result := None;
      var attempt := 0;
      NothingLower(best);
      NothingRegular(history);
      NothingTallied(history, options.trials);
      while validTrials < options.trials as nat
        invariant Advances() && changes == old(changes)
        invariant validTrials <= options.trials as nat && discarded <= AllowedDiscards(options)
        invariant attempt == validTrials + discarded == trialsRun - old(trialsRun) == |history| - |old(history)|
        invariant Tallied(old(history), history, options.trials, validTrials, discarded)
        invariant AllRegular(old(history), history)
        decreases options.trials as nat - validTrials + AllowedDiscards(options) - discarded
      {
        ghost var before, bestBefore := history, best;
        result, choices := Judge(attempt, old(history));
        OneMoreRegular(old(history), before, history);
        NoneLowerAddsUp(old(best), bestBefore, best);
        attempt := attempt + 1;
        if result.Some? {
          return;
        }
      }
      RegularMeans(old(history), history);
      result := None;
    }

    /** Keeps the best score of each target of a passed execution. */
    method Count(execution: Execution)
      requires Valid() && history != [] && history[|history| - 1].execution == execution
      requires execution.outcome.verdict == Passed
      modifies this`best
      ensures Advances()
      ensures forall target | target in execution.outcome.targets ::
                target.name in best && target.score <= best[target.name].score
      ensures forall name | name in best :: KeptOrRaised(old(best), best, name, execution)
    {
      hide AllHappened, AllWitnessed, AllStayBelow, NoneLower;
      NothingLower(best);
      var targets := execution.outcome.targets;
      for i := 0 to |targets|
        invariant Advances()
        invariant forall j | 0 <= j < i ::
                    targets[j].name in best && targets[j].score <= best[targets[j].name].score
        invariant forall name | name in best :: KeptOrRaised(old(best), best, name, execution)
      {
        var target := targets[i];
        if target.name !in best || target.score > best[target.name].score {
          WitnessedByLast(history, target, best);
          RaisedIsNotLower(old(best), best, target.name, Best(target.score, execution.choices));
          forall name | name in best || name == target.name
            ensures KeptOrRaised(old(best), best[target.name := Best(target.score, execution.choices)], name,
                                 execution)
          {
            RaisedOnce(old(best), best, execution, target, name);
          }
          best := best[target.name := Best(target.score, execution.choices)];
        }
      }
    }

    /** Hill climbing: one choice of the best input of a target is changed per
        step, and the result kept when the score rises. */
    method SearchTargets() returns (result: Option<Result>, ghost choices: Choices)
      requires Valid()
      modifies this`runs, this`history, this`changes, this`trialsRun, this`best
      ensures Advances() && best.Keys == old(best.Keys)
      ensures trialsRun - old(trialsRun) == |history| - |old(history)| <= options.targetSteps
      ensures Searched(old(history), history)
      ensures changes == old(changes) + StoredBy(result)
      ensures result.Some? ==> result.value.status == FailedOne && ReportsLast(result.value, choices)
      ensures result.None? <==> NoneFailed(old(history), history)
      ensures result.Some? ==> history[|history| - 1].execution.outcome.verdict == Failed
      ensures result.None? && best != map[] && AllDrew(best) ==>
                |history| - |old(history)| == options.targetSteps
    {
      hide AllHappened, AllWitnessed, AllStayBelow, NoneLower, Searched, Reports, Repeatable, NoneFailed, IsMutated,
           AllDrew, InTurn;
      choices := [];
      result := None;
      NothingLower(best);
      NothingSearched(history);
      NothingFailed(history);
      if best == map[] || options.targetSteps == 0 {
        return;
      }
      var labels := KeysOf(best);
      for step := 0 to options.targetSteps
        invariant Advances() && best.Keys == old(best.Keys) && changes == old(changes) && result == None
        invariant trialsRun - old(trialsRun) == |history| - |old(history)| <= step
        invariant NoneFailed(old(history), history)
        invariant AllDrew(best) ==> |history| - |old(history)| == step
        invariant Searched(old(history), history)
      {
        ghost var historyBefore, bestBefore := history, best;
        result, choices := SearchStep(InTurn(labels, step), 3 * step);
        DrewBefore(bestBefore, best, InTurn(labels, step));
        SearchedAddsUp(old(history), historyBefore, history);
        OneMoreFailed(old(history), historyBefore, history);
        NoneLowerAddsUp(old(best), bestBefore, best);
        if result.Some? {
          return;
        }
      }
    }

    method SearchStep(name: string, asked: nat) returns (result: Option<Result>, ghost choices: Choices)
      requires Valid() && name in best
      modifies this`runs, this`history, this`changes, this`trialsRun, this`best
      ensures Advances() && best.Keys == old(best.Keys)
      ensures old(best[name].choices) == [] ==> history == old(history) && best == old(best)
      ensures old(best[name].choices) != [] ==>
                && |history| == |old(history)| + 1
                && exists candidate ::
                     && IsMutated(old(best)[name].choices, candidate, asked)
                     && history[|history| - 1].execution.choices == Play(trial, old(runs), MAXIMUM_SIZE, candidate, [])
      ensures forall other | other in best && other != name :: best[other] == old(best)[other]
      ensures result.Some? <==>
        |history| > |old(history)| && history[|history| - 1].execution.outcome.verdict == Failed
      ensures trialsRun - old(trialsRun) == |history| - |old(history)| <= 1
      ensures Searched(old(history), history)
      ensures changes == old(changes) + StoredBy(result)
      ensures result.Some? ==> result.value.status == FailedOne && ReportsLast(result.value, choices)
    {
      hide AllHappened, AllWitnessed, AllStayBelow, NoneLower, Searched, Reports, Repeatable;
      choices := [];
      result := None;
      NothingLower(best);
      NothingSearched(history);
      var candidate := best[name].choices;
      if candidate == [] {
        return;
      }
      BestIsShort(trial, history, best, name);
      var mutated := Mutate(candidate, asked);
      result, choices := Climb(name, mutated);
      OneSearched(old(history), history);
    }

    /** The random numbers choose the place and the kind of the one change. */
    ghost predicate IsMutated(choices: Choices, candidate: Choices, asked: nat) {
      && 0 < |choices| < TWO_TO_64
      && var at, kind := searchRandom(asked, |choices| as uint64), searchRandom(asked + 1, 6);
         && AgreesExceptAt(choices, candidate, at as nat)
         && IsMutation(kind, choices[at] as nat, candidate[at] as nat)
    }

    /** Changes one choice, at random. */
    method Mutate(choices: Choices, asked: nat) returns (candidate: Choices)
      requires Valid() && 0 < |choices| < TWO_TO_64
      ensures IsMutated(choices, candidate, asked)
    {
      var index := searchRandom(asked, |choices| as uint64);
      var kind := searchRandom(asked + 1, 6);
      candidate := choices[index := Mutated(choices[index], kind, asked + 2)];
    }

    /** One changed choice; every operation on a word wraps. */
    function Mutated(choice: uint64, kind: uint64, asked: nat): uint64 {
      if kind == 0 then ((choice as nat + 1) % TWO_TO_64) as uint64
      else if kind == 1 then (if choice == 0 then 0 else choice - 1)
      else if kind == 2 then ((choice as nat * 2 + 1) % TWO_TO_64) as uint64
      else if kind == 3 then choice / 2
      else if kind == 4 then searchRandom(asked, ((choice as nat + 2) % TWO_TO_64) as uint64)
      else searchRandom(asked, 0)
    }

    /** One step of the search: replays a candidate, and keeps it when it passes
        with a higher score of the target. */
    method Climb(name: string, candidate: Choices) returns (result: Option<Result>, ghost choices: Choices)
      requires Valid() && name in best
      modifies this`runs, this`history, this`changes, this`trialsRun, this`best
      ensures Advances() && best.Keys == old(best.Keys)
      ensures forall other | other in best && other != name :: best[other] == old(best)[other]
      ensures trialsRun == old(trialsRun) + 1 && |history| == |old(history)| + 1
      ensures history[|history| - 1].size == MAXIMUM_SIZE
      ensures history[|history| - 1].execution.choices == Play(trial, old(runs), MAXIMUM_SIZE, candidate, [])
      ensures result.Some? <==> history[|history| - 1].execution.outcome.verdict == Failed
      ensures history[|history| - 1].execution.outcome.verdict == Passed ==>
                && KeptOrRaised(old(best), best, name, history[|history| - 1].execution)
                && forall target | target in history[|history| - 1].execution.outcome.targets && target.name == name ::
                     target.score <= best[name].score
      ensures history[|history| - 1].execution.outcome.verdict != Passed ==> best == old(best)
      ensures changes == old(changes) + StoredBy(result)
      ensures result.Some? ==> result.value.status == FailedOne && ReportsLast(result.value, choices)
    {
      hide AllHappened, AllWitnessed, AllStayBelow, NoneLower, Reports, Repeatable;
      NothingLower(best);
      choices := [];
      result := None;
      var execution := ReplayLogged(candidate, MAXIMUM_SIZE);
      trialsRun := trialsRun + 1;
      if execution.outcome.verdict == Failed {
        var report;
        report, choices := ShrinkAndReport(execution, MAXIMUM_SIZE, 0, trialsRun);
        result := Some(report);
        return;
      }
      if execution.outcome.verdict != Passed {
        return;
      }
      KeepBest(name, execution);
    }

    method KeepBest(name: string, execution: Execution)
      requires Valid() && name in best && history != [] && history[|history| - 1].execution == execution
      requires execution.outcome.verdict == Passed
      modifies this`best
      ensures Advances() && best.Keys == old(best.Keys)
      ensures forall other | other in best && other != name :: best[other] == old(best)[other]
      ensures forall target | target in execution.outcome.targets && target.name == name ::
                target.score <= best[name].score
      ensures KeptOrRaised(old(best), best, name, execution)
    {
      hide AllHappened, AllWitnessed, AllStayBelow, NoneLower;
      NothingLower(best);
      var targets := execution.outcome.targets;
      for i := 0 to |targets|
        invariant Advances() && best.Keys == old(best.Keys)
        invariant forall other | other in best && other != name :: best[other] == old(best)[other]
        invariant forall j | 0 <= j < i && targets[j].name == name :: targets[j].score <= best[name].score
        invariant KeptOrRaised(old(best), best, name, execution)
      {
        if targets[i].name == name && targets[i].score > best[name].score {
          WitnessedByLast(history, targets[i], best);
          RaisedIsNotLower(old(best), best, name, Best(targets[i].score, execution.choices));
          RaisedOnce(old(best), best, execution, targets[i], name);
          best := best[name := Best(targets[i].score, execution.choices)];
        }
      }
    }

    /** The whole run. When the trial is repeatable, a failure it reports is one
        that a replay of its token finds again, with the same token. */
    method Run(loaded: seq<string>) returns (result: Result, ghost choices: Choices)
      requires Valid() && runs == trialsRun == validTrials == discarded == 0 && best == map[]
      requires changes == [] && history == []
      modifies this
      ensures Valid()
      ensures result.status == InvalidConfiguration <==>
        if options.replay.Some? then Tokens.Decode(options.replay.value) == None else options.trials == 0
      ensures changes == ChangesOf(options, trial, loaded, result)
      ensures options.replay.None? && options.trials != 0 && !NoneFails(trial, loaded) ==> result.status == FailedOne
      ensures options.replay.Some? && result.status != InvalidConfiguration ==>
        (result.status == FailedOne <==> ReplayOf(trial, 0, options.replay.value).Some?)
      ensures options.replay.Some? && result.status == FailedOne ==>
        result.failure.Some? && Some(result.failure.value.replay) == ReplayOf(trial, 0, options.replay.value)
      ensures options.replay.None? && result.status == FailedOne ==> ReportsLast(result, choices)
      ensures options.replay.None? && result.status == PassedAll ==> validTrials == options.trials as nat
      ensures options.replay.None? && options.trials != 0 ==>
        && history != []
        && (result.status == FailedOne <==>
              exists i | 0 <= i < |history| :: history[i].execution.outcome.verdict == Failed)
        && (result.status == FailedOne ==> history[|history| - 1].execution.outcome.verdict == Failed)
        && (result.status == ErroredOut ==> history[|history| - 1].execution.outcome.verdict == Errored)
      ensures options.replay.Some? && result.status != InvalidConfiguration ==> result.trialsRun == 1
    {
      hide AllHappened, AllWitnessed, AllStayBelow, NoneFailed, NoneFails, ReplayOf, ReportsLast;
      choices := [];
      if options.replay.Some? {
        result := RunReplay(options.replay.value);
        return;
      }
      if options.trials == 0 {
        return Result(InvalidConfiguration, 0, 0, None), [];
      }
      result, choices := RunPhases(loaded);
      NoneFailedMeans([], history);
    }

    /** Stored examples, regular trials, and the search, until one of them ends the
        run. */
    method RunPhases(loaded: seq<string>) returns (result: Result, ghost choices: Choices)
      requires Valid() && runs == trialsRun == validTrials == discarded == 0 && best == map[]
      requires changes == [] && history == [] && options.replay.None? && options.trials != 0
      modifies this
      ensures Valid()
      ensures result.status in {FailedOne, ErroredOut, GaveUp, PassedAll}
      ensures changes == ChangesOf(options, trial, loaded, result)
      ensures !NoneFails(trial, loaded) ==> result.status == FailedOne
      ensures result.status == FailedOne ==> ReportsLast(result, choices)
      ensures result.status == PassedAll ==> validTrials == options.trials as nat
      ensures history != [] && (NoneFailed([], history) <==> result.status != FailedOne)
      ensures result.status == FailedOne ==> history[|history| - 1].execution.outcome.verdict == Failed
      ensures result.status == ErroredOut ==> history[|history| - 1].execution.outcome.verdict == Errored
    {
      hide AllHappened, AllWitnessed, AllStayBelow, NoneLower, Tallied, Reports, Repeatable, SizeAt, AllowedDiscards,
           NoneFailed, NoneFails, IsRegular, Searched, ReplayOf, ReportsLast, AllDrew;
      NothingFailed(history);
      var ended;
      ended, choices := ReplayDatabase(loaded);
      if ended.Some? {
        return ended.value, choices;
      }
      ghost var replayed := history;
      ended, choices := RunTrials();
      NoneFailedAddsUp([], replayed, history);
      if ended.Some? {
        return ended.value, choices;
      }
      ghost var tried := history;
      ended, choices := SearchTargets();
      NoneFailedAddsUp([], tried, history);
      if ended.Some? {
        return ended.value, choices;
      }
      result := Result(PassedAll, trialsRun, discarded, None);
    }
  }

  /** Up, down but not below 0, about double, half, at most one up, or any word. A word
      that would get too large wraps. */
  predicate IsMutation(kind: uint64, before: nat, after: nat) {
    && kind < 6
    && (kind == 0 ==> after == before + 1 || (after == 0 && before + 1 == TWO_TO_64))
    && (kind == 1 ==> if before == 0 then after == 0 else after + 1 == before)
    && (kind == 2 ==> after == 2 * before + 1 || after + TWO_TO_64 == 2 * before + 1)
    && (kind == 3 ==> before - 1 <= 2 * after <= before)
    && (kind == 4 ==> before + 2 != TWO_TO_64 ==> after < (before + 2) % TWO_TO_64)
  }

  predicate AgreesExceptAt(a: Choices, b: Choices, at: nat) {
    at < |a| == |b| && forall i | 0 <= i < |a| && i != at :: a[i] == b[i]
  }

  function InTurn(names: seq<string>, step: nat): (name: string)
    requires names != []
    ensures name in names
  {
    names[step % |names|]
  }

  /** All targets get their turn, one after the other, round after round. */
  lemma InTurnIsFair(names: seq<string>, round: nat, place: nat)
    requires place < |names|
    ensures InTurn(names, round * |names| + place) == names[place]
  {
    var step := round * |names| + place;
    Distribute(round, 1, |names|);
    QuotientIs(step, |names|, round);
    assert step == (step / |names|) * |names| + step % |names|;
  }

  /** The labels of a map, in some order. */
  method KeysOf(best: map<string, Best>) returns (names: seq<string>)
    ensures |names| == |best| && forall name :: name in names <==> name in best
  {
    names := [];
    var rest := best.Keys;
    while rest != {}
      invariant rest <= best.Keys && |names| + |rest| == |best|
      invariant forall name :: name in names <==> name in best && name !in rest
      decreases |rest|
    {
      var name :| name in rest;
      names, rest := names + [name], rest - {name};
    }
  }

  lemma BestIsShort(t: Trial, history: History, best: map<string, Best>, name: string)
    requires AllWitnessed(history, best) && name in best
    requires AllHappened(t, history)
    ensures |best[name].choices| < TWO_TO_64
  {
    assert Witnessed(history, name, best[name]);
    var i :| 0 <= i < |history|
             && history[i].execution.outcome.verdict == Passed
             && Target(name, best[name].score) in history[i].execution.outcome.targets
             && history[i].execution.choices == best[name].choices;
    assert Happened(t, history[i]);
    RecordingIsShort(t, history[i].run, history[i].size, best[name].choices);
  }

  lemma WitnessedByLast(history: History, target: Target, best: map<string, Best>)
    requires AllWitnessed(history, best) && history != []
    requires history[|history| - 1].execution.outcome.verdict == Passed
    requires target in history[|history| - 1].execution.outcome.targets
    ensures AllWitnessed(history,
                         best[target.name := Best(target.score, history[|history| - 1].execution.choices)])
  {
    var updated := best[target.name := Best(target.score, history[|history| - 1].execution.choices)];
    forall name | name in updated
      ensures Witnessed(history, name, updated[name])
    {
      if name != target.name {
        assert Witnessed(history, name, best[name]);
      }
    }
  }

  lemma NoReplays(loaded: seq<string>)
    ensures Replays(loaded[..0]) == 0
  {}

  lemma ReplaysNext(t: Trial, loaded: seq<string>, i: nat)
    requires i < |loaded|
    ensures FailsWhenLoaded(t, loaded, i) <==> ReplayOf(t, Replays(loaded[..i]), loaded[i]).Some?
    ensures Replays(loaded[..i + 1]) == Replays(loaded[..i]) + if Tokens.Decode(loaded[i]).Some? then 1 else 0
  {
    assert loaded[..i + 1][..i] == loaded[..i];
  }

  lemma DecodedSizeIsSmall(token: string)
    requires Tokens.Decode(token).Some?
    ensures Tokens.Decode(token).value.size as nat <= MAXIMUM_SIZE
  {
    Tokens.DecodeAccepts(token, Tokens.Decode(token).value);
  }

  /** `RunPropertyEngine`. The run fails if and only if an execution of it failed; the
      replays of the shrinker do not count. Then it reports a shrunk form of that
      execution, which its token reproduces when the trial is repeatable. */
  method RunPropertyEngine(options: Options, trial: Trial, randomOf: uint64 -> RandomAnswers,
                           deriveSeed: (uint64, nat) -> uint64, searchRandom: RandomAnswers, loaded: seq<string>)
    returns (result: Result, changes: seq<Change>, ghost history: History, ghost choices: Choices)
    requires AllStayBelow(searchRandom, randomOf)
    ensures result.status == InvalidConfiguration <==>
      if options.replay.Some? then Tokens.Decode(options.replay.value) == None else options.trials == 0
    ensures options.replay.Some? && result.status != InvalidConfiguration ==>
      (result.status == FailedOne <==> ReplayOf(trial, 0, options.replay.value).Some?)
    ensures options.replay.Some? && result.status == FailedOne ==>
      result.failure.Some? && Some(result.failure.value.replay) == ReplayOf(trial, 0, options.replay.value)
    ensures options.replay.None? && options.trials != 0 ==>
      && history != [] && (forall i | 0 <= i < |history| :: Happened(trial, history[i]))
      && (result.status == FailedOne <==>
            exists i | 0 <= i < |history| :: history[i].execution.outcome.verdict == Failed)
    ensures options.replay.None? && result.status == FailedOne ==>
      result.failure.Some? && changes != [] && changes[|changes| - 1] == Insert(result.failure.value.replay)
    ensures options.replay.None? && result.status == FailedOne && Repeatable(trial) ==>
      history != [] && Reports(trial, result.failure.value, history[|history| - 1], options.maxShrinkSteps, choices)
    ensures changes == ChangesOf(options, trial, loaded, result)
    ensures options.replay.None? && options.trials != 0 && !NoneFails(trial, loaded) ==> result.status == FailedOne
  {
    var engine := new Engine(options, trial, randomOf, deriveSeed, searchRandom);
    result, choices := engine.Run(loaded);
    changes := engine.changes;
    history := engine.history;
  }

  /** What a report says of a failing execution: what its token decodes to fails in every
      run and is what it draws then; it is what the execution drew or simpler; and it is
      a local minimum when the shrinker did not use up its budget. */
  lemma ReportMeans(t: Trial, failure: Failure, original: Entry, maxShrinkSteps: nat, choices: Choices, run: nat)
    requires Repeatable(t) && Reports(t, failure, original, maxShrinkSteps, choices)
    ensures original.execution.outcome.verdict == Failed
    ensures Tokens.Decode(failure.replay) == Some(Tokens.Decoded(original.size as uint64, choices))
    ensures Play(t, run, original.size, choices, []) == choices
    ensures OutcomeOf(t, run, original.size, choices).verdict == Failed
    ensures ReplayOf(t, run, failure.replay) == Some(failure.replay)
    ensures choices == original.execution.choices || IsSimpler(choices, original.execution.choices)
    ensures failure.shrinkSteps < maxShrinkSteps ==> LocallyMinimal(ReplayOracle(t, 0, original.size), choices)
  {
    Tokens.RoundTrip(original.size as uint64, choices);
    ReplayIsFaithful(t, 0, run, original.size, choices);
  }

  /** A trial that fails whenever it runs makes every run fail. */
  method AlwaysFails(options: Options, trial: Trial, randomOf: uint64 -> RandomAnswers,
                     deriveSeed: (uint64, nat) -> uint64, searchRandom: RandomAnswers, loaded: seq<string>)
    returns (result: Result)
    requires AllStayBelow(searchRandom, randomOf) && options.replay.None? && options.trials != 0
    requires forall run: nat, size: nat, choices: Choices ::
               trial.next(run, size, choices).Stop? ==> trial.next(run, size, choices).outcome.verdict == Failed
    ensures result.status == FailedOne && result.failure.Some?
  {
    var changes;
    ghost var history, choices;
    result, changes, history, choices :=
      RunPropertyEngine(options, trial, randomOf, deriveSeed, searchRandom, loaded);
    assert Happened(trial, history[0]);
  }

  /** The token of a report, put in `PropertyOptions::Replay` of any later run of the
      property, fails again and is reported again: whatever the other options, the
      random numbers and the database are then. */
  method ReplayReported(options: Options, trial: Trial, randomOf: uint64 -> RandomAnswers,
                        deriveSeed: (uint64, nat) -> uint64, searchRandom: RandomAnswers, loaded: seq<string>,
                        laterOptions: Options, laterRandomOf: uint64 -> RandomAnswers,
                        laterDeriveSeed: (uint64, nat) -> uint64, laterSearchRandom: RandomAnswers,
                        laterLoaded: seq<string>)
    returns (first: Result, again: Result)
    requires AllStayBelow(searchRandom, randomOf) && AllStayBelow(laterSearchRandom, laterRandomOf)
    ensures options.replay.None? && first.status == FailedOne && Repeatable(trial) ==>
      && again.status == FailedOne && first.failure.Some? && again.failure.Some?
      && again.failure.value.replay == first.failure.value.replay
  {
    var changes;
    ghost var history, choices;
    first, changes, history, choices :=
      RunPropertyEngine(options, trial, randomOf, deriveSeed, searchRandom, loaded);
    again := first;
    if first.failure.Some? {
      var token := first.failure.value.replay;
      if options.replay.None? && first.status == FailedOne && Repeatable(trial) {
        assert ReplayOf(trial, 0, token) == Some(token);
      }
      again, changes, history, choices :=
        RunPropertyEngine(laterOptions.(replay := Some(token)), trial, laterRandomOf, laterDeriveSeed,
                          laterSearchRandom, laterLoaded);
    }
  }

  // The wrapping products of the trial loop.

  /** The bound on discards is the documented one exactly when the product of the
      two options fits a `std::size_t`; it is never larger. */
  lemma AllowedDiscardsIsExact(options: Options)
    ensures var documented := options.trials as nat * options.maxDiscardRatio as nat;
            && AllowedDiscards(options) <= documented
            && (AllowedDiscards(options) == documented <==> documented < TWO_TO_64)
  {
    ModIsIdentity(options.trials as nat * options.maxDiscardRatio as nat);
  }

  lemma ModIsIdentity(n: nat)
    ensures n % TWO_TO_64 <= n && (n % TWO_TO_64 == n <==> n < TWO_TO_64)
  {}

  /** With 2^33 trials and a ratio of 2^31, the first discard gives up. */
  lemma AllowedDiscardsCanWrap(options: Options)
    requires options.trials == 0x2_0000_0000 && options.maxDiscardRatio == 0x8000_0000
    ensures AllowedDiscards(options) == 0
  {}

  /** Without wrapping, sizes grow evenly over the first half of the trials, and stay at
      the maximum in the second half. */
  lemma SizeMeans(attempt: nat, trials: uint64)
    requires trials != 0 && attempt * 200 < TWO_TO_64
    ensures attempt * 2 < trials as nat ==>
      SizeAt(attempt, trials) * trials as nat <= attempt * 200 < (SizeAt(attempt, trials) + 1) * trials as nat
    ensures attempt * 2 >= trials as nat ==> SizeAt(attempt, trials) == MAXIMUM_SIZE
  {
    var t := trials as nat;
    SizeFrom(attempt, trials, attempt * 200);
    DivisionBounds(attempt * 200, t);
    hide SizeAt;
    HalfTheTrials(attempt * 200, t, attempt * 200 / t);
  }

  lemma HalfTheTrials(scaled: nat, t: nat, q: nat)
    requires t > 0 && q * t <= scaled < (q + 1) * t
    ensures scaled < 100 * t ==> q < 100
    ensures scaled >= 100 * t ==> q >= 100
  {
    if q >= 100 {
      ProductGrows(100, q, t);
    } else {
      ProductGrows(q + 1, 100, t);
    }
  }

  predicate SizesRise(trials: uint64, n: nat)
    requires trials != 0
  {
    forall i, j | 0 <= i <= j <= n :: SizeAt(i, trials) <= SizeAt(j, trials)
  }

  /** The last trial whose number times 200 does not wrap. */
  const LAST_UNWRAPPED: nat := 92233720368547758

  /** The first trial whose wrapped product is 2^64 - 8, the largest one there is. */
  const LARGEST_PRODUCT: nat := 1199038364791120855

  /** The last trial up to which sizes never fall, if there is one. It is far off: only
      with a single trial, and with more than 2^64 - 16, not where the product wraps
      first. */
  function LastRising(trials: uint64): Option<nat>
    requires trials != 0
  {
    if trials == 1 then Some(7 * TWO_TO_64 / 200)
    else if trials as nat <= TWO_TO_64 - 16 then Some(LAST_UNWRAPPED)
    else if trials as nat <= TWO_TO_64 - 8 then Some(LARGEST_PRODUCT)
    else None
  }

  /** The sizes of the trials 0 to n never fall exactly as long as n is no further. */
  lemma SizesGrow(trials: uint64, n: nat)
    requires trials != 0
    ensures n * 200 < TWO_TO_64 ==> SizesRise(trials, n)
    ensures SizesRise(trials, n) <==> LastRising(trials).None? || n <= LastRising(trials).value
  {
    hide SizeAt;
    var last := LastRising(trials);
    if last.None? || n <= last.value {
      forall i, j | 0 <= i <= j <= n
        ensures SizeAt(i, trials) <= SizeAt(j, trials)
      {
        SizesGrowUpTo(trials, i, j);
      }
    } else {
      SizeFalls(trials);
      assert SizeAt(last.value, trials) > SizeAt(last.value + 1, trials);
    }
  }

  function Capped(n: nat): nat {
    if n < MAXIMUM_SIZE then n else MAXIMUM_SIZE
  }

  lemma SizeFrom(attempt: nat, trials: uint64, scaled: nat)
    requires trials != 0 && attempt * 200 % TWO_TO_64 == scaled
    ensures SizeAt(attempt, trials) == Capped(scaled / trials as nat)
  {}

  lemma SizesGrowUpTo(trials: uint64, i: nat, j: nat)
    requires trials != 0 && i <= j
    requires LastRising(trials).Some? ==> j <= LastRising(trials).value
    ensures SizeAt(i, trials) <= SizeAt(j, trials)
  {
    hide SizeAt;
    if trials == 1 {
      SizeOfOne(i);
      SizeOfOne(j);
    } else if trials as nat <= TWO_TO_64 - 16 {
      SizesGrowWithoutWrap(trials, i, j);
    } else {
      SizeOfMost(trials, i);
      SizeOfMost(trials, j);
    }
  }

  lemma SizesGrowWithoutWrap(trials: uint64, i: nat, j: nat)
    requires trials != 0 && i <= j && j * 200 < TWO_TO_64
    ensures SizeAt(i, trials) <= SizeAt(j, trials)
  {
    SizeFrom(i, trials, i * 200);
    SizeFrom(j, trials, j * 200);
    DivisionGrows(i * 200, j * 200, trials as nat);
    hide SizeAt;
  }

  /** With one trial the product is below 100 for the first time after its seventh
      wrap: it is a multiple of 200 less 16 for each wrap before it. */
  lemma SizeOfOne(i: nat)
    requires i <= 7 * TWO_TO_64 / 200
    ensures SizeAt(i, 1) == if i == 0 then 0 else MAXIMUM_SIZE
  {
    var w, r := i * 200 / TWO_TO_64, i * 200 % TWO_TO_64;
    SizeFrom(i, 1, r);
    assert i * 200 == w * TWO_TO_64 + r && w <= 6;
    hide SizeAt;
    assert r == 200 * (i - w * 92233720368547758) - 16 * w;
  }

  /** With nearly as many trials as fit, a size is 1 at the largest product and 0 at
      all others. */
  lemma SizeOfMost(trials: uint64, i: nat)
    requires trials as nat > TWO_TO_64 - 16
    ensures trials as nat > TWO_TO_64 - 8 ==> SizeAt(i, trials) == 0
    ensures i < LARGEST_PRODUCT ==> SizeAt(i, trials) == 0
  {
    var w, r := i * 200 / TWO_TO_64, i * 200 % TWO_TO_64;
    assert i * 200 == w * TWO_TO_64 + r;
    SizeFrom(i, trials, r);
    hide SizeAt;
    if i < LARGEST_PRODUCT {
      LargestProductIsFirst(i, w, r);
    }
    MultipleOfEight(i, w, r);
    if r < trials as nat {
      QuotientIs(r, trials as nat, 0);
    }
  }

  lemma MultipleOfEight(i: nat, w: nat, r: nat)
    requires i * 200 == w * TWO_TO_64 + r && r < TWO_TO_64
    ensures r <= TWO_TO_64 - 8 && (r <= TWO_TO_64 - 16 || r == TWO_TO_64 - 8)
  {
    assert r == 8 * (25 * i - w * 0x2000_0000_0000_0000);
  }

  lemma LargestProductIsFirst(i: nat, w: nat, r: nat)
    requires i < LARGEST_PRODUCT && i * 200 == w * TWO_TO_64 + r
    ensures r != TWO_TO_64 - 8
  {
    assert LARGEST_PRODUCT * 200 == 13 * TWO_TO_64 - 8;
  }

  /** And there the next one is smaller. */
  lemma SizeFalls(trials: uint64)
    requires trials != 0 && LastRising(trials).Some?
    ensures SizeAt(LastRising(trials).value + 1, trials) < SizeAt(LastRising(trials).value, trials)
  {
    var t := trials as nat;
    hide SizeAt;
    if trials == 1 {
      var last := 7 * TWO_TO_64 / 200;
      SizeOfOne(last);
      SizeFrom(last + 1, trials, 88);
    } else if t <= TWO_TO_64 - 16 {
      SizeFrom(LAST_UNWRAPPED, trials, TWO_TO_64 - 16);
      SizeFrom(LAST_UNWRAPPED + 1, trials, 184);
      WrapFalls(t);
    } else {
      SizeFrom(LARGEST_PRODUCT, trials, TWO_TO_64 - 8);
      SizeFrom(LARGEST_PRODUCT + 1, trials, 192);
      LargestFalls(t);
    }
  }

  lemma LargestFalls(t: nat)
    requires TWO_TO_64 - 16 < t <= TWO_TO_64 - 8
    ensures 192 / t == 0 && (TWO_TO_64 - 8) / t == 1
  {
    QuotientIs(TWO_TO_64 - 8, t, 1);
    QuotientIs(192, t, 0);
  }

  lemma WrapFalls(t: nat)
    requires 2 <= t <= TWO_TO_64 - 16
    ensures Capped(184 / t) < Capped((TWO_TO_64 - 16) / t)
  {
    SmallQuotient(t);
    if 184 + t <= TWO_TO_64 - 16 {
      DivisionGrows(184 + t, TWO_TO_64 - 16, t);
    } else {
      QuotientIs(184, t, 0);
      QuotientIs(TWO_TO_64 - 16, t, 1);
    }
  }

  lemma SmallQuotient(t: nat)
    requires t >= 2
    ensures 184 / t <= 92 && (184 + t) / t == 184 / t + 1
  {
    DivisionBounds(184, t);
    QuotientIs(184 + t, t, 184 / t + 1);
    HalfAtMost(184 / t, t);
  }

  lemma HalfAtMost(q: nat, t: nat)
    requires t >= 2 && q * t <= 184
    ensures q <= 92
  {
    assert q * 2 <= q * t;
  }
}

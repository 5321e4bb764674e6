/** The example database: a file of replay tokens that several processes change
    at the same time, each by reading it, changing what it read, and replacing the
    file. */
module ExampleDatabase {
  import opened Words
  import opened Trials
  import opened PropertyEngine
  import Tokens = ReplayToken

  type Contents = seq<string>

  // The file: one token per line.

  function Line(text: string): (line: string)
    requires text != ""
  {
    text[..Tokens.Find(text, '\n')]
  }

  function AfterLine(text: string): (rest: string)
    requires text != ""
    ensures |rest| < |text|
  {
    var end := Tokens.Find(text, '\n');
    if end == |text| then "" else text[end + 1..]
  }

  function WithoutReturn(line: string): string {
    if line != "" && line[|line| - 1] == '\r' then line[..|line| - 1] else line
  }

  function FromText(text: string): Contents
    decreases |text|
  {
    if text == "" then []
    else
      var token := WithoutReturn(Line(text));
      (if token == "" then [] else [token]) + FromText(AfterLine(text))
  }

  function ToText(stored: Contents): string {
    if stored == [] then "" else stored[0] + "\n" + ToText(stored[1..])
  }

  method ReadLines(text: string) returns (tokens: Contents)
    ensures tokens == FromText(text)
  {
    hide FromText, Line, WithoutReturn;
    tokens := [];
    var rest := text;
    while rest != ""
      invariant tokens + FromText(rest) == FromText(text)
      decreases |rest|
    {
      OneLine(tokens, rest);
      var token := WithoutReturn(Line(rest));
      if token != "" {
        tokens := tokens + [token];
      }
      rest := AfterLine(rest);
    }
    NoLine(tokens);
  }

  lemma OneLine(tokens: Contents, rest: string)
    requires rest != ""
    ensures var token := WithoutReturn(Line(rest));
            tokens + FromText(rest)
            == (if token == "" then tokens else tokens + [token]) + FromText(AfterLine(rest))
  {
    hide FromText, Line, AfterLine, WithoutReturn;
    FromTextStep(rest);
  }

  lemma FromTextStep(text: string)
    requires text != ""
    ensures var token := WithoutReturn(Line(text));
            FromText(text) == (if token == "" then [] else [token]) + FromText(AfterLine(text))
  {
    hide Line, AfterLine, WithoutReturn;
  }

  lemma NoLine(tokens: Contents)
    ensures tokens + FromText("") == tokens
  {}

  /** Lines end with a newline, or a carriage return and a newline, which do not belong to
      the token; empty ones are passed over. */
  lemma LineIsRead(line: string, rest: string)
    requires '\n' !in line && (line == "" || line[|line| - 1] != '\r')
    ensures FromText(line + "\n" + rest) == (if line == "" then [] else [line]) + FromText(rest)
    ensures FromText(line + "\r" + "\n" + rest) == (if line == "" then [] else [line]) + FromText(rest)
  {
    hide FromText, Line, AfterLine;
    FirstLine(line, rest);
    FromTextStep(line + "\n" + rest);
    FirstLine(line + "\r", rest);
    FromTextStep(line + "\r" + "\n" + rest);
    assert (line + "\r")[..|line|] == line;
  }

  /** Only one carriage return is taken off. */
  lemma ReturnIsTakenOff(line: string, rest: string)
    requires '\n' !in line && line != ""
    ensures FromText(line + "\r" + "\n" + rest) == [line] + FromText(rest)
  {
    hide FromText, Line, AfterLine;
    FirstLine(line + "\r", rest);
    FromTextStep(line + "\r" + "\n" + rest);
    assert (line + "\r")[..|line|] == line;
  }

  /** The last line needs no newline. */
  lemma LastLineIsRead(line: string)
    requires '\n' !in line && line != "" && line[|line| - 1] != '\r'
    ensures FromText(line) == [line]
  {
    hide FromText;
    FromTextStep(line);
    assert Tokens.Find(line, '\n') == |line| && line[..|line|] == line;
    NoLine([]);
    assert [] + FromText("") == FromText("");
  }

  /** A line can hold the token. */
  predicate Storable(token: string) {
    token != "" && '\n' !in token && token[|token| - 1] != '\r'
  }

  lemma FirstLine(token: string, rest: string)
    requires '\n' !in token
    ensures Line(token + "\n" + rest) == token && AfterLine(token + "\n" + rest) == rest
  {
    assert token + "\n" + rest == token + ("\n" + rest);
    Tokens.FindAfter(token, '\n', "\n" + rest);
  }

  /** What is written is what is read, for tokens a line can hold. */
  lemma {:induction false} TextReadsBack(stored: Contents)
    requires forall i | 0 <= i < |stored| :: Storable(stored[i])
    ensures FromText(ToText(stored)) == stored
  {
    if stored == [] {
    } else {
      FirstLine(stored[0], ToText(stored[1..]));
      TextReadsBack(stored[1..]);
    }
  }

  lemma {:induction false} ReadTokensHaveNoNewline(text: string)
    ensures forall token | token in FromText(text) :: '\n' !in token
    decreases |text|
  {
    if text == "" {
    } else {
      ReadTokensHaveNoNewline(AfterLine(text));
    }
  }

  /** Any other token is not read back. */
  lemma OnlyStorableReadsBack(token: string)
    ensures FromText(ToText([token])) == [token] <==> Storable(token)
  {
    if Storable(token) {
      TextReadsBack([token]);
    } else if '\n' in token {
      ReadTokensHaveNoNewline(ToText([token]));
      assert token !in FromText(ToText([token]));
    } else {
      assert ToText([token]) == token + "\n" + "";
      FirstLine(token, "");
    }
  }

  lemma {:induction false} JoinHolds(parts: seq<string>, c: char)
    requires c != '-' && forall i | 0 <= i < |parts| :: c !in parts[i]
    ensures c !in Tokens.Join(parts)
  {
    if |parts| <= 1 {
    } else {
      JoinHolds(parts[1..], c);
    }
  }

  /** Every token of a report can be stored. */
  lemma ReportedTokenIsStorable(size: uint64, choices: Choices)
    ensures Storable(Tokens.Encode(size, choices))
  {
    var parts := Tokens.Numerals(choices);
    Tokens.ToCharsReadsBack(size as nat);
    forall i | 0 <= i < |parts|
      ensures '\n' !in parts[i] && '\r' !in parts[i]
    {
      Tokens.ToCharsReadsBack(choices[i] as nat);
    }
    JoinHolds(parts, '\n');
    JoinHolds(parts, '\r');
    var token := Tokens.Encode(size, choices);
    assert '\r' !in token && '\n' !in token;
    assert token[|token| - 1] in token;
  }

  // Changes.

  function Without(stored: Contents, dropped: seq<string>): (kept: Contents)
    ensures forall token :: token in kept <==> token in stored && token !in dropped
  {
    if stored == [] then []
    else if stored[0] in dropped then Without(stored[1..], dropped)
    else [stored[0]] + Without(stored[1..], dropped)
  }

  function Apply(change: Change, stored: Contents): Contents {
    match change
    case Drop(dropped) => Without(stored, dropped)
    case Insert(token) => if token in stored then stored else [token] + stored
  }

  /** A new token goes first, and the others stay in their order. A known one changes
      nothing. */
  lemma InsertedFirst(token: string, stored: Contents)
    ensures var edited := Apply(Insert(token), stored);
            if token in stored then edited == stored else edited != [] && edited[0] == token && edited[1..] == stored
  {}

  /** What is not dropped stays in its order. */
  lemma {:induction false} DroppedInParts(a: Contents, b: Contents, dropped: seq<string>)
    ensures Apply(Drop(dropped), a + b) == Apply(Drop(dropped), a) + Apply(Drop(dropped), b)
    ensures forall token :: Apply(Drop(dropped), [token]) == if token in dropped then [] else [token]
  {
    hide Without;
    WithoutNothing(dropped);
    forall token: string
      ensures Without([token], dropped) == if token in dropped then [] else [token]
    {
      WithoutFirst(token, [], dropped);
      assert [token] + [] == [token];
    }
    if a == [] {
      assert a + b == b && [] + Without(b, dropped) == Without(b, dropped);
    } else {
      DroppedInParts(a[1..], b, dropped);
      WithoutFirst(a[0], a[1..], dropped);
      WithoutFirst(a[0], a[1..] + b, dropped);
      assert [a[0]] + a[1..] == a && [a[0]] + (a[1..] + b) == a + b;
    }
  }

  lemma WithoutNothing(dropped: seq<string>)
    ensures Without([], dropped) == []
  {}

  lemma WithoutFirst(token: string, rest: Contents, dropped: seq<string>)
    ensures Without([token] + rest, dropped) == (if token in dropped then [] else [token]) + Without(rest, dropped)
  {
    assert ([token] + rest)[1..] == rest;
  }

  function ApplyAll(initial: Contents, changes: seq<Change>): Contents {
    if changes == [] then initial
    else Apply(changes[|changes| - 1], ApplyAll(initial, changes[..|changes| - 1]))
  }

  method Edit(change: Change, stored: Contents) returns (edited: Contents)
    ensures edited == Apply(change, stored)
  {
    hide Without;
    match change {
      case Insert(token) =>
        edited := stored;
        if token !in stored {
          edited := [token] + edited;
        }
      case Drop(dropped) =>
        edited := [];
        for i := 0 to |stored|
          invariant edited + Without(stored[i..], dropped) == Without(stored, dropped)
        {
          WithoutFirst(stored[i], stored[i + 1..], dropped);
          assert [stored[i]] + stored[i + 1..] == stored[i..];
          if stored[i] !in dropped {
            edited := edited + [stored[i]];
          }
        }
        WithoutNothing(dropped);
        assert stored[|stored|..] == [] && edited + [] == edited;
    }
  }

  predicate NoDuplicates(stored: Contents) {
    forall i, j | 0 <= i < j < |stored| :: stored[i] != stored[j]
  }

  lemma {:induction false} WithoutKeepsUnique(stored: Contents, dropped: seq<string>)
    requires NoDuplicates(stored)
    ensures NoDuplicates(Without(stored, dropped))
  {
    if stored == [] {
    } else {
      WithoutKeepsUnique(stored[1..], dropped);
    }
  }

  lemma {:induction false} ChangesKeepUnique(initial: Contents, changes: seq<Change>)
    requires NoDuplicates(initial)
    ensures NoDuplicates(ApplyAll(initial, changes))
  {
    if changes == [] {
    } else {
      var last := |changes| - 1;
      ChangesKeepUnique(initial, changes[..last]);
      if changes[last].Drop? {
        WithoutKeepsUnique(ApplyAll(initial, changes[..last]), changes[last].tokens);
      }
    }
  }

  /** No change from index `from` on drops the token. */
  predicate NotDropped(token: string, changes: seq<Change>, from: nat) {
    forall i | from <= i < |changes| && changes[i].Drop? :: token !in changes[i].tokens
  }

  /** The token was there or was inserted, and was not dropped since. */
  ghost predicate InsertedAndKept(initial: Contents, changes: seq<Change>, token: string) {
    || (token in initial && NotDropped(token, changes, 0))
    || (exists k: nat :: k < |changes| && changes[k] == Insert(token) && NotDropped(token, changes, k))
  }

  /** What is stored after some changes. */
  lemma {:induction false} StoredExactly(initial: Contents, changes: seq<Change>, token: string)
    ensures token in ApplyAll(initial, changes) <==> InsertedAndKept(initial, changes, token)
  {
    hide InsertedAndKept;
    if changes == [] {
      NothingInserted(initial, token);
    } else {
      var before, last := changes[..|changes| - 1], changes[|changes| - 1];
      StoredExactly(initial, before, token);
      OneChangeMore(initial, before, last, token);
      assert changes == before + [last];
    }
  }

  lemma NothingInserted(initial: Contents, token: string)
    ensures InsertedAndKept(initial, [], token) <==> token in initial
  {}

  lemma OneChangeMore(initial: Contents, before: seq<Change>, last: Change, token: string)
    ensures InsertedAndKept(initial, before + [last], token)
       <==> last == Insert(token) ||
            (InsertedAndKept(initial, before, token) && !(last.Drop? && token in last.tokens))
  {
    hide NotDropped;
    var changes := before + [last];
    var dropped := last.Drop? && token in last.tokens;
    forall k: nat | k <= |before|
      ensures NotDropped(token, changes, k) <==> NotDropped(token, before, k) && !dropped
    {
      NotDroppedSnoc(token, before, last, k);
    }
    NotDroppedAtEnd(token, before);
    forall k: nat | k < |before|
      ensures changes[k] == before[k]
    {}
    if last == Insert(token) {
      assert changes[|before|] == Insert(token) && NotDropped(token, changes, |before|);
    }
  }

  lemma NotDroppedAtEnd(token: string, changes: seq<Change>)
    ensures NotDropped(token, changes, |changes|)
  {}

  lemma NotDroppedSnoc(token: string, before: seq<Change>, last: Change, k: nat)
    requires k <= |before|
    ensures NotDropped(token, before + [last], k) <==>
            NotDropped(token, before, k) && !(last.Drop? && token in last.tokens)
  {
    var changes := before + [last];
    assert changes[|before|] == last && forall i | 0 <= i < |before| :: changes[i] == before[i];
  }

  // Stored examples that pass.

  /** A run of the engine that loads the file while nobody else changes it. A stored
      example that passes is removed if and only if no stored example fails. */
  method PassingIsRemovedExactly(options: Options, trial: Trial, randomOf: uint64 -> RandomAnswers,
                                 deriveSeed: (uint64, nat) -> uint64, searchRandom: RandomAnswers,
                                 stored: Contents, token: string)
    returns (later: Contents)
    requires AllStayBelow(searchRandom, randomOf) && Repeatable(trial)
    requires options.replay.None? && options.trials != 0
    requires token in stored && ReplayOf(trial, 0, token).None?
    ensures token !in later <==> forall other | other in stored :: ReplayOf(trial, 0, other).None?
  {
    var result, changes, history, choices :=
      RunPropertyEngine(options, trial, randomOf, deriveSeed, searchRandom, stored);
    later := EditAll(stored, changes);
    if result.status == FailedOne {
      assert Reproduces(trial, result.failure.value.replay);
    }
    RemovedExactly(options, trial, stored, token, result);
  }

  method EditAll(stored: Contents, changes: seq<Change>) returns (edited: Contents)
    ensures edited == ApplyAll(stored, changes)
  {
    hide Apply;
    edited := stored;
    for i := 0 to |changes|
      invariant edited == ApplyAll(stored, changes[..i])
    {
      assert changes[..i + 1][..i] == changes[..i];
      edited := Edit(changes[i], edited);
    }
    assert changes[..|changes|] == changes;
  }

  lemma RemovedExactly(options: Options, trial: Trial, stored: Contents, token: string, result: Result)
    requires Repeatable(trial) && options.replay.None? && options.trials != 0
    requires token in stored && ReplayOf(trial, 0, token).None?
    requires result.status == FailedOne ==> result.failure.Some? && Reproduces(trial, result.failure.value.replay)
    requires !NoneFails(trial, stored) ==> result.status == FailedOne
    ensures token !in ApplyAll(stored, ChangesOf(options, trial, stored, result))
       <==> forall other | other in stored :: ReplayOf(trial, 0, other).None?
  {
    hide NoneFails, ReplayOf, Repeatable, ApplyAll, NotDropped;
    var changes := ChangesOf(options, trial, stored, result);
    NoneFailsRepeatably(trial, stored);
    StoredExactly(stored, changes, token);
    if result.status == FailedOne {
      assert ReplayOf(trial, 0, result.failure.value.replay).Some?;
    }
    forall k: nat | k < |changes|
      ensures changes[k] != Insert(token)
    {}
    DroppedIfAny(changes, token);
    if NoneFails(trial, stored) {
      assert changes[0] == Drop(stored);
    } else {
      assert changes == StoredBy(Some(result));
    }
  }

  lemma DroppedIfAny(changes: seq<Change>, token: string)
    ensures NotDropped(token, changes, 0) <==>
      forall i | 0 <= i < |changes| :: changes[i].Drop? ==> token !in changes[i].tokens
  {}

  /** A trial that draws 0 or 1 and fails on 1. */
  function FailsOnOne(): Trial {
    Program((run, size, drawn) =>
              if drawn == [] then Draw(AnyChoice(1))
              else Stop(Outcome(if drawn[0] == 1 then Failed else Passed, [])),
            1)
  }

  /** One stored example of it passes, the other fails: both are kept. */
  lemma PassingExampleIsKept(passing: string, failing: string)
    requires passing == Tokens.Encode(0, [0]) && failing == Tokens.Encode(0, [1])
    ensures Repeatable(FailsOnOne())
    ensures ReplayOf(FailsOnOne(), 0, passing).None? && ReplayOf(FailsOnOne(), 0, failing).Some?
    ensures !NoneFails(FailsOnOne(), [passing, failing])
  {
    var t := FailsOnOne();
    OneChoiceReplays(0);
    OneChoiceReplays(1);
    NoneFailsRepeatably(t, [passing, failing]);
  }

  lemma OneChoiceReplays(choice: uint64)
    requires choice <= 1
    ensures var token := Tokens.Encode(0, [choice]);
            ReplayOf(FailsOnOne(), 0, token) == if choice == 1 then Some(token) else None
  {
    var t := FailsOnOne();
    Tokens.RoundTrip(0, [choice]);
    assert [choice][..0] == [];
    RecordingReplays(t, 0, 0, [choice], 0);
  }

  // The protocol.

  /** Where a process is in `Update`. It may go on without the lock. */
  datatype Phase =
    | Idle
    | Entered(change: Change, held: bool)
    | Loaded(change: Change, held: bool, tokens: Contents)
    | Leaving(held: bool)

  /** The file, the lock file with the process that created it, the processes, the
      changes whose rename succeeded, and what readers without a lock saw. */
  datatype State = State(
    file: Contents, lock: Option<nat>, processes: seq<Phase>, renamed: seq<Change>, seen: seq<Contents>)

  datatype Step =
    | Acquire(p: nat, change: Change)
    | StopWaiting(p: nat, change: Change)
    | BreakStale
    | Load(p: nat)
    | Abandon(p: nat)
    | Rename(p: nat)
    | Release(p: nat)
    | Read
    | Crash(p: nat)

  predicate Enabled(s: State, step: Step) {
    match step
    case Acquire(p, _) => p < |s.processes| && s.processes[p].Idle? && s.lock == None
    case StopWaiting(p, _) => p < |s.processes| && s.processes[p].Idle? && s.lock.Some?
    case BreakStale => s.lock.Some?
    case Load(p) => p < |s.processes| && s.processes[p].Entered?
    case Abandon(p) => p < |s.processes| && s.processes[p].Loaded?
    case Rename(p) => p < |s.processes| && s.processes[p].Loaded?
    case Release(p) => p < |s.processes| && s.processes[p].Leaving?
    case Read => true
    case Crash(p) => p < |s.processes|
  }

  function Next(s: State, step: Step): State
    requires Enabled(s, step)
  {
    match step
    case Acquire(p, change) => s.(lock := Some(p), processes := s.processes[p := Entered(change, true)])
    case StopWaiting(p, change) => s.(processes := s.processes[p := Entered(change, false)])
    case BreakStale => s.(lock := None)
    case Load(p) =>
      var phase := s.processes[p];
      s.(processes := s.processes[p := Loaded(phase.change, phase.held, s.file)])
    case Abandon(p) => s.(processes := s.processes[p := Leaving(s.processes[p].held)])
    case Rename(p) =>
      var phase := s.processes[p];
      s.(file := Apply(phase.change, phase.tokens), processes := s.processes[p := Leaving(phase.held)],
         renamed := s.renamed + [phase.change])
    case Release(p) =>
      s.(lock := if s.processes[p].held then None else s.lock, processes := s.processes[p := Idle])
    case Read => s.(seen := s.seen + [s.file])
    case Crash(p) => s.(processes := s.processes[p := Idle])
  }

  /** The state after some steps, if each of them can be taken. */
  function After(s: State, steps: seq<Step>): Option<State> {
    if steps == [] then Some(s)
    else
      var before := After(s, steps[..|steps| - 1]);
      var last := steps[|steps| - 1];
      if before.Some? && Enabled(before.value, last) then Some(Next(before.value, last)) else None
  }

  predicate Run(s: State, steps: seq<Step>, t: State) {
    After(s, steps) == Some(t)
  }

  /** Whoever renames owns the lock at that moment. */
  predicate Locked(s: State, steps: seq<Step>) {
    steps != [] ==>
      var before := After(s, steps[..|steps| - 1]);
      var last := steps[|steps| - 1];
      && Locked(s, steps[..|steps| - 1])
      && (last.Rename? && before.Some? ==> before.value.lock == Some(last.p))
  }

  /** The process has loaded the file and nobody has renamed since. */
  predicate NoRenameSinceLoad(steps: seq<Step>, p: nat) {
    && steps != []
    && var last := steps[|steps| - 1];
       last == Load(p) || (!last.Rename? && NoRenameSinceLoad(steps[..|steps| - 1], p))
  }

  /** No rename falls between the load of a process and its rename. */
  predicate Undisturbed(steps: seq<Step>) {
    steps != [] ==>
      var before := steps[..|steps| - 1];
      var last := steps[|steps| - 1];
      Undisturbed(before) && (last.Rename? ==> NoRenameSinceLoad(before, last.p))
  }

  ghost predicate Initial(s: State) {
    s.lock == None && s.renamed == [] && s.seen == [] && forall p | 0 <= p < |s.processes| :: s.processes[p].Idle?
  }

  /** `contents` is what some number of the renames, in their order, made of the
      initial file. */
  ghost predicate AfterSome(initial: Contents, renamed: seq<Change>, contents: Contents) {
    exists k | 0 <= k <= |renamed| :: contents == ApplyAll(initial, renamed[..k])
  }

  /** The file is the initial one after all renames, in their order, and every reader
      saw the file as some of them left it. */
  ghost predicate Consistent(initial: Contents, s: State) {
    && s.file == ApplyAll(initial, s.renamed)
    && (forall i | 0 <= i < |s.seen| :: AfterSome(initial, s.renamed, s.seen[i]))
  }

  /** A process that nobody disturbed holds what the file holds. */
  ghost predicate LoadedIsFile(steps: seq<Step>, s: State) {
    forall p | 0 <= p < |s.processes| && s.processes[p].Loaded? && NoRenameSinceLoad(steps, p) ::
      s.processes[p].tokens == s.file
  }

  lemma RenamedGrows(initial: Contents, renamed: seq<Change>, change: Change, seen: seq<Contents>)
    requires forall i | 0 <= i < |seen| :: AfterSome(initial, renamed, seen[i])
    ensures forall i | 0 <= i < |seen| :: AfterSome(initial, renamed + [change], seen[i])
    ensures ApplyAll(initial, renamed + [change]) == Apply(change, ApplyAll(initial, renamed))
  {
    assert (renamed + [change])[..|renamed|] == renamed;
    forall i | 0 <= i < |seen|
      ensures AfterSome(initial, renamed + [change], seen[i])
    {
      var k :| 0 <= k <= |renamed| && seen[i] == ApplyAll(initial, renamed[..k]);
      assert (renamed + [change])[..k] == renamed[..k];
    }
  }

  lemma {:induction false} LoadedStaysFile(s: State, steps: seq<Step>, t: State)
    requires Initial(s) && Run(s, steps, t)
    ensures LoadedIsFile(steps, t)
  {
    if steps == [] {
    } else {
      var last := |steps| - 1;
      LoadedStaysFile(s, steps[..last], After(s, steps[..last]).value);
    }
  }

  lemma StepKeepsConsistent(initial: Contents, s: State, step: Step)
    requires Consistent(initial, s) && Enabled(s, step)
    requires step.Rename? ==> s.processes[step.p].tokens == s.file
    ensures Consistent(initial, Next(s, step))
  {
    hide Without, ApplyAll;
    if step.Rename? {
      RenamedGrows(initial, s.renamed, s.processes[step.p].change, s.seen);
    } else if step.Read? {
      assert s.renamed[..|s.renamed|] == s.renamed;
      assert AfterSome(initial, s.renamed, s.file);
    }
  }

  /** Over a whole run in which no rename is disturbed nothing is lost, whatever the
      changes are and whoever has the lock. */
  lemma {:induction false} NothingIsLost(s: State, steps: seq<Step>, t: State)
    requires Initial(s) && Run(s, steps, t) && Undisturbed(steps)
    ensures Consistent(s.file, t)
  {
    if steps == [] {
    } else {
      var before := steps[..|steps| - 1];
      var m := After(s, before).value;
      NothingIsLost(s, before, m);
      LoadedStaysFile(s, before, m);
      StepKeepsConsistent(s.file, m, steps[|steps| - 1]);
    }
  }

  /** The lock is there for that: when only its owner renames, no rename is
      disturbed. */
  lemma {:induction false} LockPreventsDisturbance(s: State, steps: seq<Step>, t: State)
    requires Initial(s) && Run(s, steps, t) && Locked(s, steps)
    ensures Undisturbed(steps)
    ensures forall p | 0 <= p < |t.processes| && t.processes[p].Loaded? && t.lock == Some(p) ::
              NoRenameSinceLoad(steps, p)
  {
    if steps == [] {
    } else {
      var before := steps[..|steps| - 1];
      LockPreventsDisturbance(s, before, After(s, before).value);
    }
  }

  // The other direction.

  /** Different tokens, none of them stored at the beginning. */
  predicate NewTokens(initial: Contents, renamed: seq<Change>) {
    && (forall i | 0 <= i < |renamed| :: renamed[i].Insert? && renamed[i].token !in initial)
    && (forall i, j | 0 <= i < j < |renamed| :: renamed[i] != renamed[j])
  }

  predicate AllStored(contents: Contents, renamed: seq<Change>) {
    forall i | 0 <= i < |renamed| && renamed[i].Insert? :: renamed[i].token in contents
  }

  /** The tokens come from the initial file or from renames. */
  predicate Known(initial: Contents, renamed: seq<Change>, tokens: Contents) {
    forall token | token in tokens :: token in initial || Insert(token) in renamed
  }

  /** What a process knows; when it was disturbed, it does not know the latest token. */
  predicate Knowledge(initial: Contents, steps: seq<Step>, s: State) {
    && Known(initial, s.renamed, s.file)
    && (forall p | 0 <= p < |s.processes| && s.processes[p].Loaded? ::
          && Known(initial, s.renamed, s.processes[p].tokens)
          && (!NoRenameSinceLoad(steps, p) ==>
                && s.renamed != []
                && s.renamed[|s.renamed| - 1].Insert?
                && s.renamed[|s.renamed| - 1].token !in s.processes[p].tokens))
  }

  lemma {:induction false} KnowledgeStays(s: State, steps: seq<Step>, t: State)
    requires Initial(s) && Run(s, steps, t) && NewTokens(s.file, t.renamed)
    ensures Knowledge(s.file, steps, t)
  {
    if steps == [] {
    } else {
      var before := steps[..|steps| - 1];
      var m := After(s, before).value;
      RenamedBefore(m, steps[|steps| - 1], s.file);
      KnowledgeStays(s, before, m);
      StepKeepsKnowledge(s.file, before, m, steps[|steps| - 1]);
      assert before + [steps[|steps| - 1]] == steps;
    }
  }

  lemma RenamedBefore(s: State, step: Step, initial: Contents)
    requires Enabled(s, step) && NewTokens(initial, Next(s, step).renamed)
    ensures NewTokens(initial, s.renamed)
  {
    assert forall i | 0 <= i < |s.renamed| :: Next(s, step).renamed[i] == s.renamed[i];
  }

  lemma StepKeepsKnowledge(initial: Contents, before: seq<Step>, s: State, step: Step)
    requires Knowledge(initial, before, s) && Enabled(s, step) && NewTokens(initial, Next(s, step).renamed)
    ensures Knowledge(initial, before + [step], Next(s, step))
  {
    var t := Next(s, step);
    assert (before + [step])[..|before|] == before;
    if step.Rename? {
      var n := |s.renamed|;
      assert t.renamed == s.renamed + [t.renamed[n]];
      forall token | token in initial || Insert(token) in s.renamed
        ensures token != t.renamed[n].token
      {
        if Insert(token) in s.renamed {
          var i :| 0 <= i < n && s.renamed[i] == Insert(token);
          assert t.renamed[i] != t.renamed[n];
        }
      }
      forall p | 0 <= p < |t.processes| && t.processes[p].Loaded?
        ensures Known(initial, t.renamed, t.processes[p].tokens)
        ensures t.renamed[n].token !in t.processes[p].tokens
      {
        assert p != step.p && Known(initial, s.renamed, s.processes[p].tokens);
      }
    }
  }

  /** When new tokens are stored and nothing is dropped, all of them are in the file in
      the end if and only if no rename was disturbed. */
  lemma {:induction false} AllStoredExactly(s: State, steps: seq<Step>, t: State)
    requires Initial(s) && Run(s, steps, t) && NewTokens(s.file, t.renamed)
    ensures AllStored(t.file, t.renamed) <==> Undisturbed(steps)
  {
    if steps == [] {
    } else {
      var before := steps[..|steps| - 1];
      var last := steps[|steps| - 1];
      var m := After(s, before).value;
      RenamedBefore(m, last, s.file);
      AllStoredExactly(s, before, m);
      if last.Rename? {
        LoadedStaysFile(s, before, m);
        KnowledgeStays(s, before, m);
        RenameStores(s.file, before, m, last.p);
      }
    }
  }

  lemma RenameStores(initial: Contents, before: seq<Step>, s: State, p: nat)
    requires Enabled(s, Rename(p)) && NewTokens(initial, Next(s, Rename(p)).renamed)
    requires LoadedIsFile(before, s) && Knowledge(initial, before, s)
    ensures var t := Next(s, Rename(p));
            AllStored(t.file, t.renamed) <==> AllStored(s.file, s.renamed) && NoRenameSinceLoad(before, p)
  {
    var t := Next(s, Rename(p));
    var n := |s.renamed|;
    assert t.renamed == s.renamed + [s.processes[p].change];
    assert forall i | 0 <= i < n :: t.renamed[i] == s.renamed[i] && t.renamed[i] != t.renamed[n];
    if NoRenameSinceLoad(before, p) {
      assert forall i | 0 <= i < n :: s.renamed[i].token in t.file <==> s.renamed[i].token in s.file;
      assert AllStored(s.file, s.renamed) ==> AllStored(t.file, t.renamed);
    } else {
      assert t.renamed[n - 1].token !in t.file;
    }
  }

  // What stays.

  /** A stored token stays until a change drops it. */
  lemma StoredTokenStays(s: State, steps: seq<Step>, t: State, token: string, k: nat)
    requires Initial(s) && Run(s, steps, t) && Undisturbed(steps)
    requires k < |t.renamed| && t.renamed[k] == Insert(token) && NotDropped(token, t.renamed, k)
    ensures token in t.file
    ensures NoDuplicates(s.file) ==> NoDuplicates(t.file)
  {
    NothingIsLost(s, steps, t);
    StoredExactly(s.file, t.renamed, token);
    if NoDuplicates(s.file) {
      ChangesKeepUnique(s.file, t.renamed);
    }
  }

  /** A failing example is not lost before its property is fixed: when each drop comes
      from a run of the engine on some body, a stored token is only missing after one
      that had loaded it and in which no replay of a loaded token failed. */
  lemma FailingExampleStays(s: State, steps: seq<Step>, t: State, token: string, k: nat, bodies: seq<Trial>)
    requires Initial(s) && Run(s, steps, t) && Undisturbed(steps)
    requires |bodies| == |t.renamed|
    requires forall i | 0 <= i < |t.renamed| && t.renamed[i].Drop? :: NoneFails(bodies[i], t.renamed[i].tokens)
    requires k < |t.renamed| && t.renamed[k] == Insert(token)
    ensures token in t.file || exists i | k < i < |t.renamed| :: DroppedAsPassing(t.renamed[i], token, bodies[i])
  {
    if NotDropped(token, t.renamed, k) {
      StoredTokenStays(s, steps, t, token, k);
    } else {
      var i :| k <= i < |t.renamed| && t.renamed[i].Drop? && token in t.renamed[i].tokens;
      assert DroppedAsPassing(t.renamed[i], token, bodies[i]);
    }
  }

  /** The change drops the token and all others a run on this body had loaded; the
      replay of each in that run did not fail. */
  ghost predicate DroppedAsPassing(change: Change, token: string, body: Trial) {
    change.Drop? && token in change.tokens && NoneFails(body, change.tokens)
  }

  lemma RunSnoc(s: State, steps: seq<Step>, t: State, step: Step)
    requires Run(s, steps, t) && Enabled(t, step)
    ensures Run(s, steps + [step], Next(t, step))
  {
    assert (steps + [step])[..|steps|] == steps;
  }

  /** An update that is not disturbed applies its change to the file, and leaves no
      lock. */
  lemma UpdateApplies(s: State, p: nat, change: Change)
    requires p < |s.processes| && s.processes[p].Idle? && s.lock == None
    ensures Run(s, [Acquire(p, change), Load(p), Rename(p), Release(p)],
                s.(file := Apply(change, s.file), renamed := s.renamed + [change]))
  {
    hide After, Apply;
    var t1 := s.(lock := Some(p), processes := s.processes[p := Entered(change, true)]);
    var t2 := t1.(processes := t1.processes[p := Loaded(change, true, s.file)]);
    var t3 := t2.(file := Apply(change, s.file), processes := t2.processes[p := Leaving(true)],
                  renamed := s.renamed + [change]);
    var t4 := t3.(lock := None, processes := t3.processes[p := Idle]);
    RunNothing(s);
    RunThen(s, [], s, Acquire(p, change), t1);
    RunThen(s, [] + [Acquire(p, change)], t1, Load(p), t2);
    RunThen(s, [] + [Acquire(p, change)] + [Load(p)], t2, Rename(p), t3);
    RunThen(s, [] + [Acquire(p, change)] + [Load(p)] + [Rename(p)], t3, Release(p), t4);
    assert [] + [Acquire(p, change)] + [Load(p)] + [Rename(p)] + [Release(p)]
        == [Acquire(p, change), Load(p), Rename(p), Release(p)];
    assert t4.processes == s.processes;
  }

  lemma RunNothing(s: State)
    ensures Run(s, [], s)
  {}

  lemma RunThen(s: State, steps: seq<Step>, t: State, step: Step, u: State)
    requires Run(s, steps, t) && Enabled(t, step) && Next(t, step) == u
    ensures Run(s, steps + [step], u)
  {
    hide After, Apply;
    RunSnoc(s, steps, t, step);
  }

  /** Process 0 has loaded the empty file, to insert `b`; now process 1 loads it
      too, to insert `a`, and both rename. */
  lemma InterleavedInsertsLose(s: State, steps: seq<Step>, t: State, a: string, b: string)
    returns (steps': seq<Step>, t': State)
    requires a != b && Run(s, steps, t) && t.file == [] && t.renamed == []
    requires |t.processes| == 2 && t.processes[0] == Loaded(Insert(b), true, [])
    requires t.processes[1].Entered? && t.processes[1].change == Insert(a)
    ensures Run(s, steps', t') && steps' == steps + [Load(1), Rename(1), Rename(0)]
    ensures t'.renamed == [Insert(a), Insert(b)] && t'.file == [b]
  {
    RunSnoc(s, steps, t, Load(1));
    var t1 := Next(t, Load(1));
    RunSnoc(s, steps + [Load(1)], t1, Rename(1));
    var t2 := Next(t1, Rename(1));
    RunSnoc(s, steps + [Load(1)] + [Rename(1)], t2, Rename(0));
    t' := Next(t2, Rename(0));
    steps' := steps + [Load(1)] + [Rename(1)] + [Rename(0)];
    assert steps' == steps + [Load(1), Rename(1), Rename(0)];
  }

  lemma FirstLoads(b: string) returns (s: State, steps: seq<Step>, t: State)
    ensures Initial(s) && Run(s, steps, t) && steps == [Acquire(0, Insert(b)), Load(0)]
    ensures t == State([], Some(0), [Loaded(Insert(b), true, []), Idle], [], [])
  {
    s := State([], None, [Idle, Idle], [], []);
    RunSnoc(s, [], s, Acquire(0, Insert(b)));
    var t1 := Next(s, Acquire(0, Insert(b)));
    RunSnoc(s, [] + [Acquire(0, Insert(b))], t1, Load(0));
    t := Next(t1, Load(0));
    steps := [] + [Acquire(0, Insert(b))] + [Load(0)];
  }

  /** Waiting for the lock ends after two seconds and the update goes on without
      it. Then a stored token can be lost although nothing drops it. */
  lemma WithoutLockATokenIsLost(a: string, b: string) returns (s: State, steps: seq<Step>, t: State)
    requires a != b
    ensures Initial(s) && Run(s, steps, t) && forall step | step in steps :: !step.BreakStale? && !step.Crash?
    ensures t.renamed == [Insert(a), Insert(b)] && a !in t.file
  {
    s, steps, t := FirstLoads(b);
    RunSnoc(s, steps, t, StopWaiting(1, Insert(a)));
    t := Next(t, StopWaiting(1, Insert(a)));
    steps, t := InterleavedInsertsLose(s, steps + [StopWaiting(1, Insert(a))], t, a, b);
  }

  /** A lock older than ten seconds is broken although its owner may be at work;
      that loses a token too. */
  lemma WithBrokenLockATokenIsLost(a: string, b: string) returns (s: State, steps: seq<Step>, t: State)
    requires a != b
    ensures Initial(s) && Run(s, steps, t) && forall step | step in steps :: !step.StopWaiting? && !step.Crash?
    ensures t.renamed == [Insert(a), Insert(b)] && a !in t.file
  {
    s, steps, t := FirstLoads(b);
    RunSnoc(s, steps, t, BreakStale);
    t := Next(t, BreakStale);
    steps := steps + [BreakStale];
    RunSnoc(s, steps, t, Acquire(1, Insert(a)));
    t := Next(t, Acquire(1, Insert(a)));
    steps, t := InterleavedInsertsLose(s, steps + [Acquire(1, Insert(a))], t, a, b);
  }
}

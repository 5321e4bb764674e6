# Progmasoft Catch3: verified models

Dafny models of six parts of Progmasoft Catch3, each with proofs of what the part is
for. `dafny verify dfyconfig.toml` checks everything.

**Shrinking and replay tokens.** `Shrinker` is the shrinker as a class, with the same
passes and loops. `Shortlex` gives the order it descends in (an isomorphism with the
natural numbers), `ShrinkEdits` the edits, and `ReplayToken` the printer and parser of
tokens. The oracle is any function of the number of the call and the candidate, so it
may answer the same candidate differently each time. Only minimality assumes that it
does not.

**The property engine.** `Trials` has the choice source and trials: a trial is any
function from the run, the size and the choices drawn so far to the next request or a
verdict. That a recorded run replays is proved from this, not assumed. `PropertyEngine`
is the engine as a class. `ExampleDatabase` is the file of stored examples as a state
machine over the steps of many processes: waiting for the lock, giving up on it,
breaking it when stale, loading, renaming, releasing, crashing.

**Random integers.** `ExtendedMult`, `BitGenerator` and `Distribution` follow the
sampler; `Counting` and `WordCounts` count the words behind each result.
`Permutation` is the permutation test, and `GeneratorLists` and `GeneratorAdapters`
are the pull-style generators as classes on fixed values, each against the list it
stands for. `GeneratorStacks` has adapters on adapters, as values.

**Mocks.** `Mocks` is a class with the decision, `Enter` and the verification as
methods, each proved to perform one step of `MockModel`. `MockRuns` and `MockHistory`
prove what holds in every reachable state and over every run of steps, for any number
of mocks and sequences, and `MockMeaning` says it of the fields of expectations.

**XML text.** `Utf8` follows the decoder; its references are the encoding of section 3
and the grammar of section 4 of RFC 3629, written independently of each other.
`XmlText` is the sanitiser.

**Include expansion.** `IncludeGraph` defines reachability by paths and what a correct
output is. `Amalgamation` is the depth-first expansion with its set of visited headers.

## Where the code does less than it promises

* *Narrow integers are not uniform.* `computeRejectionThreshold` negates the distance
  by `~d + 1`. For a type narrower than `int` the operand is promoted first, so the
  remainder is always 0 and no word is rejected. The results of such a type are equally
  likely if and only if the number of results divides the number of words
  (`Distribution.UniformExactly`); otherwise their counts differ by at most one
  (`Distribution.NarrowTypesAreRounded`). Types as wide as `int` are exactly uniform.
* *The limit of discards and the size of a trial wrap.* `Trials * MaxDiscardRatio` is
  what it says if and only if it is below 2^64 (`AllowedDiscardsIsExact`). Sizes never
  fall as long as `attempt * 200` stays below 2^64, and for 2 to 2^64 - 16 trials no
  longer; `SizesGrow` has the exact bound for every number of trials.
* *The documented replay token is refused.* `docs/progmasoft-properties.md` shows a token
  whose size is 120; the decoder accepts sizes up to 100 (`DocumentedTokens`).
* *The example database can lose a token.* The comment of `Update` says that no writer
  loses what another stored. The lock gives up after two seconds, and the update then
  goes on without it; a lock older than ten seconds is removed even if its holder still
  works. `WithoutLockATokenIsLost` and `WithBrokenLockATokenIsLost` are runs that lose
  a token. A run that stores different new tokens keeps all of them if and only if no
  rename falls between the load and the rename of another process
  (`AllStoredExactly`). In every run in which whoever renames owns the lock, no rename
  does (`LockPreventsDisturbance`), and then nothing is lost, whatever the changes are
  (`NothingIsLost`, `FailingExampleStays`).
* *A stored example that passes is not always removed.* `docs/progmasoft-properties.md`
  says that it is. The code removes the loaded examples together: a passing one goes if
  and only if no stored example fails (`PassingIsRemovedExactly`);
  `PassingExampleIsKept` has one that stays.
* *`Repeat` depends on how often it is read.* Every call of `get` in the first round
  adds to what the later rounds give. With distinct elements the list is repeated if
  and only if each was read exactly once or there is one round (`RepeatsExactly`).
* *A jump of `Take` and `Map` counts from the start of the source.* It ends where
  single steps end if and only if the source counts as the adapter does, that is, when
  it was not moved before it was handed over. On stacks of generators this has to hold
  of every take and map down to the first filter, concatenation or list of values
  (`JumpIsStepsExactly`); `TakeOfMovedSource` and `MapOfMovedSource` show the other
  case.

## Model

| member | source | states |
|---|---|---|
| `Shortlex.IsSimplerIsRankOrder` | src/Progmasoft/ChoiceShrinker.cpp:16-26 | `IsSimpler` is the order of natural numbers under an injective ranking of choice sequences: a strict total, well-founded order |
| `Shortlex.EveryRankIsTaken` | src/Progmasoft/ChoiceShrinker.cpp:16-26 | the ranking is onto, so the order type is exactly that of the natural numbers and every descent ends |
| `Shortlex.IsSimplerMeans` | src/Progmasoft/ChoiceShrinker.cpp:16-26 | simpler is shorter, or as long and smaller at the first difference |
| `ShrinkEdits.DeletionIsSimpler` | src/Progmasoft/ChoiceShrinker.cpp:96-121 | every candidate of the deletion pass is simpler than the current sequence |
| `ShrinkEdits.ZeroingIsSimpler` | src/Progmasoft/ChoiceShrinker.cpp:123-153 | zeroing a block that is not all zero gives a simpler sequence |
| `ShrinkEdits.SwapIsSimpler` | src/Progmasoft/ChoiceShrinker.cpp:232-249 | swapping an inverted pair gives a simpler sequence |
| `ShrinkEdits.MoveIsSimpler` | src/Progmasoft/ChoiceShrinker.cpp:251-279 | moving one unit to a later choice that is not the maximum gives a simpler sequence, in 64-bit arithmetic |
| `Shrinker.Shrinker.Try` | src/Progmasoft/ChoiceShrinker.cpp:77-94 | moves exactly when the budget is left, the candidate is simpler and the answer is simpler; asks at most once; every question is recorded |
| `Shrinker.Shrinker.DeleteBlocks` | src/Progmasoft/ChoiceShrinker.cpp:96-121 | only descends; without progress no deletion of 16, 8, 4, 2 or 1 choices anywhere helps |
| `Shrinker.Shrinker.ZeroBlocks` | src/Progmasoft/ChoiceShrinker.cpp:123-153 | only descends; without progress no zeroing of such a block anywhere helps |
| `Shrinker.Shrinker.Halve` | src/Progmasoft/ChoiceShrinker.cpp:182-200 | one step of the search stays in 64 bits and strictly narrows the bracket for any answers; for answers monotone in the choice the bracket keeps the threshold |
| `Shrinker.Shrinker.Search` | src/Progmasoft/ChoiceShrinker.cpp:176-201 | terminates for any answers and any starting value, the maximum included; finds the exact threshold when there is one |
| `Shrinker.Shrinker.MinimizeChoices` | src/Progmasoft/ChoiceShrinker.cpp:155-218 | only descends; without progress no choice can be lowered to 0 or by 1 to 8 |
| `Shrinker.Shrinker.SortNeighbours` | src/Progmasoft/ChoiceShrinker.cpp:232-249 | only descends; without progress no inverted neighbours can be swapped |
| `Shrinker.Shrinker.MoveBetweenNeighbours` | src/Progmasoft/ChoiceShrinker.cpp:251-279 | only descends; without progress no unit can be moved over up to four places, up to the first maximal choice |
| `Shrinker.Shrinker.Run` | src/Progmasoft/ChoiceShrinker.cpp:50-65 | terminates; with budget left and a deterministic oracle the result is a local minimum of all passes; the order guard never refused a candidate |
| `ShrinkEdits.NoBlockHelps` | src/Progmasoft/ChoiceShrinker.cpp:96-153 | at a local minimum in any three parts, of which the middle has 16, 8, 4, 2 or 1 choices: neither without the middle nor with zeros for it does a replay give anything simpler |
| `ShrinkEdits.NoLowerChoiceHelps` | src/Progmasoft/ChoiceShrinker.cpp:155-218 | nor with any choice lowered to 0 or by 1 to 8 and all others as they are |
| `ShrinkEdits.NoSortedPairHelps` | src/Progmasoft/ChoiceShrinker.cpp:232-249 | nor with two neighbours in the wrong order swapped and all others as they are |
| `ShrinkEdits.NoMovedUnitHelps` | src/Progmasoft/ChoiceShrinker.cpp:251-279 | nor with one unit moved over up to three choices to the next, when none of those is the largest word |
| `Shrinker.ShrinkChoices` | src/Progmasoft/ChoiceShrinker.cpp:289-299 | the result is the input or a simpler sequence the oracle returned to a recorded question; questions equal `calls` and never exceed the budget; local minimum below the budget |
| `Shrinker.MonotoneChoiceIsMinimal` | src/Progmasoft/ChoiceShrinker.cpp:155-218 | at a local minimum, a choice whose failures are upward closed has no failing smaller value at all |
| `ReplayToken.EncodeChoices` | src/Progmasoft/ChoiceShrinker.cpp:301-327 | the printing loop gives the token that the size and the choices spell |
| `ReplayToken.DecodeChoices` | src/Progmasoft/ChoiceShrinker.cpp:329-382 | the parsing loop is the decoder that the following rows are about, refusals included |
| `ReplayToken.DecodeAccepts` | src/Progmasoft/ChoiceShrinker.cpp:329-382 | a token is accepted if and only if it is the prefix, a numeral of a size up to 100, and numerals joined by dashes, and these numerals are what it decodes to |
| `ReplayToken.RoundTrip` | src/Progmasoft/ChoiceShrinker.cpp:301-382 | decoding what was encoded gives back size and choices for every size up to 100 and every list, and is refused for any larger size |
| `ReplayToken.TokensAreFaithful` | src/Progmasoft/ChoiceShrinker.cpp:301-382 | tokens identify what they encode; re-encoding an accepted token keeps what it decodes to |
| `ReplayToken.BufferSuffices` | src/Progmasoft/ChoiceShrinker.cpp:308-315 | no 64-bit number needs more than 13 digits in base 36, so the fixed buffer is never too short |
| `ReplayToken.DigitsAre` | src/Progmasoft/ChoiceShrinker.cpp:309-315 | the digits are 0 to 9 and a to z in this order, read in either case, and there are no others |
| `ReplayToken.NumberOfFirst` | src/Progmasoft/ChoiceShrinker.cpp:337-347 | the first digit of a numeral counts most |
| `ReplayToken.DocumentedTokens` | docs/progmasoft-properties.md:124 | the documented kind of token encodes and decodes as documented; the very token that is shown has a size above the limit and is refused |
| `Trials.ChoiceSource.Next` | src/Progmasoft/Catch3/Strategy/ChoiceSource.hpp:48-113 | every draw is within its maximum and recorded; in a replay it is the recorded choice, the maximum where that is larger, or 0 past the end; in generation it is the random number the request asks for |
| `Trials.ChoiceSource.DrawBiased` | src/Progmasoft/Catch3/Strategy/ChoiceSource.hpp:66-99 | the biased draw stays within its maximum; one roll in 32 gives 0, one the maximum, two at most 1, and 24 at most the limit that grows with the size; where the limit plus one wraps to 0 any word is asked for, which is right then |
| `Trials.Execute` | src/Progmasoft/PropertyEngine.cpp:221-235 | the recorded choices are a recording of the trial, the outcome is that of the recording, and a replay records what playing the given choices gives |
| `Trials.PlayRecords` | src/Progmasoft/Catch3/Strategy/ChoiceSource.hpp:148-180 | replaying any choices, too many, too few or too large ones, records a run of the trial |
| `Trials.PlayReadsBack` | src/Progmasoft/Catch3/Strategy/ChoiceSource.hpp:148-160 | every choice of a whole replay is the recorded one, the maximum where that is larger, or 0 where none is recorded |
| `Trials.AnyValueIsDrawn` | src/Progmasoft/Catch3/Strategy/ChoiceSource.hpp:48-113 | generation can give every value in range, for every kind of request |
| `Trials.ReplayIsFaithful` | src/Progmasoft/Catch3/Strategy/ChoiceSource.hpp:24-28 | replaying what was recorded draws and records the same choices and gives the same outcome, in any later run of a repeatable trial |
| `PropertyEngine.RecordedFailureReproduces` | src/Progmasoft/PropertyEngine.cpp:246-274 | a token made of recorded failing choices and a size up to 100 decodes, fails again and gives the same token again |
| `PropertyEngine.ShrunkFailsAgain` | src/Progmasoft/PropertyEngine.cpp:477-505 | what the shrinker returns fails in every later run and records exactly itself |
| `PropertyEngine.ShrunkReports` | src/Progmasoft/PropertyEngine.cpp:477-538 | a report's token reproduces the failure, its choices are the original ones or simpler, and it is locally minimal below `MaxShrinkSteps` |
| `PropertyEngine.ReportMeans` | src/Progmasoft/PropertyEngine.cpp:477-538 | what the token of a report decodes to fails in every run and is what it draws then; it is what the failing execution drew or simpler, and a local minimum below `MaxShrinkSteps` |
| `PropertyEngine.RepeatableOracleIsDeterministic` | src/Progmasoft/PropertyEngine.cpp:483-497 | replays of a repeatable trial are the deterministic oracle that minimality asks for |
| `PropertyEngine.Engine.ShrinkAndReport` | src/Progmasoft/PropertyEngine.cpp:477-505 | reports a replay of the shrunk choices, or of the original ones when that does not fail, flaky bodies included, with the trial's number and seed and at most `MaxShrinkSteps` replays; for repeatable trials the report is faithful in the sense of `ShrunkReports` |
| `PropertyEngine.Engine.RunReplay` | src/Progmasoft/PropertyEngine.cpp:246-274 | refuses exactly the tokens that do not decode; fails exactly when the replay fails, with the token of what was replayed; errors exactly when the replay does; stores exactly that token |
| `PropertyEngine.Engine.Attempt` | src/Progmasoft/PropertyEngine.cpp:328-336 | a regular trial has the size and the seed of its number, and draws from the random numbers of that seed |
| `PropertyEngine.Engine.ReplayDatabase` | src/Progmasoft/PropertyEngine.cpp:276-318 | ends the run if and only if the replay of some loaded example fails, in the very execution it gets; otherwise drops exactly the loaded examples; a failure is shrunk, reported and stored |
| `PropertyEngine.NoneFailsRepeatably` | src/Progmasoft/PropertyEngine.cpp:279-300 | for a repeatable trial neither the order of the stored examples nor the number of the execution matters |
| `PropertyEngine.Engine.RunTrials` | src/Progmasoft/PropertyEngine.cpp:320-376 | at least one execution, and at most Trials plus the allowed discards; each is the regular trial of its number; the run fails or errors exactly when the last one does, and no other does; falling through means exactly Trials valid ones |
| `PropertyEngine.Engine.Judge` | src/Progmasoft/PropertyEngine.cpp:336-373 | one attempt: it fails the run exactly when it failed, with its number and seed, ends it as errored exactly when it errored, and gives up exactly when discards first exceed the limit; the rest are counted |
| `PropertyEngine.Engine.Count` | src/Progmasoft/PropertyEngine.cpp:394-402 | best scores never fall and are at least every new score; each is what it was, or a strictly higher score of this execution with its choices |
| `PropertyEngine.Engine.SearchTargets` | src/Progmasoft/PropertyEngine.cpp:405-475 | at most `TargetSteps` executions, all at size 100, and exactly that many when every target has an input to change and nothing fails; it ends the run exactly when an execution fails; best scores only rise and stay witnessed |
| `PropertyEngine.Engine.SearchStep` | src/Progmasoft/PropertyEngine.cpp:420-472 | one step replays the best input of its target with one change at the place and of the kind the random numbers choose, and touches no other target |
| `PropertyEngine.InTurnIsFair` | src/Progmasoft/PropertyEngine.cpp:421-423 | the targets take turns, one after the other, round after round |
| `PropertyEngine.Engine.Mutate` | src/Progmasoft/PropertyEngine.cpp:430-452 | the random numbers choose the place and the kind of change; all other choices stay, and the new value is that of the kind, wrapped where a word is too small |
| `PropertyEngine.Engine.Run` | src/Progmasoft/PropertyEngine.cpp:188-212 | the run fails if and only if an execution failed, the last one, and then comes with its report; when the configuration is refused; that loaded examples are dropped if and only if they are replayed and none fails |
| `PropertyEngine.RunPropertyEngine` | src/Progmasoft/PropertyEngine.cpp:593-598 | the run fails if and only if one of its executions did, whether a stored example, a trial or a search step; then its token is stored, and reproduces the failure of a repeatable trial; what is told to the database is stated exactly, for flaky trials too |
| `PropertyEngine.AlwaysFails` | src/Progmasoft/PropertyEngine.cpp:593-598 | a trial that fails whenever it runs makes every run fail, with a report |
| `PropertyEngine.ReplayReported` | src/Progmasoft/PropertyEngine.cpp:188-212 | running the engine again with the reported token fails again with the same token, whatever the other options, seeds, random numbers and stored examples are then |
| `PropertyEngine.TallyNext` | src/Progmasoft/PropertyEngine.cpp:320-376 | the counters stay the counts of the verdicts of the executions, whatever the verdict |
| `PropertyEngine.AllowedDiscardsIsExact` | src/Progmasoft/PropertyEngine.cpp:323-324 | the limit of discards is Trials times the ratio if and only if that is below 2^64; otherwise it is lower |
| `PropertyEngine.AllowedDiscardsCanWrap` | src/Progmasoft/PropertyEngine.cpp:323-324 | options with which no discard is allowed although the documented limit is 2^64 |
| `PropertyEngine.SizesGrow` | src/Progmasoft/PropertyEngine.cpp:330-333 | for every number of trials, the exact trial up to which sizes never fall; where the product does not wrap they never do |
| `PropertyEngine.SizeMeans` | src/Progmasoft/PropertyEngine.cpp:330-333 | without wrapping, sizes grow evenly over the first half of the trials and are at the maximum in the second half |
| `ExampleDatabase.ReadLines` | src/Progmasoft/PropertyEngine.cpp:60-82 | the reading loop gives the lines that are not empty, without a carriage return at their end |
| `ExampleDatabase.LineIsRead` | src/Progmasoft/PropertyEngine.cpp:70-80 | a line gives what is before its newline, or its carriage return and newline; an empty one gives nothing |
| `ExampleDatabase.ReturnIsTakenOff` | src/Progmasoft/PropertyEngine.cpp:72-75 | one carriage return is taken off, and nothing else |
| `ExampleDatabase.LastLineIsRead` | src/Progmasoft/PropertyEngine.cpp:70-80 | the last line needs no newline |
| `ExampleDatabase.TextReadsBack` | src/Progmasoft/PropertyEngine.cpp:60-117 | what is written is read back, for all lists of tokens that a line can hold |
| `ExampleDatabase.OnlyStorableReadsBack` | src/Progmasoft/PropertyEngine.cpp:60-117 | and for no other token: not empty, no newline, no carriage return at the end |
| `ExampleDatabase.ReportedTokenIsStorable` | src/Progmasoft/PropertyEngine.cpp:521-530 | every token the engine stores is one of those |
| `ExampleDatabase.Edit` | src/Progmasoft/PropertyEngine.cpp:304-315 | the edits of the stored list are the two changes that the following rows are about |
| `ExampleDatabase.InsertedFirst` | src/Progmasoft/PropertyEngine.cpp:524-530 | a new token goes first and the others stay in order; a known one changes nothing |
| `ExampleDatabase.DroppedInParts` | src/Progmasoft/PropertyEngine.cpp:304-315 | what is not dropped stays, in its order |
| `ExampleDatabase.StoredExactly` | src/Progmasoft/PropertyEngine.cpp:304-315 | after any changes a token is stored if and only if it was there or was inserted, and was not dropped afterwards |
| `ExampleDatabase.ChangesKeepUnique` | src/Progmasoft/PropertyEngine.cpp:524-530 | a list without duplicates stays one under any changes |
| `ExampleDatabase.NothingIsLost` | src/Progmasoft/PropertyEngine.cpp:84-132 | over every interleaving of any number of processes in which no rename falls between the load and the rename of another, whoever has the lock, the file is the initial list with all renamed changes applied in order, and every reader saw the list after some of them |
| `ExampleDatabase.LockPreventsDisturbance` | src/Progmasoft/PropertyEngine.cpp:99-127 | when whoever renames owns the lock at that moment, no rename is disturbed, also when processes give up waiting, crash or have their lock broken |
| `ExampleDatabase.AllStoredExactly` | src/Progmasoft/Runner/Files.cpp:60-97 | over every run that stores different new tokens, all of them are in the file in the end if and only if no rename was disturbed |
| `ExampleDatabase.UpdateApplies` | src/Progmasoft/PropertyEngine.cpp:91-132 | an update that is not disturbed applies its change to the file and leaves no lock |
| `ExampleDatabase.StoredTokenStays` | src/Progmasoft/PropertyEngine.cpp:84-132 | over undisturbed runs a stored token is in the file unless a later change dropped it, and duplicates never arise |
| `ExampleDatabase.FailingExampleStays` | src/Progmasoft/PropertyEngine.cpp:278-318 | over undisturbed runs a stored token is only missing after a change that dropped it, made by a run that had loaded it and in which the replay of each loaded token did not fail |
| `ExampleDatabase.PassingIsRemovedExactly` | src/Progmasoft/PropertyEngine.cpp:276-318 | a stored example that passes is removed by a run of the engine if and only if no stored example fails |
| `ExampleDatabase.PassingExampleIsKept` | src/Progmasoft/PropertyEngine.cpp:289-299 | a trial with a passing and a failing stored example: the passing one is kept |
| `ExampleDatabase.WithoutLockATokenIsLost` | src/Progmasoft/Runner/Files.cpp:82-85 | a run in which a process gave up waiting for the lock loses a stored token |
| `ExampleDatabase.WithBrokenLockATokenIsLost` | src/Progmasoft/Runner/Files.cpp:75-81 | a run in which a stale lock of a working process was removed loses a stored token |
| `ExtendedMult.ExtendedMultPortable` | extras/catch_amalgamated.hpp:4624-4645 | upper times 2^64 plus lower is the product, and no intermediate sum or product leaves 64 bits |
| `BitGenerator.Generator.FillBits` | extras/catch_amalgamated.hpp:4680-4721 | of a wider word its top bits, by bounds on the word; of narrow ones their sum, each in its own bits and the first on top, from exactly as many as fill the target |
| `BitGenerator.JoinedIsInjective` | extras/catch_amalgamated.hpp:4699-4721 | different words put together give different values |
| `BitGenerator.JoinedIsOnto` | extras/catch_amalgamated.hpp:4699-4721 | and every value is reached, so equally likely words give equally likely values |
| `BitGenerator.TopBitsShare` | extras/catch_amalgamated.hpp:4680-4697 | each quotient by a power is that of exactly the same number of words |
| `BitGenerator.WideShare` | extras/catch_amalgamated.hpp:4680-4697 | each value is filled in from exactly the same number of words of a wider generator |
| `BitGenerator.NarrowShare` | extras/catch_amalgamated.hpp:4699-4721 | and from exactly one sequence of words of a narrower one |
| `Distribution.FlipTopIsXor` | extras/catch_amalgamated.hpp:4731-4746 | the exclusive or with the top bit is an addition of it modulo the type, for all four widths |
| `Distribution.TransposeIsABijection` | extras/catch_amalgamated.hpp:4816-4823 | the transposition and its reverse are inverses between the type and its words |
| `Distribution.DistanceCounts` | extras/catch_amalgamated.hpp:4803-4807 | the distance is the number of results, or 0 exactly when that is the whole type |
| `Distribution.ThresholdIs` | extras/catch_amalgamated.hpp:4809-4814 | the threshold is the number of words modulo the distance for types as wide as `int`, and 0 for narrower ones |
| `Distribution.ResultCounts` | extras/catch_amalgamated.hpp:4836-4852 | every word gives a result from a to b, and nothing wraps on the way |
| `WordCounts.ExactShare` | extras/catch_amalgamated.hpp:4836-4852 | with that threshold each of the d results has exactly floor(2^w / d) accepted words |
| `WordCounts.RejectedSize` | extras/catch_amalgamated.hpp:4845-4849 | exactly 2^w mod d words are rejected, fewer than half |
| `WordCounts.FairWithoutRejection` | extras/catch_amalgamated.hpp:4809-4814 | without a threshold the shares are equal if and only if d divides 2^w |
| `Distribution.WideTypesAreExact` | extras/catch_amalgamated.hpp:4803-4852 | exact shares and rejections of the code as it computes them, for types as wide as `int`; one word for each result of the whole type |
| `Distribution.NarrowTypesAreRounded` | extras/catch_amalgamated.hpp:4803-4852 | narrower types reject nothing, and shares differ by at most one |
| `Distribution.UniformExactly` | extras/catch_amalgamated.hpp:4803-4852 | results are equally likely if and only if the type is as wide as `int` or the number of results divides the number of words |
| `Distribution.UniformIntegerDistribution.Draw` | extras/catch_amalgamated.hpp:4835-4852 | the result is within the bounds and that of the first accepted word; all words before it were rejected, and none is drawn after it |
| `Distribution.PortableHalves` | extras/catch_amalgamated.hpp:4650-4661 | the portable product has the halves that the counting is about |
| `Permutation.FindSentinel` | extras/catch_amalgamated.hpp:6884-6898 | the first position whose element compares equal |
| `Permutation.CountSentinel` | extras/catch_amalgamated.hpp:6900-6915 | the number of elements that compare equal |
| `Permutation.CheckElementCounts` | extras/catch_amalgamated.hpp:6936-6968 | true if and only if all classes have equal counts, although only first occurrences are checked and the first range is counted from there |
| `Permutation.CountsOfElementsSuffice` | extras/catch_amalgamated.hpp:6943-6966 | for equal lengths, equal counts of the elements of one range give equal counts of everything |
| `Permutation.CommonPrefix` | extras/catch_amalgamated.hpp:6980-6994 | skipping a common prefix changes nothing |
| `Permutation.IsPermutation` | extras/catch_amalgamated.hpp:6970-7003 | for any equivalence, true if and only if every class is as large in one range as in the other |
| `Permutation.SameCountsIsPermutation` | extras/catch_amalgamated.hpp:6970-7003 | for equality that means equal multisets |
| `GeneratorAdapters.Source.SkipToNthElement` | extras/catch_amalgamated.hpp:3999-4005 | a jump reaches what single steps reach, and fails exactly backwards or past the end, in place |
| `GeneratorAdapters.Take.constructor` | extras/catch_amalgamated.hpp:4187-4192 | stands for the prefix of its source, all of it when that is shorter |
| `GeneratorAdapters.Take.Next` | extras/catch_amalgamated.hpp:4196-4210 | one step along that prefix, false exactly at its end |
| `GeneratorAdapters.Take.SkipToNthElement` | extras/catch_amalgamated.hpp:4176-4184 | which error, or where it ends, from any source: where single steps end if and only if the source counts as the adapter does, as it does when it was not moved before it was handed over; then it also fails exactly where they end too early |
| `GeneratorAdapters.TakeOfMovedSource` | extras/catch_amalgamated.hpp:4176-4184 | from a moved source a jump and a step to the same index give different elements |
| `GeneratorAdapters.MapOfMovedSource` | extras/catch_amalgamated.hpp:4332-4335 | the same for a map |
| `GeneratorAdapters.Filter.Create` | extras/catch_amalgamated.hpp:4227-4239 | stands for the filtered source; an error exactly when that is empty |
| `GeneratorAdapters.Filter.Next` | extras/catch_amalgamated.hpp:4245-4252 | one step along the filtered list, false exactly at its end |
| `GeneratorAdapters.Filter.SkipToNthElement` | extras/catch_amalgamated.cpp:3379-3402 | the default jump by single steps: where it ends, and when it fails |
| `GeneratorAdapters.Map.Get` | extras/catch_amalgamated.hpp:4344-4347 | the cached value is always the function of the current element |
| `GeneratorAdapters.Map.Next` | extras/catch_amalgamated.hpp:4348-4351 | one step along the mapped list, with the cache dropped |
| `GeneratorAdapters.Map.SkipToNthElement` | extras/catch_amalgamated.hpp:4332-4335 | the same for a map, with the cache dropped |
| `GeneratorAdapters.Chunk.Create` | extras/catch_amalgamated.hpp:4376-4389 | stands for the full chunks; an error exactly when there is none; chunks of size zero need nothing of the source |
| `GeneratorAdapters.Chunk.Next` | extras/catch_amalgamated.hpp:4393-4402 | one step along the full chunks; an incomplete one is never given; empty chunks of size zero never end |
| `GeneratorAdapters.Concat.Next` | extras/catch_amalgamated.hpp:4438-4445 | one step along the concatenation of any number of generators |
| `GeneratorAdapters.Repeat.Get` | extras/catch_amalgamated.hpp:4284-4290 | the current element; in the first round each call adds to what the later rounds give |
| `GeneratorAdapters.Repeat.Next` | extras/catch_amalgamated.hpp:4292-4315 | one step along the repeated list, except that the end of the first round goes on with what was read; the list stays right if and only if that is the source or there is one round; when nothing was read it never ends |
| `GeneratorLists.RepeatsExactly` | extras/catch_amalgamated.hpp:4284-4315 | with distinct elements the rounds are the list repeated if and only if each element was read once or there is one round |
| `GeneratorLists.SpreadTwice` | extras/catch_amalgamated.hpp:4284-4290 | an element read twice in the first round is given twice in every later one |
| `GeneratorLists.FilteredKeepsAll` | extras/catch_amalgamated.hpp:4245-4252 | filtering keeps every occurrence of what passes and nothing else |
| `GeneratorLists.ChunksAre` | extras/catch_amalgamated.hpp:4376-4402 | chunks all have the size and join to the longest prefix that fills them |
| `GeneratorLists.RepeatedAt` | extras/catch_amalgamated.hpp:4302-4315 | every round gives every element at its place |
| `GeneratorStacks.Advance` | extras/catch_amalgamated.hpp:4196-4445 | for any stack of take, filter, map and concatenation on fixed values, `next` is one step along the list of the stack, false exactly at its end |
| `GeneratorStacks.DrainedIsLeft` | extras/catch_amalgamated.hpp:4170-4461 | reading any stack to its end gives exactly its list |
| `GeneratorStacks.OfFilter` | extras/catch_amalgamated.hpp:4227-4239 | a filter on any stack stands for the filtered list of the stack; an error exactly when that is empty |
| `GeneratorStacks.OfTake` | extras/catch_amalgamated.hpp:4187-4192 | the same for a prefix; it is aligned if and only if the stack is and was not moved before |
| `GeneratorStacks.OfMap` | extras/catch_amalgamated.hpp:4339-4342 | the same for a map |
| `GeneratorStacks.JumpIsStepsExactly` | extras/catch_amalgamated.hpp:4176-4335 | on any stack, a jump that has somewhere to go ends in the very state where single steps end if and only if the stack is aligned |
| `GeneratorStacks.JumpFailsExactly` | extras/catch_amalgamated.cpp:3379-3402 | on an aligned stack a jump fails exactly where single steps end too early; where it leaves the generator then |
| `GeneratorStacks.AlignedStays` | extras/catch_amalgamated.cpp:3370-3377 | stepping keeps a stack aligned |
| `Mocks.Mocks.Enter` | src/Progmasoft/Mock.cpp:59-90 | the loop retires exactly the live steps before the entered one, reports those left undone in order, and changes nothing when the step is not there |
| `MockMeaning.EnteredMeans` | src/Progmasoft/Mock.cpp:59-90 | goes to the first place of the step from the current one on, or nowhere; exactly the live steps moved over are retired, and nothing else changes |
| `Mocks.Mocks.CallMock` | extras/catch_amalgamated.hpp:12471-12509 | the loop takes the first declared accepting and available expectation or names the last accepting one, and keeps the world valid |
| `MockMeaning.RefusedExactly` | extras/catch_amalgamated.hpp:12471-12494 | a call is refused if and only if each expectation does not accept it, is retired, or was called as often as its maximum; then nothing changes |
| `MockMeaning.RefusedNames` | extras/catch_amalgamated.hpp:12471-12494 | a refusal names the last expectation that accepts the call, if one does |
| `MockMeaning.TakenByFirst` | extras/catch_amalgamated.hpp:12471-12489 | a taken call goes to the first expectation for which none of these holds |
| `MockMeaning.TakenCounts` | extras/catch_amalgamated.hpp:12496-12509 | it is counted there and nowhere else, and all sequences of the expectation stand at it then |
| `MockMeaning.TakenReports` | src/Progmasoft/Mock.cpp:73-88 | it reports exactly the positions it moves over whose expectation is alive and has fewer calls than its minimum, once each |
| `Mocks.Mocks.Verify` | extras/catch_amalgamated.hpp:12570-12598 | reports exactly the expectations called too rarely, in order, and holds none any more |
| `MockMeaning.VerifiedMeans` | extras/catch_amalgamated.hpp:12570-12598 | reports exactly the expectations with fewer calls than their minimum; lets go of those of this mock and of no other |
| `Mocks.Mocks.InSequence` | extras/catch_amalgamated.hpp:12157-12164 | joining a sequence at any time puts the step last there and the sequence last in the expectation, and keeps the world valid |
| `Mocks.Mocks.Expect` | extras/catch_amalgamated.hpp:12416-12427 | an expectation is declared behind all others of the mock, alive, with its bounds and no calls, and nothing else changes |
| `MockModel.Retire` | src/Progmasoft/Mock.cpp:73-88 | of all states exactly the live ones among the passed steps change, and only by being retired |
| `MockModel.UndoneBetween` | src/Progmasoft/Mock.cpp:73-88 | exactly the passed positions whose live step had too few calls, once each and in order |
| `MockModel.EnteredKeepsPassed` | src/Progmasoft/Mock.cpp:59-90 | live steps left of the current position are retired, and entering keeps that |
| `MockModel.EnteredFinds` | src/Progmasoft/Mock.cpp:62-74 | a step that is not retired is always found, is not retired by entering, and the sequence stands at it then |
| `MockRuns.EnteredAllFinds` | extras/catch_amalgamated.hpp:12504-12507 | that holds for all sequences of an expectation, also when they share steps or repeat; no position goes backwards |
| `MockRuns.EnterAllReportsPassed` | extras/catch_amalgamated.hpp:12504-12507 | the report over all its sequences is exactly what was passed undone, once each |
| `MockRuns.CalledIsSafe` | extras/catch_amalgamated.hpp:12471-12509 | a call keeps the world valid; a refused one changes nothing; a taken one goes to the first taker, is found in all its sequences and reports exactly what it left undone |
| `MockHistory.EveryRunIsValid` | src/Progmasoft/Mock.cpp:53-90 | over every run of declarations, joins, calls and verifications, live passed steps are retired and calls never exceed the maximum |
| `MockHistory.ReachableIsValid` | src/Progmasoft/Mock.cpp:53-90 | so do all states that can be reached from the beginning |
| `MockMeaning.ReachableMeans` | src/Progmasoft/Mock.cpp:53-90 | in every state that can be reached, live steps left of a position are retired, no expectation was called more often than its maximum, and mocks hold only live ones |
| `MockHistory.RunMovesOn` | src/Progmasoft/Mock.cpp:74-88 | over every run positions never go backwards, sequences only grow, what is retired or gone stays so, counts only grow and bounds stay |
| `MockHistory.ReportedAtMostOnce` | src/Progmasoft/Mock.cpp:81-86 | over every run no position of a sequence is reported twice |
| `MockHistory.StepCounts` | extras/catch_amalgamated.hpp:12497-12509 | every step adds exactly one to a mock's counts when it is a call of it that was taken, and nothing otherwise |
| `MockHistory.CallsAddUp` | extras/catch_amalgamated.hpp:12471-12509 | over every run until it is verified, the counts of a mock and its refused calls are the calls that were made |
| `Utf8.DecodeUtf8` | src/Progmasoft/XmlWriter.cpp:22-76 | the decoding loop, at any offset, is the decoder of the suffix that the following rows are about |
| `Utf8.DecodesExactly` | src/Progmasoft/XmlWriter.cpp:22-76 | a text is accepted if and only if it begins with a character of the grammar of section 4 of RFC 3629, which is then unique and the encoding of the value returned |
| `Utf8.AcceptedIsEncoded` | src/Progmasoft/XmlWriter.cpp:22-76 | whatever is accepted is the encoding of a scalar value: no overlong form, surrogate or value above 0x10FFFF |
| `Utf8.EncodedHasValue` | src/Progmasoft/XmlWriter.cpp:22-76 | the octets of every scalar value, without their marker bits, make up that value again |
| `Utf8.DecodeInvertsEncode` | src/Progmasoft/XmlWriter.cpp:22-76 | the encoding of every scalar value, whatever follows, decodes to that value and its length |
| `Utf8.EncodeIsInjective` | src/Progmasoft/XmlWriter.cpp:22-76 | different values have different encodings |
| `XmlText.XmlText` | src/Progmasoft/XmlWriter.cpp:91-109 | the sanitising loop is the function that the following rows are about, and ends for any bytes |
| `XmlText.SanitisedIsXmlText` | src/Progmasoft/XmlWriter.cpp:91-109 | the output is always the encoding of characters of section 2.2 of XML 1.0 |
| `XmlText.AllowedCharacters` | src/Progmasoft/XmlWriter.cpp:78-85 | allowed are all scalar values but U+FFFE and U+FFFF, and below U+0020 only tab, line feed and carriage return |
| `XmlText.UnchangedExactly` | src/Progmasoft/XmlWriter.cpp:91-109 | a text is left as it is if and only if it is such an encoding |
| `XmlText.Idempotent` | src/Progmasoft/XmlWriter.cpp:91-109 | sanitising twice is sanitising once |
| `XmlText.GrowsAtMostThreefold` | src/Progmasoft/XmlWriter.cpp:91-109 | the output is at most three times as long |
| `XmlText.SanitisesInParts` | src/Progmasoft/XmlWriter.cpp:91-109 | before a byte that is not a continuation, the parts are sanitised separately, however broken the first is |
| `XmlText.AllowedCharacterIsNeverLost` | src/Progmasoft/XmlWriter.cpp:91-109 | an allowed character stays between any bytes before and after it |
| `XmlText.ForbiddenCharacterIsReplaced` | src/Progmasoft/XmlWriter.cpp:78-109 | a well-formed but forbidden character becomes one replacement for each of its bytes |
| `XmlText.MalformedByteIsReplaced` | src/Progmasoft/XmlWriter.cpp:97-104 | where no character begins, exactly one byte becomes U+FFFD |
| `Amalgamation.Generator.CopyLines` | tools/Amalgamation.cpp:336-361 | without expansion exactly the lines of code are copied, in order: neither includes nor dropped lines |
| `Amalgamation.Generator.Concatenate` | tools/Amalgamation.cpp:333-375 | terminates for any graph, cycles included; adds the kept lines of the file once and in order, and only lines of newly visited headers, each complete |
| `Amalgamation.ExpandHeaders` | tools/Amalgamation.cpp:169-181 | over both roots the visited headers are exactly those included deeply; a line is in the output if and only if it is code or an include of the runner in a root or in such a header other than the user configuration, each line once and in source order |
| `Amalgamation.OrderMeans` | tools/Amalgamation.cpp:362-374 | before every line come all lines of the headers included further up in its file, unless those include that file again |
| `Amalgamation.ExpandedAreNeeded` | tools/Amalgamation.cpp:169-181 | what was visited is exactly what the roots reach; the user configuration is not expanded |
| `IncludeGraph.ClosedHoldsAll` | tools/Amalgamation.cpp:362-374 | a set closed under includes holds everything a file reaches, for reachability by paths of any length |

## Left out

* Messages, descriptions, notes, labels and coverage: presentation and counters beside the proved ones.
* Floating point: target scores are integers, and a biased coin is a draw of 0 or 1 that any random number may decide.
* Random numbers, seed derivation and clocks are arbitrary functions or steps of the model.
* Counters such as `trialsRun_` are unbounded; only arithmetic that can wrap within a run that ends is modelled with its wrap-around.
* A trial ends because it draws a limited number of choices; the limit is any number below 2^64, of which the source's 2^20 is one.
* The order of target names in the search is some order without duplicates, not the alphabetical one.
* Files: a write or rename that fails, and creating directories. A failed write leaves the stored list as it was.
* Mock actions, return values, exceptions, descriptions and threads; every locked section is one step, and `Mocks.Mocks.Verify` is one step although the reporting after it runs without the lock.
* Objects that mocks and sequences share go by number in `Mocks`, which keeps the sharing but not addresses.
- Mocks.Mocks.Expect: the bounds are fixed when an expectation is declared; changing them after a call is not modelled.
- PropertyEngine.Engine.Count: scores only, not labels and covers.
- Distribution.UniformIntegerDistribution.Draw: needs some accepted word to come, since a generator that only gives rejected words is never left.
- GeneratorAdapters.Chunk.Create: chunks of size zero have no list; that they never end is all that is stated of them.
- GeneratorStacks.Advance: stacks are values of one element type, without `Chunk` and `Repeat` and without the cache of a map; a generator is not asked for more after it ended.
- GeneratorAdapters.Repeat.Get: a generator that was never read in its first round has nothing to give later; reading it then is an access out of range in the source.
- Amalgamation.Generator.Concatenate: lines are classified already; a root that a header includes is put in again as a header, as in the source.
* `Generator::Source`, `ConcatenateRunner` and `ExpandThirdParty` of the amalgamation: simpler forms of the same expansion.
* Other generators, and iterators: ranges are sequences with positions in them.

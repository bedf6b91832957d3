# Verified models of the coding tool and of the libraries it carries

The repository holds a tool that answers questions about a code base with a local language
model, a client library for such models, and copies of googletest and spdlog. This project
models the logic of their most intricate parts in Dafny and proves what each part is for. What
the source changes in place is a class, a field or an array here, and what it loops over is a
loop; each such method is proved against a specification, and the specification is proved to
have the properties the source promises.

* **Search engines** (`TaskQueue`, `Search`, `EventSink`, `EventLog`, `ResearchRun`,
  `ResearchEngine`, `EditEngine`). The research loop pops an area, lets a worker and a judge look
  at it, and queues the directions they suggest; the edit loop does the same with an editor and an
  applier. Worker, judge, editor, applier, clock and synthesis may answer anything, and differently
  each time. Both loops are proved to run a `Search` of `Round`s and to report exactly their
  `RunLog` and ending; about every run it is proved that no area is executed twice, that depths
  never decrease, that parents form a tree, that depths are shortest distances and that drained
  runs execute exactly the reachable areas when the suggestions are a function of the area, and
  that the research report is accepted by a protocol (`EventLog.Read`) that sees the events only.
* **Scanner and worker** (`CodebaseScanner`, `Worker`). Packing files into a token budget, and
  merging the findings of one goal over many areas.
* **Stream parser** (`StreamParser`). Deltas of a server-sent event stream do not depend on the
  way the stream is cut into chunks.
* **Unordered matchers** (`BipartiteMatching`, `UnorderedElements`). Augmenting paths searched
  once from each left node give a maximum matching. The ghost sets `dl` and `dr` collect the dead
  ends of failed searches and are a König certificate at the end. The pairing check and its quick
  filter are proved to decide the existence of the assignment asked for.
* **Simple regular expressions** (`SimpleRegex`). The scanner accepts exactly a grammar, and the
  backtracking matchers decide a denotational language.
* **Call expectations** (`PrerequisiteGraph`, `Expectations`). Three worklist walks over the
  prerequisite graph, what a mocked call does to it, and what sequences add to it.
* **Shuffling** (`ShuffleRange`), **prime tables** (`PrimeTables`), and four **printers and
  decoders** (`Int128Printer`, `StringLiterals`, `Utf8Validation`, `Base64Decoding`).
* **Log formatting** (`Padding`, `Pattern`, `PatternFormatter`). Padded fields, pattern
  compilation, and the two caches of broken-down time and date text.

Some properties one would expect are false of the code. For each, the exact condition is proved,
and an input that shows the failure:

* `FullMatch` of a pattern that ends in an escaped `$` accepts strings it should not, since no end
  anchor is appended: `FullMatchIsExact`, and `EscapedDollarMatchesMore` for `\$` on `$x`.
* A printed string literal does not read back if a NUL is directly followed by an octal digit:
  `RoundTrip`, and `NulThenDigitIsLost` for a NUL followed by the digit one.
* Adding an expectation to a sequence makes a cycle exactly when the expectation is already
  needed by the last one: `AddExpectation`, and `CycleByReopening`, where an earlier expectation is
  added to its sequence again.
* A log formatter shows the year 1900 until the first message outside second zero of the epoch:
  `FullFormatIsFreshIff`, and `EpochShowsZeroedTime` for a message at time zero.

`dafny verify dfyconfig.toml` checks everything.

## Model

| member | source | states |
|---|---|---|
| BipartiteMatching.MaxBipartiteMatchState.TryAugment | external/googletest/googlemock/src/gmock-matchers.cc:184-208 | On success only the root stops being unused, no node is unmatched, `left` and `right` stay mutually referent and the dead sets are not entered; on failure neither array changes and every right node newly seen is a dead end. It ends because unseen right nodes run out. |
| BipartiteMatching.MaxBipartiteMatchState.Compute | external/googletest/googlemock/src/gmock-matchers.cc:132-162 | One search from each left node yields a matching of the largest size any matching of the graph has, its pairs in the order of the left nodes. |
| BipartiteMatching.WeakDuality | external/googletest/googlemock/src/gmock-matchers.cc:135-146 | A closed pair of dead sets bounds the size of every matching. |
| BipartiteMatching.GrowDead | external/googletest/googlemock/src/gmock-matchers.cc:135-146 | A failed search adds its root, the right nodes it saw and their mates to the dead sets, which stay dead: the reason why one look at each left node is enough. |
| BipartiteMatching.StrongDuality | external/googletest/googlemock/src/gmock-matchers.cc:135-146 | Mutually referent arrays whose unmatched left nodes are all dead describe a maximum matching. |
| UnorderedElements.FindMaxBipartiteMatching | external/googletest/googlemock/src/gmock-matchers.cc:228-230 | The matching returned is maximum. |
| UnorderedElements.FindPairing | external/googletest/googlemock/src/gmock-matchers.cc:436-475 | True exactly when the required assignment exists: matchers into elements, elements into matchers, or a bijection. |
| UnorderedElements.SatisfiableIffFull | external/googletest/googlemock/src/gmock-matchers.cc:436-475 | The assignment exists iff a maximum matching covers the matchers, the elements, or both. |
| UnorderedElements.VerifyMatchMatrix | external/googletest/googlemock/src/gmock-matchers.cc:369-434 | The quick filter passes exactly the matrices without a size mismatch and without isolated nodes on the sides that count. |
| UnorderedElements.FilterIsSound | external/googletest/googlemock/src/gmock-matchers.cc:364-369 | Whatever the filter rejects has no pairing. |
| UnorderedElements.FilterRejects | external/googletest/googlemock/src/gmock-matchers.cc:369-434 | One isolated element or matcher on a side that counts, or unequal numbers in an exact match, is enough to be rejected. |
| UnorderedElements.MatchAndExplain | external/googletest/googlemock/include/gmock/gmock-matchers.h:3851-3861 | Filter and pairing together decide exactly whether the assignment exists. |
| SimpleRegex.ValidateRegex | external/googletest/googletest/src/gtest-port.cc:822-874 | Accepts exactly the strings that spell a regex of the grammar: an optional `^`, atoms with optional repeats, an optional `$`. |
| SimpleRegex.ScanIffSpelled | external/googletest/googletest/src/gtest-port.cc:816-874 | The scanner's left-to-right verdict equals the existence of a reading in the grammar. |
| SimpleRegex.SpelledOnce | external/googletest/googletest/src/gtest-port.cc:822-874 | A pattern has only one reading. |
| SimpleRegex.AtomsAreListed | external/googletest/googletest/src/gtest-port.cc:764-777 | What may follow a backslash is listed punctuation or one of `dDfnrsStvwW`; without one, all but the syntax characters stand for an atom. |
| SimpleRegex.AtomIsDenoted | external/googletest/googletest/src/gtest-port.cc:781-808 | What a valid atom matches is what the language says it denotes: `\d` the ten digits, `\w` those, the letters and `_`, `\s` the six white-space characters, their complements, one control character each, `.` all but a newline, and every other character itself. |
| SimpleRegex.MatchRepetitionAndRegexAtHead | external/googletest/googletest/src/gtest-port.cc:882-900 | Trying the counts of a repeat in increasing order finds a match iff some count gives one. |
| SimpleRegex.MatchRegexAtHead | external/googletest/googletest/src/gtest-port.cc:906-932 | True iff some prefix of the string is a word of the regex's language. |
| SimpleRegex.MatchRegexAnywhere | external/googletest/googletest/src/gtest-port.cc:940-950 | True iff a word of the language occurs in the string, at its start and end where the anchors ask for it; null arguments never match. The language is built from listed characters, not from the matcher's own tests. |
| SimpleRegex.RE.Init | external/googletest/googletest/src/gtest-port.cc:968-995 | Valid iff the pattern is in the grammar; the full pattern is then a spelling of the anchored regex. |
| SimpleRegex.RE.FullMatch | external/googletest/googletest/src/gtest-port.cc:957-959 | Decides, for valid patterns, whether the whole string is in the language, or after an escaped `$` whether a prefix is. |
| SimpleRegex.RE.PartialMatch | external/googletest/googletest/src/gtest-port.cc:963-965 | Decides whether a word of the language occurs in the string. |
| SimpleRegex.FullMatchIsExact | external/googletest/googletest/src/gtest-port.cc:956-995 | A full match means that the whole string is in the language, for every string, iff the regex does not end in an escaped `$`. |
| SimpleRegex.OneAtom | external/googletest/googletest/src/gtest-port.cc:781-808 | A class atom alone fully matches a one-character string iff the character is listed for it. |
| SimpleRegex.OneRepeat | external/googletest/googletest/src/gtest-port.cc:882-900 | A plain character with a repeat fully matches the strings of that character alone: any for `*`, at least one for `+`, at most one for `?`. |
| SimpleRegex.PlainPattern | external/googletest/googletest/src/gtest-port.cc:906-950 | A pattern of plain characters is found exactly where the text occurs, at the start after a `^` and at the end before a `$`. |
| SimpleRegex.EscapedDollarMatchesMore | external/googletest/googletest/src/gtest-port.cc:986-994 | The pattern `\$` fully matches `$x`, which is not in its language. |
| TaskQueues.TaskQueue.Push | src/TaskQueue.cpp:5-23 | Accepts iff the area is neither visited nor queued, and appends the task then; the area is covered afterwards either way. |
| TaskQueues.TaskQueue.Pop | src/TaskQueue.cpp:25-30 | Takes the oldest task and forgets that its area is queued. |
| TaskQueues.TaskQueue.MarkVisited | src/TaskQueue.cpp:32-32 | Adds one visited area and leaves the queue as it is. |
| Search.RunGrows | src/ResearchEngine.cpp:203-270 | Executing the head of the queue makes one more round; the queue stays the unexecuted part of the history and the covered areas stay all areas ever accepted. |
| Search.FirstInFirstOut | src/ResearchEngine.cpp:203-270 | Tasks are executed in the order in which they were accepted. |
| Search.RunsAreWellOrdered | src/ResearchEngine.cpp:203-270 | In every run no area is accepted twice, depths never decrease, and none exceeds the last executed depth by more than one. |
| Search.NoAreaTwice | src/ResearchEngine.cpp:214-240 | No target area is executed twice and executed depths never decrease. |
| Search.ParentsFormATree | src/ResearchEngine.cpp:254-257 | Every accepted task is a seed or the child of a task executed before it, one level below that task. |
| Search.DepthIsShortest | src/ResearchEngine.cpp:253-268 | If suggestions are a function of the area, the depth of every accepted task is the least number of hops from a seed to its area. |
| Search.DrainedRunsCoverReachable | src/ResearchEngine.cpp:203-270 | A run that drains its queue has executed exactly the reachable areas. |
| ResearchRuns.SuggestionsAreFollowed | src/ResearchEngine.cpp:253-268 | The areas a round offers are those of the directions that the judge leaves in a partial finding, so the two results above speak of suggested areas. |
| EditEngines.SuggestionsAreFollowed | src/EditEngine.cpp:234-251 | The same for the directions of the editor. |
| EventLog.LogConserves | src/ResearchEngine.cpp:188-270 | In every accepted log the tasks queued are the tasks started followed by those pending; no area is queued twice; depths never decrease. |
| EventLog.StartsFollowQueued | src/ResearchEngine.cpp:214-219 | At every moment the tasks started are the first ones queued, in that order. |
| EventLog.ResultsFollowStart | src/ResearchEngine.cpp:215-238 | A start is followed at once by the worker result and then the judge result of the same task. |
| EventLog.OneResultEach | src/ResearchEngine.cpp:215-238 | There are as many worker results and judge results as starts, but for a task under way. |
| EventLog.LogCounts | src/ResearchEngine.cpp:205-208 | No more tasks are started than the limit allows, and the reader's count of successes is that of the log. |
| EventLog.QueuedHaveParents | src/ResearchEngine.cpp:188-267 | In every accepted log a task is queued as a seed before anything has started, or as the child of a task started before it, one level below that task. |
| EventLog.CompleteComesLast | src/ResearchEngine.cpp:286-291 | A finished log has exactly one `complete`, its last event, which gives the number of starts and is answered iff a judged outcome was a success. |
| ResearchRuns.ReportObeysProtocol | src/ResearchEngine.cpp:163-294 | The report of every finished run is accepted from its first event to its last, and its reader ends up with the tasks that the run left waiting. |
| ResearchRuns.RunIsRead | src/ResearchEngine.cpp:163-270 | After every round the reader of the report knows the queue, the covered areas, the starts and the successes. |
| ResearchRuns.SuccessAt | src/ResearchEngine.cpp:247-248 | Exactly the findings that the judge leaves a success are kept, as the judge leaves them, in order. |
| ResearchRuns.LogSays | src/ResearchEngine.cpp:163-294 | A log opens with the question and its keywords and ends with the answer, if there is one, and the verdict, reason and number of iterations of the result. |
| ResearchRuns.DispatchEventsSay | src/ResearchEngine.cpp:247-267 | A success is reported with its summary, and otherwise every accepted task with its id and area. |
| ResearchEngines.ResearchEngine.Research | src/ResearchEngine.cpp:163-294 | The rounds executed are a run that obeys the worker and the judge and respects the limit; the log is exactly its report and is accepted to its end; answer, findings and reason are those of the run, and it is answered iff some judged outcome was a success. |
| ResearchEngines.ResearchEngine.RunTask | src/ResearchEngine.cpp:214-268 | One iteration: what it takes off the queue, what the judge makes of it, which directions are accepted, and what is reported. |
| EventSinks.EventSink.QueueDirections | src/ResearchEngine.cpp:254-267 | The tasks accepted are the directions whose area was never covered before, nor by an earlier direction, in their order, each with the id, area, goal, criteria, repeat flag and targets suggested, one level below the task; afterwards the area of every direction is covered, and what was accepted is reported. Both engines do this. |
| Search.AcceptTakesNew | src/ResearchEngine.cpp:254-257 | Names the directions that become new children, in order, and says that no other direction does. |
| EventSinks.EventSink.QueueSeeds | src/ResearchEngine.cpp:188-198 | The seeds are queued and reported in order. |
| ResearchEngines.ResearchEngine.Finish | src/ResearchEngine.cpp:272-293 | The answer is synthesized iff there was a success, and the reason of a limit is not overwritten. |
| Search.SeedTasks | src/ResearchEngine.cpp:120-137 | No seed without candidate areas; otherwise one repeatable task without parent at depth zero, with the given id, goal and criteria, over the first 25 candidate areas. |
| ResearchRuns.SeedSays | src/ResearchEngine.cpp:120-137 | The question is the goal of the seed, which names its criteria and covers at most 25 areas. |
| EditEngines.SeedSays | src/EditEngine.cpp:100-118 | The same for the task of an edit run. |
| EditEngines.EditEngine.Run | src/EditEngine.cpp:121-269 | The rounds are a run of the same search that obeys the editor and respects the limit; the log is exactly its report; proposed edits are all usable edits in a dry run, and otherwise the outcome is the sum of what the applier returned, called once per finding with edits; the reason tells whether and why tasks were left waiting. |
| EditEngines.EditEngine.Take | src/EditEngine.cpp:196-232 | The edits of a successful or partial finding are handed to the applier at once, whose paths and errors are added up, or all proposed in a dry run; nothing happens for an area that needs no change; every path is reported as written, rejected, failed or proposed, in order. |
| EditEngines.EditsAt | src/EditEngine.cpp:196-232 | The edits collected over a run are those of its rounds, in order, without those of areas that needed no change. |
| EditEngines.OutcomeEventsSay | src/EditEngine.cpp:200-221 | Which event stands where for every path written, rejected or failed. |
| EditEngines.LogSays | src/EditEngine.cpp:121-269 | A log opens with the task and its keywords and ends with the verdict, reason and number of iterations. |
| EditEngines.EditEngine.RunTask | src/EditEngine.cpp:173-251 | One iteration: what it takes off the queue, which directions are accepted, which edits are taken, and what is reported. |
| CodebaseScanners.Scan | src/CodebaseScanner.cpp:65-90 | There is a choice of files, keeping exactly the readable ones that fit in what the files kept before them left, and text, tokens, included and skipped paths are those of that choice, in order. |
| CodebaseScanners.GreedyIsUnique | src/CodebaseScanner.cpp:65-86 | Files and budget determine the choice. |
| CodebaseScanners.WithinBudget | src/CodebaseScanner.cpp:75-89 | The tokens used respect the budget, and the text has at most four characters per token. |
| CodebaseScanners.NoSkippedFileFits | src/CodebaseScanner.cpp:78-81 | No skipped file fits in the budget left at the end. |
| CodebaseScanners.IncludedOrSkipped | src/CodebaseScanner.cpp:65-86 | Every readable candidate is included or skipped, exactly once. |
| CodebaseScanners.TextAt | src/CodebaseScanner.cpp:74-83 | Every file kept stands in the text under its header, after the files kept before it; no other file takes room. |
| CodebaseScanners.PathsAt | src/CodebaseScanner.cpp:65-86 | Every readable candidate has its path in the list it belongs to, after those before it. |
| CodebaseScanners.EntryCost | include/cppcoder/Types.h:70-72 | What a file costs, in the lengths of its path and of its content. |
| Workers.Worker.Execute | src/Worker.cpp:145-184 | The findings of the repeat targets are merged in order: the outcome is a success iff the model replied one about some target with files, and partial iff it replied none but some leads; all leads and summaries of the informative findings; at most the budget per target in tokens. |
| Workers.Worker.ExecuteSingleArea | src/Worker.cpp:107-143 | If some file of the area fits in the budget and the model replies, the finding has exactly the outcome, summary and directions of that reply; otherwise it gives no information. Either way it counts the tokens of the files. |
| Workers.BestIsUnique | src/Worker.cpp:168-174 | The best outcome of some findings is determined by them. |
| Workers.BestOfReplies | src/Worker.cpp:168-174 | The best outcome of findings that keep some replies is the best of the replies. |
| Workers.MergedParts | src/Worker.cpp:157-167 | The leads and summaries of each finding stand after those of the findings before it, and none of an uninformative one. |
| Shuffling.Random.Generate | external/googletest/googletest/src/gtest.cc:416-430 | The state advances by the congruential step and the number is below the range. |
| Shuffling.ShuffleRange | external/googletest/googletest/src/gtest-internal-inl.h:304-325 | The cells afterwards are the Fisher-Yates result for the numbers drawn from the generator. |
| Shuffling.FirstChoiceLast | external/googletest/googletest/src/gtest-internal-inl.h:315-324 | The last cell of the range ends up with the first element chosen. |
| Shuffling.FourCells | external/googletest/googletest/src/gtest-internal-inl.h:315-324 | Two complete shuffles of four cells. |
| Shuffling.StateStep | external/googletest/googletest/src/gtest.cc:419-419 | The new state is the low 31 bits of the congruential step. |
| Shuffling.DrawsFromZero | external/googletest/googletest/src/gtest.cc:416-430 | The first three states from zero and the numbers drawn. |
| Shuffling.Shuffle | external/googletest/googletest/src/gtest-internal-inl.h:328-331 | The same for the whole vector. |
| Shuffling.ShufflePermutes | external/googletest/googletest/src/gtest-internal-inl.h:300-325 | Whatever is chosen, the range is permuted and the cells outside it are untouched. |
| Shuffling.ShuffleInjective | external/googletest/googletest/src/gtest-internal-inl.h:315-324 | On distinct elements different choices give different orders. |
| Shuffling.ShuffleSurjective | external/googletest/googletest/src/gtest-internal-inl.h:315-324 | Every permutation of the range is the result of some choices. |
| Shuffling.ShuffleBijection | external/googletest/googletest/src/gtest-internal-inl.h:315-324 | On distinct elements choices and permutations of the range correspond one to one. |
| PrerequisiteGraph.ExpandShrinks | external/googletest/googlemock/src/gmock-spec-builders.cc:140-150 | Replacing a node of the worklist by prerequisites of it makes the worklist lighter in an acyclic graph: the walk ends without a visited set. |
| PrerequisiteGraph.AddEdgeAcyclic | external/googletest/googlemock/src/gmock-spec-builders.cc:759-767 | A new prerequisite keeps the graph acyclic iff it neither is nor needs the node it is added to. |
| Expectations.AllPrerequisitesAreSatisfied | external/googletest/googlemock/src/gmock-spec-builders.cc:134-153 | True iff every transitive prerequisite is satisfied. |
| Expectations.FindUnsatisfiedPrerequisites | external/googletest/googlemock/src/gmock-spec-builders.cc:155-183 | Adds exactly the unsatisfied prerequisites reached through satisfied expectations that were never called. |
| Expectations.BlockingIsSound | external/googletest/googlemock/src/gmock-spec-builders.cc:169-180 | Those are unsatisfied transitive prerequisites; there are none iff all are satisfied, as long as what is satisfied and was called has all its prerequisites satisfied. |
| Expectations.BlockingByCases | external/googletest/googlemock/src/gmock-spec-builders.cc:155-183 | The search reports unsatisfied immediate prerequisites, looks behind one that is satisfied and was never called, and behind no other. |
| Expectations.CallRange | external/googletest/googlemock/include/gmock/gmock-spec-builders.h:790-799 | Satisfied and saturated at the greatest number of calls, too few before the least, unsatisfied beyond the greatest. |
| Expectations.OrderlySearchIsExact | external/googletest/googlemock/src/gmock-spec-builders.cc:169-180 | In every state that handled calls keep, the search finds nothing iff all prerequisites are satisfied. |
| Expectations.RetireAllPreRequisites | external/googletest/googlemock/src/gmock-spec-builders.cc:108-132 | Retires exactly the transitive prerequisites and keeps the rule that whatever a retired expectation needs is retired, in spite of the early return and the pruning, on cyclic graphs too. |
| Expectations.Invoke | external/googletest/googlemock/include/gmock/gmock-spec-builders.h:1218-1253 | A call counts, is excessive iff the expectation was saturated, and otherwise retires all prerequisites and, on saturation, the expectation if it asks for that; the order of calls is kept. |
| Expectations.FreshAreOrderly | external/googletest/googlemock/include/gmock/gmock-spec-builders.h:1139-1253 | Acyclic expectations that were not called or retired yet are in such a state. |
| Expectations.LinkKeepsOrder | external/googletest/googlemock/include/gmock/gmock-spec-builders.h:972-983 | A new link keeps the state in order iff it closes no cycle, its target is retired if its source is, and, if its source or what needs it was called, the target and all it needs are satisfied and retired. |
| Expectations.AddPrerequisite | external/googletest/googlemock/include/gmock/gmock-spec-builders.h:972-983 | The link is added; the graph stays acyclic, and the state in order, exactly under those conditions. |
| Expectations.Sequence.AddExpectation | external/googletest/googlemock/src/gmock-spec-builders.cc:758-767 | The last expectation becomes a prerequisite of the new one; the graph stays acyclic iff the last one does not already need the new one, and the state in order iff the link may be made. |
| Expectations.CycleByReopening | external/googletest/googlemock/src/gmock-spec-builders.cc:758-767 | Adding two expectations and then the first one again makes each need the other. |
| PrimeTables.Euclid | external/googletest/googletest/samples/prime_tables.h:66-74 | There is a prime above every number, so the unbounded search ends. |
| PrimeTables.OnTheFlyPrimeTable.IsPrime | external/googletest/googletest/samples/prime_tables.h:55-64 | Trial division up to the square root decides primality. |
| PrimeTables.OnTheFlyPrimeTable.GetNextPrime | external/googletest/googletest/samples/prime_tables.h:66-74 | The least prime above `p`, or -1 for a negative `p`. |
| PrimeTables.IsPrimeOddDivisors | external/googletest/googletest/samples/sample1.cc:45-66 | Odd divisors up to the stop at `i > n / i` decide primality. |
| PrimeTables.PreCalculatedPrimeTable.CalculatePrimesUpTo | external/googletest/googletest/samples/prime_tables.h:100-116 | The table holds exactly the primes up to its maximum. |
| PrimeTables.MarkedIffComposite | external/googletest/googletest/samples/prime_tables.h:106-115 | Multiples from the square on, of numbers up to the square root, are exactly the composite numbers. |
| PrimeTables.MarkedStep | external/googletest/googletest/samples/prime_tables.h:106-115 | Skipping the even candidates and the composite ones loses no multiple. |
| PrimeTables.PreCalculatedPrimeTable.GetNextPrime | external/googletest/googletest/samples/prime_tables.h:91-97 | The least prime above `p` if the table holds one, and -1 only if it holds none. |
| PrimeTables.HybridPrimeTable.IsPrime | external/googletest/googletest/samples/sample8_unittest.cc:61-66 | Agrees with primality whichever table answers. |
| PrimeTables.HybridPrimeTable.GetNextPrime | external/googletest/googletest/samples/sample8_unittest.cc:68-74 | The least prime above `p` whichever table answers; for a negative `p` the two tables differ, and which answer is given is stated. |
| Int128Printer.DivideByTen | external/googletest/googletest/src/gtest-printers.cc:304-319 | Dividing two 64-bit limbs by ten is exact and neither new limb overflows. |
| Int128Printer.RoomLeft | external/googletest/googletest/src/gtest-printers.cc:297-307 | While something is left to print, the buffer has room for a digit. |
| Int128Printer.PrintUint128 | external/googletest/googletest/src/gtest-printers.cc:291-323 | Prints the canonical decimal numeral of every 128-bit value. |
| Int128Printer.PrintInt128 | external/googletest/googletest/src/gtest-printers.cc:324-331 | Prints the canonical numeral with its sign for every signed value, the most negative one included. |
| Int128Printer.NumeralUnique | external/googletest/googletest/src/gtest-printers.cc:291-323 | A number has one canonical numeral. |
| StringLiterals.PrintCharsAsStringTo | external/googletest/googletest/src/gtest-printers.cc:338-363 | Prints the literal of the specification and reports a hexadecimal escape iff it printed one. |
| StringLiterals.UnitText | external/googletest/googletest/src/gtest-printers.cc:151-211 | NUL, the control characters U+0007 to U+000D in the order of `abtnvfr`, the quote and the backslash are escaped; other printable characters stand for themselves; everything else is hexadecimal. |
| StringLiterals.LiteralStarts | external/googletest/googletest/src/gtest-printers.cc:213-227 | The prefix of a literal of each character type. |
| StringLiterals.ReadLiteral | external/googletest/googletest/src/gtest-printers.cc:151-211 | What a C++ reader of adjacent literals (sections 5.13.3 and 5.13.5 of ISO C++20) gets back, for every input. |
| StringLiterals.RoundTrip | external/googletest/googletest/src/gtest-printers.cc:342-363 | The printed text reads back as the same units iff no NUL is directly followed by an octal digit. |
| StringLiterals.NulThenDigitIsLost | external/googletest/googletest/src/gtest-printers.cc:151-156 | A NUL followed by the digit one reads back as one unit. |
| Utf8Validation.IsValidUTF8 | external/googletest/googletest/src/gtest-printers.cc:481-514 | True iff the bytes encode some Unicode scalar values (section 4 of RFC 3629), with no read past the end. |
| Utf8Validation.DecodingUnique | external/googletest/googletest/src/gtest-printers.cc:481-514 | The encoded scalar values are unique. |
| Utf8Validation.LengthBounds | external/googletest/googletest/src/gtest-printers.cc:481-514 | The bytes of the least and greatest character of each length and around the surrogates. |
| Utf8Validation.ForbiddenBytes | external/googletest/googletest/src/gtest-printers.cc:490-511 | No valid text contains C0, C1 or a byte from F5 on. |
| Utf8Validation.IllFormedHeads | external/googletest/googletest/src/gtest-printers.cc:490-511 | Encoded surrogates, over-long forms, numbers past U+10FFFF and stray trail bytes make a text invalid. |
| Utf8Validation.HeadStep | external/googletest/googletest/src/gtest-printers.cc:487-512 | Taking a well-formed character off the head neither makes nor breaks validity. |
| Base64Decoding.Base64Unescape | external/googletest/googlemock/src/gmock-internal-utils.cc:229-255 | Succeeds iff every character has a value or is skipped, and then gives the bytes that the values spell; fails with an empty result. The values are stated in the code of the character, not taken from the table. |
| Base64Decoding.TableDecodes | external/googletest/googlemock/src/gmock-internal-utils.cc:203-227 | The table maps each character of the two alphabets (sections 4 and 5 of RFC 4648) to its value. |
| Base64Decoding.TableHoldsValues | external/googletest/googlemock/src/gmock-internal-utils.cc:203-227 | The table gives `c - 'A'` for capitals, 26 more than `c - 'a'` for small letters, 52 more than the digit for digits, 62 for `+` and `-`, 63 for `/` and `_`. |
| Base64Decoding.AcceptedCharacters | external/googletest/googlemock/src/gmock-internal-utils.cc:235-243 | Accepted are exactly the characters of the alphabets, white space and `=`. |
| Base64Decoding.RunUnpacks | external/googletest/googlemock/src/gmock-internal-utils.cc:233-253 | The bit-position state machine computes the unpacking of four groups into three bytes. |
| Base64Decoding.DecodeInvertsEncode | external/googletest/googlemock/src/gmock-internal-utils.cc:229-255 | Every spelling of the encoding of some bytes, in either alphabet, with padding or white space anywhere, is decoded to those bytes. |
| Base64Decoding.EncodeSpells | external/googletest/googlemock/src/gmock-internal-utils.cc:225-227 | The encoding of any bytes, in either alphabet, with or without padding, spells their groups. |
| Base64Decoding.DecodeEncoding | external/googletest/googlemock/src/gmock-internal-utils.cc:229-255 | Decoding the encoding of any bytes gives the bytes back. |
| Base64Decoding.DecodeMan | external/googletest/googlemock/src/gmock-internal-utils.cc:229-255 | The text `TWFu` decodes to the bytes of `Man`. |
| StreamParsing.DeepSeekStreamParser.Feed | external/CppLmmModelStore/src/DeepSeekStreamParser.cpp:30-78 | Reports the deltas of the complete lines of the buffered text up to the first that does not parse; on success the buffer is the text after the last newline. |
| StreamParsing.DeepSeekStreamParser.TakeLine | external/CppLmmModelStore/src/DeepSeekStreamParser.cpp:40-75 | One line has the meaning its prefix, spaces, carriage return and payload give it. |
| StreamParsing.FeedLine | external/CppLmmModelStore/src/DeepSeekStreamParser.cpp:30-78 | Fed to an empty buffer, `data:`, an optional space, a payload, an optional carriage return and a newline do what the payload parses to, or nothing for `[DONE]`; any other line does nothing and succeeds. |
| StreamParsing.EveryDataLineCarries | external/CppLmmModelStore/src/DeepSeekStreamParser.cpp:41-52 | Every line that starts with `data:` is of that form. |
| StreamParsing.FeedAll | external/CppLmmModelStore/src/DeepSeekStreamParser.cpp:30-78 | If all payloads of a stream parse, feeding it in any chunks reports the deltas of the whole stream and keeps its unfinished line. |
| StreamParsing.LinesOfConcat | external/CppLmmModelStore/src/DeepSeekStreamParser.cpp:31-44 | Lines of a text are those of its first part and those that the rest completes. |
| StreamParsing.MeaningsOfConcat | external/CppLmmModelStore/src/DeepSeekStreamParser.cpp:31-44 | The same for what the lines mean. |
| Paddings.FieldLayout | external/spdlog/include/spdlog/pattern_formatter-inl.h:42-90 | Whatever size is announced, a field adds the missing spaces left, right or around the text, or cuts the surplus off the end of the buffer if it truncates. |
| Paddings.ExactField | external/spdlog/include/spdlog/pattern_formatter-inl.h:42-90 | A text announced with its own size takes its width, or the width of a longer text, or exactly its width if it truncates, and what was in the buffer before stays. |
| Paddings.AppendPadded | external/spdlog/include/spdlog/pattern_formatter-inl.h:42-90 | Constructor and destructor of the padder around a text write that field, for any announced size, and the 64 spaces are always enough. |
| Patterns.HandlePadspec | external/spdlog/include/spdlog/pattern_formatter-inl.h:1271-1313 | Reads side, width and truncation mark; the width is the numeral modulo 2^64, at most 64. |
| Patterns.PaddingIsRead | external/spdlog/include/spdlog/pattern_formatter-inl.h:1271-1313 | Wherever it stands, a written padding is read as meant: `-` leaves the text at the left of its field, `=` in the middle, digits give the width up to 64, `!` truncates. |
| Patterns.CompiledMeaning | external/spdlog/include/spdlog/pattern_formatter-inl.h:1315-1350 | Compiling keeps the meaning of a pattern. |
| Patterns.KnownFlagLine | external/spdlog/include/spdlog/pattern_formatter-inl.h:1315-1350 | A pattern of one known flag prints the flag's text in the field that is written. |
| Patterns.OtherFlagLine | external/spdlog/include/spdlog/pattern_formatter-inl.h:1245-1265 | A pattern of one unknown flag prints it after a percent sign, or after the function name if it follows a truncation mark; the full format and the percent sign ignore their padding. |
| Patterns.DoubledLine | external/spdlog/include/spdlog/pattern_formatter-inl.h:1211-1213 | A text with its percent signs doubled prints as the text and the end of line. |
| PatternFormatting.PatternFormatter.CompilePattern | external/spdlog/include/spdlog/pattern_formatter-inl.h:1315-1350 | The formatters are the pieces of the pattern's tokens, with fresh caches, and the broken-down time is needed iff one of them needs it. |
| PatternFormatting.PatternFormatter.SetPattern | external/spdlog/include/spdlog/pattern_formatter-inl.h:1007-1011 | The new pattern is compiled with fresh date caches, and the time cache stays. |
| PatternFormatting.FullFormatter.Format | external/spdlog/include/spdlog/pattern_formatter-inl.h:856-937 | With a cache that is right or of another second, the full format prints the date of the time it is given, and the cache is right afterwards. |
| PatternFormatting.DateTextReads | external/spdlog/include/spdlog/pattern_formatter-inl.h:866-886 | The date text, digit by digit, of every time whose year has four digits. |
| PatternFormatting.PatternFormatter.Format | external/spdlog/include/spdlog/pattern_formatter-inl.h:990-1005 | Prints the pieces with the cached time, which is refreshed iff it is needed and the second changed; the date caches stay in step with it. |
| PatternFormatting.FormatAll | external/spdlog/include/spdlog/pattern_formatter-inl.h:990-1005 | Messages in any order of time through a new formatter print the lines of the pattern with the time of their own second, or the zeroed time before any message outside second zero. |
| PatternFormatting.LinesSay | external/spdlog/include/spdlog/pattern_formatter-inl.h:990-1005 | The line of each message is printed with the time shown to it. |
| PatternFormatting.ShownSays | external/spdlog/include/spdlog/pattern_formatter-inl.h:990-996 | That is the time of its own second, or the zeroed time as long as no message was outside second zero. |
| Patterns.SecondsAreWhole | external/spdlog/include/spdlog/pattern_formatter-inl.h:992-993 | The second of a message is its time in nanoseconds divided by 10^9, towards zero. |
| PatternFormatting.CachesDoNotShow | external/spdlog/include/spdlog/pattern_formatter-inl.h:856-1005 | Unless the first message is in second zero the lines are those of a formatter without caches. |
| PatternFormatting.FullFormatIsFreshIff | external/spdlog/include/spdlog/pattern_formatter-inl.h:953-1005 | With the full format, exactly then. |
| PatternFormatting.EpochShowsZeroedTime | external/spdlog/include/spdlog/pattern_formatter-inl.h:990-996 | A message at time zero is printed with the year 1900. |

## Left out

- Prompts, HTTP, JSON, the file system and the clock: worker, judge, editor, applier, candidate files, payload parser and clock are arbitrary inputs; the stop at the wall clock may come before any iteration.
- Uniqueness of files: only the umbrella area of a repeatable task is covered, so a file may be investigated twice; nothing is claimed about it.
- The directions the judge keeps: the source may keep one index twice, so no law relates kept and rejected directions; `rejected_count`, durations, and the summaries, edits and directions listed in result events are not in the logs.
- Search.SeedTasks: candidate areas are given sorted and without repetition; the keyword search behind them is not modelled.
- TaskQueue.Pop: is called on a queue that is not empty, as in both loops.
- Workers.Worker.Execute: does not model durations; the reply of the model is already parsed.
- CodebaseScanners.Scan: is given the sorted candidates; which files the directory walk finds is not modelled.
- Diagnostic text: listeners, explanations, syntax error messages and log lines are not modelled.
- SimpleRegex.RE: the POSIX branch is not part of this model; the `size_t` counter of repeats is unbounded.
- Expectations: cardinalities are ranges of call counts, not user-defined ones; argument matching, actions and the mutex are not part of this model. Immediate prerequisites are a sequence, in the order the source's set iterates over them.
- Expectations.Invoke: is given the expectation that handles the call, which is active and has its prerequisites satisfied, as the lookup guarantees.
- PrimeTables.PreCalculatedPrimeTable: needs a maximum of at least one; for smaller ones the source writes outside its array.
- PrimeTables.HybridPrimeTable.GetNextPrime: needs a `p` of at least -1 if there is a precalculated table, which the source would otherwise read before its first entry.
- PrimeTables: machine integers near their limit; numbers are unbounded.
- Shuffling.ShuffleRange: ranges that the source aborts on are excluded.
- Utf8Validation and StringLiterals: units are numbers; the conversion of signed characters to units is not modelled.
- Base64Decoding.Base64Unescape: where characters are signed, those above 127 are excluded, because the source would use them as negative indices of its table.
- StreamParsing.DeepSeekStreamParser.Feed: after an error the consumed lines stay in the buffer and are reported again by the next call, as in the source; chunk independence is stated for streams whose payloads all parse. The error text is not modelled.
- PatternFormatting.PatternFormatter.CompilePattern: does not model custom flags, `%z`, the elapsed-time flags and color ranges; other flags print an arbitrary function of the message and, where they ask for it, of the broken-down time, and announce an arbitrary size.
- PatternFormatting.FormatAll: patterns with `%z`, whose offset is kept for ten seconds whatever the time of a message, or with elapsed-time flags, which print the time since the last message, are not modelled.
- PatternFormatting.CachesDoNotShow: the same flags are not modelled; for `%z` the statement is not meant, as its offset is a cache that shows.
- PatternFormatting.FullFormatIsFreshIff: assumes that second zero is in 1969 or 1970, which holds in every time zone.
- Death tests, threads, mock macros, sinks and the thread pool, the chat server and hardware probing: plumbing over libraries that are not in the repository.
- Model storage and path sanitising, JSON utilities and command-line parsing: they would only add easy members.

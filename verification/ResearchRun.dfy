/** What a run of the research loop does and reports, whatever the worker and the judge answer,
    and the proof that its report obeys the protocol of the event log. */
module ResearchRuns {
  import opened EventLog
  import opened EventSinks
  import opened Options
  import opened Search
  import opened TaskQueues

  datatype Finding = Finding(
    outcome: Outcome, areaInvestigated: string, summary: string, suggestedDirections: seq<Task>, promptTokens: nat)

  /** What the engine calls and cannot foresee. The first argument of `execute`, `review` and
      `clockExpired` is the number of iterations run so far, so that answers may change freely
      from one call to the next. */
  datatype Surroundings = Surroundings(
    execute: (nat, Task) -> Finding,
    review: (nat, Task, Finding) -> Finding,
    clockExpired: nat -> bool,
    synthesize: seq<Finding> -> string,
    decimal: nat -> string)

  datatype ResearchResult = ResearchResult(
    answered: bool, answer: string, successfulFindings: seq<Finding>, iterationsRun: int, reason: Reason)

  function SeedInitialTasks(question: string, candidateAreas: seq<string>, decimal: nat -> string): seq<Task> {
    SeedTasks("seed", question, "Found information in the code that directly and fully answers the question above.",
              candidateAreas, decimal)
  }

  /** The seed of a run asks its question over the first 25 candidate areas. */
  lemma SeedSays(question: string, candidateAreas: seq<string>, decimal: nat -> string)
    ensures var seeds := SeedInitialTasks(question, candidateAreas, decimal);
            && (candidateAreas == [] <==> seeds == [])
            && (candidateAreas != [] ==>
                  && |seeds| == 1 && seeds[0].id == "seed" && seeds[0].researchGoal == question
                  && seeds[0].successCriteria
                     == "Found information in the code that directly and fully answers the question above."
                  && seeds[0].repeatable && seeds[0].depth == 0 && seeds[0].parentId == ""
                  && (|candidateAreas| <= 25 ==> seeds[0].repeatTargets == candidateAreas)
                  && (|candidateAreas| > 25 ==> seeds[0].repeatTargets == candidateAreas[..25]))
  {
  }

  function Ref(t: Task): TaskRef {
    TaskRef(t.id, t.targetArea, t.depth)
  }

  function Refs(tasks: seq<Task>): seq<TaskRef> {
    seq(|tasks|, i requires 0 <= i < |tasks| => Ref(tasks[i]))
  }

  function QueuedEvent(t: Task): Event {
    TaskQueued(t.id, t.parentId, t.targetArea, t.researchGoal, t.depth, |t.repeatTargets|)
  }

  /** The finding the loop acts on in iteration `k`. */
  function Judged(env: Surroundings, k: nat, t: Task): Finding {
    env.review(k, t, env.execute(k, t))
  }

  /** The directions the loop offers to the queue after a finding. */
  function Spread(t: Task, finding: Finding): seq<Task> {
    Offered(t, finding.outcome == PartialWithDirections, finding.suggestedDirections)
  }

  function OffersOf(env: Surroundings): (nat, Task) -> seq<Task> {
    (k: nat, t: Task) => Spread(t, Judged(env, k, t))
  }

  /** The areas a round offers are those its judged finding suggests, if it is partial. */
  lemma SuggestionsAreFollowed(env: Surroundings, rounds: seq<Round>, successors: string -> set<string>)
    requires Obeys(OffersOf(env), rounds)
    requires forall k | 0 <= k < |rounds| ::
               var t := rounds[k].task;
               var finding := env.review(k, t, env.execute(k, t));
               successors(t.targetArea) ==
                 if finding.outcome == PartialWithDirections then Areas(finding.suggestedDirections) else {}
    ensures Follows(rounds, successors)
  {
    forall k | 0 <= k < |rounds| ensures Areas(rounds[k].directions) == successors(rounds[k].task.targetArea) {
      var finding := env.review(k, rounds[k].task, env.execute(k, rounds[k].task));
      OfferedAreas(rounds[k].task, finding.outcome == PartialWithDirections, finding.suggestedDirections);
    }
  }

  const QUEUED: Task -> Event := (t: Task) => QueuedEvent(t)

  /** The event that reports a queued task says what the task is. */
  lemma QueuedEventSays(t: Task)
    ensures var e := QUEUED(t);
            && e.TaskQueued? && e.id == t.id && e.parentId == t.parentId && e.targetArea == t.targetArea
            && e.researchGoal == t.researchGoal && e.depth == t.depth && e.repeatCount == |t.repeatTargets|
  {
  }

  /** The successful findings of the rounds, in order. */
  ghost function Successes(env: Surroundings, rounds: seq<Round>): seq<Finding> {
    if rounds == [] then []
    else
      var k := |rounds| - 1;
      var finding := Judged(env, k, rounds[k].task);
      Successes(env, rounds[..k]) + if finding.outcome == Success then [finding] else []
  }

  /** Each finding that the judge leaves a success is kept as the judge leaves it, after those of
      the rounds before, and no other finding is. */
  lemma {:induction false} SuccessAt(env: Surroundings, rounds: seq<Round>, k: nat)
    requires k < |rounds|
    ensures var (t, before, after) := (rounds[k].task, Successes(env, rounds[..k]), Successes(env, rounds[..k + 1]));
            var finding := env.review(k, t, env.execute(k, t));
            && after <= Successes(env, rounds) && (k == 0 ==> before == [])
            && (finding.outcome == Success ==> after == before + [finding])
            && (finding.outcome != Success ==> after == before)
  {
    var n := |rounds| - 1;
    if k < n {
      SuccessAt(env, rounds[..n], k);
      assert rounds[..n][..k] == rounds[..k] && rounds[..n][..k + 1] == rounds[..k + 1];
    } else {
      assert rounds[..k + 1] == rounds;
    }
  }

  /** Where the log is once a finding has been judged. */
  function AfterReview(task: Task, finding: Finding): Phase {
    match finding.outcome
    case Success => Succeeded(Ref(task))
    case PartialWithDirections => Spreading(Ref(task))
    case NoInformation => Idle
  }

  /** What is reported of a task up to the judge's result. */
  function ReviewEvents(env: Surroundings, k: nat, t: Task): seq<Event> {
    [TaskStarted(t.id, t.targetArea, t.depth), WorkerResult(t.id, env.execute(k, t).outcome),
     JudgeResult(t.id, Judged(env, k, t).outcome)]
  }

  /** What is reported of a judged finding. */
  function DispatchEvents(t: Task, finding: Finding, accepted: seq<Task>): seq<Event> {
    if finding.outcome == Success then [AnswerProgress(t.id, finding.summary)] else EventsFor(QUEUED, accepted)
  }

  /** A success is reported with its summary; otherwise every task accepted is. */
  lemma DispatchEventsSay(t: Task, finding: Finding, accepted: seq<Task>)
    ensures var e := DispatchEvents(t, finding, accepted);
            if finding.outcome == Success then
              |e| == 1 && e[0].AnswerProgress? && e[0].id == t.id && e[0].summary == finding.summary
            else
              && |e| == |accepted|
              && forall i | 0 <= i < |e| ::
                   e[i].TaskQueued? && e[i].id == accepted[i].id && e[i].targetArea == accepted[i].targetArea
  {
    forall i | 0 <= i < |accepted| ensures QUEUED(accepted[i]).TaskQueued? && QUEUED(accepted[i]).id == accepted[i].id {
      QueuedEventSays(accepted[i]);
    }
  }

  /** What is reported of round `k`. */
  function OneRound(env: Surroundings, k: nat, round: Round): seq<Event> {
    ReviewEvents(env, k, round.task) + DispatchEvents(round.task, Judged(env, k, round.task), round.accepted)
  }

  /** A task's start, what the worker made of it, and what the judge made of that. */
  lemma ReviewEventsSay(env: Surroundings, k: nat, t: Task)
    ensures var found := env.execute(k, t);
            var e := ReviewEvents(env, k, t);
            && |e| == 3 && e[0].TaskStarted? && e[1].WorkerResult? && e[2].JudgeResult?
            && e[0].id == e[1].id == e[2].id == t.id && e[0].targetArea == t.targetArea && e[0].depth == t.depth
            && e[1].outcome == found.outcome && e[2].outcome == env.review(k, t, found).outcome
  {
  }

  function ReportOf(env: Surroundings): (nat, Round) -> seq<Event> {
    (k: nat, round: Round) => OneRound(env, k, round)
  }

  /** What is reported at the end of a run. */
  function Ending(result: ResearchResult): seq<Event> {
    (if result.answered then [AnswerFound(result.answer)] else []) +
    [Complete(result.answered, result.reason, result.iterationsRun)]
  }

  /** The whole report of a run but for its ending. */
  function RunLog(env: Surroundings, question: string, keywords: seq<string>, seeds: seq<Task>,
                  rounds: seq<Round>): seq<Event> {
    [Question(question), KeywordsExtracted(keywords)] + EventsFor(QUEUED, seeds) + RoundEvents(ReportOf(env), rounds)
  }

  lemma EndsOfLog(opening: seq<Event>, middle: seq<Event>, ending: seq<Event>)
    requires |opening| == 2 && 1 <= |ending| <= 2
    ensures var (log, n) := (opening + middle + ending, |opening| + |middle| + |ending|);
            && |log| == n && log[0] == opening[0] && log[1] == opening[1] && log[n - 1] == ending[|ending| - 1]
            && (|ending| == 2 ==> log[n - 2] == ending[0])
  {
  }

  /** The log opens with the question and its keywords, and ends with the answer, if there is
      one, and the verdict. */
  lemma LogSays(env: Surroundings, question: string, keywords: seq<string>, seeds: seq<Task>, rounds: seq<Round>,
                result: ResearchResult)
    ensures var log := RunLog(env, question, keywords, seeds, rounds) + Ending(result);
            var last := |log| - 1;
            && last >= 2 && log[0].Question? && log[0].question == question
            && log[1].KeywordsExtracted? && log[1].keywords == keywords
            && log[last].Complete? && log[last].answered == result.answered && log[last].reason == result.reason
            && log[last].iterations == result.iterationsRun
            && (result.answered ==> last >= 3 && log[last - 1].AnswerFound? && log[last - 1].answer == result.answer)
  {
    var opening := [Question(question), KeywordsExtracted(keywords)];
    var middle := EventsFor(QUEUED, seeds) + RoundEvents(ReportOf(env), rounds);
    assert RunLog(env, question, keywords, seeds, rounds) == opening + middle;
    EndsOfLog(opening, middle, Ending(result));
  }

  /** Without seeds nothing is reported between the opening and the ending. */
  lemma NothingToReport(env: Surroundings, question: string, keywords: seq<string>)
    ensures RunLog(env, question, keywords, [], []) == [Question(question), KeywordsExtracted(keywords)]
  {
  }

  lemma SuccessesGrow(env: Surroundings, rounds: seq<Round>, r: Round)
    ensures var finding := Judged(env, |rounds|, r.task);
            Successes(env, rounds + [r])
              == Successes(env, rounds) + if finding.outcome == Success then [finding] else []
  {
    assert (rounds + [r])[..|rounds|] == rounds;
  }

  lemma {:induction false} SuccessesExist(env: Surroundings, rounds: seq<Round>)
    ensures Successes(env, rounds) != [] <==>
              exists k | 0 <= k < |rounds| :: Judged(env, k, rounds[k].task).outcome == Success
  {
    if rounds != [] {
      var n := |rounds| - 1;
      SuccessesExist(env, rounds[..n]);
      forall k | 0 <= k < n ensures rounds[..n][k] == rounds[k] {}
    }
  }

  // ---------- The report obeys the protocol ----------

  lemma {:induction false} ReadConcat(read: Protocol, r: Reader, a: seq<Event>, b: seq<Event>)
    requires ReadFrom(read, r, a).Some?
    ensures ReadFrom(read, r, a + b) == ReadFrom(read, ReadFrom(read, r, a).value, b)
  {
    if b == [] {
      assert a + b == a;
    } else {
      var n := |b| - 1;
      assert (a + b)[..|a + b| - 1] == a + b[..n];
      ReadConcat(read, r, a, b[..n]);
    }
  }

  /** The reader is where tasks of this kind may be queued. */
  ghost predicate MayQueue(r: Reader, t: Task) {
    || (r.phase.Seeding? && t.parentId == "" && t.depth == 0)
    || (r.phase.Spreading? && t.parentId == r.phase.task.id && t.depth == r.phase.task.depth + 1)
  }

  /** What reading queued tasks does. */
  ghost function WithQueued(r: Reader, tasks: seq<Task>): Reader {
    r.(pending := r.pending + Refs(tasks), areas := r.areas + Areas(tasks))
  }

  lemma ReadQueuedEvent(r: Reader, tasks: seq<Task>, i: nat, maxIterations: int)
    requires i < |tasks| && MayQueue(r, tasks[i])
    requires DistinctAreas(tasks) && Areas(tasks) !! r.areas
    ensures Read(WithQueued(r, tasks[..i]), QueuedEvent(tasks[i]), maxIterations) == Some(WithQueued(r, tasks[..i + 1]))
  {
    var before, t := tasks[..i], tasks[i];
    assert tasks[..i + 1] == before + [t];
    assert Refs(before + [t]) == Refs(before) + [Ref(t)];
    AreasConcat(before, [t]);
    assert t in tasks;
    assert r.pending + Refs(before) + [Ref(t)] == r.pending + Refs(before + [t]);
    assert r.areas + Areas(before) + {t.targetArea} == r.areas + Areas(before + [t]);
  }

  lemma {:induction false} ReadEach(read: Protocol, r: Reader, tasks: seq<Task>, n: nat)
    requires n <= |tasks|
    requires forall i: nat {:trigger tasks[i]} | i < |tasks| ::
               read(WithQueued(r, tasks[..i]), QueuedEvent(tasks[i])) == Some(WithQueued(r, tasks[..i + 1]))
    ensures ReadFrom(read, r, EventsFor(QUEUED, tasks[..n])) == Some(WithQueued(r, tasks[..n]))
  {
    if n == 0 {
      assert WithQueued(r, tasks[..0]) == r;
    } else {
      ReadEach(read, r, tasks, n - 1);
      assert tasks[..n][..n - 1] == tasks[..n - 1] && tasks[..n][n - 1] == tasks[n - 1];
    }
  }

  /** Tasks that are new may be queued where their kind may be. */
  lemma ReadQueuedEvents(r: Reader, tasks: seq<Task>, maxIterations: int)
    requires forall t <- tasks :: MayQueue(r, t)
    requires DistinctAreas(tasks) && Areas(tasks) !! r.areas
    ensures ReadFrom(ProtocolOf(maxIterations), r, EventsFor(QUEUED, tasks)) == Some(WithQueued(r, tasks))
  {
    var read := ProtocolOf(maxIterations);
    forall i: nat | i < |tasks|
      ensures read(WithQueued(r, tasks[..i]), QueuedEvent(tasks[i])) == Some(WithQueued(r, tasks[..i + 1]))
    {
      ReadQueuedEvent(r, tasks, i, maxIterations);
    }
    ReadEach(read, r, tasks, |tasks|);
    assert tasks[..|tasks|] == tasks;
  }

  lemma ReadThree(read: Protocol, r: Reader, a: Event, b: Event, c: Event, r1: Reader, r2: Reader, r3: Reader)
    requires read(r, a) == Some(r1) && read(r1, b) == Some(r2) && read(r2, c) == Some(r3)
    ensures ReadFrom(read, r, [a, b, c]) == Some(r3)
  {
    assert [a, b, c][..2] == [a, b] && [a, b][..1] == [a] && [a][..0] == [];
    assert ReadFrom(read, r, [a]) == Some(r1);
    assert ReadFrom(read, r, [a, b]) == Some(r2);
  }

  lemma ReadTwo(read: Protocol, r: Reader, a: Event, b: Event, r1: Reader, r2: Reader)
    requires read(r, a) == Some(r1) && read(r1, b) == Some(r2)
    ensures ReadFrom(read, r, [a, b]) == Some(r2)
  {
    assert [a, b][..1] == [a] && [a][..0] == [];
    assert ReadFrom(read, r, [a]) == Some(r1);
  }

  lemma ReadOne(read: Protocol, r: Reader, a: Event)
    ensures ReadFrom(read, r, [a]) == read(r, a)
  {
    assert [a][..0] == [];
  }

  /** What reading a review does. */
  function WithReviewed(r: Reader, t: Task, finding: Finding): Reader
    requires r.pending != []
  {
    Reader(AfterReview(t, finding), r.pending[1..], r.areas, r.starts + 1,
           r.successes + if finding.outcome == Success then 1 else 0)
  }

  lemma ReadReview(r: Reader, env: Surroundings, k: nat, t: Task, maxIterations: int)
    requires BetweenTasks(r.phase) && r.starts < maxIterations && r.pending != [] && r.pending[0] == Ref(t)
    ensures ReadFrom(ProtocolOf(maxIterations), r, ReviewEvents(env, k, t))
            == Some(WithReviewed(r, t, Judged(env, k, t)))
  {
    var e := ReviewEvents(env, k, t);
    var r1 := r.(phase := Running(Ref(t)), pending := r.pending[1..], starts := r.starts + 1);
    var r2 := r1.(phase := Judging(Ref(t)));
    ReadThree(ProtocolOf(maxIterations), r, e[0], e[1], e[2], r1, r2, WithReviewed(r, t, Judged(env, k, t)));
  }

  /** What reading a dispatch does: only the progress event changes the phase. */
  ghost function WithDispatched(r: Reader, finding: Finding, accepted: seq<Task>): Reader {
    var queued := WithQueued(r, accepted);
    if finding.outcome == Success then queued.(phase := Idle) else queued
  }

  lemma ReadDispatch(r: Reader, t: Task, finding: Finding, accepted: seq<Task>, maxIterations: int)
    requires r.phase == AfterReview(t, finding)
    requires finding.outcome != PartialWithDirections ==> accepted == []
    requires forall c <- accepted :: c.parentId == t.id && c.depth == t.depth + 1
    requires DistinctAreas(accepted) && Areas(accepted) !! r.areas
    ensures ReadFrom(ProtocolOf(maxIterations), r, DispatchEvents(t, finding, accepted))
         == Some(WithDispatched(r, finding, accepted))
    ensures BetweenTasks(WithDispatched(r, finding, accepted).phase)
  {
    if finding.outcome == Success {
      ReadOne(ProtocolOf(maxIterations), r, AnswerProgress(t.id, finding.summary));
      assert WithQueued(r, []) == r;
    } else {
      ReadQueuedEvents(r, accepted, maxIterations);
    }
  }

  /** A reader between two tasks has seen the run as it is. */
  ghost predicate Sees(r: Reader, env: Surroundings, seeds: seq<Task>, rounds: seq<Round>) {
    && BetweenTasks(r.phase)
    && r.pending == Refs(Waiting(seeds, rounds)) && r.areas == Areas(History(seeds, rounds))
    && r.starts == |rounds| && r.successes == |Successes(env, rounds)|
  }

  /** Reading what one round reports. */
  lemma ReadRoundEvents(r: Reader, env: Surroundings, k: nat, t: Task, accepted: seq<Task>, maxIterations: int)
    requires BetweenTasks(r.phase) && r.starts < maxIterations && r.pending != [] && r.pending[0] == Ref(t)
    requires Judged(env, k, t).outcome != PartialWithDirections ==> accepted == []
    requires forall c <- accepted :: c.parentId == t.id && c.depth == t.depth + 1
    requires DistinctAreas(accepted) && Areas(accepted) !! r.areas
    ensures var r' := WithDispatched(WithReviewed(r, t, Judged(env, k, t)), Judged(env, k, t), accepted);
            && ReadFrom(ProtocolOf(maxIterations), r,
                        ReviewEvents(env, k, t) + DispatchEvents(t, Judged(env, k, t), accepted)) == Some(r')
            && BetweenTasks(r'.phase)
  {
    var finding := Judged(env, k, t);
    ReadReview(r, env, k, t, maxIterations);
    ReadDispatch(WithReviewed(r, t, finding), t, finding, accepted, maxIterations);
    ReadConcat(ProtocolOf(maxIterations), r, ReviewEvents(env, k, t), DispatchEvents(t, finding, accepted));
  }

  /** A round offers new tasks one level below its own. */
  lemma RoundIsNew(seeds: seq<Task>, rounds: seq<Round>, round: Round)
    requires GoodSeeds(seeds) && IsRun(seeds, rounds) && RoundFollows(History(seeds, rounds), |rounds|, round)
    ensures DistinctAreas(round.accepted) && Areas(round.accepted) !! Areas(History(seeds, rounds))
    ensures forall c <- round.accepted :: c.parentId == round.task.id && c.depth == round.task.depth + 1
    ensures round.directions == [] ==> round.accepted == []
    ensures Refs(Waiting(seeds, rounds)) != [] && Refs(Waiting(seeds, rounds))[0] == Ref(round.task)
  {
    var history := History(seeds, rounds);
    AcceptIsNew(Areas(history), round.directions);
    assert Waiting(seeds, rounds)[0] == history[|rounds|];
  }

  lemma PendingAdvances(history: seq<Task>, n: nat, accepted: seq<Task>)
    requires n < |history|
    ensures Refs(history[n..])[1..] + Refs(accepted) == Refs((history + accepted)[n + 1..])
  {
  }

  /** What a round changes is what reading it changes. */
  lemma RoundIsSeen(r: Reader, env: Surroundings, seeds: seq<Task>, rounds: seq<Round>, round: Round)
    requires IsRun(seeds, rounds) && RoundFollows(History(seeds, rounds), |rounds|, round)
    requires round.directions == OffersOf(env)(|rounds|, round.task) && Obeys(OffersOf(env), rounds)
    requires Sees(r, env, seeds, rounds) && r.pending != []
    ensures var finding := Judged(env, |rounds|, round.task);
            var r' := WithDispatched(WithReviewed(r, round.task, finding), finding, round.accepted);
            BetweenTasks(r'.phase) ==> Sees(r', env, seeds, rounds + [round])
  {
    var history := History(seeds, rounds);
    RunAppend(seeds, rounds, round);
    SuccessesGrow(env, rounds, round);
    PendingAdvances(history, |rounds|, round.accepted);
    AreasConcat(history, round.accepted);
  }

  /** Reading one more round. */
  lemma ReadRound(r: Reader, env: Surroundings, seeds: seq<Task>, rounds: seq<Round>, round: Round, maxIterations: int)
    returns (r': Reader)
    requires GoodSeeds(seeds) && IsRun(seeds, rounds) && RoundFollows(History(seeds, rounds), |rounds|, round)
    requires round.directions == OffersOf(env)(|rounds|, round.task) && Obeys(OffersOf(env), rounds)
    requires Sees(r, env, seeds, rounds) && |rounds| < maxIterations
    ensures ReadFrom(ProtocolOf(maxIterations), r, OneRound(env, |rounds|, round)) == Some(r')
    ensures Sees(r', env, seeds, rounds + [round])
  {
    var finding := Judged(env, |rounds|, round.task);
    RoundIsNew(seeds, rounds, round);
    ReadRoundEvents(r, env, |rounds|, round.task, round.accepted, maxIterations);
    RoundIsSeen(r, env, seeds, rounds, round);
    r' := WithDispatched(WithReviewed(r, round.task, finding), finding, round.accepted);
  }

  lemma DropRound(env: Surroundings, seeds: seq<Task>, rounds: seq<Round>) returns (earlier: seq<Round>, round: Round)
    requires rounds != [] && IsRun(seeds, rounds) && Obeys(OffersOf(env), rounds)
    ensures rounds == earlier + [round] && IsRun(seeds, earlier) && Obeys(OffersOf(env), earlier)
    ensures RoundFollows(History(seeds, earlier), |earlier|, round)
    ensures round.directions == OffersOf(env)(|earlier|, round.task)
  {
    var n := |rounds| - 1;
    earlier, round := rounds[..n], rounds[n];
  }

  lemma RunLogGrows(env: Surroundings, question: string, keywords: seq<string>, seeds: seq<Task>, rounds: seq<Round>,
                    round: Round)
    ensures RunLog(env, question, keywords, seeds, rounds + [round]) ==
            RunLog(env, question, keywords, seeds, rounds) + OneRound(env, |rounds|, round)
  {
    RoundEventsGrow([Question(question), KeywordsExtracted(keywords)] + EventsFor(QUEUED, seeds),
                    ReportOf(env), rounds, round);
  }

  lemma OneMoreRoundIsRead(env: Surroundings, question: string, keywords: seq<string>, seeds: seq<Task>,
                           rounds: seq<Round>, round: Round, before: Reader, maxIterations: int) returns (r: Reader)
    requires GoodSeeds(seeds) && IsRun(seeds, rounds) && RoundFollows(History(seeds, rounds), |rounds|, round)
    requires round.directions == OffersOf(env)(|rounds|, round.task) && Obeys(OffersOf(env), rounds)
    requires Sees(before, env, seeds, rounds) && |rounds| < maxIterations
    requires ReadFrom(ProtocolOf(maxIterations), FIRST, RunLog(env, question, keywords, seeds, rounds)) == Some(before)
    ensures ReadFrom(ProtocolOf(maxIterations), FIRST, RunLog(env, question, keywords, seeds, rounds + [round]))
            == Some(r)
    ensures Sees(r, env, seeds, rounds + [round])
  {
    var log := RunLog(env, question, keywords, seeds, rounds);
    r := ReadRound(before, env, seeds, rounds, round, maxIterations);
    RunLogGrows(env, question, keywords, seeds, rounds, round);
    ReadConcat(ProtocolOf(maxIterations), FIRST, log, OneRound(env, |rounds|, round));
  }

  lemma SeedsAreRead(env: Surroundings, question: string, keywords: seq<string>, seeds: seq<Task>, maxIterations: int)
    returns (r: Reader)
    requires GoodSeeds(seeds) && forall t <- seeds :: t.parentId == ""
    ensures ReadFrom(ProtocolOf(maxIterations), FIRST, RunLog(env, question, keywords, seeds, [])) == Some(r)
    ensures Sees(r, env, seeds, [])
  {
    var read := ProtocolOf(maxIterations);
    var opening := [Question(question), KeywordsExtracted(keywords)];
    var asked := FIRST.(phase := Asked);
    var seeding := FIRST.(phase := Seeding);
    ReadTwo(read, FIRST, opening[0], opening[1], asked, seeding);
    ReadQueuedEvents(seeding, seeds, maxIterations);
    ReadConcat(read, FIRST, opening, EventsFor(QUEUED, seeds));
    r := WithQueued(seeding, seeds);
    assert RunLog(env, question, keywords, seeds, []) == opening + EventsFor(QUEUED, seeds);
    assert seeds[0..] == seeds;
  }

  /** The report of a run so far is accepted, and its reader has seen the run as it is. */
  lemma {:induction false} RunIsRead(env: Surroundings, question: string, keywords: seq<string>,
                                     seeds: seq<Task>, rounds: seq<Round>, maxIterations: int) returns (r: Reader)
    requires GoodSeeds(seeds) && forall t <- seeds :: t.parentId == ""
    requires IsRun(seeds, rounds) && Obeys(OffersOf(env), rounds) && (rounds != [] ==> |rounds| <= maxIterations)
    ensures ReadFrom(ProtocolOf(maxIterations), FIRST, RunLog(env, question, keywords, seeds, rounds)) == Some(r)
    ensures Sees(r, env, seeds, rounds)
    decreases |rounds|
  {
    if rounds == [] {
      r := SeedsAreRead(env, question, keywords, seeds, maxIterations);
    } else {
      var earlier, round := DropRound(env, seeds, rounds);
      var before := RunIsRead(env, question, keywords, seeds, earlier, maxIterations);
      r := OneMoreRoundIsRead(env, question, keywords, seeds, earlier, round, before, maxIterations);
    }
  }

  /** How a run ends: with the answer iff something succeeded, and with a reason that tells
      whether and why tasks were left waiting. */
  ghost predicate Ends(env: Surroundings, seeds: seq<Task>, rounds: seq<Round>, result: ResearchResult,
                       maxIterations: int) {
    && result.iterationsRun == |rounds| && result.successfulFindings == Successes(env, rounds)
    && (result.answered <==> result.successfulFindings != [])
    && (result.answered <==> exists k | 0 <= k < |rounds| :: Judged(env, k, rounds[k].task).outcome == Success)
    && result.answer == (if result.answered then env.synthesize(result.successfulFindings) else "")
    && (result.reason == NoDirection <==> seeds == [])
    && (result.reason == Drained ==> result.answered) && (result.reason == DrainedWithoutSuccess ==> !result.answered)
    && (result.reason == MaxIterations ==> |rounds| >= maxIterations)
    && (result.reason == WallClock ==> |rounds| < maxIterations && env.clockExpired(|rounds|))
    && (result.reason in {MaxIterations, WallClock} <==> Waiting(seeds, rounds) != [])
  }

  /** What the loop leaves behind makes the end of a run. */
  lemma RunEnds(env: Surroundings, seeds: seq<Task>, rounds: seq<Round>, queue: seq<Task>, covered: set<string>,
                limit: Option<Reason>, result: ResearchResult, maxIterations: int)
    requires seeds != [] && RunState(seeds, rounds, queue, covered)
    requires result.iterationsRun == |rounds| && result.successfulFindings == Successes(env, rounds)
    requires result.answered <==> result.successfulFindings != []
    requires result.answer == if result.answered then env.synthesize(result.successfulFindings) else ""
    requires limit.None? <==> queue == []
    requires limit.None? ==> result.reason == if result.answered then Drained else DrainedWithoutSuccess
    requires limit.Some? ==> result.reason == limit.value && limit.value in {MaxIterations, WallClock}
    requires result.reason == MaxIterations ==> |rounds| >= maxIterations
    requires result.reason == WallClock ==> |rounds| < maxIterations && env.clockExpired(|rounds|)
    ensures Ends(env, seeds, rounds, result, maxIterations)
  {
    SuccessesExist(env, rounds);
  }

  lemma CompleteIsRead(r: Reader, result: ResearchResult, maxIterations: int)
    requires if result.answered then r.phase.Answered? else BetweenTasks(r.phase) && r.successes == 0
    requires result.iterationsRun == r.starts
    requires result.reason == MaxIterations ==> r.starts >= maxIterations
    requires result.reason in {MaxIterations, WallClock} || r.pending == []
    ensures Read(r, Complete(result.answered, result.reason, result.iterationsRun), maxIterations)
            == Some(r.(phase := Done))
  {
  }

  lemma EndingIsRead(r: Reader, result: ResearchResult, maxIterations: int)
    requires BetweenTasks(r.phase) && result.iterationsRun == r.starts && (result.answered <==> r.successes > 0)
    requires result.reason == MaxIterations ==> r.starts >= maxIterations
    requires result.reason in {MaxIterations, WallClock} || r.pending == []
    ensures ReadFrom(ProtocolOf(maxIterations), r, Ending(result)) == Some(r.(phase := Done))
  {
    var read := ProtocolOf(maxIterations);
    var complete := Complete(result.answered, result.reason, result.iterationsRun);
    if result.answered {
      var answered := r.(phase := Answered);
      assert read(r, AnswerFound(result.answer)) == Some(answered);
      CompleteIsRead(answered, result, maxIterations);
      assert Ending(result) == [AnswerFound(result.answer), complete];
      ReadTwo(read, r, AnswerFound(result.answer), complete, answered, r.(phase := Done));
    } else {
      CompleteIsRead(r, result, maxIterations);
      assert Ending(result) == [complete];
      ReadOne(read, r, complete);
    }
  }

  /** Every finished run's report obeys the protocol from its first event to its last. */
  lemma ReportObeysProtocol(env: Surroundings, question: string, keywords: seq<string>, seeds: seq<Task>,
                            rounds: seq<Round>, result: ResearchResult, maxIterations: int)
    requires GoodSeeds(seeds) && forall t <- seeds :: t.parentId == ""
    requires IsRun(seeds, rounds) && Obeys(OffersOf(env), rounds) && (rounds != [] ==> |rounds| <= maxIterations)
    requires Ends(env, seeds, rounds, result, maxIterations)
    ensures var r := ReadLog(RunLog(env, question, keywords, seeds, rounds) + Ending(result), maxIterations);
            && r.Some? && r.value.phase.Done? && r.value.starts == |rounds|
            && r.value.pending == Refs(Waiting(seeds, rounds))
  {
    var log := RunLog(env, question, keywords, seeds, rounds);
    var r := RunIsRead(env, question, keywords, seeds, rounds, maxIterations);
    EndingIsRead(r, result, maxIterations);
    ReadConcat(ProtocolOf(maxIterations), FIRST, log, Ending(result));
  }
}

/** The edit loop: the same search as the research loop, without a judge. Each finding's edits
    are either proposed (dry run) or handed to the applier at once. */
module EditEngines {
  import opened EventSinks
  import opened Search
  import opened TaskQueues

  datatype EditOutcome = Success | NoChangeNeeded | PartialWithDirections

  datatype ProposedEdit = ProposedEdit(path: string, newContent: string, description: string)

  datatype EditFinding = EditFinding(outcome: EditOutcome, edits: seq<ProposedEdit>, suggestedDirections: seq<Task>)

  datatype ApplyOutcome = ApplyOutcome(writtenPaths: seq<string>, rejectedPaths: seq<string>, errors: seq<string>) {
    function Plus(other: ApplyOutcome): ApplyOutcome {
      ApplyOutcome(writtenPaths + other.writtenPaths, rejectedPaths + other.rejectedPaths, errors + other.errors)
    }
  }

  const NOTHING := ApplyOutcome([], [], [])

  datatype Reason = NoTarget | MaxIterations | WallClock | Drained

  datatype Rejection = EscapesRoot | WriteError

  datatype EditEvent =
    | TaskGiven(task: string)
    | KeywordsExtracted(keywords: seq<string>)
    | TaskQueued(id: string, parentId: string, targetArea: string, researchGoal: string, depth: int, repeatCount: nat)
    | TaskStarted(id: string, targetArea: string, depth: int)
    | EditResult(id: string, outcome: EditOutcome)
    | EditApplied(id: string, path: string)
    | EditRejected(id: string, path: string, rejection: Rejection)
    | EditProposed(id: string, path: string, description: string)
    | Complete(applied: bool, reason: Reason, iterations: int)

  /** What the loop calls and cannot foresee, by iteration. */
  datatype Surroundings = Surroundings(
    edit: (nat, Task) -> EditFinding,
    applyEdits: (nat, seq<ProposedEdit>) -> ApplyOutcome,
    clockExpired: nat -> bool,
    decimal: nat -> string)

  datatype EditRunResult = EditRunResult(
    anyEdits: bool, proposedEdits: seq<ProposedEdit>, applyOutcome: ApplyOutcome, iterationsRun: int, reason: Reason)

  // ---------- What a run does ----------

  function SeedInitialTasks(task: string, candidateAreas: seq<string>, decimal: nat -> string): seq<Task> {
    SeedTasks("edit-seed", task,
              "Made the change described in the task, fully and correctly, across every file that needed it.",
              candidateAreas, decimal)
  }

  /** The seed of a run asks for its task over the first 25 candidate areas. */
  lemma SeedSays(task: string, candidateAreas: seq<string>, decimal: nat -> string)
    ensures var seeds := SeedInitialTasks(task, candidateAreas, decimal);
            && (candidateAreas == [] <==> seeds == [])
            && (candidateAreas != [] ==>
                  && |seeds| == 1 && seeds[0].id == "edit-seed" && seeds[0].researchGoal == task
                  && seeds[0].successCriteria
                     == "Made the change described in the task, fully and correctly, across every file that needed it."
                  && seeds[0].repeatable && seeds[0].depth == 0 && seeds[0].parentId == ""
                  && (|candidateAreas| <= 25 ==> seeds[0].repeatTargets == candidateAreas)
                  && (|candidateAreas| > 25 ==> seeds[0].repeatTargets == candidateAreas[..25]))
  {
  }

  /** The directions the loop offers to the queue after a finding. */
  function Spread(t: Task, finding: EditFinding): seq<Task> {
    Offered(t, finding.outcome == PartialWithDirections, finding.suggestedDirections)
  }

  function OffersOf(env: Surroundings): (nat, Task) -> seq<Task> {
    (k: nat, t: Task) => Spread(t, env.edit(k, t))
  }

  /** The areas a round offers are those its finding suggests, if it is partial. */
  lemma SuggestionsAreFollowed(env: Surroundings, rounds: seq<Round>, successors: string -> set<string>)
    requires Obeys(OffersOf(env), rounds)
    requires forall k | 0 <= k < |rounds| ::
               var finding := env.edit(k, rounds[k].task);
               successors(rounds[k].task.targetArea) ==
                 if finding.outcome == PartialWithDirections then Areas(finding.suggestedDirections) else {}
    ensures Follows(rounds, successors)
  {
    forall k | 0 <= k < |rounds| ensures Areas(rounds[k].directions) == successors(rounds[k].task.targetArea) {
      var finding := env.edit(k, rounds[k].task);
      OfferedAreas(rounds[k].task, finding.outcome == PartialWithDirections, finding.suggestedDirections);
    }
  }

  /** The edits of a finding that the engine takes over. */
  function Usable(finding: EditFinding): seq<ProposedEdit> {
    if finding.outcome == NoChangeNeeded then [] else finding.edits
  }

  /** All usable edits of the rounds, in order. */
  ghost function AllEdits(env: Surroundings, rounds: seq<Round>): seq<ProposedEdit> {
    if rounds == [] then []
    else
      var k := |rounds| - 1;
      AllEdits(env, rounds[..k]) + Usable(env.edit(k, rounds[k].task))
  }

  /** The edits of each round stand after those of the rounds before, unless its area needed no
      change. */
  lemma {:induction false} EditsAt(env: Surroundings, rounds: seq<Round>, k: nat)
    requires k < |rounds|
    ensures var (before, after) := (AllEdits(env, rounds[..k]), AllEdits(env, rounds[..k + 1]));
            var finding := env.edit(k, rounds[k].task);
            && after <= AllEdits(env, rounds) && (k == 0 ==> before == [])
            && (finding.outcome in {Success, PartialWithDirections} ==> after == before + finding.edits)
            && (finding.outcome == NoChangeNeeded ==> after == before)
  {
    var n := |rounds| - 1;
    if k < n {
      EditsAt(env, rounds[..n], k);
      assert rounds[..n][..k] == rounds[..k] && rounds[..n][..k + 1] == rounds[..k + 1];
    } else {
      assert rounds[..k + 1] == rounds;
    }
  }

  /** What the applier does in a round: it is called only if there are edits. */
  function Applied(env: Surroundings, k: nat, finding: EditFinding): ApplyOutcome {
    if Usable(finding) == [] then NOTHING else env.applyEdits(k, Usable(finding))
  }

  /** Whoever was called says what was written, rejected or failed. */
  lemma AppliedSays(env: Surroundings, k: nat, finding: EditFinding)
    ensures finding.outcome == NoChangeNeeded || finding.edits == [] ==>
              Applied(env, k, finding) == ApplyOutcome([], [], [])
    ensures finding.outcome in {Success, PartialWithDirections} && finding.edits != [] ==>
              Applied(env, k, finding) == env.applyEdits(k, finding.edits)
  {
  }

  /** What the applier reported over the rounds. */
  ghost function AllApplied(env: Surroundings, rounds: seq<Round>): ApplyOutcome {
    if rounds == [] then NOTHING
    else
      var k := |rounds| - 1;
      AllApplied(env, rounds[..k]).Plus(Applied(env, k, env.edit(k, rounds[k].task)))
  }

  /** What has been collected after the rounds: proposals in a dry run, reports otherwise. */
  ghost predicate Collected(apply: bool, env: Surroundings, rounds: seq<Round>,
                            proposed: seq<ProposedEdit>, applied: ApplyOutcome) {
    && proposed == (if apply then [] else AllEdits(env, rounds))
    && applied == (if apply then AllApplied(env, rounds) else NOTHING)
  }

  /** What one finding adds to the collection. */
  ghost predicate Takes(apply: bool, env: Surroundings, k: nat, finding: EditFinding, proposed: seq<ProposedEdit>,
                        applied: ApplyOutcome, proposed': seq<ProposedEdit>, applied': ApplyOutcome) {
    && proposed' == proposed + (if apply then [] else Usable(finding))
    && applied' == applied.Plus(if apply then Applied(env, k, finding) else NOTHING)
  }

  lemma CollectedGrows(apply: bool, env: Surroundings, rounds: seq<Round>, r: Round, proposed: seq<ProposedEdit>,
                       applied: ApplyOutcome, proposed': seq<ProposedEdit>, applied': ApplyOutcome)
    requires Collected(apply, env, rounds, proposed, applied)
    requires Takes(apply, env, |rounds|, env.edit(|rounds|, r.task), proposed, applied, proposed', applied')
    ensures Collected(apply, env, rounds + [r], proposed', applied')
  {
    assert (rounds + [r])[..|rounds|] == rounds;
  }

  // ---------- What a run reports ----------

  const QUEUED: Task -> EditEvent :=
    (t: Task) => TaskQueued(t.id, t.parentId, t.targetArea, t.researchGoal, t.depth, |t.repeatTargets|)

  /** The event that reports a queued task says what the task is. */
  lemma QueuedEventSays(t: Task)
    ensures var e := QUEUED(t);
            && e.TaskQueued? && e.id == t.id && e.parentId == t.parentId && e.targetArea == t.targetArea
            && e.researchGoal == t.researchGoal && e.depth == t.depth && e.repeatCount == |t.repeatTargets|
  {
  }

  function AppliedEvent(id: string): string -> EditEvent {
    path => EditApplied(id, path)
  }

  function RejectedEvent(id: string, rejection: Rejection): string -> EditEvent {
    path => EditRejected(id, path, rejection)
  }

  function ProposedEvent(id: string): ProposedEdit -> EditEvent {
    (e: ProposedEdit) => EditProposed(id, e.path, e.description)
  }

  function OutcomeEvents(id: string, applied: ApplyOutcome): seq<EditEvent> {
    EventsFor(AppliedEvent(id), applied.writtenPaths) +
    EventsFor(RejectedEvent(id, EscapesRoot), applied.rejectedPaths) +
    EventsFor(RejectedEvent(id, WriteError), applied.errors)
  }

  /** Every path is reported, as written, then as rejected, then as failed. */
  lemma OutcomeEventsSay(id: string, applied: ApplyOutcome)
    ensures var (e, w, r) := (OutcomeEvents(id, applied), |applied.writtenPaths|, |applied.rejectedPaths|);
            && |e| == w + r + |applied.errors|
            && (forall i | 0 <= i < w :: e[i] == EditApplied(id, applied.writtenPaths[i]))
            && (forall i | 0 <= i < r :: e[w + i] == EditRejected(id, applied.rejectedPaths[i], EscapesRoot))
            && forall i | 0 <= i < |applied.errors| :: e[w + r + i] == EditRejected(id, applied.errors[i], WriteError)
  {
  }

  /** What is reported of the edits of a finding. */
  function TakeEvents(apply: bool, env: Surroundings, k: nat, t: Task, finding: EditFinding): seq<EditEvent> {
    if apply then OutcomeEvents(t.id, Applied(env, k, finding))
    else EventsFor(ProposedEvent(t.id), Usable(finding))
  }

  /** Every edit is reported as proposed, with its path and description. */
  lemma ProposalEventsSay(env: Surroundings, k: nat, t: Task, finding: EditFinding)
    requires finding.outcome in {Success, PartialWithDirections}
    ensures var e := TakeEvents(false, env, k, t, finding);
            && |e| == |finding.edits|
            && forall i | 0 <= i < |e| ::
                 e[i] == EditProposed(t.id, finding.edits[i].path, finding.edits[i].description)
  {
  }

  function ResultEvents(env: Surroundings, k: nat, t: Task): seq<EditEvent> {
    [TaskStarted(t.id, t.targetArea, t.depth), EditResult(t.id, env.edit(k, t).outcome)]
  }

  /** What is reported of round `k`. */
  function OneRound(apply: bool, env: Surroundings, k: nat, round: Round): seq<EditEvent> {
    ResultEvents(env, k, round.task) +
    (TakeEvents(apply, env, k, round.task, env.edit(k, round.task)) + EventsFor(QUEUED, round.accepted))
  }

  function ReportOf(apply: bool, env: Surroundings): (nat, Round) -> seq<EditEvent> {
    (k: nat, round: Round) => OneRound(apply, env, k, round)
  }

  /** The whole report of a run but for its ending. */
  function RunLog(apply: bool, env: Surroundings, task: string, keywords: seq<string>, seeds: seq<Task>,
                  rounds: seq<Round>): seq<EditEvent> {
    [TaskGiven(task), KeywordsExtracted(keywords)] + EventsFor(QUEUED, seeds) +
    RoundEvents(ReportOf(apply, env), rounds)
  }

  function Ending(result: EditRunResult): EditEvent {
    Complete(result.anyEdits, result.reason, result.iterationsRun)
  }

  /** The log opens with the task and its keywords and ends with the verdict. */
  lemma LogSays(apply: bool, env: Surroundings, task: string, keywords: seq<string>, seeds: seq<Task>,
                rounds: seq<Round>, result: EditRunResult)
    ensures var log := RunLog(apply, env, task, keywords, seeds, rounds) + [Ending(result)];
            var last := |log| - 1;
            && last >= 2 && log[0].TaskGiven? && log[0].task == task
            && log[1].KeywordsExtracted? && log[1].keywords == keywords
            && log[last].Complete? && log[last].applied == result.anyEdits && log[last].reason == result.reason
            && log[last].iterations == result.iterationsRun
  {
    assert RunLog(apply, env, task, keywords, seeds, rounds) ==
           [TaskGiven(task), KeywordsExtracted(keywords)] +
           (EventsFor(QUEUED, seeds) + RoundEvents(ReportOf(apply, env), rounds));
  }

  /** How a run ends: with all edits collected, and with a reason that tells whether and why
      tasks were left waiting. */
  ghost predicate Ends(apply: bool, env: Surroundings, seeds: seq<Task>, rounds: seq<Round>, result: EditRunResult,
                       maxIterations: int) {
    && result.iterationsRun == |rounds|
    && Collected(apply, env, rounds, result.proposedEdits, result.applyOutcome)
    && (result.anyEdits <==> result.proposedEdits != [] || result.applyOutcome.writtenPaths != [])
    && (result.reason == NoTarget <==> seeds == [])
    && (result.reason == MaxIterations ==> |rounds| >= maxIterations)
    && (result.reason == WallClock ==> |rounds| < maxIterations && env.clockExpired(|rounds|))
    && (result.reason in {MaxIterations, WallClock} <==> Waiting(seeds, rounds) != [])
  }

  /** Without seeds nothing is reported between the opening and the ending. */
  lemma NothingToReport(apply: bool, env: Surroundings, task: string, keywords: seq<string>)
    ensures RunLog(apply, env, task, keywords, [], []) == [TaskGiven(task), KeywordsExtracted(keywords)]
  {
  }

  class EditEngine {
    const maxIterations: int
    const apply: bool
    const sink: EventSink<EditEvent>

    constructor (maxIterations: int, apply: bool)
      ensures this.maxIterations == maxIterations && this.apply == apply && fresh(sink)
      ensures sink.queued == QUEUED && sink.log == []
    {
      this.maxIterations, this.apply := maxIterations, apply;
      sink := new EventSink(QUEUED);
    }

    /** Runs the editor on the next task. */
    method Visit(queue: TaskQueue, env: Surroundings, iterations: nat) returns (task: Task, finding: EditFinding)
      requires queue.Valid() && queue.queue != []
      modifies sink, queue
      ensures queue.Valid() && queue.Covered() == old(queue.Covered())
      ensures task == old(queue.queue)[0] && queue.queue == old(queue.queue)[1..]
      ensures finding == env.edit(iterations, task)
      ensures sink.log == old(sink.log) + ResultEvents(env, iterations, task)
    {
      task := queue.Pop();
      sink.Emit(TaskStarted(task.id, task.targetArea, task.depth));
      finding := env.edit(iterations, task);
      sink.Emit(EditResult(task.id, finding.outcome));
      queue.MarkVisited(task.targetArea);
    }

    /** Reports what the applier did. */
    method ReportOutcome(id: string, applied: ApplyOutcome)
      modifies sink
      ensures sink.log == old(sink.log) + OutcomeEvents(id, applied)
    {
      ghost var before := sink.log;
      sink.EmitAll(AppliedEvent(id), applied.writtenPaths);
      sink.EmitAll(RejectedEvent(id, EscapesRoot), applied.rejectedPaths);
      Appended(before, EventsFor(AppliedEvent(id), applied.writtenPaths),
               EventsFor(RejectedEvent(id, EscapesRoot), applied.rejectedPaths));
      ghost var two := EventsFor(AppliedEvent(id), applied.writtenPaths) +
                       EventsFor(RejectedEvent(id, EscapesRoot), applied.rejectedPaths);
      sink.EmitAll(RejectedEvent(id, WriteError), applied.errors);
      Appended(before, two, EventsFor(RejectedEvent(id, WriteError), applied.errors));
    }

    /** The edits of a finding are applied now, or proposed. */
    method Take(env: Surroundings, iterations: nat, task: Task, finding: EditFinding,
                proposed: seq<ProposedEdit>, applied: ApplyOutcome)
      returns (proposed': seq<ProposedEdit>, applied': ApplyOutcome)
      modifies sink
      ensures Takes(apply, env, iterations, finding, proposed, applied, proposed', applied')
      ensures finding.outcome == NoChangeNeeded || finding.edits == [] ==>
                proposed' == proposed && applied' == applied && sink.log == old(sink.log)
      ensures finding.outcome in {Success, PartialWithDirections} && finding.edits != [] && !apply ==>
                proposed' == proposed + finding.edits && applied' == applied
      ensures finding.outcome in {Success, PartialWithDirections} && finding.edits != [] && apply ==>
                var outcome := env.applyEdits(iterations, finding.edits);
                && proposed' == proposed && applied'.writtenPaths == applied.writtenPaths + outcome.writtenPaths
                && applied'.rejectedPaths == applied.rejectedPaths + outcome.rejectedPaths
                && applied'.errors == applied.errors + outcome.errors
      ensures sink.log == old(sink.log) + TakeEvents(apply, env, iterations, task, finding)
    {
      proposed', applied' := proposed, applied;
      if (finding.outcome == Success || finding.outcome == PartialWithDirections) && finding.edits != [] {
        if apply {
          var outcome := env.applyEdits(iterations, finding.edits);
          ReportOutcome(task.id, outcome);
          applied' := applied.Plus(outcome);
        } else {
          sink.EmitAll(ProposedEvent(task.id), finding.edits);
          proposed' := proposed + finding.edits;
        }
      }
    }

    /** Queues the directions of a finding, if it has any. */
    method Dispatch(queue: TaskQueue, task: Task, finding: EditFinding) returns (ghost accepted: seq<Task>)
      requires queue.Valid() && sink.queued == QUEUED
      modifies sink, queue
      ensures queue.Valid()
      ensures accepted == Accept(old(queue.Covered()), Spread(task, finding))
      ensures queue.queue == old(queue.queue) + accepted
      ensures queue.Covered() == old(queue.Covered()) + Areas(accepted)
      ensures sink.log == old(sink.log) + EventsFor(QUEUED, accepted)
    {
      accepted := [];
      if finding.outcome == PartialWithDirections {
        accepted := sink.QueueDirections(queue, task, finding.suggestedDirections);
      }
    }

    /** One iteration on a queue that is not empty, and the round it makes. */
    method RunTask(queue: TaskQueue, env: Surroundings, iterations: nat, proposed: seq<ProposedEdit>,
                   applied: ApplyOutcome)
      returns (proposed': seq<ProposedEdit>, applied': ApplyOutcome, ghost round: Round)
      requires queue.Valid() && queue.queue != [] && sink.queued == QUEUED
      modifies sink, queue
      ensures queue.Valid() && round.task == old(queue.queue)[0]
      ensures round.directions == Spread(round.task, env.edit(iterations, round.task))
      ensures round.accepted == Accept(old(queue.Covered()), round.directions)
      ensures queue.queue == old(queue.queue)[1..] + round.accepted
      ensures queue.Covered() == old(queue.Covered()) + Areas(round.accepted)
      ensures Takes(apply, env, iterations, env.edit(iterations, round.task), proposed, applied, proposed', applied')
      ensures sink.log == old(sink.log) + OneRound(apply, env, iterations, round)
    {
      ghost var before := sink.log;
      var task, finding := Visit(queue, env, iterations);
      ghost var visited := sink.log;
      proposed', applied' := Take(env, iterations, task, finding, proposed, applied);
      ghost var accepted := Dispatch(queue, task, finding);
      ghost var taken := TakeEvents(apply, env, iterations, task, finding);
      Appended(visited, taken, EventsFor(QUEUED, accepted));
      Appended(before, ResultEvents(env, iterations, task), taken + EventsFor(QUEUED, accepted));
      round := Round(task, Spread(task, finding), accepted);
    }

    /** The next iteration of a run. */
    method Iterate(queue: TaskQueue, env: Surroundings, iterations: nat, proposed: seq<ProposedEdit>,
                   applied: ApplyOutcome, ghost seeds: seq<Task>, ghost rounds: seq<Round>,
                   ghost prefix: seq<EditEvent>)
      returns (proposed': seq<ProposedEdit>, applied': ApplyOutcome, ghost round: Round)
      requires queue.Valid() && queue.queue != [] && iterations == |rounds| && sink.queued == QUEUED
      requires RunState(seeds, rounds, queue.queue, queue.Covered()) && Obeys(OffersOf(env), rounds)
      requires Collected(apply, env, rounds, proposed, applied)
      requires sink.log == prefix + RoundEvents(ReportOf(apply, env), rounds)
      modifies sink, queue
      ensures queue.Valid()
      ensures RunState(seeds, rounds + [round], queue.queue, queue.Covered()) && Obeys(OffersOf(env), rounds + [round])
      ensures Collected(apply, env, rounds + [round], proposed', applied')
      ensures sink.log == prefix + RoundEvents(ReportOf(apply, env), rounds + [round])
    {
      ghost var before, covered := queue.queue, queue.Covered();
      proposed', applied', round := RunTask(queue, env, iterations, proposed, applied);
      RunGrows(seeds, rounds, round, before, covered);
      ObeysGrows(OffersOf(env), rounds, round);
      CollectedGrows(apply, env, rounds, round, proposed, applied, proposed', applied');
      RoundEventsGrow(prefix, ReportOf(apply, env), rounds, round);
    }

    /** The loop: until the queue drains or a limit is hit. */
    method RunLoop(queue: TaskQueue, env: Surroundings, ghost seeds: seq<Task>)
      returns (iterations: nat, proposed: seq<ProposedEdit>, applied: ApplyOutcome, reason: Reason,
               ghost rounds: seq<Round>)
      requires queue.Valid() && RunState(seeds, [], queue.queue, queue.Covered()) && sink.queued == QUEUED
      modifies sink, queue
      ensures RunState(seeds, rounds, queue.queue, queue.Covered()) && Obeys(OffersOf(env), rounds)
      ensures Collected(apply, env, rounds, proposed, applied)
      ensures iterations == |rounds| && (rounds != [] ==> |rounds| <= maxIterations)
      ensures sink.log == old(sink.log) + RoundEvents(ReportOf(apply, env), rounds)
      ensures if queue.queue == [] then reason == Drained else reason in {MaxIterations, WallClock}
      ensures reason == MaxIterations ==> iterations >= maxIterations
      ensures reason == WallClock ==> iterations < maxIterations && env.clockExpired(iterations)
    {
      iterations, proposed, applied, reason, rounds := 0, [], NOTHING, Drained, [];
      ghost var prefix := sink.log;
      while !queue.Empty()
        invariant queue.Valid() && iterations == |rounds| && (rounds != [] ==> |rounds| <= maxIterations)
        invariant RunState(seeds, rounds, queue.queue, queue.Covered()) && Obeys(OffersOf(env), rounds)
        invariant Collected(apply, env, rounds, proposed, applied)
        invariant sink.log == prefix + RoundEvents(ReportOf(apply, env), rounds)
        invariant reason == Drained
        decreases maxIterations - iterations
      {
        if iterations >= maxIterations {
          reason := MaxIterations;
          return;
        }
        if env.clockExpired(iterations) {
          reason := WallClock;
          return;
        }
        ghost var round;
        proposed, applied, round := Iterate(queue, env, iterations, proposed, applied, seeds, rounds, prefix);
        rounds := rounds + [round];
        iterations := iterations + 1;
      }
    }

    method Open(task: string, keywords: seq<string>)
      requires sink.log == []
      modifies sink
      ensures sink.log == [TaskGiven(task), KeywordsExtracted(keywords)]
    {
      sink.Emit(TaskGiven(task));
      sink.Emit(KeywordsExtracted(keywords));
    }

    /** The run from its seed tasks on, if there are any. */
    method Pursue(seeds: seq<Task>, env: Surroundings) returns (result: EditRunResult, ghost rounds: seq<Round>)
      requires GoodSeeds(seeds) && seeds != [] && sink.queued == QUEUED
      modifies sink
      ensures IsRun(seeds, rounds) && Obeys(OffersOf(env), rounds) && (rounds != [] ==> |rounds| <= maxIterations)
      ensures sink.log == old(sink.log) + EventsFor(QUEUED, seeds) + RoundEvents(ReportOf(apply, env), rounds) +
              [Ending(result)]
      ensures Ends(apply, env, seeds, rounds, result, maxIterations)
    {
      var queue := new TaskQueue();
      sink.QueueSeeds(queue, seeds);
      RunStarts(seeds);
      var iterations, proposed, applied, reason;
      iterations, proposed, applied, reason, rounds := RunLoop(queue, env, seeds);
      result := EditRunResult(proposed != [] || applied.writtenPaths != [], proposed, applied, iterations, reason);
      sink.Emit(Ending(result));
    }

    /** The run after its keywords are reported. */
    method Edit(task: string, keywords: seq<string>, seeds: seq<Task>, env: Surroundings)
      returns (result: EditRunResult, ghost rounds: seq<Round>)
      requires GoodSeeds(seeds) && sink.queued == QUEUED
      requires sink.log == [TaskGiven(task), KeywordsExtracted(keywords)]
      modifies sink
      ensures IsRun(seeds, rounds) && Obeys(OffersOf(env), rounds) && (rounds != [] ==> |rounds| <= maxIterations)
      ensures sink.log == RunLog(apply, env, task, keywords, seeds, rounds) + [Ending(result)]
      ensures Ends(apply, env, seeds, rounds, result, maxIterations)
    {
      if seeds == [] {
        rounds := [];
        NothingToReport(apply, env, task, keywords);
        result := EditRunResult(false, [], NOTHING, 0, NoTarget);
        sink.Emit(Ending(result));
      } else {
        result, rounds := Pursue(seeds, env);
      }
    }

    /** A whole run. The seeds and the rounds are returned for the specification only. */
    method Run(task: string, keywords: seq<string>, candidateAreas: seq<string>, env: Surroundings)
      returns (result: EditRunResult, ghost seeds: seq<Task>, ghost rounds: seq<Round>)
      requires sink.log == [] && sink.queued == QUEUED
      modifies sink
      ensures seeds == SeedInitialTasks(task, candidateAreas, env.decimal)
      ensures IsRun(seeds, rounds) && Obeys(OffersOf(env), rounds) && (rounds != [] ==> |rounds| <= maxIterations)
      ensures sink.log == RunLog(apply, env, task, keywords, seeds, rounds) + [Ending(result)]
      ensures Ends(apply, env, seeds, rounds, result, maxIterations)
    {
      Open(task, keywords);
      var seedTasks := SeedInitialTasks(task, candidateAreas, env.decimal);
      seeds := seedTasks;
      result, rounds := Edit(task, keywords, seedTasks, env);
    }
  }
}

/** The research loop: pop a task, let the worker investigate and the judge prune, and queue
    the directions that are left. Worker, judge, clock and synthesis are arbitrary. */
module ResearchEngines {
  import opened EventLog
  import opened EventSinks
  import opened Options
  import opened ResearchRuns
  import opened Search
  import opened TaskQueues

  class ResearchEngine {
    const maxIterations: int
    const sink: EventSink<Event>

    constructor (maxIterations: int)
      ensures this.maxIterations == maxIterations && fresh(sink)
      ensures sink.queued == QUEUED && sink.log == []
    {
      this.maxIterations := maxIterations;
      sink := new EventSink(QUEUED);
    }

    /** Runs the worker and the judge on the next task. */
    method Review(queue: TaskQueue, env: Surroundings, iterations: nat) returns (task: Task, finding: Finding)
      requires queue.Valid() && queue.queue != []
      modifies sink, queue
      ensures queue.Valid() && queue.Covered() == old(queue.Covered())
      ensures task == old(queue.queue)[0] && queue.queue == old(queue.queue)[1..]
      ensures finding == Judged(env, iterations, task)
      ensures sink.log == old(sink.log) + ReviewEvents(env, iterations, task)
    {
      task := queue.Pop();
      sink.Emit(TaskStarted(task.id, task.targetArea, task.depth));
      var raw := env.execute(iterations, task);
      sink.Emit(WorkerResult(task.id, raw.outcome));
      finding := env.review(iterations, task, raw);
      sink.Emit(JudgeResult(task.id, finding.outcome));
      queue.MarkVisited(task.targetArea);
    }

    /** Acts on the outcome: report progress, queue the directions, or drop the area. */
    method Dispatch(queue: TaskQueue, task: Task, finding: Finding) returns (ghost accepted: seq<Task>)
      requires queue.Valid() && sink.queued == QUEUED
      modifies sink, queue
      ensures queue.Valid()
      ensures accepted == Accept(old(queue.Covered()), Spread(task, finding))
      ensures queue.queue == old(queue.queue) + accepted
      ensures queue.Covered() == old(queue.Covered()) + Areas(accepted)
      ensures sink.log == old(sink.log) + DispatchEvents(task, finding, accepted)
    {
      accepted := [];
      if finding.outcome == Success {
        sink.Emit(AnswerProgress(task.id, finding.summary));
      } else if finding.outcome == PartialWithDirections {
        accepted := sink.QueueDirections(queue, task, finding.suggestedDirections);
      }
    }

    /** One iteration on a queue that is not empty, and the round it makes. */
    method RunTask(queue: TaskQueue, env: Surroundings, iterations: nat) returns (finding: Finding, ghost round: Round)
      requires queue.Valid() && queue.queue != [] && sink.queued == QUEUED
      modifies sink, queue
      ensures queue.Valid() && round.task == old(queue.queue)[0]
      ensures finding == Judged(env, iterations, round.task) && round.directions == Spread(round.task, finding)
      ensures round.accepted == Accept(old(queue.Covered()), round.directions)
      ensures queue.queue == old(queue.queue)[1..] + round.accepted
      ensures queue.Covered() == old(queue.Covered()) + Areas(round.accepted)
      ensures sink.log == old(sink.log) + OneRound(env, iterations, round)
    {
      var task;
      ghost var before := sink.log;
      task, finding := Review(queue, env, iterations);
      ghost var accepted := Dispatch(queue, task, finding);
      round := Round(task, Spread(task, finding), accepted);
      Appended(before, ReviewEvents(env, iterations, task), DispatchEvents(task, finding, accepted));
    }

    /** The next iteration of a run. */
    method Iterate(queue: TaskQueue, env: Surroundings, iterations: nat, successes: seq<Finding>,
                   ghost seeds: seq<Task>, ghost rounds: seq<Round>, ghost prefix: seq<Event>)
      returns (successes': seq<Finding>, ghost round: Round)
      requires queue.Valid() && queue.queue != [] && iterations == |rounds| && sink.queued == QUEUED
      requires RunState(seeds, rounds, queue.queue, queue.Covered())
      requires Obeys(OffersOf(env), rounds) && successes == Successes(env, rounds)
      requires sink.log == prefix + RoundEvents(ReportOf(env), rounds)
      modifies sink, queue
      ensures queue.Valid()
      ensures RunState(seeds, rounds + [round], queue.queue, queue.Covered())
      ensures Obeys(OffersOf(env), rounds + [round]) && successes' == Successes(env, rounds + [round])
      ensures sink.log == prefix + RoundEvents(ReportOf(env), rounds + [round])
    {
      ghost var before, covered := queue.queue, queue.Covered();
      var finding;
      finding, round := RunTask(queue, env, iterations);
      successes' := successes;
      if finding.outcome == Success {
        successes' := successes + [finding];
      }
      RunGrows(seeds, rounds, round, before, covered);
      ObeysGrows(OffersOf(env), rounds, round);
      SuccessesGrow(env, rounds, round);
      RoundEventsGrow(prefix, ReportOf(env), rounds, round);
    }

    /** The loop: until the queue drains or a limit is hit. */
    method RunLoop(queue: TaskQueue, env: Surroundings, ghost seeds: seq<Task>)
      returns (iterations: nat, successes: seq<Finding>, limit: Option<Reason>, ghost rounds: seq<Round>)
      requires queue.Valid() && RunState(seeds, [], queue.queue, queue.Covered()) && sink.queued == QUEUED
      modifies sink, queue
      ensures RunState(seeds, rounds, queue.queue, queue.Covered())
      ensures Obeys(OffersOf(env), rounds) && successes == Successes(env, rounds)
      ensures iterations == |rounds| && (rounds != [] ==> |rounds| <= maxIterations)
      ensures sink.log == old(sink.log) + RoundEvents(ReportOf(env), rounds)
      ensures limit.None? <==> queue.queue == []
      ensures limit.Some? ==> limit.value in {MaxIterations, WallClock}
      ensures limit == Some(MaxIterations) ==> iterations >= maxIterations
      ensures limit == Some(WallClock) ==> iterations < maxIterations && env.clockExpired(iterations)
    {
      iterations, successes, limit, rounds := 0, [], None, [];
      ghost var prefix := sink.log;
      while !queue.Empty()
        invariant queue.Valid() && RunState(seeds, rounds, queue.queue, queue.Covered())
        invariant Obeys(OffersOf(env), rounds) && successes == Successes(env, rounds)
        invariant iterations == |rounds| && (rounds != [] ==> |rounds| <= maxIterations)
        invariant sink.log == prefix + RoundEvents(ReportOf(env), rounds)
        invariant limit.None?
        decreases maxIterations - iterations
      {
        if iterations >= maxIterations {
          limit := Some(MaxIterations);
          return;
        }
        if env.clockExpired(iterations) {
          limit := Some(WallClock);
          return;
        }
        ghost var round;
        successes, round := Iterate(queue, env, iterations, successes, seeds, rounds, prefix);
        rounds := rounds + [round];
        iterations := iterations + 1;
      }
    }

    /** Ends a run that has no seeds. */
    method GiveUp() returns (result: ResearchResult)
      modifies sink
      ensures result == ResearchResult(false, "", [], 0, NoDirection)
      ensures sink.log == old(sink.log) + Ending(result)
    {
      result := ResearchResult(false, "", [], 0, NoDirection);
      sink.Emit(Complete(false, NoDirection, 0));
    }

    /** Reports the answer, if there is one, and the end of the run. */
    method Finish(env: Surroundings, iterations: nat, successes: seq<Finding>, limit: Option<Reason>)
      returns (result: ResearchResult)
      modifies sink
      ensures sink.log == old(sink.log) + Ending(result)
      ensures result.iterationsRun == iterations && result.successfulFindings == successes
      ensures result.answered <==> successes != []
      ensures result.answer == if result.answered then env.synthesize(successes) else ""
      ensures limit.Some? ==> result.reason == limit.value
      ensures limit.None? ==> result.reason == if successes != [] then Drained else DrainedWithoutSuccess
    {
      var answered := successes != [];
      var reason := match limit
        case Some(l) => l
        case None => if answered then Drained else DrainedWithoutSuccess;
      var answer := "";
      if answered {
        answer := env.synthesize(successes);
        sink.Emit(AnswerFound(answer));
      }
      sink.Emit(Complete(answered, reason, iterations));
      result := ResearchResult(answered, answer, successes, iterations, reason);
    }

    /** The run from its seed tasks on, if there are any. */
    method Pursue(seeds: seq<Task>, env: Surroundings) returns (result: ResearchResult, ghost rounds: seq<Round>)
      requires GoodSeeds(seeds) && seeds != [] && sink.queued == QUEUED
      modifies sink
      ensures IsRun(seeds, rounds) && Obeys(OffersOf(env), rounds) && (rounds != [] ==> |rounds| <= maxIterations)
      ensures sink.log == old(sink.log) + EventsFor(QUEUED, seeds) + RoundEvents(ReportOf(env), rounds) + Ending(result)
      ensures Ends(env, seeds, rounds, result, maxIterations)
    {
      var queue := new TaskQueue();
      sink.QueueSeeds(queue, seeds);
      RunStarts(seeds);
      var iterations, successes, limit;
      iterations, successes, limit, rounds := RunLoop(queue, env, seeds);
      result := Finish(env, iterations, successes, limit);
      RunEnds(env, seeds, rounds, queue.queue, queue.Covered(), limit, result, maxIterations);
    }

    method Open(question: string, keywords: seq<string>)
      requires sink.log == []
      modifies sink
      ensures sink.log == [Question(question), KeywordsExtracted(keywords)]
    {
      sink.Emit(Question(question));
      sink.Emit(KeywordsExtracted(keywords));
    }

    /** The run after its keywords are reported. */
    method Answer(question: string, keywords: seq<string>, seeds: seq<Task>, env: Surroundings)
      returns (result: ResearchResult, ghost rounds: seq<Round>)
      requires GoodSeeds(seeds) && sink.queued == QUEUED
      requires sink.log == [Question(question), KeywordsExtracted(keywords)]
      modifies sink
      ensures IsRun(seeds, rounds) && Obeys(OffersOf(env), rounds) && (rounds != [] ==> |rounds| <= maxIterations)
      ensures sink.log == RunLog(env, question, keywords, seeds, rounds) + Ending(result)
      ensures Ends(env, seeds, rounds, result, maxIterations)
    {
      if seeds == [] {
        rounds := [];
        NothingToReport(env, question, keywords);
        result := GiveUp();
      } else {
        result, rounds := Pursue(seeds, env);
      }
    }

    /** A whole run. The seeds and the rounds are returned for the specification only. */
    method Research(question: string, keywords: seq<string>, candidateAreas: seq<string>, env: Surroundings)
      returns (result: ResearchResult, ghost seeds: seq<Task>, ghost rounds: seq<Round>)
      requires sink.log == [] && sink.queued == QUEUED
      modifies sink
      ensures seeds == SeedInitialTasks(question, candidateAreas, env.decimal)
      ensures IsRun(seeds, rounds) && Obeys(OffersOf(env), rounds) && (rounds != [] ==> |rounds| <= maxIterations)
      ensures sink.log == RunLog(env, question, keywords, seeds, rounds) + Ending(result)
      ensures Ends(env, seeds, rounds, result, maxIterations)
      ensures ReadLog(sink.log, maxIterations).Some? && ReadLog(sink.log, maxIterations).value.phase.Done?
    {
      Open(question, keywords);
      var seedTasks := SeedInitialTasks(question, candidateAreas, env.decimal);
      seeds := seedTasks;
      result, rounds := Answer(question, keywords, seedTasks, env);
      ReportObeysProtocol(env, question, keywords, seeds, rounds, result, maxIterations);
    }
  }
}

/** The event log of a research run, and the protocol a reader of the log may rely on.
    The reader sees nothing of the engine: it reconstructs the queue from the events. */
module EventLog {
  import opened Options

  datatype Outcome = Success | NoInformation | PartialWithDirections

  datatype Reason = NoDirection | MaxIterations | WallClock | Drained | DrainedWithoutSuccess

  datatype Event =
    | Question(question: string)
    | KeywordsExtracted(keywords: seq<string>)
    | TaskQueued(id: string, parentId: string, targetArea: string, researchGoal: string, depth: int, repeatCount: nat)
    | TaskStarted(id: string, targetArea: string, depth: int)
    | WorkerResult(id: string, outcome: Outcome)
    | JudgeResult(id: string, outcome: Outcome)
    | AnswerProgress(id: string, summary: string)
    | AnswerFound(answer: string)
    | Complete(answered: bool, reason: Reason, iterations: int)

  /** What the log says of a task. */
  datatype TaskRef = TaskRef(id: string, targetArea: string, depth: int)

  datatype Phase =
    | Fresh
    | Asked
    | Seeding
    | Running(task: TaskRef)
    | Judging(task: TaskRef)
    | Succeeded(task: TaskRef)
    | Spreading(task: TaskRef)
    | Idle
    | Answered
    | Done

  /** The reader: where it is in the protocol, and the tasks it saw queued but not started. */
  datatype Reader = Reader(phase: Phase, pending: seq<TaskRef>, areas: set<string>, starts: nat, successes: nat)

  const FIRST := Reader(Fresh, [], {}, 0, 0)

  predicate BetweenTasks(p: Phase) {
    p.Seeding? || p.Spreading? || p.Idle?
  }

  /** One event, if the protocol allows it now. */
  function Read(r: Reader, e: Event, maxIterations: int): Option<Reader> {
    match e
    case Question(_) =>
      if r.phase.Fresh? then Some(r.(phase := Asked)) else None
    case KeywordsExtracted(_) =>
      if r.phase.Asked? then Some(r.(phase := Seeding)) else None
    case TaskQueued(id, parentId, area, _, depth, _) =>
      var allowed :=
        || (r.phase.Seeding? && parentId == "" && depth == 0)
        || (r.phase.Spreading? && parentId == r.phase.task.id && depth == r.phase.task.depth + 1);
      if allowed && area !in r.areas then
        Some(r.(pending := r.pending + [TaskRef(id, area, depth)], areas := r.areas + {area}))
      else None
    case TaskStarted(id, area, depth) =>
      if BetweenTasks(r.phase) && r.starts < maxIterations
         && r.pending != [] && r.pending[0] == TaskRef(id, area, depth) then
        Some(r.(phase := Running(r.pending[0]), pending := r.pending[1..], starts := r.starts + 1))
      else None
    case WorkerResult(id, _) =>
      if r.phase.Running? && id == r.phase.task.id then Some(r.(phase := Judging(r.phase.task))) else None
    case JudgeResult(id, outcome) =>
      if !(r.phase.Judging? && id == r.phase.task.id) then None
      else
        (match outcome
         case Success => Some(r.(phase := Succeeded(r.phase.task), successes := r.successes + 1))
         case PartialWithDirections => Some(r.(phase := Spreading(r.phase.task)))
         case NoInformation => Some(r.(phase := Idle)))
    case AnswerProgress(id, _) =>
      if r.phase.Succeeded? && id == r.phase.task.id then Some(r.(phase := Idle)) else None
    case AnswerFound(_) =>
      if BetweenTasks(r.phase) && r.successes > 0 then Some(r.(phase := Answered)) else None
    case Complete(answered, reason, iterations) =>
      var allowed :=
        && (if answered then r.phase.Answered? else BetweenTasks(r.phase) && r.successes == 0)
        && iterations == r.starts
        && (reason == MaxIterations ==> r.starts >= maxIterations)
        && (reason in {NoDirection, Drained, DrainedWithoutSuccess} ==> r.pending == []);
      if allowed then Some(r.(phase := Done)) else None
  }

  type Protocol = (Reader, Event) -> Option<Reader>

  function ProtocolOf(maxIterations: int): Protocol {
    (r, e) => Read(r, e, maxIterations)
  }

  /** Reads events from a state. */
  function ReadFrom(read: Protocol, r: Reader, events: seq<Event>): Option<Reader> {
    if events == [] then Some(r)
    else
      var n := |events| - 1;
      match ReadFrom(read, r, events[..n])
      case None => None
      case Some(r') => read(r', events[n])
  }

  function ReadLog(log: seq<Event>, maxIterations: int): Option<Reader> {
    ReadFrom(ProtocolOf(maxIterations), FIRST, log)
  }

  // ---------- What follows from the protocol ----------

  function QueuedBy(e: Event): seq<TaskRef> {
    if e.TaskQueued? then [TaskRef(e.id, e.targetArea, e.depth)] else []
  }

  function StartedBy(e: Event): seq<TaskRef> {
    if e.TaskStarted? then [TaskRef(e.id, e.targetArea, e.depth)] else []
  }

  /** The tasks queued in a log, in order. */
  function Queued(log: seq<Event>): seq<TaskRef> {
    if log == [] then [] else Queued(log[..|log| - 1]) + QueuedBy(log[|log| - 1])
  }

  /** The tasks started in a log, in order. */
  function Started(log: seq<Event>): seq<TaskRef> {
    if log == [] then [] else Started(log[..|log| - 1]) + StartedBy(log[|log| - 1])
  }

  function CountSuccesses(log: seq<Event>): nat {
    if log == [] then 0
    else
      var e := log[|log| - 1];
      CountSuccesses(log[..|log| - 1]) + if e.JudgeResult? && e.outcome == Success then 1 else 0
  }

  ghost predicate DistinctRefs(tasks: seq<TaskRef>) {
    forall i, j | 0 <= i < j < |tasks| :: tasks[i].targetArea != tasks[j].targetArea
  }

  ghost predicate DepthsAscend(tasks: seq<TaskRef>) {
    forall i, j | 0 <= i < j < |tasks| :: tasks[i].depth <= tasks[j].depth
  }

  predicate Busy(p: Phase) {
    p.Running? || p.Judging? || p.Succeeded? || p.Spreading?
  }

  /** No queued task lies deeper than one level below the last started one. */
  ghost predicate DepthsBounded(queued: seq<TaskRef>, started: seq<TaskRef>) {
    forall t <- queued :: 0 <= t.depth <= if started == [] then 0 else started[|started| - 1].depth + 1
  }

  /** The reader's state agrees with the tasks it saw queued and started. */
  ghost predicate Agrees(r: Reader, queued: seq<TaskRef>, started: seq<TaskRef>) {
    && queued == started + r.pending
    && r.starts == |started|
    && (forall t <- queued :: t.targetArea in r.areas)
    && DistinctRefs(queued)
    && DepthsAscend(queued)
    && DepthsBounded(queued, started)
    && (r.phase.Fresh? || r.phase.Asked? || r.phase.Seeding? ==> started == [])
    && (Busy(r.phase) ==> started != [] && started[|started| - 1] == r.phase.task)
  }

  lemma QueueKeepsAgreement(r: Reader, e: Event, maxIterations: int, queued: seq<TaskRef>, started: seq<TaskRef>)
    requires Agrees(r, queued, started) && e.TaskQueued? && Read(r, e, maxIterations).Some?
    ensures Agrees(Read(r, e, maxIterations).value, queued + QueuedBy(e), started)
  {
    var t := QueuedBy(e)[0];
    var after := queued + [t];
    assert after == started + (r.pending + [t]);
    forall q <- after ensures q == t || q in queued {}
    assert t.targetArea !in r.areas;
    assert DepthsBounded(after, started);
    forall i, j | 0 <= i < j < |after|
      ensures after[i].targetArea != after[j].targetArea && after[i].depth <= after[j].depth
    {
      assert after[i] == queued[i] && queued[i] in queued;
      if j < |queued| {
        assert after[j] == queued[j];
      }
    }
  }

  lemma StartKeepsAgreement(r: Reader, e: Event, maxIterations: int, queued: seq<TaskRef>, started: seq<TaskRef>)
    requires Agrees(r, queued, started) && e.TaskStarted? && Read(r, e, maxIterations).Some?
    ensures Agrees(Read(r, e, maxIterations).value, queued, started + StartedBy(e))
  {
    var t := StartedBy(e)[0];
    assert queued == (started + [t]) + r.pending[1..];
    assert t == queued[|started|];
    if started != [] {
      assert queued[|started| - 1] == started[|started| - 1];
    }
  }

  lemma ReadKeepsAgreement(r: Reader, e: Event, maxIterations: int, queued: seq<TaskRef>, started: seq<TaskRef>)
    requires Agrees(r, queued, started) && Read(r, e, maxIterations).Some?
    ensures Agrees(Read(r, e, maxIterations).value, queued + QueuedBy(e), started + StartedBy(e))
  {
    assert queued + [] == queued && started + [] == started;
    if e.TaskQueued? {
      QueueKeepsAgreement(r, e, maxIterations, queued, started);
    } else if e.TaskStarted? {
      StartKeepsAgreement(r, e, maxIterations, queued, started);
    }
  }

  /** Tasks start in the order they were queued and what is queued but not started is
      pending; no area is queued twice; depths never decrease. */
  lemma {:induction false} LogConserves(log: seq<Event>, maxIterations: int)
    requires ReadLog(log, maxIterations).Some?
    ensures Agrees(ReadLog(log, maxIterations).value, Queued(log), Started(log))
  {
    if log != [] {
      var n := |log| - 1;
      LogConserves(log[..n], maxIterations);
      var r := ReadLog(log[..n], maxIterations).value;
      ReadKeepsAgreement(r, log[n], maxIterations, Queued(log[..n]), Started(log[..n]));
    }
  }

  /** The reader counts the successes of the log, and never starts a task beyond the limit. */
  lemma {:induction false} LogCounts(log: seq<Event>, maxIterations: int)
    requires ReadLog(log, maxIterations).Some?
    ensures var r := ReadLog(log, maxIterations).value;
            r.successes == CountSuccesses(log) && (r.starts > 0 ==> r.starts <= maxIterations)
  {
    if log != [] {
      LogCounts(log[..|log| - 1], maxIterations);
    }
  }

  /** Every log that is accepted up to its end is accepted up to every earlier event. */
  lemma {:induction false} PrefixesAreAccepted(log: seq<Event>, maxIterations: int, n: nat)
    requires ReadLog(log, maxIterations).Some? && n <= |log|
    ensures ReadLog(log[..n], maxIterations).Some?
  {
    if n == |log| {
      assert log[..n] == log;
    } else {
      PrefixesAreAccepted(log[..|log| - 1], maxIterations, n);
      assert log[..|log| - 1][..n] == log[..n];
    }
  }

  /** At every moment the tasks started are the first tasks queued, in that order; no area
      is started twice and depths never decrease. */
  lemma StartsFollowQueued(log: seq<Event>, maxIterations: int, n: nat)
    requires ReadLog(log, maxIterations).Some? && n <= |log|
    ensures Started(log[..n]) <= Queued(log[..n])
    ensures DistinctRefs(Started(log[..n])) && DepthsAscend(Started(log[..n]))
  {
    PrefixesAreAccepted(log, maxIterations, n);
    LogConserves(log[..n], maxIterations);
  }

  /** A started task is followed at once by its worker result and then its judge result,
      unless the log ends first. */
  lemma {:induction false} ResultsFollowStart(log: seq<Event>, maxIterations: int, k: nat)
    requires ReadLog(log, maxIterations).Some? && k < |log| && log[k].TaskStarted?
    ensures k + 1 < |log| ==> log[k + 1].WorkerResult? && log[k + 1].id == log[k].id
    ensures k + 2 < |log| ==> log[k + 2].JudgeResult? && log[k + 2].id == log[k].id
  {
    PrefixesAreAccepted(log, maxIterations, k + 1);
    assert log[..k + 1][..k] == log[..k];
    if k + 1 < |log| {
      PrefixesAreAccepted(log, maxIterations, k + 2);
      assert log[..k + 2][..k + 1] == log[..k + 1];
    }
    if k + 2 < |log| {
      PrefixesAreAccepted(log, maxIterations, k + 3);
      assert log[..k + 3][..k + 2] == log[..k + 2];
    }
  }

  function CountWorker(log: seq<Event>): nat {
    if log == [] then 0
    else CountWorker(log[..|log| - 1]) + if log[|log| - 1].WorkerResult? then 1 else 0
  }

  function CountJudge(log: seq<Event>): nat {
    if log == [] then 0
    else CountJudge(log[..|log| - 1]) + if log[|log| - 1].JudgeResult? then 1 else 0
  }

  /** Results come only after a start: each kind has as many events as tasks started, but
      for the one under way. */
  lemma {:induction false} OneResultEach(log: seq<Event>, maxIterations: int)
    requires ReadLog(log, maxIterations).Some?
    ensures var p := ReadLog(log, maxIterations).value.phase;
            && CountWorker(log) == |Started(log)| - (if p.Running? then 1 else 0)
            && CountJudge(log) == |Started(log)| - (if p.Running? || p.Judging? then 1 else 0)
  {
    if log != [] {
      OneResultEach(log[..|log| - 1], maxIterations);
    }
  }

  /** The last task started, where it was started. */
  lemma {:induction false} LastStarted(log: seq<Event>) returns (j: nat)
    requires Started(log) != []
    ensures j < |log| && log[j].TaskStarted?
    ensures StartedBy(log[j]) == [Started(log)[|Started(log)| - 1]]
  {
    var n := |log| - 1;
    if log[n].TaskStarted? {
      j := n;
    } else {
      j := LastStarted(log[..n]);
    }
  }

  /** A task is queued as a seed, before anything has started, or as the child of a task started
      before it, one level below that task. */
  lemma QueuedHaveParents(log: seq<Event>, maxIterations: int, k: nat)
    requires ReadLog(log, maxIterations).Some? && k < |log| && log[k].TaskQueued?
    ensures if Started(log[..k]) == [] then log[k].parentId == "" && log[k].depth == 0
            else exists j | 0 <= j < k :: && log[j].TaskStarted? && log[j].id == log[k].parentId
                                          && log[k].depth == log[j].depth + 1
  {
    PrefixesAreAccepted(log, maxIterations, k);
    PrefixesAreAccepted(log, maxIterations, k + 1);
    assert log[..k + 1][..k] == log[..k];
    LogConserves(log[..k], maxIterations);
    if Started(log[..k]) != [] {
      var j := LastStarted(log[..k]);
      assert log[j].TaskStarted? && log[j].id == log[k].parentId;
    }
  }

  lemma NothingFollowsComplete(log: seq<Event>, maxIterations: int, k: nat)
    requires ReadLog(log, maxIterations).Some? && k + 1 < |log|
    ensures !log[k].Complete?
  {
    PrefixesAreAccepted(log, maxIterations, k + 1);
    PrefixesAreAccepted(log, maxIterations, k + 2);
    assert log[..k + 1][..k] == log[..k];
    assert log[..k + 2][..k + 1] == log[..k + 1];
  }

  /** An answer is found only after a success. */
  lemma AnsweredAfterSuccess(log: seq<Event>, maxIterations: int)
    requires ReadLog(log, maxIterations).Some? && ReadLog(log, maxIterations).value.phase.Answered?
    ensures ReadLog(log, maxIterations).value.successes > 0
  {
    assert log != [];
  }

  /** Only `complete` finishes a log. */
  lemma DoneByComplete(r: Reader, e: Event, maxIterations: int)
    requires Read(r, e, maxIterations).Some? && Read(r, e, maxIterations).value.phase.Done?
    ensures e.Complete? && e.iterations == r.starts
    ensures if e.answered then r.phase.Answered? else r.successes == 0
  {
  }

  /** What the last event of a finished log tells. */
  lemma LastIsComplete(log: seq<Event>, maxIterations: int)
    requires ReadLog(log, maxIterations).Some? && ReadLog(log, maxIterations).value.phase.Done?
    ensures log != [] && log[|log| - 1].Complete?
    ensures var last := log[|log| - 1];
            last.iterations == |Started(log)| && (last.answered <==> CountSuccesses(log) > 0)
  {
    var n := |log| - 1;
    PrefixesAreAccepted(log, maxIterations, n);
    var r := ReadLog(log[..n], maxIterations).value;
    DoneByComplete(r, log[n], maxIterations);
    LogConserves(log[..n], maxIterations);
    LogCounts(log[..n], maxIterations);
    if log[n].answered {
      AnsweredAfterSuccess(log[..n], maxIterations);
    }
  }

  /** A finished log has exactly one `complete`, its last event, which tells how many tasks
      were started and whether one of them was judged a success. */
  lemma CompleteComesLast(log: seq<Event>, maxIterations: int)
    requires ReadLog(log, maxIterations).Some? && ReadLog(log, maxIterations).value.phase.Done?
    ensures log != [] && log[|log| - 1].Complete?
    ensures forall k | 0 <= k < |log| - 1 :: !log[k].Complete?
    ensures var last := log[|log| - 1];
            last.iterations == |Started(log)| && (last.answered <==> CountSuccesses(log) > 0)
  {
    LastIsComplete(log, maxIterations);
    forall k | 0 <= k < |log| - 1 ensures !log[k].Complete? {
      NothingFollowsComplete(log, maxIterations, k);
    }
  }
}

/** Where both engines report to, and what they do to the queue and report alike. */
module EventSinks {
  import opened TaskQueues
  import opened Search

  /** One event for each item, in order. */
  function EventsFor<A, E>(report: A -> E, items: seq<A>): (events: seq<E>)
    ensures |events| == |items| && forall i | 0 <= i < |items| :: events[i] == report(items[i])
  {
    if items == [] then []
    else EventsFor(report, items[..|items| - 1]) + [report(items[|items| - 1])]
  }

  /** What is reported over the rounds of a run, given what is reported of each. */
  function RoundEvents<E>(report: (nat, Round) -> seq<E>, rounds: seq<Round>): seq<E> {
    if rounds == [] then []
    else
      var k := |rounds| - 1;
      RoundEvents(report, rounds[..k]) + report(k, rounds[k])
  }

  lemma Appended<E>(log: seq<E>, a: seq<E>, b: seq<E>)
    ensures log + a + b == log + (a + b)
  {
  }

  lemma EventsForMore<A, E>(prefix: seq<E>, report: A -> E, items: seq<A>, item: A)
    ensures prefix + EventsFor(report, items + [item]) == prefix + EventsFor(report, items) + [report(item)]
  {
    var more := items + [item];
    assert more[..|more| - 1] == items;
    assert EventsFor(report, more) == EventsFor(report, items) + [report(item)];
    Appended(prefix, EventsFor(report, items), [report(item)]);
  }

  lemma RoundEventsGrow<E>(prefix: seq<E>, report: (nat, Round) -> seq<E>, rounds: seq<Round>, r: Round)
    ensures prefix + RoundEvents(report, rounds + [r])
         == prefix + RoundEvents(report, rounds) + report(|rounds|, r)
  {
    var more := rounds + [r];
    assert more[..|more| - 1] == rounds;
    assert RoundEvents(report, more) == RoundEvents(report, rounds) + report(|rounds|, r);
    Appended(prefix, RoundEvents(report, rounds), report(|rounds|, r));
  }

  class EventSink<E> {
    const queued: Task -> E  // the event that reports a queued task
    var log: seq<E>

    constructor (queued: Task -> E)
      ensures this.queued == queued && log == []
    {
      this.queued, log := queued, [];
    }

    method Emit(e: E)
      modifies this
      ensures log == old(log) + [e]
    {
      log := log + [e];
    }

    method EmitAll<A>(report: A -> E, items: seq<A>)
      modifies this
      ensures log == old(log) + EventsFor(report, items)
    {
      ghost var prefix := log;
      for i := 0 to |items|
        invariant log == prefix + EventsFor(report, items[..i])
      {
        EventsForMore(prefix, report, items[..i], items[i]);
        assert items[..i + 1] == items[..i] + [items[i]];
        Emit(report(items[i]));
      }
      assert items[..|items|] == items;
    }

    /** Queues one seed. */
    method QueueSeed(queue: TaskQueue, seed: Task, ghost prefix: seq<E>, ghost before: seq<Task>)
      requires queue.Valid() && queue.queue == before && queue.Covered() == Areas(before)
      requires seed.targetArea !in Areas(before) && log == prefix + EventsFor(queued, before)
      modifies this, queue
      ensures queue.Valid() && queue.queue == before + [seed] && queue.Covered() == Areas(before + [seed])
      ensures log == prefix + EventsFor(queued, before + [seed])
    {
      EventsForMore(prefix, queued, before, seed);
      AreasConcat(before, [seed]);
      var accepted := queue.Push(seed);
      Emit(queued(seed));
    }

    /** Queues the seed tasks. */
    method QueueSeeds(queue: TaskQueue, seeds: seq<Task>)
      requires queue.Valid() && queue.queue == [] && queue.visited == {} && DistinctAreas(seeds)
      modifies this, queue
      ensures queue.Valid() && queue.queue == seeds && queue.Covered() == Areas(seeds)
      ensures log == old(log) + EventsFor(queued, seeds)
    {
      ghost var prefix := log;
      for i := 0 to |seeds|
        invariant queue.Valid() && queue.queue == seeds[..i] && queue.Covered() == Areas(seeds[..i])
        invariant log == prefix + EventsFor(queued, seeds[..i])
      {
        assert seeds[..i + 1] == seeds[..i] + [seeds[i]];
        QueueSeed(queue, seeds[i], prefix, seeds[..i]);
      }
      assert seeds[..|seeds|] == seeds;
    }

    /** Offers one task to the queue and reports it when it is taken. */
    method Offer(queue: TaskQueue, t: Task, ghost prefix: seq<E>, ghost waiting: seq<Task>, ghost taken: seq<Task>)
      returns (ghost taken': seq<Task>)
      requires queue.Valid() && queue.queue == waiting + taken && log == prefix + EventsFor(queued, taken)
      modifies this, queue
      ensures queue.Valid() && queue.queue == waiting + taken' && log == prefix + EventsFor(queued, taken')
      ensures taken' == if t.targetArea in old(queue.Covered()) then taken else taken + [t]
      ensures queue.Covered() == old(queue.Covered()) + {t.targetArea}
    {
      var accepted := queue.Push(t);
      if accepted {
        taken' := taken + [t];
        Appended(waiting, taken, [t]);
        EventsForMore(prefix, queued, taken, t);
        Emit(queued(t));
      } else {
        taken' := taken;
      }
    }

    /** Offers the directions of a finding to the queue, as children of its task. */
    method QueueDirections(queue: TaskQueue, task: Task, dirs: seq<Task>) returns (ghost accepted: seq<Task>)
      requires queue.Valid()
      modifies this, queue
      ensures queue.Valid()
      ensures accepted == Accept(old(queue.Covered()), Children(task, dirs))
      ensures queue.queue == old(queue.queue) + accepted
      ensures queue.Covered() == old(queue.Covered()) + Areas(accepted) == old(queue.Covered()) + Areas(dirs)
      ensures exists from :: AreNewChildren(old(queue.Covered()), task, dirs, accepted, from)
      ensures log == old(log) + EventsFor(queued, accepted)
    {
      accepted := [];
      ghost var known, children, prefix, waiting := queue.Covered(), Children(task, dirs), log, queue.queue;
      for i := 0 to |dirs|
        invariant queue.Valid() && queue.Covered() == known + Areas(accepted)
        invariant accepted == Accept(known, children[..i])
        invariant queue.queue == waiting + accepted && log == prefix + EventsFor(queued, accepted)
      {
        AcceptOne(known, children, i);
        accepted := Offer(queue, ChildOf(task, dirs[i]), prefix, waiting, accepted);
      }
      assert children[..|dirs|] == children;
      AcceptCoversAll(known, task, dirs);
      ghost var from := AcceptTakesNew(known, task, dirs);
    }
  }
}

/** Tasks, and the FIFO queue that drops tasks aimed at areas already covered. */
module TaskQueues {

  datatype Task = Task(
    id: string,
    targetArea: string,
    researchGoal: string,
    successCriteria: string,
    depth: int,
    repeatable: bool,
    repeatTargets: seq<string>,
    parentId: string)

  ghost function Areas(tasks: seq<Task>): set<string> {
    set t <- tasks :: t.targetArea
  }

  lemma AreasConcat(a: seq<Task>, b: seq<Task>)
    ensures Areas(a + b) == Areas(a) + Areas(b)
  {
  }

  ghost predicate DistinctAreas(tasks: seq<Task>) {
    forall i, j | 0 <= i < j < |tasks| :: tasks[i].targetArea != tasks[j].targetArea
  }

  class TaskQueue {
    var queue: seq<Task>
    var visited: set<string>
    var queuedAreas: set<string>

    ghost predicate Valid()
      reads this
    {
      queuedAreas == Areas(queue) && DistinctAreas(queue)
    }

    /** The areas a push is refused for. */
    ghost function Covered(): set<string>
      reads this
    {
      visited + queuedAreas
    }

    constructor ()
      ensures Valid() && queue == [] && visited == {}
    {
      queue, visited, queuedAreas := [], {}, {};
    }

    method Push(task: Task) returns (accepted: bool)
      requires Valid()
      modifies this
      ensures Valid() && visited == old(visited)
      ensures accepted <==> task.targetArea !in old(Covered())
      ensures accepted ==> queue == old(queue) + [task]
      ensures !accepted ==> queue == old(queue)
      ensures Covered() == old(Covered()) + {task.targetArea}
    {
      if task.repeatable {
        if task.targetArea in visited || task.targetArea in queuedAreas {
          return false;
        }
        queuedAreas := queuedAreas + {task.targetArea};
        queue := queue + [task];
        return true;
      }
      if task.targetArea in visited || task.targetArea in queuedAreas {
        return false;
      }
      queuedAreas := queuedAreas + {task.targetArea};
      queue := queue + [task];
      return true;
    }

    method Pop() returns (t: Task)
      requires Valid() && queue != []
      modifies this
      ensures Valid() && visited == old(visited)
      ensures t == old(queue)[0] && queue == old(queue)[1..]
      ensures queuedAreas == old(queuedAreas) - {t.targetArea}
    {
      t := queue[0];
      queue := queue[1..];
      queuedAreas := queuedAreas - {t.targetArea};
    }

    predicate Visited(area: string)
      reads this
    {
      area in visited
    }

    method MarkVisited(area: string)
      requires Valid()
      modifies this
      ensures Valid() && queue == old(queue)
      ensures forall a :: Visited(a) <==> old(Visited(a)) || a == area
      ensures visited == old(visited) + {area}
    {
      visited := visited + {area};
    }

    predicate Empty()
      reads this
    {
      queue == []
    }
  }
}

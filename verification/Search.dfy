/** The search that both engines run: rounds taken from a FIFO of first-seen areas.
    Whatever the workers answer, this is a breadth-first search. */
module Search {
  import opened TaskQueues

  /** One iteration: the task popped, the directions offered to the queue, those it took. */
  datatype Round = Round(task: Task, directions: seq<Task>, accepted: seq<Task>)

  /** The directions a queue takes that has already covered the areas `known`. */
  ghost function Accept(known: set<string>, directions: seq<Task>): seq<Task> {
    if directions == [] then []
    else
      var n := |directions| - 1;
      var taken := Accept(known, directions[..n]);
      if directions[n].targetArea in known + Areas(taken) then taken else taken + [directions[n]]
  }

  /** A direction becomes a child of the task whose finding suggested it. */
  function ChildOf(task: Task, dir: Task): Task {
    dir.(depth := task.depth + 1, parentId := task.id)
  }

  function Children(task: Task, dirs: seq<Task>): seq<Task> {
    seq(|dirs|, i requires 0 <= i < |dirs| => ChildOf(task, dirs[i]))
  }

  lemma AcceptOne(known: set<string>, children: seq<Task>, i: nat)
    requires i < |children|
    ensures var taken := Accept(known, children[..i]);
            && Accept(known, children[..i + 1]) ==
              (if children[i].targetArea in known + Areas(taken) then taken else taken + [children[i]])
            && known + Areas(Accept(known, children[..i + 1])) == known + Areas(taken) + {children[i].targetArea}
  {
    assert children[..i + 1][..i] == children[..i];
    AreasConcat(Accept(known, children[..i]), [children[i]]);
  }

  lemma {:induction false} AcceptIsNew(known: set<string>, directions: seq<Task>)
    ensures DistinctAreas(Accept(known, directions))
    ensures Areas(Accept(known, directions)) !! known
    ensures forall t <- Accept(known, directions) :: t in directions
    ensures Areas(directions) <= known + Areas(Accept(known, directions))
  {
    if directions != [] {
      var n := |directions| - 1;
      AcceptIsNew(known, directions[..n]);
      assert directions == directions[..n] + [directions[n]];
    }
  }

  /** The same work: all but the place in the search. */
  ghost predicate SameWork(a: Task, b: Task) {
    && a.id == b.id && a.targetArea == b.targetArea
    && a.researchGoal == b.researchGoal && a.successCriteria == b.successCriteria
    && a.repeatable == b.repeatable && a.repeatTargets == b.repeatTargets
  }

  /** Direction `k` has an area that was not known, and no direction before it has it. */
  ghost predicate IsNew(known: set<string>, dirs: seq<Task>, k: nat) {
    k < |dirs| && dirs[k].targetArea !in known && forall j | 0 <= j < k :: dirs[j].targetArea != dirs[k].targetArea
  }

  /** `child` does the work of direction `k`, one level below the task. */
  ghost predicate IsChild(child: Task, task: Task, dirs: seq<Task>, k: nat) {
    k < |dirs| && SameWork(child, dirs[k]) && child.parentId == task.id && child.depth == task.depth + 1
  }

  /** `accepted` are the new directions, in order, as children of the task; `from` are their
      positions among the directions. */
  ghost predicate AreNewChildren(known: set<string>, task: Task, dirs: seq<Task>, accepted: seq<Task>, from: seq<nat>) {
    && |from| == |accepted|
    && (forall i, j | 0 <= i < j < |from| :: from[i] < from[j])
    && (forall k: nat :: k in from <==> IsNew(known, dirs, k))
    && (forall i | 0 <= i < |from| :: IsChild(accepted[i], task, dirs, from[i]))
  }

  /** A direction is new or not whatever comes after it. */
  lemma NewAtEnd(known: set<string>, before: seq<Task>, d: Task)
    ensures IsNew(known, before + [d], |before|) <==> d.targetArea !in known + Areas(before)
    ensures forall k: nat | k != |before| :: IsNew(known, before + [d], k) <==> IsNew(known, before, k)
  {
    var dirs := before + [d];
    if t :| t in before && t.targetArea == d.targetArea {
      var j :| 0 <= j < |before| && before[j] == t;
      assert dirs[j].targetArea == d.targetArea;
    }
    assert forall j | 0 <= j < |before| :: dirs[j] == before[j] && before[j] in before;
    forall k: nat | k < |before| ensures IsNew(known, dirs, k) <==> IsNew(known, before, k) {
      assert forall j | 0 <= j <= k :: dirs[j] == before[j];
    }
  }

  lemma NewChildTaken(known: set<string>, task: Task, before: seq<Task>, d: Task, taken: seq<Task>, from: seq<nat>)
    requires AreNewChildren(known, task, before, taken, from) && d.targetArea !in known + Areas(before)
    ensures AreNewChildren(known, task, before + [d], taken + [ChildOf(task, d)], from + [|before|])
  {
    var n := |before|;
    NewAtEnd(known, before, d);
    forall i | 0 <= i < |from| ensures from[i] < n && IsChild(taken[i], task, before + [d], from[i]) {
      assert IsChild(taken[i], task, before, from[i]);
    }
    assert IsChild(ChildOf(task, d), task, before + [d], n);
  }

  lemma OldChildDropped(known: set<string>, task: Task, before: seq<Task>, d: Task, taken: seq<Task>, from: seq<nat>)
    requires AreNewChildren(known, task, before, taken, from) && d.targetArea in known + Areas(before)
    ensures AreNewChildren(known, task, before + [d], taken, from)
  {
    NewAtEnd(known, before, d);
    forall i | 0 <= i < |from| ensures IsChild(taken[i], task, before + [d], from[i]) {
      assert IsChild(taken[i], task, before, from[i]);
    }
    assert !IsNew(known, before, |before|);
  }

  lemma AcceptLast(known: set<string>, task: Task, before: seq<Task>, d: Task)
    ensures var taken := Accept(known, Children(task, before));
            Accept(known, Children(task, before + [d])) ==
              if d.targetArea in known + Areas(taken) then taken else taken + [ChildOf(task, d)]
  {
    var children := Children(task, before + [d]);
    assert children[..|before|] == Children(task, before) && children[|before|] == ChildOf(task, d);
    assert ChildOf(task, d).targetArea == d.targetArea;
  }

  lemma ChildrenAreas(task: Task, dirs: seq<Task>)
    ensures Areas(Children(task, dirs)) == Areas(dirs)
  {
    var children := Children(task, dirs);
    assert forall i | 0 <= i < |dirs| :: children[i].targetArea == dirs[i].targetArea;
    assert forall t <- dirs :: exists i :: 0 <= i < |dirs| && dirs[i] == t && children[i] in children;
  }

  /** Accepting children covers the areas of all directions. */
  lemma AcceptCoversAll(known: set<string>, task: Task, dirs: seq<Task>)
    ensures known + Areas(Accept(known, Children(task, dirs))) == known + Areas(dirs)
  {
    var children := Children(task, dirs);
    AcceptIsNew(known, children);
    ChildrenAreas(task, dirs);
    assert Areas(Accept(known, children)) <= Areas(children);
  }

  /** Accepting children takes exactly the new directions. */
  lemma {:induction false} AcceptTakesNew(known: set<string>, task: Task, dirs: seq<Task>) returns (from: seq<nat>)
    ensures AreNewChildren(known, task, dirs, Accept(known, Children(task, dirs)), from)
    decreases |dirs|
  {
    if dirs == [] {
      from := [];
    } else {
      var before, d := dirs[..|dirs| - 1], dirs[|dirs| - 1];
      assert dirs == before + [d];
      from := AcceptTakesNew(known, task, before);
      var taken := Accept(known, Children(task, before));
      AcceptLast(known, task, before, d);
      AcceptCoversAll(known, task, before);
      if d.targetArea in known + Areas(before) {
        OldChildDropped(known, task, before, d, taken, from);
      } else {
        NewChildTaken(known, task, before, d, taken, from);
        from := from + [|before|];
      }
    }
  }

  /** Every task ever accepted, in order. */
  ghost function History(seeds: seq<Task>, rounds: seq<Round>): seq<Task> {
    if rounds == [] then seeds
    else History(seeds, rounds[..|rounds| - 1]) + rounds[|rounds| - 1].accepted
  }

  /** A round executes the oldest accepted task not yet executed, and its directions are
      accepted exactly when their area was never accepted before. */
  ghost predicate RoundFollows(history: seq<Task>, n: nat, r: Round) {
    && n < |history| && history[n] == r.task
    && r.accepted == Accept(Areas(history), r.directions)
    && forall d <- r.directions :: d.depth == r.task.depth + 1 && d.parentId == r.task.id
  }

  ghost predicate IsRun(seeds: seq<Task>, rounds: seq<Round>) {
    rounds == [] ||
    var n := |rounds| - 1;
    IsRun(seeds, rounds[..n]) && RoundFollows(History(seeds, rounds[..n]), n, rounds[n])
  }

  /** The queue holds what was accepted and not executed, and covers all that was accepted. */
  ghost predicate RunState(seeds: seq<Task>, rounds: seq<Round>, queue: seq<Task>, covered: set<string>) {
    && IsRun(seeds, rounds)
    && |rounds| <= |History(seeds, rounds)|
    && queue == History(seeds, rounds)[|rounds|..]
    && covered == Areas(History(seeds, rounds))
  }

  /** A run starts with its seeds in the queue. */
  lemma RunStarts(seeds: seq<Task>)
    ensures RunState(seeds, [], seeds, Areas(seeds))
  {
    assert seeds[0..] == seeds;
  }

  lemma RunAppend(seeds: seq<Task>, rounds: seq<Round>, r: Round)
    requires IsRun(seeds, rounds) && RoundFollows(History(seeds, rounds), |rounds|, r)
    ensures IsRun(seeds, rounds + [r])
    ensures History(seeds, rounds + [r]) == History(seeds, rounds) + r.accepted
  {
    assert (rounds + [r])[..|rounds|] == rounds;
  }

  lemma QueueAdvances(history: seq<Task>, n: nat, accepted: seq<Task>)
    requires n < |history|
    ensures history[n..][0] == history[n]
    ensures history[n..][1..] + accepted == (history + accepted)[n + 1..]
    ensures Areas(history + accepted) == Areas(history) + Areas(accepted)
  {
    AreasConcat(history, accepted);
  }

  /** Executing the head of the queue makes one more round of the run. */
  lemma RunGrows(seeds: seq<Task>, rounds: seq<Round>, r: Round, queue: seq<Task>, covered: set<string>)
    requires RunState(seeds, rounds, queue, covered) && queue != []
    requires r.task == queue[0] && r.accepted == Accept(covered, r.directions)
    requires forall d <- r.directions :: d.depth == r.task.depth + 1 && d.parentId == r.task.id
    ensures RunState(seeds, rounds + [r], queue[1..] + r.accepted, covered + Areas(r.accepted))
  {
    var history := History(seeds, rounds);
    QueueAdvances(history, |rounds|, r.accepted);
    RunAppend(seeds, rounds, r);
  }

  ghost predicate GoodSeeds(seeds: seq<Task>) {
    DistinctAreas(seeds) && forall t <- seeds :: t.depth == 0
  }

  const MAX_AREAS := 25

  /** One repeatable task over the first candidate areas, or none at all. */
  function SeedTasks(id: string, goal: string, criteria: string, candidateAreas: seq<string>,
                     decimal: nat -> string): (seeds: seq<Task>)
    ensures GoodSeeds(seeds) && forall t <- seeds :: t.parentId == ""
    ensures candidateAreas == [] ==> seeds == []
    ensures candidateAreas != [] ==>
              && |seeds| == 1 && seeds[0].repeatable && seeds[0].id == id
              && seeds[0].researchGoal == goal && seeds[0].successCriteria == criteria
              && seeds[0].targetArea == "(keyword probe: " + decimal(|seeds[0].repeatTargets|) + " files)"
              && seeds[0].repeatTargets <= candidateAreas
              && |seeds[0].repeatTargets| == if |candidateAreas| < MAX_AREAS then |candidateAreas| else MAX_AREAS
  {
    var areas := if |candidateAreas| > MAX_AREAS then candidateAreas[..MAX_AREAS] else candidateAreas;
    if areas == [] then []
    else [Task(id, "(keyword probe: " + decimal(|areas|) + " files)", goal, criteria, 0, true, areas, "")]
  }

  /** What a loop offers to the queue after a finding with some directions. */
  function Offered(task: Task, spreads: bool, dirs: seq<Task>): seq<Task> {
    if spreads then Children(task, dirs) else []
  }

  lemma OfferedAreas(task: Task, spreads: bool, dirs: seq<Task>)
    ensures Areas(Offered(task, spreads, dirs)) == if spreads then Areas(dirs) else {}
  {
    ChildrenAreas(task, dirs);
  }

  /** Round `k` offers what the findings make the loop offer in iteration `k`. */
  ghost predicate Obeys(offers: (nat, Task) -> seq<Task>, rounds: seq<Round>) {
    forall k | 0 <= k < |rounds| :: rounds[k].directions == offers(k, rounds[k].task)
  }

  lemma ObeysGrows(offers: (nat, Task) -> seq<Task>, rounds: seq<Round>, r: Round)
    requires Obeys(offers, rounds) && r.directions == offers(|rounds|, r.task)
    ensures Obeys(offers, rounds + [r])
  {
  }

  /** The tasks accepted and not executed. */
  ghost function Waiting(seeds: seq<Task>, rounds: seq<Round>): seq<Task> {
    if |rounds| <= |History(seeds, rounds)| then History(seeds, rounds)[|rounds|..] else []
  }

  // ---------- What every run keeps ----------

  /** No area is accepted twice, the executed tasks come first in the history, and
      depths never decrease and lie within one of the last executed depth. */
  ghost predicate WellOrdered(history: seq<Task>, n: nat) {
    && n <= |history|
    && DistinctAreas(history)
    && (forall i, j | 0 <= i < j < |history| :: history[i].depth <= history[j].depth)
    && (forall i | 0 <= i < |history| :: 0 <= history[i].depth <= if n == 0 then 0 else history[n - 1].depth + 1)
  }

  lemma {:induction false} RunsAreWellOrdered(seeds: seq<Task>, rounds: seq<Round>)
    requires GoodSeeds(seeds) && IsRun(seeds, rounds)
    ensures WellOrdered(History(seeds, rounds), |rounds|)
  {
    if rounds != [] {
      var n := |rounds| - 1;
      var r := rounds[n];
      var history := History(seeds, rounds[..n]);
      RunsAreWellOrdered(seeds, rounds[..n]);
      AcceptIsNew(Areas(history), r.directions);
      forall t | t in r.accepted ensures t.depth == r.task.depth + 1 && t.targetArea !in Areas(history) {}
    }
  }

  /** The history of a run starts with the history of every earlier moment. */
  lemma {:induction false} HistoryGrows(seeds: seq<Task>, rounds: seq<Round>, k: nat)
    requires k <= |rounds|
    ensures History(seeds, rounds[..k]) <= History(seeds, rounds)
  {
    if k < |rounds| {
      var n := |rounds| - 1;
      HistoryGrows(seeds, rounds[..n], k);
      assert rounds[..n][..k] == rounds[..k];
    } else {
      assert rounds[..k] == rounds;
    }
  }

  lemma {:induction false} RunPrefix(seeds: seq<Task>, rounds: seq<Round>, k: nat)
    requires IsRun(seeds, rounds) && k <= |rounds|
    ensures IsRun(seeds, rounds[..k])
    ensures k < |rounds| ==> RoundFollows(History(seeds, rounds[..k]), k, rounds[k])
  {
    var n := |rounds| - 1;
    if k < n {
      RunPrefix(seeds, rounds[..n], k);
      assert rounds[..n][..k] == rounds[..k];
    } else if k == |rounds| {
      assert rounds[..k] == rounds;
    }
  }

  /** Round `k` executes history entry `k`: tasks start in the order they were accepted. */
  lemma FirstInFirstOut(seeds: seq<Task>, rounds: seq<Round>, k: nat)
    requires IsRun(seeds, rounds) && k < |rounds|
    ensures k < |History(seeds, rounds)| && rounds[k].task == History(seeds, rounds)[k]
  {
    RunPrefix(seeds, rounds, k);
    HistoryGrows(seeds, rounds, k);
  }

  /** No target area is executed twice, and executed depths never decrease. */
  lemma NoAreaTwice(seeds: seq<Task>, rounds: seq<Round>)
    requires GoodSeeds(seeds) && IsRun(seeds, rounds)
    ensures forall i, j | 0 <= i < j < |rounds| ::
              rounds[i].task.targetArea != rounds[j].task.targetArea && rounds[i].task.depth <= rounds[j].task.depth
  {
    RunsAreWellOrdered(seeds, rounds);
    forall k: nat | k < |rounds| ensures rounds[k].task == History(seeds, rounds)[k] {
      FirstInFirstOut(seeds, rounds, k);
    }
  }

  /** The parents form a tree: an accepted task is a seed or was offered by an earlier round,
      whose task is its parent and lies one level above it. */
  lemma {:induction false} ParentsFormATree(seeds: seq<Task>, rounds: seq<Round>, j: nat)
    requires IsRun(seeds, rounds) && j < |History(seeds, rounds)|
    ensures j < |seeds| || exists k ::
              && 0 <= k < |rounds| && k < j && History(seeds, rounds)[j] in rounds[k].accepted
              && History(seeds, rounds)[j].parentId == rounds[k].task.id
              && History(seeds, rounds)[j].depth == rounds[k].task.depth + 1
  {
    if rounds != [] {
      var n := |rounds| - 1;
      var before := History(seeds, rounds[..n]);
      if j < |before| {
        ParentsFormATree(seeds, rounds[..n], j);
      } else {
        AcceptIsNew(Areas(before), rounds[n].directions);
        assert History(seeds, rounds)[j] in rounds[n].accepted;
      }
    }
  }

  lemma OfferedIsCovered(before: seq<Task>, n: nat, r: Round, d: Task) returns (j: nat)
    requires WellOrdered(before, n) && RoundFollows(before, n, r) && d in r.directions
    ensures j < |before + r.accepted|
    ensures (before + r.accepted)[j].targetArea == d.targetArea
    ensures (before + r.accepted)[j].depth <= r.task.depth + 1
  {
    AcceptIsNew(Areas(before), r.directions);
    assert d.targetArea in Areas(r.directions);
    if d.targetArea in Areas(before) {
      j :| 0 <= j < |before| && before[j].targetArea == d.targetArea;
    } else {
      var i: nat :| i < |r.accepted| && r.accepted[i].targetArea == d.targetArea;
      assert r.accepted[i] in r.directions;
      j := |before| + i;
    }
  }

  /** What a round offers is in the history from then on, at most one level deeper. */
  lemma DirectionsAreCovered(seeds: seq<Task>, rounds: seq<Round>, k: nat, d: Task) returns (j: nat)
    requires GoodSeeds(seeds) && IsRun(seeds, rounds)
    requires k < |rounds| && d in rounds[k].directions
    ensures j < |History(seeds, rounds)|
    ensures History(seeds, rounds)[j].targetArea == d.targetArea
    ensures History(seeds, rounds)[j].depth <= rounds[k].task.depth + 1
  {
    RunPrefix(seeds, rounds, k);
    var before := History(seeds, rounds[..k]);
    RunsAreWellOrdered(seeds, rounds[..k]);
    j := OfferedIsCovered(before, k, rounds[k], d);
    HistoryGrows(seeds, rounds, k + 1);
    assert rounds[..k + 1][..k] == rounds[..k];
    assert History(seeds, rounds[..k + 1]) == before + rounds[k].accepted;
  }

  // ---------- Breadth first ----------

  /** The directions offered in a run are a function of the area investigated. */
  ghost predicate Follows(rounds: seq<Round>, successors: string -> set<string>) {
    forall k | 0 <= k < |rounds| :: Areas(rounds[k].directions) == successors(rounds[k].task.targetArea)
  }

  /** `path` hops from a seed area to `area` along suggested directions. */
  ghost predicate IsPath(seeds: seq<Task>, successors: string -> set<string>, path: seq<string>, area: string) {
    && path != [] && path[0] in Areas(seeds) && path[|path| - 1] == area
    && forall i | 0 < i < |path| :: path[i] in successors(path[i - 1])
  }

  ghost predicate Reachable(seeds: seq<Task>, successors: string -> set<string>, area: string) {
    exists path :: IsPath(seeds, successors, path, area)
  }

  /** Some area accepted with depth at most `depth`. */
  ghost predicate KnownBy(history: seq<Task>, area: string, depth: int) {
    exists j | 0 <= j < |history| :: history[j].targetArea == area && history[j].depth <= depth
  }

  /** The round that offered an accepted task. */
  lemma ParentRound(seeds: seq<Task>, rounds: seq<Round>, j: nat) returns (k: nat)
    requires IsRun(seeds, rounds) && |seeds| <= j < |History(seeds, rounds)|
    ensures k < |rounds| && k < j && History(seeds, rounds)[j].depth == rounds[k].task.depth + 1
    ensures History(seeds, rounds)[j].targetArea in Areas(rounds[k].directions)
  {
    ParentsFormATree(seeds, rounds, j);
    var t := History(seeds, rounds)[j];
    k :| k < |rounds| && k < j && t in rounds[k].accepted && t.depth == rounds[k].task.depth + 1;
    RunPrefix(seeds, rounds, k);
    AcceptIsNew(Areas(History(seeds, rounds[..k])), rounds[k].directions);
  }

  lemma {:induction false} DepthIsWitnessed(seeds: seq<Task>, rounds: seq<Round>, successors: string -> set<string>,
                                            j: nat)
    returns (path: seq<string>)
    requires GoodSeeds(seeds) && IsRun(seeds, rounds) && Follows(rounds, successors)
    requires j < |History(seeds, rounds)|
    ensures IsPath(seeds, successors, path, History(seeds, rounds)[j].targetArea)
    ensures |path| == History(seeds, rounds)[j].depth + 1
    decreases j
  {
    var history := History(seeds, rounds);
    HistoryGrows(seeds, rounds, 0);
    if j < |seeds| {
      return [history[j].targetArea];
    }
    var k := ParentRound(seeds, rounds, j);
    FirstInFirstOut(seeds, rounds, k);
    path := DepthIsWitnessed(seeds, rounds, successors, k);
    path := path + [history[j].targetArea];
  }

  /** However short a path is, its end was accepted at least that early, unless a task no
      deeper than the path's last but one step is still waiting. */
  lemma {:induction false} NothingIsSkipped(seeds: seq<Task>, rounds: seq<Round>, successors: string -> set<string>,
                                            path: seq<string>, area: string)
    requires GoodSeeds(seeds) && IsRun(seeds, rounds) && Follows(rounds, successors)
    requires IsPath(seeds, successors, path, area)
    ensures KnownBy(History(seeds, rounds), area, |path| - 1) ||
              exists j | |rounds| <= j < |History(seeds, rounds)| :: History(seeds, rounds)[j].depth <= |path| - 2
    decreases |path|
  {
    var history := History(seeds, rounds);
    var n := |path| - 1;
    if n == 0 {
      var t :| t in seeds && t.targetArea == area;
      HistoryGrows(seeds, rounds, 0);
      var j :| 0 <= j < |seeds| && seeds[j] == t;
      assert history[j] == t;
    } else {
      NothingIsSkipped(seeds, rounds, successors, path[..n], path[n - 1]);
      if KnownBy(history, path[n - 1], n - 1) {
        var j: nat :| j < |history| && history[j].targetArea == path[n - 1] && history[j].depth <= n - 1;
        if j < |rounds| {
          FirstInFirstOut(seeds, rounds, j);
          var d :| d in rounds[j].directions && d.targetArea == area;
          var i := DirectionsAreCovered(seeds, rounds, j, d);
        }
      }
    }
  }

  /** The depth of every accepted task is the least number of hops from a seed to its area. */
  lemma DepthIsShortest(seeds: seq<Task>, rounds: seq<Round>, successors: string -> set<string>, j: nat)
    requires GoodSeeds(seeds) && IsRun(seeds, rounds) && Follows(rounds, successors)
    requires j < |History(seeds, rounds)|
    ensures var t := History(seeds, rounds)[j];
            && (exists path :: IsPath(seeds, successors, path, t.targetArea) && |path| == t.depth + 1)
            && forall path | IsPath(seeds, successors, path, t.targetArea) :: t.depth + 1 <= |path|
  {
    var history := History(seeds, rounds);
    var t := history[j];
    var _ := DepthIsWitnessed(seeds, rounds, successors, j);
    RunsAreWellOrdered(seeds, rounds);
    forall path | IsPath(seeds, successors, path, t.targetArea) ensures t.depth + 1 <= |path| {
      NothingIsSkipped(seeds, rounds, successors, path, t.targetArea);
      if i :| |rounds| <= i < |history| && history[i].depth <= |path| - 2 {
        assert |rounds| > 0 ==> history[|rounds| - 1].depth <= history[i].depth;
      } else {
        var i :| 0 <= i < |history| && history[i].targetArea == t.targetArea && history[i].depth <= |path| - 1;
        assert i == j;
      }
    }
  }

  /** A run that drains its queue has executed exactly the reachable areas. */
  lemma DrainedRunsCoverReachable(seeds: seq<Task>, rounds: seq<Round>, successors: string -> set<string>, area: string)
    requires GoodSeeds(seeds) && IsRun(seeds, rounds) && Follows(rounds, successors)
    requires |History(seeds, rounds)| == |rounds|
    ensures Reachable(seeds, successors, area) <==> exists k | 0 <= k < |rounds| :: rounds[k].task.targetArea == area
  {
    if path :| IsPath(seeds, successors, path, area) {
      NothingIsSkipped(seeds, rounds, successors, path, area);
      var j: nat :| j < |rounds| && History(seeds, rounds)[j].targetArea == area;
      FirstInFirstOut(seeds, rounds, j);
    }
    if k: nat :| k < |rounds| && rounds[k].task.targetArea == area {
      FirstInFirstOut(seeds, rounds, k);
      var path := DepthIsWitnessed(seeds, rounds, successors, k);
    }
  }
}

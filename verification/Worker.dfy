/** The worker: one area, or the same goal over many areas with the findings merged. */
module Workers {
  import opened CodebaseScanners
  import opened EventLog
  import opened ResearchRuns
  import opened TaskQueues

  /** What the model says about an area, already parsed; nothing if the call failed. */
  datatype Reply = NoReply | Reply(outcome: Outcome, summary: string, directions: seq<Task>)

  /** The files of an area, and the model. The first argument is the number of areas already
      investigated for the task, so that files and replies may change from one call to the next. */
  datatype Codebase = Codebase(
    candidates: (nat, string) -> seq<Candidate>,
    generate: (nat, Task, ScanResult) -> Reply)

  /** Success is better than leads, and leads are better than nothing. */
  function Rank(outcome: Outcome): nat {
    match outcome
    case NoInformation => 0
    case PartialWithDirections => 1
    case Success => 2
  }

  function TotalTokens(subs: seq<Finding>): nat {
    if subs == [] then 0 else TotalTokens(subs[..|subs| - 1]) + subs[|subs| - 1].promptTokens
  }

  predicate Informative(sub: Finding) {
    sub.outcome != NoInformation
  }

  function AllDirections(subs: seq<Finding>): seq<Task> {
    if subs == [] then []
    else
      var sub := subs[|subs| - 1];
      AllDirections(subs[..|subs| - 1]) + if Informative(sub) then sub.suggestedDirections else []
  }

  function SummaryLine(sub: Finding): string {
    if Informative(sub) && sub.summary != "" then "[" + sub.areaInvestigated + "] " + sub.summary + "\n" else ""
  }

  function AllSummaries(subs: seq<Finding>): string {
    if subs == [] then ""
    else
      var sub := subs[|subs| - 1];
      AllSummaries(subs[..|subs| - 1]) + SummaryLine(sub)
  }

  /** An outcome is the best of some findings; nothing is the best of none. */
  ghost predicate IsBest(outcome: Outcome, subs: seq<Finding>) {
    && (forall sub <- subs :: Rank(sub.outcome) <= Rank(outcome))
    && (outcome == NoInformation || exists sub <- subs :: sub.outcome == outcome)
  }

  /** A finding puts some findings together. */
  ghost predicate Merges(finding: Finding, subs: seq<Finding>) {
    && IsBest(finding.outcome, subs)
    && finding.summary == AllSummaries(subs) && finding.suggestedDirections == AllDirections(subs)
    && finding.promptTokens == TotalTokens(subs)
  }

  lemma BestOfMore(outcome: Outcome, better: Outcome, subs: seq<Finding>, sub: Finding)
    requires IsBest(outcome, subs)
    requires better == if Rank(sub.outcome) > Rank(outcome) then sub.outcome else outcome
    ensures IsBest(better, subs + [sub])
  {
    assert sub in subs + [sub] && forall s <- subs :: s in subs + [sub];
  }

  /** Adds one finding to a merged one. */
  method Merge(merged: Finding, sub: Finding, ghost subs: seq<Finding>) returns (more: Finding)
    requires Merges(merged, subs)
    ensures Merges(more, subs + [sub]) && more.areaInvestigated == merged.areaInvestigated
  {
    var outcome, summary, directions := merged.outcome, merged.summary, merged.suggestedDirections;
    assert (subs + [sub])[..|subs|] == subs;
    if sub.outcome == Success || sub.outcome == PartialWithDirections {
      if sub.summary != "" {
        summary := summary + ("[" + sub.areaInvestigated + "] " + sub.summary + "\n");
      }
      directions := directions + sub.suggestedDirections;
    }
    if sub.outcome == Success && outcome != Success {
      outcome := Success;
    } else if sub.outcome == PartialWithDirections && outcome == NoInformation {
      outcome := PartialWithDirections;
    }
    BestOfMore(merged.outcome, outcome, subs, sub);
    more := Finding(outcome, merged.areaInvestigated, summary, directions, merged.promptTokens + sub.promptTokens);
  }

  lemma {:induction false} SumBounded(subs: seq<Finding>, budget: nat)
    requires forall k | 0 <= k < |subs| :: subs[k].promptTokens <= budget
    ensures TotalTokens(subs) <= |subs| * budget
  {
    if subs != [] {
      SumBounded(subs[..|subs| - 1], budget);
    }
  }

  lemma LastPart<T>(a: seq<T>, b: seq<T>, c: seq<T>)
    ensures a + b + c == a + (b + c)
  {
  }

  /** Putting findings together goes piece by piece. */
  lemma {:induction false} MergedParts(a: seq<Finding>, b: seq<Finding>)
    ensures AllDirections(a + b) == AllDirections(a) + AllDirections(b)
    ensures AllSummaries(a + b) == AllSummaries(a) + AllSummaries(b)
    ensures TotalTokens(a + b) == TotalTokens(a) + TotalTokens(b)
  {
    if b == [] {
      assert a + b == a;
    } else {
      var n := |b| - 1;
      assert (a + b)[..|a + b| - 1] == a + b[..n];
      MergedParts(a, b[..n]);
      LastPart(AllDirections(a), AllDirections(b[..n]), if Informative(b[n]) then b[n].suggestedDirections else []);
      LastPart(AllSummaries(a), AllSummaries(b[..n]), SummaryLine(b[n]));
    }
  }

  /** What one finding contributes: nothing, unless it is a success or partial. */
  lemma OnePart(sub: Finding)
    ensures TotalTokens([sub]) == sub.promptTokens
    ensures sub.outcome == NoInformation ==> AllDirections([sub]) == [] && AllSummaries([sub]) == ""
    ensures sub.outcome in {Success, PartialWithDirections} ==>
              && AllDirections([sub]) == sub.suggestedDirections
              && AllSummaries([sub]) ==
                   if sub.summary == "" then "" else "[" + sub.areaInvestigated + "] " + sub.summary + "\n"
  {
    assert [sub][..0] == [];
  }

  ghost predicate Keeps(sub: Finding, reply: Reply) {
    && (reply.Reply? ==> sub.outcome == reply.outcome && sub.summary == reply.summary
                         && sub.suggestedDirections == reply.directions)
    && (reply.NoReply? ==> sub.outcome == NoInformation && sub.summary == "" && sub.suggestedDirections == [])
  }

  ghost predicate HasOutcome(reply: Reply, outcome: Outcome) {
    reply.Reply? && reply.outcome == outcome
  }

  /** The best outcome of findings that keep some replies is the best of the replies. */
  lemma BestOfReplies(outcome: Outcome, subs: seq<Finding>, replies: seq<Reply>)
    requires |replies| == |subs| && IsBest(outcome, subs)
    requires forall k: nat | k < |subs| :: Keeps(subs[k], replies[k])
    ensures outcome == Success <==> exists k: nat :: k < |replies| && HasOutcome(replies[k], Success)
    ensures outcome == PartialWithDirections <==>
              && (forall k: nat | k < |replies| :: !HasOutcome(replies[k], Success))
              && exists k: nat :: k < |replies| && HasOutcome(replies[k], PartialWithDirections)
  {
    forall k: nat | k < |replies| ensures Rank(subs[k].outcome) <= Rank(outcome) && Keeps(subs[k], replies[k]) {
      assert subs[k] in subs;
    }
    if outcome != NoInformation {
      var k: nat :| k < |subs| && subs[k].outcome == outcome;
      assert HasOutcome(replies[k], outcome);
    }
  }

  class Worker {
    const codebase: Codebase
    const tokenBudget: nat

    constructor (codebase: Codebase, tokenBudget: nat)
      ensures this.codebase == codebase && this.tokenBudget == tokenBudget
    {
      this.codebase, this.tokenBudget := codebase, tokenBudget;
    }

    /** The files of an area that fit in the budget. */
    ghost function ScanOf(k: nat, area: string): ScanResult {
      Packed(codebase.candidates(k, area), Choice(codebase.candidates(k, area), tokenBudget))
    }

    /** What the model replies about an area; it is not asked if there are no files. */
    ghost function ReplyOf(k: nat, task: Task, area: string): Reply {
      if ScanOf(k, area).included == [] then NoReply
      else codebase.generate(k, task.(targetArea := area), ScanOf(k, area))
    }

    /** A finding about one area keeps the reply of the model, if there is one. */
    ghost predicate About(sub: Finding, k: nat, task: Task, area: string) {
      && sub.areaInvestigated == area && sub.promptTokens == ScanOf(k, area).tokens <= tokenBudget
      && Keeps(sub, ReplyOf(k, task, area))
    }

    /** What it finds in some areas, in order. */
    ghost predicate AllAbout(subs: seq<Finding>, task: Task, areas: seq<string>) {
      |subs| == |areas| && forall k | 0 <= k < |subs| :: About(subs[k], k, task, areas[k])
    }

    lemma OneMoreAbout(subs: seq<Finding>, sub: Finding, task: Task, areas: seq<string>, i: nat)
      requires i < |areas| && AllAbout(subs, task, areas[..i]) && About(sub, i, task, areas[i])
      ensures AllAbout(subs + [sub], task, areas[..i + 1])
    {
    }

    lemma TokensBounded(subs: seq<Finding>, task: Task, areas: seq<string>)
      requires AllAbout(subs, task, areas)
      ensures TotalTokens(subs) <= |areas| * tokenBudget
    {
      forall k | 0 <= k < |subs| ensures subs[k].promptTokens <= tokenBudget {
        assert About(subs[k], k, task, areas[k]);
      }
      SumBounded(subs, tokenBudget);
    }

    method ExecuteSingleArea(k: nat, task: Task, area: string) returns (finding: Finding)
      ensures About(finding, k, task, area)
    {
      ghost var files := codebase.candidates(k, area);
      var scan := Scan(codebase.candidates(k, area), tokenBudget);
      ghost var kept :| Greedy(files, kept, tokenBudget) && scan == Packed(files, kept);
      GreedyIsUnique(files, kept, Choice(files, tokenBudget), tokenBudget);
      WithinBudget(files, kept, tokenBudget);
      finding := Finding(NoInformation, area, "", [], scan.tokens);
      if scan.included != [] {
        match codebase.generate(k, task.(targetArea := area), scan)
        case NoReply =>
        case Reply(outcome, summary, directions) =>
          finding := Finding(outcome, area, summary, directions, scan.tokens);
      }
    }

    /** A success iff some reply is one, and partial iff none is but some reply is partial. */
    ghost predicate IsBestReply(outcome: Outcome, task: Task, areas: seq<string>) {
      && (outcome == Success <==> exists k: nat :: k < |areas| && HasOutcome(ReplyOf(k, task, areas[k]), Success))
      && (outcome == PartialWithDirections <==>
            && (forall k: nat | k < |areas| :: !HasOutcome(ReplyOf(k, task, areas[k]), Success))
            && exists k: nat :: k < |areas| && HasOutcome(ReplyOf(k, task, areas[k]), PartialWithDirections))
    }

    /** The best outcome of the findings is that of the best reply. */
    lemma OutcomeOfReplies(outcome: Outcome, subs: seq<Finding>, task: Task, areas: seq<string>)
      requires AllAbout(subs, task, areas) && IsBest(outcome, subs)
      ensures IsBestReply(outcome, task, areas)
    {
      var replies := seq(|areas|, k requires 0 <= k < |areas| => ReplyOf(k, task, areas[k]));
      forall k: nat | k < |areas| ensures Keeps(subs[k], replies[k]) {
        assert About(subs[k], k, task, areas[k]);
      }
      BestOfReplies(outcome, subs, replies);
      forall k: nat | k < |areas| ensures replies[k] == ReplyOf(k, task, areas[k]) {
      }
    }

    /** The repeat targets are investigated in order. The merged finding has the best outcome of
        its parts, all their leads and summaries, and the tokens they took. */
    method ExecuteTargets(task: Task) returns (finding: Finding)
      ensures finding.areaInvestigated == task.targetArea
      ensures exists subs :: AllAbout(subs, task, task.repeatTargets) && Merges(finding, subs)
    {
      finding := Finding(NoInformation, task.targetArea, "", [], 0);
      ghost var subs: seq<Finding> := [];
      for i := 0 to |task.repeatTargets|
        invariant AllAbout(subs, task, task.repeatTargets[..i])
        invariant finding.areaInvestigated == task.targetArea && Merges(finding, subs)
      {
        var sub := ExecuteSingleArea(i, task, task.repeatTargets[i]);
        OneMoreAbout(subs, sub, task, task.repeatTargets, i);
        finding := Merge(finding, sub, subs);
        subs := subs + [sub];
      }
      assert task.repeatTargets[..|task.repeatTargets|] == task.repeatTargets;
    }

    method Execute(task: Task) returns (finding: Finding)
      ensures finding.areaInvestigated == task.targetArea
      ensures !task.repeatable || task.repeatTargets == [] ==> About(finding, 0, task, task.targetArea)
      ensures task.repeatable && task.repeatTargets != [] ==>
                && finding.promptTokens <= |task.repeatTargets| * tokenBudget
                && IsBestReply(finding.outcome, task, task.repeatTargets)
                && exists subs :: AllAbout(subs, task, task.repeatTargets) && Merges(finding, subs)
    {
      if !task.repeatable || task.repeatTargets == [] {
        finding := ExecuteSingleArea(0, task, task.targetArea);
      } else {
        finding := ExecuteTargets(task);
        ghost var subs :| AllAbout(subs, task, task.repeatTargets) && Merges(finding, subs);
        TokensBounded(subs, task, task.repeatTargets);
        OutcomeOfReplies(finding.outcome, subs, task, task.repeatTargets);
      }
    }
  }

  /** There is only one best outcome. */
  lemma BestIsUnique(a: Outcome, b: Outcome, subs: seq<Finding>)
    requires IsBest(a, subs) && IsBest(b, subs)
    ensures a == b
  {
  }
}

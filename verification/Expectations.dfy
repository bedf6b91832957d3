/** Expectations of Google Mock and their prerequisites: the three worklist traversals, what a
    call does, and sequences. */
module Expectations {
  import opened PrerequisiteGraph

  class ExpectationBase {
    var immediatePrerequisites: seq<ExpectationBase>
    var retired: bool
    var callCount: nat
    const minCalls: nat
    const maxCalls: nat
    const retiresOnSaturation: bool

    constructor (minCalls: nat, maxCalls: nat, retiresOnSaturation: bool)
      ensures immediatePrerequisites == [] && !retired && callCount == 0
      ensures this.minCalls == minCalls && this.maxCalls == maxCalls
      ensures this.retiresOnSaturation == retiresOnSaturation
    {
      immediatePrerequisites, retired, callCount := [], false, 0;
      this.minCalls, this.maxCalls, this.retiresOnSaturation := minCalls, maxCalls, retiresOnSaturation;
    }

    predicate IsSatisfied()
      reads this
    {
      minCalls <= callCount <= maxCalls
    }

    predicate IsSaturated()
      reads this
    {
      callCount >= maxCalls
    }
  }

  /** An expectation is satisfied while its number of calls is in range, and saturated from the
      greatest number on; at that number it is both, and one more call leaves it unsatisfied. */
  lemma CallRange(e: ExpectationBase)
    ensures e.minCalls == e.maxCalls ==> (e.IsSatisfied() <==> e.callCount == e.maxCalls)
    ensures e.minCalls <= e.maxCalls ==> (e.IsSatisfied() && e.IsSaturated() <==> e.callCount == e.maxCalls)
    ensures !e.IsSatisfied() && !e.IsSaturated() ==> e.callCount < e.minCalls
    ensures e.callCount < e.minCalls || e.callCount > e.maxCalls ==> !e.IsSatisfied()
    ensures e.IsSaturated() <==> e.callCount + 1 > e.maxCalls
  {
  }

  /** The prerequisite links of the expectations `nodes`. */
  ghost function Links(nodes: set<ExpectationBase>): Graph<ExpectationBase>
    reads nodes
  {
    map n | n in nodes :: n.immediatePrerequisites
  }

  ghost predicate AllSatisfied(nodes: set<ExpectationBase>, e: ExpectationBase)
    reads nodes
  {
    forall m | m in nodes && Reaches(Links(nodes), e, m) :: m.IsSatisfied()
  }

  ghost function Retired(nodes: set<ExpectationBase>): set<ExpectationBase>
    reads nodes
  {
    set n | n in nodes && n.retired
  }

  ghost predicate RetiredOnly<N>(g: Graph<N>, retired: set<N>) {
    forall n <- g | n in retired :: forall m <- g[n] :: m in retired
  }

  /** Whatever a retired expectation needs is retired too. */
  ghost predicate RetiredClosed(nodes: set<ExpectationBase>)
    reads nodes
  {
    RetiredOnly(Links(nodes), Retired(nodes))
  }

  /** The links lead from nodes to nodes only, and never back. */
  ghost predicate WellLinked(nodes: set<ExpectationBase>)
    reads nodes
  {
    Closed(Links(nodes)) && Acyclic(Links(nodes))
  }

  // ---------- AllPrerequisitesAreSatisfied ----------

  lemma Follow<N>(g: Graph<N>, e: N, exp: N, next: N)
    requires exp in g && next in g[exp] && (exp == e || Reaches(g, e, exp))
    ensures Reaches(g, e, next)
  {
    ReachesEdge(g, exp, next);
    if exp != e {
      ReachesTrans(g, e, exp, next);
    }
  }

  /** What replacing the last node of a worklist by some of its successors does to it. */
  lemma Expand<N>(g: Graph<N>, e: N, work: seq<N>, keep: set<N>)
    requires Closed(g) && Acyclic(g) && work != []
    requires forall n <- work :: n in g && (n == e || Reaches(g, e, n))
    ensures var exp := work[|work| - 1];
            var after := work[..|work| - 1] + Sift(g[exp], keep);
            && (forall n <- after :: n in g && (n == e || Reaches(g, e, n)))
            && TotalWeight(g, after) < TotalWeight(g, work)
            && (g.Keys <= keep ==> Sift(g[exp], keep) == g[exp])
  {
    var exp := work[|work| - 1];
    ExpandShrinks(g, work, keep);
    forall n | n in Sift(g[exp], keep) ensures Reaches(g, e, n) {
      Follow(g, e, exp, n);
    }
    if g.Keys <= keep {
      SiftAll(g[exp], keep);
    }
  }

  /** Some node of the worklist reaches `m`. */
  ghost predicate Ahead<N>(g: Graph<N>, work: seq<N>, m: N) {
    exists n :: n in work && Reaches(g, n, m)
  }

  /** Replacing the last node of a worklist by its successors loses those successors only. */
  lemma StillAhead<N>(g: Graph<N>, before: seq<N>, successors: seq<N>, m: N)
    requires before != [] && Ahead(g, before, m)
    requires before[|before| - 1] in g && successors == g[before[|before| - 1]]
    ensures m in successors || Ahead(g, before[..|before| - 1] + successors, m)
  {
    var n :| n in before && Reaches(g, n, m);
    var after := before[..|before| - 1] + successors;
    if n == before[|before| - 1] {
      FirstEdge(g, n, m);
      if m !in successors {
        var s :| s in g[n] && Reaches(g, s, m);
        assert s in after;
      }
    } else {
      assert n in after;
    }
  }

  /** Walks every path from `e`: there is no visited set, acyclicity alone ends the walk. */
  method AllPrerequisitesAreSatisfied(e: ExpectationBase, ghost nodes: set<ExpectationBase>) returns (ok: bool)
    requires e in nodes && WellLinked(nodes)
    ensures ok <==> AllSatisfied(nodes, e)
  {
    ghost var g := Links(nodes);
    var expectations := [e];
    while expectations != []
      invariant forall n <- expectations :: n in g && (n == e || Reaches(g, e, n))
      invariant forall m | m in nodes && Reaches(g, e, m) :: m.IsSatisfied() || Ahead(g, expectations, m)
      decreases TotalWeight(g, expectations)
    {
      ghost var before := expectations;
      var exp := expectations[|expectations| - 1];
      expectations := expectations[..|expectations| - 1];
      ghost var below := expectations;
      var prerequisites := exp.immediatePrerequisites;
      for i := 0 to |prerequisites|
        invariant expectations == below + prerequisites[..i]
        invariant forall k | 0 <= k < i :: prerequisites[k].IsSatisfied()
      {
        var next := prerequisites[i];
        if !next.IsSatisfied() {
          Follow(g, e, exp, next);
          return false;
        }
        expectations := expectations + [next];
        assert prerequisites[..i + 1] == prerequisites[..i] + [next];
      }
      assert expectations == below + prerequisites;
      Expand(g, e, before, g.Keys);
      forall m | m in nodes && Reaches(g, e, m) && !m.IsSatisfied() ensures Ahead(g, expectations, m) {
        StillAhead(g, before, prerequisites, m);
      }
    }
    return true;
  }

  // ---------- FindUnsatisfiedPrerequisites ----------

  /** The prerequisites of a node that the search goes on to: satisfied and never called. */
  ghost predicate Skippable(n: ExpectationBase)
    reads n
  {
    n.IsSatisfied() && n.callCount == 0
  }

  /** The nodes a search from `e` looks below: `e` itself, and the skippable ones. */
  ghost function Transparent(nodes: set<ExpectationBase>, e: ExpectationBase): set<ExpectationBase>
    reads nodes
  {
    (set n | n in nodes && Skippable(n)) + {e}
  }

  /** The unsatisfied prerequisites reached from `e` through transparent nodes. */
  ghost function Blocking(nodes: set<ExpectationBase>, e: ExpectationBase): set<ExpectationBase>
    reads nodes
  {
    set m | m in nodes && !m.IsSatisfied() && Reaches(Restrict(Links(nodes), Transparent(nodes, e)), e, m)
  }

  /** One node of the search: its unsatisfied prerequisites are reported, the skippable ones queued. */
  method Inspect(exp: ExpectationBase, below: seq<ExpectationBase>, result: set<ExpectationBase>,
                 ghost keep: set<ExpectationBase>)
    returns (expectations: seq<ExpectationBase>, result': set<ExpectationBase>)
    requires forall n <- exp.immediatePrerequisites :: n in keep <==> Skippable(n)
    ensures expectations == below + Sift(exp.immediatePrerequisites, keep)
    ensures result <= result'
    ensures forall n <- result' :: n in result || (n in exp.immediatePrerequisites && !n.IsSatisfied())
    ensures forall n <- exp.immediatePrerequisites :: !n.IsSatisfied() ==> n in result'
  {
    var prerequisites := exp.immediatePrerequisites;
    expectations, result' := below, result;
    for i := 0 to |prerequisites|
      invariant expectations == below + Sift(prerequisites[..i], keep)
      invariant result <= result'
      invariant forall n <- result' :: n in result || (n in prerequisites && !n.IsSatisfied())
      invariant forall k | 0 <= k < i :: !prerequisites[k].IsSatisfied() ==> prerequisites[k] in result'
    {
      var next := prerequisites[i];
      SiftPush(prerequisites, i, keep);
      if next.IsSatisfied() {
        if next.callCount == 0 {
          expectations := expectations + [next];
        }
      } else {
        result' := result' + {next};
      }
    }
    assert prerequisites[..|prerequisites|] == prerequisites;
  }

  /** The search does not lose what is reached through the nodes it keeps. */
  lemma KeptAhead<N>(h: Graph<N>, e: N, before: seq<N>, keep: set<N>, m: N)
    requires Acyclic(h) && Closed(h) && before != [] && Ahead(h, before, m)
    requires forall n <- before :: n in h && (n == e || Reaches(h, e, n))
    requires forall n <- h | n !in keep && n != e :: h[n] == []
    requires m !in h[before[|before| - 1]]
    ensures Ahead(h, before[..|before| - 1] + Sift(h[before[|before| - 1]], keep), m)
  {
    var exp := before[|before| - 1];
    StillAhead(h, before, h[exp], m);
    var after := before[..|before| - 1] + Sift(h[exp], keep);
    var n :| n in before[..|before| - 1] + h[exp] && Reaches(h, n, m);
    if n !in after {
      assert n in h[exp];
      Follow(h, e, exp, n);
      FirstEdge(h, n, m);
    }
  }

  lemma RestrictIsDag<N>(g: Graph<N>, s: set<N>)
    requires Closed(g) && Acyclic(g)
    ensures Closed(Restrict(g, s)) && Acyclic(Restrict(g, s))
  {
    forall a | a in g ensures !Reaches(Restrict(g, s), a, a) {
      if Reaches(Restrict(g, s), a, a) {
        RestrictReaches(g, s, a, a);
      }
    }
  }

  method FindUnsatisfiedPrerequisites(e: ExpectationBase, result: set<ExpectationBase>,
                                      ghost nodes: set<ExpectationBase>)
    returns (result': set<ExpectationBase>)
    requires e in nodes && WellLinked(nodes)
    ensures result' == result + Blocking(nodes, e)
  {
    ghost var g := Links(nodes);
    ghost var keep := set n | n in nodes && Skippable(n);
    ghost var h := Restrict(g, keep + {e});
    RestrictIsDag(g, keep + {e});
    ghost var blocking := Blocking(nodes, e);
    assert forall m :: m in blocking <==> m in nodes && !m.IsSatisfied() && Reaches(h, e, m);
    var expectations := [e];
    result' := result;
    while expectations != []
      invariant forall n <- expectations :: n in h && (n == e || Reaches(h, e, n))
      invariant forall n <- expectations :: n in keep + {e}
      invariant result <= result' <= result + blocking
      invariant forall m <- blocking :: m in result' || Ahead(h, expectations, m)
      decreases TotalWeight(h, expectations)
    {
      ghost var before, found := expectations, result';
      var exp := expectations[|expectations| - 1];
      assert exp in before && h[exp] == g[exp] == exp.immediatePrerequisites;
      expectations, result' := Inspect(exp, expectations[..|expectations| - 1], result', keep);
      Expand(h, e, before, keep);
      forall n | n in exp.immediatePrerequisites ensures n in nodes && Reaches(h, e, n) {
        assert n in g[exp];
        Follow(h, e, exp, n);
      }
      forall m | m in blocking && m !in result' ensures Ahead(h, expectations, m) {
        KeptAhead(h, e, before, keep, m);
      }
    }
  }

  lemma OneStep<N>(g: Graph<N>, s: set<N>, e: N, p: N)
    requires e in g && e in s && p in g[e]
    ensures Reaches(Restrict(g, s), e, p)
  {
    ReachesEdge(Restrict(g, s), e, p);
  }

  lemma TwoSteps<N>(g: Graph<N>, s: set<N>, e: N, p: N, q: N)
    requires e in g && e in s && p in g[e] && p in g && p in s && q in g[p]
    ensures Reaches(Restrict(g, s), e, q)
  {
    OneStep(g, s, p, q);
    ReachesVia(Restrict(g, s), e, p, q);
  }

  lemma NoSecondStep<N>(g: Graph<N>, s: set<N>, e: N, m: N)
    requires e in g && Reaches(Restrict(g, s), e, m) && forall n <- g[e] :: n !in s
    ensures m in g[e]
  {
    var h := Restrict(g, s);
    FirstEdge(h, e, m);
    forall n | n in h[e] ensures !Reaches(h, n, m) {
      if Reaches(h, n, m) {
        FirstEdge(h, n, m);
      }
    }
  }

  /** The search reports the unsatisfied prerequisites of its expectation, looks behind one that
      is satisfied and was never called, and behind no other. */
  lemma BlockingByCases(nodes: set<ExpectationBase>, e: ExpectationBase, p: ExpectationBase, q: ExpectationBase)
    requires e in nodes && Closed(Links(nodes))
    ensures p in e.immediatePrerequisites && !p.IsSatisfied() ==> p in Blocking(nodes, e)
    ensures p in e.immediatePrerequisites && p.IsSatisfied() && p.callCount == 0
            && q in p.immediatePrerequisites && !q.IsSatisfied() ==>
              q in Blocking(nodes, e)
    ensures (forall n <- e.immediatePrerequisites :: n.IsSatisfied() && n.callCount > 0 && n != e) ==>
              Blocking(nodes, e) == {}
  {
    var g: Graph<ExpectationBase> := Links(nodes);
    var seen: set<ExpectationBase> := Transparent(nodes, e);
    assert g[e] == e.immediatePrerequisites;
    if p in e.immediatePrerequisites {
      OneStep(g, seen, e, p);
      assert p in g && g[p] == p.immediatePrerequisites;
      if Skippable(p) && q in p.immediatePrerequisites {
        TwoSteps(g, seen, e, p, q);
        assert q in g;
      }
    }
    if forall n <- e.immediatePrerequisites :: n.IsSatisfied() && n.callCount > 0 && n != e {
      forall m | m in Blocking(nodes, e) ensures false {
        NoSecondStep(g, seen, e, m);
      }
    }
  }

  /** On the way to a bad node, the first bad node is reached through good ones that are kept,
      if the good nodes not kept reach nothing bad. */
  lemma {:induction false} FirstBad<N>(g: Graph<N>, keep: set<N>, bad: set<N>, a: N, m: N, k: nat) returns (b: N)
    requires a in keep && m in bad && ReachesIn(g, a, m, k)
    requires forall n, c | n in g && n !in bad && n !in keep && c in bad :: !Reaches(g, n, c)
    ensures b in bad && Reaches(Restrict(g, keep), a, b)
  {
    var h := Restrict(g, keep);
    if m in g[a] {
      ReachesEdge(h, a, m);
      return m;
    }
    var s :| s in g[a] && ReachesIn(g, s, m, k - 1);
    ReachesEdge(h, a, s);
    if s in bad {
      return s;
    }
    assert Reaches(g, s, m);
    b := FirstBad(g, keep, bad, s, m, k - 1);
    ReachesVia(h, a, s, b);
  }

  /** Expectations the search does not look below, though it may meet them: they are satisfied
      and were called. In order, these have nothing unsatisfied behind them. */
  ghost predicate NothingHidden(nodes: set<ExpectationBase>)
    reads nodes
  {
    forall n <- nodes | n.callCount > 0 && n.IsSatisfied() :: AllSatisfied(nodes, n)
  }

  /** The search finds unsatisfied transitive prerequisites only, and finds one unless all are
      satisfied, as long as nothing is hidden. */
  lemma BlockingIsSound(nodes: set<ExpectationBase>, e: ExpectationBase)
    requires e in nodes && WellLinked(nodes)
    ensures forall m <- Blocking(nodes, e) :: !m.IsSatisfied() && Reaches(Links(nodes), e, m)
    ensures NothingHidden(nodes) ==> (Blocking(nodes, e) == {} <==> AllSatisfied(nodes, e))
  {
    var g, keep := Links(nodes), Transparent(nodes, e);
    forall m | m in Blocking(nodes, e) ensures Reaches(g, e, m) {
      RestrictReaches(g, keep, e, m);
    }
    if NothingHidden(nodes) && !AllSatisfied(nodes, e) {
      var m :| m in nodes && Reaches(g, e, m) && !m.IsSatisfied();
      var bad := set n | n in nodes && !n.IsSatisfied();
      var k: nat :| ReachesIn(g, e, m, k);
      var b := FirstBad(g, keep, bad, e, m, k);
      assert b in Blocking(nodes, e);
    }
  }

  // ---------- RetireAllPreRequisites ----------

  /** Retires the immediate prerequisites of one node and queues the newly retired ones. */
  method RetireImmediate(exp: ExpectationBase, below: seq<ExpectationBase>, ghost nodes: set<ExpectationBase>)
    returns (expectations: seq<ExpectationBase>)
    requires exp in nodes && forall n <- exp.immediatePrerequisites :: n in nodes
    modifies nodes`retired
    ensures Links(nodes) == old(Links(nodes))
    ensures old(Retired(nodes)) <= Retired(nodes)
    ensures forall n <- exp.immediatePrerequisites :: n in Retired(nodes)
    ensures forall n <- Retired(nodes) - old(Retired(nodes)) :: n in exp.immediatePrerequisites && n in expectations
    ensures below <= expectations
    ensures forall n <- expectations :: n in below || n in Retired(nodes) - old(Retired(nodes))
    ensures Retired(nodes) == old(Retired(nodes)) ==> expectations == below
  {
    expectations := below;
    var prerequisites := exp.immediatePrerequisites;
    for i := 0 to |prerequisites|
      invariant Links(nodes) == old(Links(nodes)) && exp.immediatePrerequisites == prerequisites
      invariant old(Retired(nodes)) <= Retired(nodes)
      invariant forall k | 0 <= k < i :: prerequisites[k] in Retired(nodes)
      invariant forall n <- Retired(nodes) - old(Retired(nodes)) :: n in prerequisites && n in expectations
      invariant below <= expectations
      invariant forall n <- expectations :: n in below || n in Retired(nodes) - old(Retired(nodes))
      invariant Retired(nodes) == old(Retired(nodes)) ==> expectations == below
    {
      var next := prerequisites[i];
      if !next.retired {
        ghost var before := Retired(nodes);
        next.retired := true;
        assert Retired(nodes) == before + {next};
        expectations := expectations + [next];
      }
    }
  }

  /** Everything retired, and `e`, has its prerequisites retired, unless it is still on the worklist. */
  ghost predicate Settled<N>(g: Graph<N>, e: N, work: seq<N>, retired: set<N>) {
    forall n <- g | n == e || n in retired :: n in work || forall m <- g[n] :: m in retired
  }

  /** Retiring the successors of the last node of the worklist and queueing the new ones. */
  lemma RetireStep<N>(g: Graph<N>, e: N, before: seq<N>, retired: set<N>, after: seq<N>, retired': set<N>)
    requires Closed(g) && before != [] && Settled(g, e, before, retired)
    requires forall n <- before :: n in g && (n == e || Reaches(g, e, n))
    requires retired <= retired' && forall n <- g[before[|before| - 1]] :: n in retired'
    requires forall n <- retired' - retired :: n in g[before[|before| - 1]] && n in after
    requires before[..|before| - 1] <= after
    requires forall n <- after :: n in before[..|before| - 1] || n in retired' - retired
    ensures forall n <- after :: n in g && (n == e || Reaches(g, e, n))
    ensures Settled(g, e, after, retired') && retired' - retired <= Prereqs(g, e)
  {
    var exp, below := before[|before| - 1], before[..|before| - 1];
    forall n | n in retired' - retired ensures n in g && Reaches(g, e, n) {
      Follow(g, e, exp, n);
    }
    forall n | n in below ensures n in after && n in before {
      var i :| 0 <= i < |below| && below[i] == n;
      assert after[i] == n;
    }
    forall n | n in before ensures n in below || n == exp {}
  }

  lemma RetiredHoldsAll<N>(g: Graph<N>, e: N, retired: set<N>)
    requires e in g && Settled(g, e, [], retired)
    ensures Prereqs(g, e) <= retired
  {
    forall m | m in Prereqs(g, e) ensures m in retired {
      var k: nat :| ReachesIn(g, e, m, k);
      ClosedSetHolds(g, e, m, k, retired);
    }
  }

  /** Retires what `e` needs and is not retired yet. The early return and the pruning at retired
      nodes lose nothing, because whatever a retired expectation needs is retired already. */
  method RetireAllPreRequisites(e: ExpectationBase, ghost nodes: set<ExpectationBase>)
    requires e in nodes && Closed(Links(nodes)) && RetiredClosed(nodes)
    modifies nodes`retired
    ensures Links(nodes) == old(Links(nodes))
    ensures Retired(nodes) == old(Retired(nodes) + Prereqs(Links(nodes), e))
    ensures RetiredClosed(nodes)
  {
    ghost var g := Links(nodes);
    if e.retired {
      RetiredHoldsAll(g, e, Retired(nodes));
      return;
    }
    var expectations := [e];
    while expectations != []
      invariant Links(nodes) == g
      invariant forall n <- expectations :: n in g && (n == e || Reaches(g, e, n))
      invariant old(Retired(nodes)) <= Retired(nodes) <= old(Retired(nodes)) + Prereqs(g, e)
      invariant Settled(g, e, expectations, Retired(nodes))
      decreases nodes - Retired(nodes), |expectations|
    {
      ghost var before, retired := expectations, Retired(nodes);
      var exp := expectations[|expectations| - 1];
      assert g[exp] == exp.immediatePrerequisites;
      assert forall n <- g[exp] :: n in g;
      expectations := RetireImmediate(exp, expectations[..|expectations| - 1], nodes);
      RetireStep(g, e, before, retired, expectations, Retired(nodes));
    }
    RetiredHoldsAll(g, e, Retired(nodes));
  }

  // ---------- What every call keeps ----------

  /** Retired expectations need retired ones only; an expectation that was called, and may be
      called at all, needs satisfied and retired ones only. */
  ghost predicate Orderly(nodes: set<ExpectationBase>)
    reads nodes
  {
    && WellLinked(nodes) && RetiredClosed(nodes)
    && forall n <- nodes | n.callCount > 0 && n.maxCalls > 0 ::
         AllSatisfied(nodes, n) && Prereqs(Links(nodes), n) <= Retired(nodes)
  }

  ghost function Satisfied(nodes: set<ExpectationBase>): set<ExpectationBase>
    reads nodes
  {
    set n | n in nodes && n.IsSatisfied()
  }

  /** The expectations called, of those that may be called at all. */
  ghost function Called(nodes: set<ExpectationBase>): set<ExpectationBase>
    reads nodes
  {
    set n | n in nodes && n.callCount > 0 && n.maxCalls > 0
  }

  /** `Orderly` on values: what was called needs nodes of `done` only. */
  ghost predicate InOrder<N>(g: Graph<N>, retired: set<N>, called: set<N>, done: set<N>) {
    && Closed(g) && Acyclic(g) && RetiredOnly(g, retired)
    && forall n <- called | n in g :: Prereqs(g, n) <= done
  }

  lemma SatisfiedPrereqs(nodes: set<ExpectationBase>, n: ExpectationBase)
    ensures AllSatisfied(nodes, n) <==> Prereqs(Links(nodes), n) <= Satisfied(nodes)
  {
    forall m | m in nodes && Reaches(Links(nodes), n, m) ensures m in Prereqs(Links(nodes), n) {}
  }

  lemma OrderlyIsInOrder(nodes: set<ExpectationBase>)
    ensures Orderly(nodes) <==>
              InOrder(Links(nodes), Retired(nodes), Called(nodes), Satisfied(nodes) * Retired(nodes))
  {
    forall n | n in nodes ensures AllSatisfied(nodes, n) <==> Prereqs(Links(nodes), n) <= Satisfied(nodes) {
      SatisfiedPrereqs(nodes, n);
    }
  }

  lemma RetiredStaysClosed<N>(g: Graph<N>, e: N, retired: set<N>, retired': set<N>)
    requires Closed(g) && e in g && RetiredOnly(g, retired)
    requires retired' == retired || retired' == retired + Prereqs(g, e) || retired' == retired + Prereqs(g, e) + {e}
    ensures RetiredOnly(g, retired')
  {
    forall n, m | n in g && n in retired' && m in g[n] ensures m in retired' {
      if n !in retired {
        if n == e {
          ReachesEdge(g, e, m);
        } else {
          Follow(g, e, n, m);
        }
      }
    }
  }

  /** A call of `e` keeps the order: only `e` may become unsatisfied, and no expectation that was
      called needs it, as it is not retired. */
  lemma CallKeepsOrder<N>(g: Graph<N>, satisfied: set<N>, retired: set<N>, called: set<N>, e: N,
                          satisfied': set<N>, retired': set<N>, called': set<N>)
    requires InOrder(g, retired, called, satisfied * retired) && e in g && e !in retired && Prereqs(g, e) <= satisfied
    requires satisfied - {e} <= satisfied' && retired <= retired' && called' <= called + {e}
    requires retired' == retired || retired' == retired + Prereqs(g, e) || retired' == retired + Prereqs(g, e) + {e}
    requires e in called' ==> e in called || Prereqs(g, e) <= retired'
    ensures InOrder(g, retired', called', satisfied' * retired')
  {
    RetiredStaysClosed(g, e, retired, retired');
    assert e !in Prereqs(g, e);
    forall n | n in called' && n in g ensures Prereqs(g, n) <= satisfied' * retired' {
      if n in called {
        assert Prereqs(g, n) <= satisfied * retired && e !in Prereqs(g, n);
      }
    }
  }

  /** What a call of `e` that is not excessive retires. */
  method RetireForCall(e: ExpectationBase, ghost nodes: set<ExpectationBase>)
    requires e in nodes && WellLinked(nodes) && RetiredClosed(nodes) && !e.retired
    modifies nodes`retired
    ensures Links(nodes) == old(Links(nodes))
    ensures Retired(nodes) == old(Retired(nodes)) +
              (Prereqs(Links(nodes), e) + if e.retiresOnSaturation && e.IsSaturated() then {e} else {})
  {
    ghost var retired := Retired(nodes);
    RetireAllPreRequisites(e, nodes);
    ghost var more := Retired(nodes);
    assert more == retired + Prereqs(Links(nodes), e);
    if e.retiresOnSaturation && e.IsSaturated() {
      e.retired := true;
      assert Retired(nodes) == more + {e};
    }
  }

  /** A call that the expectation `e` handles. Calls come only when `e` is active and ready. */
  method Invoke(e: ExpectationBase, ghost nodes: set<ExpectationBase>) returns (excessive: bool)
    requires e in nodes && Orderly(nodes)
    requires !e.retired && AllSatisfied(nodes, e)
    modifies e`callCount, nodes`retired
    ensures Orderly(nodes) && Links(nodes) == old(Links(nodes))
    ensures e.callCount == old(e.callCount) + 1
    ensures excessive <==> old(e.IsSaturated())
    ensures Retired(nodes) == old(Retired(nodes)) +
              if excessive then {}
              else Prereqs(Links(nodes), e) + if e.retiresOnSaturation && e.IsSaturated() then {e} else {}
  {
    ghost var g, satisfied, retired, called := Links(nodes), Satisfied(nodes), Retired(nodes), Called(nodes);
    OrderlyIsInOrder(nodes);
    SatisfiedPrereqs(nodes, e);
    excessive := e.IsSaturated();
    e.callCount := e.callCount + 1;
    assert Links(nodes) == g && Retired(nodes) == retired;
    if !excessive {
      RetireForCall(e, nodes);
    }
    CallKeepsOrder(g, satisfied, retired, called, e, Satisfied(nodes), Retired(nodes), Called(nodes));
    OrderlyIsInOrder(nodes);
  }

  /** In every state that calls keep, the search for unsatisfied prerequisites is exact. */
  lemma OrderlySearchIsExact(nodes: set<ExpectationBase>, e: ExpectationBase)
    requires e in nodes && Orderly(nodes)
    ensures Blocking(nodes, e) == {} <==> AllSatisfied(nodes, e)
  {
    forall n | n in nodes && n.callCount > 0 && n.IsSatisfied() ensures AllSatisfied(nodes, n) {
      assert n.maxCalls >= n.callCount;
    }
    BlockingIsSound(nodes, e);
  }

  /** Expectations that were neither called nor retired yet are in order. */
  lemma FreshAreOrderly(nodes: set<ExpectationBase>)
    requires WellLinked(nodes) && forall n <- nodes :: n.callCount == 0 && !n.retired
    ensures Orderly(nodes)
  {
  }

  // ---------- What a new link keeps ----------

  /** When a new prerequisite `p` of `e` leaves everything in order: it closes no cycle; `p` is
      retired if `e` is; and if `e`, or what needs it, was called, then `p` and all it needs
      are satisfied and retired. */
  ghost predicate MayLink<N>(g: Graph<N>, retired: set<N>, called: set<N>, done: set<N>, e: N, p: N) {
    && p != e && !Reaches(g, p, e)
    && (e in retired ==> p in retired)
    && ((exists n <- called | n in g :: n == e || Reaches(g, n, e)) ==> p in done && Prereqs(g, p) <= done)
  }

  lemma LinkReaches<N>(g: Graph<N>, e: N, p: N, n: N)
    requires e in g && (n == e || Reaches(g, n, e))
    ensures Reaches(AddEdge(g, e, p), n, p)
  {
    var h := AddEdge(g, e, p);
    ReachesEdge(h, e, p);
    if n != e {
      var k: nat :| ReachesIn(g, n, e, k);
      AddEdgeKeepsPaths(g, e, p, n, e, k);
      ReachesTrans(h, n, e, p);
    }
  }

  lemma PrereqsAfterLink<N>(g: Graph<N>, e: N, p: N, n: N)
    requires Closed(g) && e in g && p in g && n in g
    ensures Prereqs(AddEdge(g, e, p), n) ==
              Prereqs(g, n) + if n == e || Reaches(g, n, e) then {p} + Prereqs(g, p) else {}
  {
    var h := AddEdge(g, e, p);
    forall b | b in g && Reaches(h, n, b)
      ensures Reaches(g, n, b) || ((n == e || Reaches(g, n, e)) && (p == b || Reaches(g, p, b)))
    {
      var k: nat :| ReachesIn(h, n, b, k);
      AddEdgeReachesIn(g, e, p, n, b, k);
    }
    forall b | b in g && Reaches(g, n, b) ensures Reaches(h, n, b) {
      var k: nat :| ReachesIn(g, n, b, k);
      AddEdgeKeepsPaths(g, e, p, n, b, k);
    }
    if n == e || Reaches(g, n, e) {
      LinkReaches(g, e, p, n);
      forall b | b in Prereqs(g, p) ensures Reaches(h, n, b) {
        var k: nat :| ReachesIn(g, p, b, k);
        AddEdgeKeepsPaths(g, e, p, p, b, k);
        ReachesTrans(h, n, p, b);
      }
    }
  }

  /** A new link keeps the order exactly when it may be made. */
  lemma LinkKeepsOrder<N>(g: Graph<N>, retired: set<N>, called: set<N>, done: set<N>, e: N, p: N)
    requires InOrder(g, retired, called, done) && e in g && p in g
    ensures InOrder(AddEdge(g, e, p), retired, called, done) <==> MayLink(g, retired, called, done, e, p)
  {
    var h := AddEdge(g, e, p);
    AddEdgeAcyclic(g, e, p);
    assert RetiredOnly(h, retired) <==> (e in retired ==> p in retired) by {
      assert p in h[e];
    }
    forall n | n in called && n in g
      ensures Prereqs(h, n) <= done <==> (n == e || Reaches(g, n, e) ==> p in done && Prereqs(g, p) <= done)
    {
      PrereqsAfterLink(g, e, p, n);
    }
  }

  // ---------- Sequences ----------

  /** Whether a new link keeps the expectations in order. */
  ghost predicate MayPrecede(nodes: set<ExpectationBase>, p: ExpectationBase, e: ExpectationBase)
    reads nodes
  {
    MayLink(Links(nodes), Retired(nodes), Called(nodes), Satisfied(nodes) * Retired(nodes), e, p)
  }

  method Link(e: ExpectationBase, p: ExpectationBase, ghost nodes: set<ExpectationBase>)
    requires e in nodes && p in nodes
    modifies e`immediatePrerequisites
    ensures Links(nodes) == AddEdge(old(Links(nodes)), e, p)
    ensures Retired(nodes) == old(Retired(nodes)) && Called(nodes) == old(Called(nodes))
    ensures Satisfied(nodes) == old(Satisfied(nodes))
  {
    if p !in e.immediatePrerequisites {
      e.immediatePrerequisites := e.immediatePrerequisites + [p];
    }
    assert Links(nodes) == AddEdge(old(Links(nodes)), e, p);
  }

  /** Makes `p` an immediate prerequisite of `e`. */
  method AddPrerequisite(e: ExpectationBase, p: ExpectationBase, ghost nodes: set<ExpectationBase>)
    requires e in nodes && p in nodes && WellLinked(nodes)
    modifies e`immediatePrerequisites
    ensures Links(nodes) == AddEdge(old(Links(nodes)), e, p)
    ensures WellLinked(nodes) <==> p != e && !Reaches(old(Links(nodes)), p, e)
    ensures old(Orderly(nodes)) ==> (Orderly(nodes) <==> old(MayPrecede(nodes, p, e)))
  {
    ghost var g, retired, called := Links(nodes), Retired(nodes), Called(nodes);
    ghost var done := Satisfied(nodes) * retired;
    AddEdgeAcyclic(g, e, p);
    OrderlyIsInOrder(nodes);
    if InOrder(g, retired, called, done) {
      LinkKeepsOrder(g, retired, called, done, e, p);
    }
    Link(e, p, nodes);
    OrderlyIsInOrder(nodes);
  }

  class Sequence {
    var lastExpectation: ExpectationBase?

    constructor ()
      ensures lastExpectation == null
    {
      lastExpectation := null;
    }

    /** Makes the previous expectation of the sequence a prerequisite of `e`. */
    method AddExpectation(e: ExpectationBase, ghost nodes: set<ExpectationBase>)
      requires e in nodes && (lastExpectation != null ==> lastExpectation in nodes)
      requires WellLinked(nodes)
      modifies this, e`immediatePrerequisites
      ensures lastExpectation == e
      ensures old(lastExpectation) == null || old(lastExpectation) == e ==>
                Links(nodes) == old(Links(nodes)) && (Orderly(nodes) <==> old(Orderly(nodes)))
      ensures old(lastExpectation) != null && old(lastExpectation) != e ==>
                var p: ExpectationBase := old(lastExpectation);
                && Links(nodes) == AddEdge(old(Links(nodes)), e, p)
                && (WellLinked(nodes) <==> !Reaches(old(Links(nodes)), p, e))
                && (old(Orderly(nodes)) ==> (Orderly(nodes) <==> old(MayPrecede(nodes, p, e))))
    {
      if lastExpectation != e {
        if lastExpectation != null {
          AddPrerequisite(e, lastExpectation, nodes);
        }
        lastExpectation := e;
      }
    }
  }

  lemma TwoCycle<N>(g: Graph<N>, a: N, b: N)
    requires a in g && b in g && b in g[a] && a in g[b]
    ensures Reaches(g, a, b) && Reaches(g, b, a) && !Acyclic(g)
  {
    ReachesEdge(g, a, b);
    ReachesEdge(g, b, a);
    ReachesTrans(g, a, b, a);
  }

  /** Starts a sequence. */
  method Begin(a: ExpectationBase, ghost nodes: set<ExpectationBase>) returns (s: Sequence)
    requires a in nodes && WellLinked(nodes)
    modifies a`immediatePrerequisites
    ensures fresh(s) && s.lastExpectation == a && Links(nodes) == old(Links(nodes))
  {
    s := new Sequence();
    s.AddExpectation(a, nodes);
  }

  lemma NoLinksReachNothing<N>(g: Graph<N>, a: N, b: N)
    requires forall n <- g :: g[n] == []
    ensures !Reaches(g, a, b)
  {
    if Reaches(g, a, b) {
      FirstEdge(g, a, b);
    }
  }

  lemma NoLinksNoCycle<N>(g: Graph<N>)
    requires forall n <- g :: g[n] == []
    ensures Closed(g) && Acyclic(g)
  {
    forall n | n in g ensures !Reaches(g, n, n) {
      NoLinksReachNothing(g, n, n);
    }
  }

  /** Puts `b` after `a` in a new sequence. */
  method InTurn(a: ExpectationBase, b: ExpectationBase) returns (s: Sequence)
    requires a != b && a.immediatePrerequisites == b.immediatePrerequisites == []
    modifies a`immediatePrerequisites, b`immediatePrerequisites
    ensures fresh(s) && s.lastExpectation == b && WellLinked({a, b})
    ensures a.immediatePrerequisites == [] && b.immediatePrerequisites == [a]
  {
    ghost var nodes := {a, b};
    ghost var g := Links(nodes);
    assert g[a] == [] && g[b] == [];
    NoLinksNoCycle(g);
    NoLinksReachNothing(g, a, b);
    s := Begin(a, nodes);
    s.AddExpectation(b, nodes);
    assert Links(nodes)[a] == [] && Links(nodes)[b] == [a];
  }

  /** A sequence to which an earlier expectation is added again closes a cycle. */
  method CycleByReopening() returns (a: ExpectationBase, b: ExpectationBase)
    ensures Reaches(Links({a, b}), a, b) && Reaches(Links({a, b}), b, a) && !WellLinked({a, b})
  {
    a := new ExpectationBase(1, 1, false);
    b := new ExpectationBase(1, 1, false);
    ghost var nodes := {a, b};
    var s := InTurn(a, b);
    s.AddExpectation(a, nodes);
    assert b in Links(nodes)[a] && a in Links(nodes)[b];
    TwoCycle(Links(nodes), a, b);
  }
}

/** Reachability, acyclicity and path weights of a finite graph given by successor lists. */
module PrerequisiteGraph {

  type Graph<N> = map<N, seq<N>>

  ghost predicate Closed<N>(g: Graph<N>) {
    forall n <- g :: forall m <- g[n] :: m in g
  }

  /** `b` is reached from `a` over at least one and at most `k` edges. */
  ghost predicate ReachesIn<N>(g: Graph<N>, a: N, b: N, k: nat) {
    k > 0 && a in g && (b in g[a] || exists m :: m in g[a] && ReachesIn(g, m, b, k - 1))
  }

  /** `b` is a transitive prerequisite of `a`. */
  ghost predicate Reaches<N>(g: Graph<N>, a: N, b: N) {
    exists k: nat :: ReachesIn(g, a, b, k)
  }

  ghost function Prereqs<N>(g: Graph<N>, a: N): set<N> {
    set b | b in g && Reaches(g, a, b)
  }

  ghost predicate Acyclic<N>(g: Graph<N>) {
    forall a <- g :: !Reaches(g, a, a)
  }

  lemma ReachesEdge<N>(g: Graph<N>, a: N, b: N)
    requires a in g && b in g[a]
    ensures Reaches(g, a, b)
  {
    assert ReachesIn(g, a, b, 1);
  }

  lemma ReachesVia<N>(g: Graph<N>, a: N, m: N, b: N)
    requires a in g && m in g[a] && Reaches(g, m, b)
    ensures Reaches(g, a, b)
  {
    var k: nat :| ReachesIn(g, m, b, k);
    assert ReachesIn(g, a, b, k + 1);
  }

  lemma {:induction false} ReachesWithin<N>(g: Graph<N>, a: N, b: N, k: nat, c: N)
    requires ReachesIn(g, a, b, k) && Reaches(g, b, c)
    ensures Reaches(g, a, c)
  {
    if b in g[a] {
      ReachesVia(g, a, b, c);
    } else {
      var m :| m in g[a] && ReachesIn(g, m, b, k - 1);
      ReachesWithin(g, m, b, k - 1, c);
      ReachesVia(g, a, m, c);
    }
  }

  lemma ReachesTrans<N>(g: Graph<N>, a: N, b: N, c: N)
    requires Reaches(g, a, b) && Reaches(g, b, c)
    ensures Reaches(g, a, c)
  {
    var k: nat :| ReachesIn(g, a, b, k);
    ReachesWithin(g, a, b, k, c);
  }

  /** A path starts with an edge. */
  lemma FirstEdge<N>(g: Graph<N>, a: N, b: N)
    requires Reaches(g, a, b)
    ensures a in g && (b in g[a] || exists m :: m in g[a] && Reaches(g, m, b))
  {
    var k: nat :| ReachesIn(g, a, b, k);
    if b !in g[a] {
      var m :| m in g[a] && ReachesIn(g, m, b, k - 1);
      assert Reaches(g, m, b);
    }
  }

  /** A set that holds the successors of `a` and is closed holds all that `a` reaches. */
  lemma {:induction false} ClosedSetHolds<N>(g: Graph<N>, a: N, b: N, k: nat, s: set<N>)
    requires ReachesIn(g, a, b, k)
    requires forall m <- g[a] :: m in s
    requires forall n, m | n in s && n in g && m in g[n] :: m in s
    ensures b in s
  {
    if b !in g[a] {
      var m :| m in g[a] && ReachesIn(g, m, b, k - 1);
      ClosedSetHolds(g, m, b, k - 1, s);
    }
  }

  /** In an acyclic graph a successor reaches strictly less. */
  lemma SuccessorReachesLess<N>(g: Graph<N>, a: N, m: N)
    requires Closed(g) && Acyclic(g) && a in g && m in g[a]
    ensures Prereqs(g, m) < Prereqs(g, a)
  {
    ReachesEdge(g, a, m);
    forall b | b in Prereqs(g, m) ensures b in Prereqs(g, a) {
      ReachesVia(g, a, m, b);
    }
    assert m in Prereqs(g, a) && m !in Prereqs(g, m);
  }

  // ---------- The number of paths from a node ----------

  /** One more than the weights of all successors: the number of paths that start at `a`. */
  ghost function Weight<N>(g: Graph<N>, a: N): nat
    requires Closed(g) && Acyclic(g) && a in g
    decreases Prereqs(g, a), |g[a]| + 1
  {
    1 + WeightOfFirst(g, a, |g[a]|)
  }

  /** The weights of the first `i` successors of `a`. */
  ghost function WeightOfFirst<N>(g: Graph<N>, a: N, i: nat): nat
    requires Closed(g) && Acyclic(g) && a in g && i <= |g[a]|
    decreases Prereqs(g, a), i
  {
    if i == 0 then 0
    else
      SuccessorReachesLess(g, a, g[a][i - 1]);
      WeightOfFirst(g, a, i - 1) + Weight(g, g[a][i - 1])
  }

  /** The paths still to be walked from a worklist. */
  ghost function TotalWeight<N>(g: Graph<N>, work: seq<N>): nat
    requires Closed(g) && Acyclic(g) && forall n <- work :: n in g
  {
    if work == [] then 0
    else TotalWeight(g, work[..|work| - 1]) + Weight(g, work[|work| - 1])
  }

  lemma TotalWeightPush<N>(g: Graph<N>, work: seq<N>, n: N)
    requires Closed(g) && Acyclic(g) && n in g && forall m <- work :: m in g
    ensures TotalWeight(g, work + [n]) == TotalWeight(g, work) + Weight(g, n)
  {
    assert (work + [n])[..|work|] == work;
  }

  lemma {:induction false} TotalWeightConcat<N>(g: Graph<N>, a: seq<N>, b: seq<N>)
    requires Closed(g) && Acyclic(g) && (forall n <- a :: n in g) && (forall n <- b :: n in g)
    ensures forall n <- a + b :: n in g
    ensures TotalWeight(g, a + b) == TotalWeight(g, a) + TotalWeight(g, b)
  {
    if b == [] {
      assert a + b == a;
    } else {
      var n := |b| - 1;
      TotalWeightConcat(g, a, b[..n]);
      assert (a + b)[..|a + b| - 1] == a + b[..n];
    }
  }

  /** The members of `s` that are in `keep`, in order. */
  ghost function Sift<N>(s: seq<N>, keep: set<N>): (r: seq<N>)
    ensures forall n <- r :: n in s && n in keep
    ensures forall n <- s :: n in keep ==> n in r
  {
    if s == [] then []
    else
      var last := s[|s| - 1];
      assert forall n <- s :: n in s[..|s| - 1] || n == last;
      var rest := Sift(s[..|s| - 1], keep);
      if last in keep then rest + [last] else rest
  }

  lemma {:induction false} SiftAll<N>(s: seq<N>, keep: set<N>)
    requires forall n <- s :: n in keep
    ensures Sift(s, keep) == s
  {
    if s != [] {
      SiftAll(s[..|s| - 1], keep);
    }
  }

  lemma SiftPush<N>(s: seq<N>, i: nat, keep: set<N>)
    requires i < |s|
    ensures Sift(s[..i + 1], keep) == if s[i] in keep then Sift(s[..i], keep) + [s[i]] else Sift(s[..i], keep)
  {
    assert s[..i + 1][..i] == s[..i];
  }

  lemma {:induction false} SiftWeight<N>(g: Graph<N>, a: N, keep: set<N>, i: nat)
    requires Closed(g) && Acyclic(g) && a in g && i <= |g[a]|
    ensures forall n <- Sift(g[a][..i], keep) :: n in g
    ensures TotalWeight(g, Sift(g[a][..i], keep)) <= WeightOfFirst(g, a, i)
  {
    if i > 0 {
      SiftWeight(g, a, keep, i - 1);
      SiftPush(g[a], i - 1, keep);
      var kept, n := Sift(g[a][..i - 1], keep), g[a][i - 1];
      assert n in g;
      if n in keep {
        assert Sift(g[a][..i], keep) == kept + [n];
        TotalWeightPush(g, kept, n);
      } else {
        assert Sift(g[a][..i], keep) == kept;
      }
    }
  }

  /** Replacing the last node of a worklist by some of its successors makes it lighter. */
  lemma ExpandShrinks<N>(g: Graph<N>, work: seq<N>, keep: set<N>)
    requires Closed(g) && Acyclic(g) && work != [] && forall n <- work :: n in g
    ensures var after := work[..|work| - 1] + Sift(g[work[|work| - 1]], keep);
            (forall n <- after :: n in g) && TotalWeight(g, after) < TotalWeight(g, work)
  {
    var a := work[|work| - 1];
    SiftWeight(g, a, keep, |g[a]|);
    assert g[a][..|g[a]|] == g[a];
    TotalWeightConcat(g, work[..|work| - 1], Sift(g[a], keep));
  }

  // ---------- Adding an edge ----------

  /** `g` with the edge from `e` to `p`. */
  ghost function AddEdge<N>(g: Graph<N>, e: N, p: N): Graph<N>
    requires e in g
  {
    g[e := if p in g[e] then g[e] else g[e] + [p]]
  }

  lemma {:induction false} AddEdgeReachesIn<N>(g: Graph<N>, e: N, p: N, a: N, b: N, k: nat)
    requires e in g && ReachesIn(AddEdge(g, e, p), a, b, k)
    ensures Reaches(g, a, b) || ((a == e || Reaches(g, a, e)) && (p == b || Reaches(g, p, b)))
  {
    var h := AddEdge(g, e, p);
    if b in h[a] {
      if b in g[a] {
        ReachesEdge(g, a, b);
      }
    } else {
      var m :| m in h[a] && ReachesIn(h, m, b, k - 1);
      AddEdgeReachesIn(g, e, p, m, b, k - 1);
      if m in g[a] {
        ReachesEdge(g, a, m);
        if Reaches(g, m, b) {
          ReachesVia(g, a, m, b);
        } else if Reaches(g, m, e) {
          ReachesVia(g, a, m, e);
        }
      }
    }
  }

  lemma {:induction false} AddEdgeKeepsPaths<N>(g: Graph<N>, e: N, p: N, a: N, b: N, k: nat)
    requires e in g && ReachesIn(g, a, b, k)
    ensures Reaches(AddEdge(g, e, p), a, b)
  {
    var h := AddEdge(g, e, p);
    if b in g[a] {
      ReachesEdge(h, a, b);
    } else {
      var m :| m in g[a] && ReachesIn(g, m, b, k - 1);
      AddEdgeKeepsPaths(g, e, p, m, b, k - 1);
      ReachesVia(h, a, m, b);
    }
  }

  /** Making `p` a prerequisite of `e` keeps the graph acyclic exactly when `p` is not `e`
      and does not already need it. */
  lemma AddEdgeAcyclic<N>(g: Graph<N>, e: N, p: N)
    requires Closed(g) && Acyclic(g) && e in g && p in g
    ensures Closed(AddEdge(g, e, p))
    ensures Acyclic(AddEdge(g, e, p)) <==> p != e && !Reaches(g, p, e)
  {
    var h := AddEdge(g, e, p);
    ReachesEdge(h, e, p);
    if Reaches(g, p, e) {
      var k: nat :| ReachesIn(g, p, e, k);
      AddEdgeKeepsPaths(g, e, p, p, e, k);
      ReachesTrans(h, e, p, e);
    }
    if p != e && !Reaches(g, p, e) {
      forall a | a in h ensures !Reaches(h, a, a) {
        if Reaches(h, a, a) {
          var k: nat :| ReachesIn(h, a, a, k);
          AddEdgeReachesIn(g, e, p, a, a, k);
          if a != e && p != a {
            ReachesTrans(g, p, a, e);
          }
        }
      }
    }
  }

  // ---------- Keeping the edges of some nodes only ----------

  /** `g` without the edges of the nodes outside `s`. */
  ghost function Restrict<N>(g: Graph<N>, s: set<N>): Graph<N> {
    map n | n in g :: if n in s then g[n] else []
  }

  lemma {:induction false} RestrictReachesIn<N>(g: Graph<N>, s: set<N>, a: N, b: N, k: nat)
    requires ReachesIn(Restrict(g, s), a, b, k)
    ensures ReachesIn(g, a, b, k)
  {
    var h := Restrict(g, s);
    if b !in h[a] {
      var m :| m in h[a] && ReachesIn(h, m, b, k - 1);
      RestrictReachesIn(g, s, m, b, k - 1);
    }
  }

  lemma RestrictReaches<N>(g: Graph<N>, s: set<N>, a: N, b: N)
    requires Reaches(Restrict(g, s), a, b)
    ensures Reaches(g, a, b)
  {
    var k: nat :| ReachesIn(Restrict(g, s), a, b, k);
    RestrictReachesIn(g, s, a, b, k);
  }
}

/** Maximum bipartite matching by augmenting paths, as the unordered-elements
    matchers of Google Mock compute it, and the two checks built on it. */
module BipartiteMatching {

  /** The adjacency matrix of a bipartite graph: `lhs` elements against `rhs` matchers. */
  datatype MatchMatrix = MatchMatrix(lhs: nat, rhs: nat, matched: (nat, nat) -> bool) {
    predicate HasEdge(l: int, r: int) {
      0 <= l < lhs && 0 <= r < rhs && matched(l, r)
    }
  }

  type Pair = (nat, nat)

  /** A matching uses edges of the graph only and repeats neither a left nor a right node. */
  ghost predicate IsMatching(g: MatchMatrix, m: set<Pair>) {
    && (forall p <- m :: g.HasEdge(p.0, p.1))
    && (forall p, q | p in m && q in m :: p.0 == q.0 || p.1 == q.1 ==> p == q)
  }

  /** `m` is a matching of `g` of the largest size. */
  ghost predicate IsMaximum(g: MatchMatrix, m: set<Pair>) {
    && IsMatching(g, m)
    && forall other | IsMatching(g, other) :: |other| <= |m|
  }

  const UNUSED := -1

  // ---------- Deficiency certificates ----------

  /** A pair of dead sets: the edges of `dl` all end in `dr`. */
  ghost predicate Closed(g: MatchMatrix, dl: set<nat>, dr: set<nat>) {
    forall l, r | l in dl && g.HasEdge(l, r) :: r in dr
  }

  ghost function Lefts(m: set<Pair>): set<nat> {
    set p <- m :: p.0
  }

  ghost function Rights(m: set<Pair>): set<nat> {
    set p <- m :: p.1
  }

  lemma {:induction false} MatchingSize(g: MatchMatrix, m: set<Pair>)
    requires IsMatching(g, m)
    ensures |Lefts(m)| == |Rights(m)| == |m|
  {
    if m != {} {
      var p :| p in m;
      var rest := m - {p};
      MatchingSize(g, rest);
      assert Lefts(m) == Lefts(rest) + {p.0};
      assert Rights(m) == Rights(rest) + {p.1};
      assert p.0 !in Lefts(rest) && p.1 !in Rights(rest);
    }
  }

  lemma {:induction false} SubsetSize<T>(a: set<T>, b: set<T>)
    requires a <= b
    ensures |a| <= |b|
  {
    if a != {} {
      var x :| x in a;
      SubsetSize(a - {x}, b - {x});
    }
  }

  lemma SplitSize(g: MatchMatrix, m: set<Pair>, a: set<Pair>, b: set<Pair>)
    requires IsMatching(g, m) && m == a + b && a !! b
    ensures |m| == |Rights(a)| + |Lefts(b)|
  {
    MatchingSize(g, a);
    MatchingSize(g, b);
  }

  /** Weak duality: a closed pair bounds the size of every matching. */
  lemma WeakDuality(g: MatchMatrix, m: set<Pair>, dl: set<nat>, dr: set<nat>, live: set<nat>)
    requires IsMatching(g, m) && Closed(g, dl, dr)
    requires forall l: nat | l < g.lhs :: l in dl || l in live
    ensures |m| <= |live| + |dr|
  {
    var dead := set p | p in m && p.0 in dl;
    var alive := m - dead;
    SplitSize(g, m, dead, alive);
    SubsetSize(Rights(dead), dr);
    SubsetSize(Lefts(alive), live);
  }

  // ---------- The search state ----------

  /** left and right refer to each other along edges of `g`, except that the right
      node `hole` may still point at a left node that has just moved elsewhere. */
  ghost predicate MutuallyReferent(g: MatchMatrix, left: seq<int>, right: seq<int>, hole: int) {
    && |left| == g.lhs && |right| == g.rhs
    && (forall l | 0 <= l < |left| && left[l] != UNUSED ::
          g.HasEdge(l, left[l]) && right[left[l]] == l && left[l] != hole)
    && (forall r | 0 <= r < |right| && right[r] != UNUSED && r != hole ::
          g.HasEdge(right[r], r) && left[right[r]] == r)
  }

  /** The edges of `l` to the right nodes below `bound` have all been seen. */
  ghost predicate AllEdgesSeen(g: MatchMatrix, l: int, bound: int, seen: seq<bool>)
    requires |seen| == g.rhs
  {
    forall r | 0 <= r < bound && g.HasEdge(l, r) :: seen[r]
  }

  /** Every right node newly seen is matched, and all edges of its mate have been seen. */
  ghost predicate DeadEnds(g: MatchMatrix, right: seq<int>, before: seq<bool>, seen: seq<bool>)
    requires |right| == |before| == |seen| == g.rhs
  {
    forall r | 0 <= r < g.rhs && seen[r] && !before[r] ::
      right[r] != UNUSED && AllEdgesSeen(g, right[r], g.rhs, seen)
  }

  /** Every member of `dr` is matched into `dl`, whose edges all lead back into `dr`. */
  ghost predicate Dead(g: MatchMatrix, right: seq<int>, dl: set<nat>, dr: set<nat>) {
    && |right| == g.rhs
    && Closed(g, dl, dr)
    && forall r <- dr :: r < g.rhs && right[r] != UNUSED && right[r] in dl
  }

  ghost function Unseen(seen: seq<bool>): set<int> {
    set r | 0 <= r < |seen| && !seen[r]
  }

  ghost function Pairs(s: seq<Pair>): set<Pair> {
    set p <- s
  }

  lemma {:induction false} PairsSize(s: seq<Pair>)
    requires forall i, j | 0 <= i < j < |s| :: s[i].0 < s[j].0
    ensures |Pairs(s)| == |s|
  {
    if s != [] {
      var n := |s| - 1;
      PairsSize(s[..n]);
      assert Pairs(s) == Pairs(s[..n]) + {s[n]};
      assert s[n] !in Pairs(s[..n]);
    }
  }

  /** A failed search from `root` adds its right nodes and their mates to the dead pair. */
  lemma GrowDead(g: MatchMatrix, root: nat, right: seq<int>, seen: seq<bool>, dl: set<nat>, dr: set<nat>)
    returns (dl': set<nat>, dr': set<nat>)
    requires root < g.lhs && |right| == |seen| == g.rhs
    requires Dead(g, right, dl, dr)
    requires forall r | 0 <= r < g.rhs && right[r] != UNUSED :: 0 <= right[r] < g.lhs
    requires AllEdgesSeen(g, root, g.rhs, seen)
    requires DeadEnds(g, right, seq(g.rhs, _ => false), seen)
    ensures dl <= dl' && root in dl' && Dead(g, right, dl', dr')
  {
    dr' := dr + set r: nat | r < g.rhs && seen[r];
    dl' := dl + {root} + set r: nat | r < g.rhs && seen[r] :: right[r];
  }

  /** The pairs read off `left` reach the bound of the dead pair. */
  lemma FullSize(g: MatchMatrix, left: seq<int>, right: seq<int>, dl: set<nat>, dr: set<nat>, m: set<Pair>,
                 live: set<nat>)
    requires MutuallyReferent(g, left, right, UNUSED) && Dead(g, right, dl, dr)
    requires forall l: nat | l < g.lhs && left[l] == UNUSED :: l in dl
    requires forall l: nat, r: nat :: (l, r) in m <==> l < g.lhs && left[l] == r
    requires forall l <- live :: l < g.lhs && l !in dl
    ensures IsMatching(g, m) && |live| + |dr| <= |m|
  {
    forall p, q | p in m && q in m && (p.0 == q.0 || p.1 == q.1) ensures p == q {
      assert (p.0, p.1) in m && (q.0, q.1) in m;
    }
    forall p <- m ensures g.HasEdge(p.0, p.1) {
      assert (p.0, p.1) in m;
    }
    var dead := set p | p in m && p.0 in dl;
    var alive := m - dead;
    forall r | r in dr ensures r in Rights(dead) {
      var l: nat := right[r];
      assert (l, r) in dead;
    }
    forall l | l in live ensures l in Lefts(alive) {
      var r: nat := left[l];
      assert (l, r) in alive;
    }
    SplitSize(g, m, dead, alive);
    SubsetSize(dr, Rights(dead));
    SubsetSize(live, Lefts(alive));
  }

  /** The dead pair left by the searches shows that the pairs form a maximum matching. */
  lemma StrongDuality(g: MatchMatrix, left: seq<int>, right: seq<int>, dl: set<nat>, dr: set<nat>, m: set<Pair>)
    requires MutuallyReferent(g, left, right, UNUSED) && Dead(g, right, dl, dr)
    requires forall l: nat | l < g.lhs && left[l] == UNUSED :: l in dl
    requires forall l: nat, r: nat :: (l, r) in m <==> l < g.lhs && left[l] == r
    ensures IsMaximum(g, m)
  {
    var live := set l: nat | l < g.lhs && l !in dl;
    FullSize(g, left, right, dl, dr, m, live);
    forall other | IsMatching(g, other) ensures |other| <= |m| {
      WeakDuality(g, other, dl, dr, live);
    }
  }

  class MaxBipartiteMatchState {
    const graph: MatchMatrix
    const left: array<int>
    const right: array<int>

    ghost predicate Valid(hole: int)
      reads this, left, right
    {
      && left != right
      && MutuallyReferent(graph, left[..], right[..], hole)
    }

    constructor (g: MatchMatrix)
      ensures graph == g && fresh(left) && fresh(right)
      ensures Valid(UNUSED)
      ensures forall l | 0 <= l < g.lhs :: left[l] == UNUSED
      ensures forall r | 0 <= r < g.rhs :: right[r] == UNUSED
    {
      graph := g;
      left := new int[g.lhs](_ => UNUSED);
      right := new int[g.rhs](_ => UNUSED);
    }

    /** Joins two nodes; the right node is unused, or the left node it points at has just moved. */
    method Join(ilhs: int, irhs: int, ghost dl: set<nat>, ghost dr: set<nat>)
      requires 0 <= ilhs < graph.lhs && 0 <= irhs < graph.rhs && graph.HasEdge(ilhs, irhs)
      requires (Valid(UNUSED) && right[irhs] == UNUSED) || Valid(irhs)
      requires left[ilhs] != irhs && ilhs !in dl && irhs !in dr && Dead(graph, right[..], dl, dr)
      modifies left, right
      ensures left[..] == old(left[..])[ilhs := irhs] && right[..] == old(right[..])[irhs := ilhs]
      ensures Valid(old(left[ilhs])) && Dead(graph, right[..], dl, dr)
    {
      left[ilhs] := irhs;
      right[irhs] := ilhs;
    }

    /** Depth-first search for an augmenting path from `ilhs` over unseen right nodes.
        On success the path is flipped; `old(left[ilhs])`, which the caller is about to
        take over, is the one right node left pointing at a node that has moved. */
    method TryAugment(ilhs: int, seen: array<bool>, ghost dl: set<nat>, ghost dr: set<nat>)
      returns (found: bool)
      requires Valid(UNUSED) && 0 <= ilhs < graph.lhs
      requires seen.Length == graph.rhs
      requires left[ilhs] == UNUSED || seen[left[ilhs]]
      requires Dead(graph, right[..], dl, dr)
      modifies left, right, seen
      ensures forall r | 0 <= r < graph.rhs && old(seen[r]) :: seen[r]
      ensures !found ==> left[..] == old(left[..]) && right[..] == old(right[..])
      ensures !found ==> AllEdgesSeen(graph, ilhs, graph.rhs, seen[..])
      ensures !found ==> DeadEnds(graph, right[..], old(seen[..]), seen[..])
      ensures found ==> Valid(old(left[ilhs]))
      ensures found ==> var r := left[ilhs]; graph.HasEdge(ilhs, r) && !old(seen[r])
      ensures found ==> forall l | 0 <= l < graph.lhs && l != ilhs :: left[l] == UNUSED <==> old(left[l]) == UNUSED
      ensures found ==> forall r | 0 <= r < graph.rhs && old(right[r]) != UNUSED :: right[r] != UNUSED
      ensures found ==> forall r | 0 <= r < graph.rhs && old(seen[r]) :: right[r] == old(right[r])
      ensures found ==> ilhs !in dl
      ensures found ==> Dead(graph, right[..], dl, dr)
      decreases Unseen(seen[..])
    {
      for irhs := 0 to graph.rhs
        invariant left[..] == old(left[..]) && right[..] == old(right[..])
        invariant forall r | 0 <= r < graph.rhs && old(seen[r]) :: seen[r]
        invariant AllEdgesSeen(graph, ilhs, irhs, seen[..])
        invariant DeadEnds(graph, right[..], old(seen[..]), seen[..])
      {
        if seen[irhs] {
          continue;
        }
        if !graph.HasEdge(ilhs, irhs) {
          continue;
        }
        seen[irhs] := true;
        var reached := right[irhs] == UNUSED;
        if !reached {
          assert irhs in old(Unseen(seen[..])) - Unseen(seen[..]);
          assert Unseen(seen[..]) <= old(Unseen(seen[..]));
          reached := TryAugment(right[irhs], seen, dl, dr);
        }
        if reached {
          Join(ilhs, irhs, dl, dr);
          return true;
        }
      }
      return false;
    }

    /** Searches once from every left node and returns the resulting pairs. */
    method Compute() returns (result: seq<Pair>)
      requires Valid(UNUSED)
      requires forall l | 0 <= l < graph.lhs :: left[l] == UNUSED
      modifies left, right
      ensures Valid(UNUSED)
      ensures forall i, j | 0 <= i < j < |result| :: result[i].0 < result[j].0
      ensures forall l: nat, r: nat :: (l, r) in result <==> l < graph.lhs && left[l] == r
      ensures IsMaximum(graph, Pairs(result)) && |Pairs(result)| == |result|
    {
      ghost var dl: set<nat>, dr: set<nat> := {}, {};
      for ilhs := 0 to graph.lhs
        invariant Valid(UNUSED)
        invariant Dead(graph, right[..], dl, dr)
        invariant forall l: nat | l < ilhs && left[l] == UNUSED :: l in dl
        invariant forall l: nat | ilhs <= l < graph.lhs :: left[l] == UNUSED
      {
        var seen := new bool[graph.rhs](_ => false);
        var found := TryAugment(ilhs, seen, dl, dr);
        if !found {
          dl, dr := GrowDead(graph, ilhs, right[..], seen[..], dl, dr);
        }
      }
      result := [];
      for ilhs := 0 to left.Length
        invariant forall i, j | 0 <= i < j < |result| :: result[i].0 < result[j].0
        invariant forall i | 0 <= i < |result| :: result[i].0 < ilhs
        invariant forall l: nat, r: nat :: (l, r) in result <==> l < ilhs && left[l] == r
      {
        var irhs := left[ilhs];
        if irhs == UNUSED {
          continue;
        }
        result := result + [(ilhs, irhs)];
      }
      PairsSize(result);
      StrongDuality(graph, left[..], right[..], dl, dr, Pairs(result));
    }
  }
}

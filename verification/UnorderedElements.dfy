/** The two checks an unordered-elements matcher makes on its match matrix. */
module UnorderedElements {
  import opened BipartiteMatching

  /** What is required; an exact match sets both the superset and the subset bit. */
  datatype Require = Superset | Subset | ExactMatch {
    predicate NeedsSuperset() { this != Subset }

    predicate NeedsSubset() { this != Superset }
  }

  ghost predicate Injective(f: seq<nat>) {
    forall i, j | 0 <= i < |f| && 0 <= j < |f| && f[i] == f[j] :: i == j
  }

  /** `f` gives each matcher an element of its own. */
  ghost predicate CoversMatchers(g: MatchMatrix, f: seq<nat>) {
    |f| == g.rhs && Injective(f) && forall r | 0 <= r < g.rhs :: g.HasEdge(f[r], r)
  }

  /** `f` gives each element a matcher of its own. */
  ghost predicate CoversElements(g: MatchMatrix, f: seq<nat>) {
    |f| == g.lhs && Injective(f) && forall l | 0 <= l < g.lhs :: g.HasEdge(l, f[l])
  }

  /** The assignment that `require` asks for exists. */
  ghost predicate Satisfiable(g: MatchMatrix, require: Require) {
    match require
    case Superset => exists f :: CoversMatchers(g, f)
    case Subset => exists f :: CoversElements(g, f)
    case ExactMatch => exists f :: CoversElements(g, f) && forall r: nat | r < g.rhs :: r in f
  }

  // ---------- Assignments and matchings ----------

  /** The first `n` node numbers. */
  ghost function Below(n: nat): (s: set<nat>)
    ensures |s| == n && forall i: nat :: i in s <==> i < n
  {
    if n == 0 then {} else Below(n - 1) + {n - 1}
  }

  lemma FullSubset(s: set<nat>, n: nat)
    requires s <= Below(n) && |s| >= n
    ensures s == Below(n)
  {
    SubsetSize(Below(n) - s, Below(n));
    assert Below(n) == s + (Below(n) - s);
  }

  /** A covering of the matchers is a matching of that size, so no maximum is smaller. */
  lemma CoveredMatchersBound(g: MatchMatrix, f: seq<nat>, m: set<Pair>)
    requires CoversMatchers(g, f) && IsMaximum(g, m)
    ensures |m| >= g.rhs
  {
    var other := set r: nat | r < |f| :: (f[r], r);
    assert IsMatching(g, other);
    MatchingSize(g, other);
    forall r | r in Below(g.rhs) ensures r in Rights(other) {
      assert (f[r], r) in other;
    }
    SubsetSize(Below(g.rhs), Rights(other));
  }

  lemma CoveredElementsBound(g: MatchMatrix, f: seq<nat>, m: set<Pair>)
    requires CoversElements(g, f) && IsMaximum(g, m)
    ensures |m| >= g.lhs
  {
    var other := set l: nat | l < |f| :: (l, f[l]);
    assert IsMatching(g, other);
    MatchingSize(g, other);
    forall l | l in Below(g.lhs) ensures l in Lefts(other) {
      assert (l, f[l]) in other;
    }
    SubsetSize(Below(g.lhs), Lefts(other));
  }

  lemma MateOfRight(m: set<Pair>, r: nat) returns (l: nat)
    requires r in Rights(m)
    ensures (l, r) in m
  {
    var p :| p in m && p.1 == r;
    l := p.0;
    assert p == (l, r);
  }

  lemma MateOfLeft(m: set<Pair>, l: nat) returns (r: nat)
    requires l in Lefts(m)
    ensures (l, r) in m
  {
    var p :| p in m && p.0 == l;
    r := p.1;
    assert p == (l, r);
  }

  lemma {:induction false} MatesOfRights(m: set<Pair>, n: nat) returns (f: seq<nat>)
    requires Below(n) <= Rights(m)
    ensures |f| == n && forall r | 0 <= r < n :: (f[r], r) in m
  {
    f := [];
    if n > 0 {
      f := MatesOfRights(m, n - 1);
      var l := MateOfRight(m, n - 1);
      f := f + [l];
    }
  }

  lemma {:induction false} MatesOfLefts(m: set<Pair>, n: nat) returns (f: seq<nat>)
    requires Below(n) <= Lefts(m)
    ensures |f| == n && forall l | 0 <= l < n :: (l, f[l]) in m
  {
    f := [];
    if n > 0 {
      f := MatesOfLefts(m, n - 1);
      var r := MateOfLeft(m, n - 1);
      f := f + [r];
    }
  }

  lemma PairsCoverMatchers(g: MatchMatrix, m: set<Pair>, f: seq<nat>)
    requires IsMatching(g, m) && |f| == g.rhs && forall r | 0 <= r < |f| :: (f[r], r) in m
    ensures CoversMatchers(g, f)
  {
    forall i, j | 0 <= i < |f| && 0 <= j < |f| && f[i] == f[j] ensures i == j {
      var p: Pair, q: Pair := (f[i], i), (f[j], j);
      assert p in m && q in m && p.0 == q.0;
    }
    forall r | 0 <= r < g.rhs ensures g.HasEdge(f[r], r) {
      var p: Pair := (f[r], r);
      assert p in m;
    }
  }

  lemma PairsCoverElements(g: MatchMatrix, m: set<Pair>, f: seq<nat>)
    requires IsMatching(g, m) && |f| == g.lhs && forall l | 0 <= l < |f| :: (l, f[l]) in m
    ensures CoversElements(g, f)
  {
    forall i, j | 0 <= i < |f| && 0 <= j < |f| && f[i] == f[j] ensures i == j {
      var p: Pair, q: Pair := (i, f[i]), (j, f[j]);
      assert p in m && q in m && p.1 == q.1;
    }
    forall l | 0 <= l < g.lhs ensures g.HasEdge(l, f[l]) {
      var p: Pair := (l, f[l]);
      assert p in m;
    }
  }

  /** A matching with as many pairs as matchers covers the matchers. */
  lemma FullMatchingCoversMatchers(g: MatchMatrix, m: set<Pair>) returns (f: seq<nat>)
    requires IsMatching(g, m) && |m| >= g.rhs
    ensures CoversMatchers(g, f)
  {
    MatchingSize(g, m);
    FullSubset(Rights(m), g.rhs);
    f := MatesOfRights(m, g.rhs);
    PairsCoverMatchers(g, m, f);
  }

  lemma FullMatchingCoversElements(g: MatchMatrix, m: set<Pair>) returns (f: seq<nat>)
    requires IsMatching(g, m) && |m| >= g.lhs
    ensures CoversElements(g, f)
  {
    MatchingSize(g, m);
    FullSubset(Lefts(m), g.lhs);
    f := MatesOfLefts(m, g.lhs);
    PairsCoverElements(g, m, f);
  }

  ghost function {:induction false} Image(f: seq<nat>): (s: set<nat>)
    ensures forall x: nat :: x in s <==> x in f
    ensures Injective(f) ==> |s| == |f|
  {
    if f == [] then {} else
    var n := |f| - 1;
    var rest := Image(f[..n]);
    assert Injective(f) ==> Injective(f[..n]) && f[n] !in f[..n];
    rest + {f[n]}
  }

  /** An injection of elements into matchers hits every matcher iff there are equally many. */
  lemma OntoIffSameSize(g: MatchMatrix, f: seq<nat>)
    requires CoversElements(g, f)
    ensures (forall r: nat | r < g.rhs :: r in f) <==> g.lhs == g.rhs
  {
    var image := Image(f);
    forall r | r in image ensures r in Below(g.rhs) {
      var l :| 0 <= l < |f| && f[l] == r;
      assert g.HasEdge(l, f[l]);
    }
    if g.lhs == g.rhs {
      FullSubset(image, g.rhs);
      assert forall r: nat | r < g.rhs :: r in Below(g.rhs);
    }
    if forall r: nat | r < g.rhs :: r in f {
      assert image == Below(g.rhs);
    }
  }

  lemma MatchingWithinGraph(g: MatchMatrix, m: set<Pair>)
    requires IsMatching(g, m)
    ensures |m| <= g.lhs && |m| <= g.rhs
  {
    MatchingSize(g, m);
    SubsetSize(Lefts(m), Below(g.lhs));
    SubsetSize(Rights(m), Below(g.rhs));
  }

  /** The size of a maximum matching decides what is required. */
  lemma SatisfiableIffFull(g: MatchMatrix, require: Require, m: set<Pair>)
    requires IsMaximum(g, m)
    ensures Satisfiable(g, require) <==>
              && (require.NeedsSuperset() ==> |m| >= g.rhs)
              && (require.NeedsSubset() ==> |m| >= g.lhs)
  {
    MatchingWithinGraph(g, m);
    if Satisfiable(g, require) {
      if require.NeedsSubset() {
        var f :| CoversElements(g, f) && (require == ExactMatch ==> forall r: nat | r < g.rhs :: r in f);
        CoveredElementsBound(g, f, m);
        OntoIffSameSize(g, f);
      } else {
        var f :| CoversMatchers(g, f);
        CoveredMatchersBound(g, f, m);
      }
    }
    if require.NeedsSubset() && |m| >= g.lhs {
      var f := FullMatchingCoversElements(g, m);
      OntoIffSameSize(g, f);
    }
    if require == Superset && |m| >= g.rhs {
      var f := FullMatchingCoversMatchers(g, m);
    }
  }

  // ---------- The checks ----------

  method FindMaxBipartiteMatching(g: MatchMatrix) returns (matches: seq<Pair>)
    ensures IsMaximum(g, Pairs(matches)) && |Pairs(matches)| == |matches|
    ensures forall i, j | 0 <= i < j < |matches| :: matches[i].0 < matches[j].0
  {
    var state := new MaxBipartiteMatchState(g);
    matches := state.Compute();
  }

  method FindPairing(g: MatchMatrix, require: Require) returns (ok: bool)
    ensures ok <==> Satisfiable(g, require)
  {
    var matches := FindMaxBipartiteMatching(g);
    SatisfiableIffFull(g, require, Pairs(matches));
    var maxFlow := |matches|;
    if require.NeedsSuperset() && maxFlow < g.rhs {
      return false;
    }
    if require.NeedsSubset() && maxFlow < g.lhs {
      return false;
    }
    return true;
  }

  ghost predicate ElementHasEdge(g: MatchMatrix, l: int, bound: nat) {
    exists r | 0 <= r < bound :: g.HasEdge(l, r)
  }

  ghost predicate MatcherHasEdge(g: MatchMatrix, r: int, bound: nat) {
    exists l | 0 <= l < bound :: g.HasEdge(l, r)
  }

  /** What the quick filter looks for: no size mismatch, no isolated node. */
  ghost predicate PassesFilter(g: MatchMatrix, require: Require) {
    && (require == ExactMatch ==> g.lhs == g.rhs)
    && (require.NeedsSuperset() ==> forall r | 0 <= r < g.rhs :: MatcherHasEdge(g, r, g.lhs))
    && (require.NeedsSubset() ==> forall l | 0 <= l < g.lhs :: ElementHasEdge(g, l, g.rhs))
  }

  /** An element or a matcher that matches nothing is enough to be rejected where all of its kind
      count, and so are unequal numbers where the match must be exact. */
  lemma FilterRejects(g: MatchMatrix, l: nat, r: nat)
    ensures l < g.lhs && (forall j: nat | j < g.rhs :: !g.matched(l, j)) ==>
              !PassesFilter(g, Subset) && !PassesFilter(g, ExactMatch)
    ensures r < g.rhs && (forall i: nat | i < g.lhs :: !g.matched(i, r)) ==>
              !PassesFilter(g, Superset) && !PassesFilter(g, ExactMatch)
    ensures g.lhs != g.rhs ==> !PassesFilter(g, ExactMatch)
  {
    if l < g.lhs && ElementHasEdge(g, l, g.rhs) {
      var j: nat :| j < g.rhs && g.HasEdge(l, j);
      assert g.matched(l, j);
    }
    if r < g.rhs && MatcherHasEdge(g, r, g.lhs) {
      var i: nat :| i < g.lhs && g.HasEdge(i, r);
      assert g.matched(i, r);
    }
  }

  method VerifyMatchMatrix(g: MatchMatrix, require: Require) returns (result: bool)
    ensures result <==> PassesFilter(g, require)
  {
    if g.lhs == 0 && g.rhs == 0 {
      return true;
    }
    result := !(require == ExactMatch && g.lhs != g.rhs);
    var elementMatched := new bool[g.lhs](_ => false);
    var matcherMatched := new bool[g.rhs](_ => false);
    for ilhs := 0 to g.lhs
      invariant forall l | 0 <= l < g.lhs :: elementMatched[l] <==> l < ilhs && ElementHasEdge(g, l, g.rhs)
      invariant forall r | 0 <= r < g.rhs :: matcherMatched[r] <==> MatcherHasEdge(g, r, ilhs)
    {
      for irhs := 0 to g.rhs
        invariant forall l | 0 <= l < g.lhs && l != ilhs ::
                    elementMatched[l] <==> l < ilhs && ElementHasEdge(g, l, g.rhs)
        invariant elementMatched[ilhs] <==> ElementHasEdge(g, ilhs, irhs)
        invariant forall r | 0 <= r < g.rhs ::
                    matcherMatched[r] <==> MatcherHasEdge(g, r, if r < irhs then ilhs + 1 else ilhs)
      {
        var matched := g.HasEdge(ilhs, irhs);
        elementMatched[ilhs] := elementMatched[ilhs] || matched;
        matcherMatched[irhs] := matcherMatched[irhs] || matched;
      }
    }
    if require.NeedsSuperset() {
      for mi := 0 to matcherMatched.Length
        invariant result <==> !(require == ExactMatch && g.lhs != g.rhs) && forall r | 0 <= r < mi :: matcherMatched[r]
      {
        if matcherMatched[mi] {
          continue;
        }
        result := false;
      }
    }
    ghost var before := result;
    if require.NeedsSubset() {
      for ei := 0 to elementMatched.Length
        invariant result <==> before && forall l | 0 <= l < ei :: elementMatched[l]
      {
        if elementMatched[ei] {
          continue;
        }
        result := false;
      }
    }
  }

  /** The filter loses nothing: whatever it rejects has no pairing. */
  lemma FilterIsSound(g: MatchMatrix, require: Require)
    requires Satisfiable(g, require)
    ensures PassesFilter(g, require)
  {
    match require
    case Superset =>
      var f :| CoversMatchers(g, f);
      forall r: nat | r < g.rhs ensures MatcherHasEdge(g, r, g.lhs) {
        assert g.HasEdge(f[r], r);
      }
    case Subset =>
      var f :| CoversElements(g, f);
      forall l: nat | l < g.lhs ensures ElementHasEdge(g, l, g.rhs) {
        assert g.HasEdge(l, f[l]);
      }
    case ExactMatch =>
      var f :| CoversElements(g, f) && forall r: nat | r < g.rhs :: r in f;
      OntoIffSameSize(g, f);
      forall l: nat | l < g.lhs ensures ElementHasEdge(g, l, g.rhs) {
        assert g.HasEdge(l, f[l]);
      }
      forall r: nat | r < g.rhs ensures MatcherHasEdge(g, r, g.lhs) {
        assert r in f;
        var l :| 0 <= l < |f| && f[l] == r;
        assert g.HasEdge(l, r);
      }
  }

  /** The whole matcher: filter first, then look for a pairing. */
  method MatchAndExplain(g: MatchMatrix, require: Require) returns (ok: bool)
    ensures ok <==> Satisfiable(g, require)
  {
    ok := VerifyMatchMatrix(g, require);
    if ok {
      ok := FindPairing(g, require);
    } else if Satisfiable(g, require) {
      FilterIsSound(g, require);
    }
  }
}

/** The in-place Fisher-Yates shuffle of Google Test: choice streams and permutations of the
    shuffled range correspond one to one. */
module Shuffling {

  const MAX_RANGE := 0x8000_0000

  const MAX_INT := 0x7FFF_FFFF

  /** The linear congruential step on the 32-bit state. */
  function NextState(state: nat): (next: nat)
    ensures next < MAX_RANGE
  {
    (1103515245 * state + 12345) % 0x1_0000_0000 % MAX_RANGE
  }

  /** One choice below each width from `width` down to 2. */
  ghost predicate ValidChoices(width: nat, choices: seq<nat>) {
    && |choices| == (if width < 2 then 0 else width - 1)
    && forall k | 0 <= k < |choices| :: choices[k] < width - k
  }

  /** What `Generate` returns for the ranges width, width - 1, ..., 2. */
  function Draws(state: nat, width: nat): (choices: seq<nat>)
    ensures ValidChoices(width, choices)
    decreases width
  {
    if width < 2 then [] else [NextState(state) % width] + Draws(NextState(state), width - 1)
  }

  lemma RemainderOfRemainder(x: nat)
    ensures x % 0x1_0000_0000 % 0x8000_0000 == x % 0x8000_0000
  {
    var q, r := x / 0x1_0000_0000, x % 0x1_0000_0000;
    assert x == 0x8000_0000 * (2 * q) + r;
  }

  lemma Remainder(x: nat, q: nat, r: nat)
    requires x == 0x8000_0000 * q + r && r < 0x8000_0000
    ensures x % 0x8000_0000 == r
  {
  }

  /** The low 31 bits of the congruential step are kept. */
  lemma StateStep(state: nat, q: nat, next: nat)
    requires 1103515245 * state + 12345 == 2147483648 * q + next && next < 2147483648
    ensures NextState(state) == next
  {
    var x := 1103515245 * state + 12345;
    RemainderOfRemainder(x);
    Remainder(x, q, next);
  }

  lemma StatesFromZero()
    ensures NextState(0) == 12345 && NextState(12345) == 1406932606 && NextState(1406932606) == 654583775
  {
    StateStep(0, 0, 12345);
    StateStep(12345, 6343, 1406932606);
    StateStep(1406932606, 722972480, 654583775);
  }

  /** What the generator draws for four cells from state zero. */
  lemma DrawsFromZero()
    ensures Draws(0, 4) == [12345 % 4, 1406932606 % 3, 654583775 % 2]
  {
    StatesFromZero();
    assert Draws(654583775, 1) == [];
    assert Draws(1406932606, 2) == [654583775 % 2];
    assert Draws(12345, 3) == [1406932606 % 3] + Draws(1406932606, 2);
  }

  class Random {
    var state: nat

    constructor (seed: nat)
      ensures state == seed
    {
      state := seed;
    }

    method Generate(range: nat) returns (r: nat)
      requires 0 < range <= MAX_RANGE
      modifies this
      ensures state == NextState(old(state)) && r == state % range && r < range
    {
      state := NextState(state);
      r := state % range;
    }
  }

  function Swap<E>(s: seq<E>, i: nat, j: nat): seq<E>
    requires i < |s| && j < |s|
  {
    seq(|s|, k requires 0 <= k < |s| => if k == i then s[j] else if k == j then s[i] else s[k])
  }

  ghost function Shuffled<E>(s: seq<E>, begin: nat, width: nat, choices: seq<nat>): seq<E>
    requires begin + width <= |s| && ValidChoices(width, choices)
    decreases width
  {
    if width < 2 then s
    else Shuffled(Swap(s, begin + choices[0], begin + width - 1), begin, width - 1, choices[1..])
  }

  /** Four cells: each step puts the chosen element last, and the last one where it was. */
  lemma FourCells<E>(a: E, b: E, c: E, d: E)
    ensures Shuffled([a, b, c, d], 0, 4, [0, 0, 0]) == [b, c, d, a]
    ensures Shuffled([a, b, c, d], 0, 4, [3, 2, 1]) == [a, b, c, d]
  {
    assert Swap([a, b, c, d], 0, 3) == [d, b, c, a] && Swap([d, b, c, a], 0, 2) == [c, b, d, a];
    assert Swap([c, b, d, a], 0, 1) == [b, c, d, a];
    assert [0, 0, 0][1..] == [0, 0] && [0, 0][1..] == [0] && [0][1..] == [];
    assert Swap([a, b, c, d], 3, 3) == Swap([a, b, c, d], 2, 2) == Swap([a, b, c, d], 1, 1) == [a, b, c, d];
    assert [3, 2, 1][1..] == [2, 1] && [2, 1][1..] == [1] && [1][1..] == [];
  }

  /** One step: the last cell of the range changes places with a chosen one. */
  method SwapLast<E>(random: Random, begin: nat, rangeWidth: nat, v: array<E>)
    requires 2 <= rangeWidth <= MAX_RANGE && begin + rangeWidth <= v.Length
    modifies random, v
    ensures random.state == NextState(old(random.state))
    ensures v[..] == Swap(old(v[..]), begin + random.state % rangeWidth, begin + rangeWidth - 1)
  {
    var lastInRange := begin + rangeWidth - 1;
    var r := random.Generate(rangeWidth);
    var selected := begin + r;
    v[selected], v[lastInRange] := v[lastInRange], v[selected];
  }

  /** The shuffle as the loop runs it, drawing each choice when it is needed. */
  ghost function ShuffledBy<E>(s: seq<E>, begin: nat, width: nat, state: nat): seq<E>
    requires begin + width <= |s|
    decreases width
  {
    if width < 2 then s
    else
      var next := NextState(state);
      ShuffledBy(Swap(s, begin + next % width, begin + width - 1), begin, width - 1, next)
  }

  lemma {:induction false} ShuffledByDraws<E>(s: seq<E>, begin: nat, width: nat, state: nat)
    requires begin + width <= |s|
    ensures ShuffledBy(s, begin, width, state) == Shuffled(s, begin, width, Draws(state, width))
    decreases width
  {
    if width >= 2 {
      var next := NextState(state);
      ShuffledByDraws(Swap(s, begin + next % width, begin + width - 1), begin, width - 1, next);
      assert Draws(state, width)[1..] == Draws(next, width - 1);
    }
  }

  method ShuffleRange<E>(random: Random, begin: nat, end: nat, v: array<E>)
    requires begin <= end <= v.Length <= MAX_INT
    modifies random, v
    ensures v[..] == Shuffled(old(v[..]), begin, end - begin, Draws(old(random.state), end - begin))
  {
    ShuffledByDraws(v[..], begin, end - begin, random.state);
    ghost var target := ShuffledBy(v[..], begin, end - begin, random.state);
    var rangeWidth := end - begin;
    while rangeWidth >= 2
      invariant 0 <= rangeWidth <= end - begin
      invariant target == ShuffledBy(v[..], begin, rangeWidth, random.state)
    {
      SwapLast(random, begin, rangeWidth, v);
      rangeWidth := rangeWidth - 1;
    }
  }

  method Shuffle<E>(random: Random, v: array<E>)
    requires v.Length <= MAX_INT
    modifies random, v
    ensures v[..] == Shuffled(old(v[..]), 0, v.Length, Draws(old(random.state), v.Length))
  {
    ShuffleRange(random, 0, v.Length, v);
  }

  // ---------- One choice stream per permutation ----------

  ghost function Cells<E>(s: seq<E>, begin: nat, width: nat): multiset<E>
    requires begin + width <= |s|
  {
    multiset(s[begin..begin + width])
  }

  /** `t` is `s` with the cells of [begin, begin + width) permuted and the others untouched. */
  ghost predicate Permutes<E>(s: seq<E>, t: seq<E>, begin: nat, width: nat) {
    && |t| == |s| && begin + width <= |s|
    && (forall k | 0 <= k < |s| && !(begin <= k < begin + width) :: t[k] == s[k])
    && Cells(t, begin, width) == Cells(s, begin, width)
  }

  ghost predicate DistinctWithin<E>(s: seq<E>, begin: nat, width: nat) {
    begin + width <= |s| && forall i, j | begin <= i < j < begin + width :: s[i] != s[j]
  }

  lemma CellsStep<E>(s: seq<E>, begin: nat, width: nat)
    requires 0 < width && begin + width <= |s|
    ensures Cells(s, begin, width) == Cells(s, begin, width - 1) + multiset{s[begin + width - 1]}
  {
    assert s[begin..begin + width] == s[begin..begin + width - 1] + [s[begin + width - 1]];
  }

  lemma Exchanged<E>(a: multiset<E>, b: multiset<E>, c: multiset<E>, x: E, y: E)
    requires x in a && b == a - multiset{x} + multiset{y} && y in b && c == b - multiset{y} + multiset{x}
    ensures c == a
  {
  }

  lemma SwapMultiset<E>(a: seq<E>, i: nat, j: nat)
    requires i < |a| && j < |a|
    ensures multiset(Swap(a, i, j)) == multiset(a)
  {
    var b := a[i := a[j]];
    assert a[i] in multiset(a) && b[j] in multiset(b);
    Exchanged(multiset(a), multiset(b), multiset(b[j := a[i]]), a[i], a[j]);
    assert Swap(a, i, j) == b[j := a[i]];
  }

  lemma SliceOfSwap<E>(s: seq<E>, begin: nat, width: nat, i: nat)
    requires begin <= i < begin + width <= |s|
    ensures Swap(s, i, begin + width - 1)[begin..begin + width] == Swap(s[begin..begin + width], i - begin, width - 1)
  {
  }

  lemma SwapPermutes<E>(s: seq<E>, begin: nat, width: nat, i: nat)
    requires begin <= i < begin + width <= |s|
    ensures Permutes(s, Swap(s, i, begin + width - 1), begin, width)
  {
    SwapMultiset(s[begin..begin + width], i - begin, width - 1);
    SliceOfSwap(s, begin, width, i);
  }

  lemma MultisetCancel<E>(a: multiset<E>, b: multiset<E>, m: multiset<E>)
    ensures a + m == b + m <==> a == b
  {
    assert (a + m) - m == a && (b + m) - m == b;
  }

  /** Taking the last cell off the range, when it already holds what it should. */
  lemma PermutesShrinks<E>(s: seq<E>, t: seq<E>, begin: nat, width: nat)
    requires width > 0 && begin + width <= |s| && |t| == |s| && s[begin + width - 1] == t[begin + width - 1]
    ensures Permutes(s, t, begin, width) <==> Permutes(s, t, begin, width - 1)
  {
    CellsStep(s, begin, width);
    CellsStep(t, begin, width);
    MultisetCancel(Cells(t, begin, width - 1), Cells(s, begin, width - 1), multiset{s[begin + width - 1]});
  }

  lemma PermutesTrans<E>(s: seq<E>, t: seq<E>, u: seq<E>, begin: nat, width: nat)
    requires Permutes(s, t, begin, width)
    ensures Permutes(t, u, begin, width) <==> Permutes(s, u, begin, width)
  {
  }

  /** A step keeps a permutation, if the narrower range is permuted afterwards. */
  lemma StepPermutes<E>(s: seq<E>, u: seq<E>, begin: nat, width: nat, i: nat)
    requires 2 <= width && begin <= i < begin + width <= |s|
    requires Permutes(Swap(s, i, begin + width - 1), u, begin, width - 1)
    ensures Permutes(s, u, begin, width)
  {
    var t := Swap(s, i, begin + width - 1);
    SwapPermutes(s, begin, width, i);
    PermutesShrinks(t, u, begin, width);
    PermutesTrans(s, t, u, begin, width);
  }

  /** A shuffle only permutes its range. */
  lemma {:induction false} ShufflePermutes<E>(s: seq<E>, begin: nat, width: nat, choices: seq<nat>)
    requires begin + width <= |s| && ValidChoices(width, choices)
    ensures Permutes(s, Shuffled(s, begin, width, choices), begin, width)
    decreases width
  {
    if width >= 2 {
      var i := begin + choices[0];
      var t := Swap(s, i, begin + width - 1);
      var u := Shuffled(t, begin, width - 1, choices[1..]);
      assert Shuffled(s, begin, width, choices) == u;
      ShufflePermutes(t, begin, width - 1, choices[1..]);
      StepPermutes(s, u, begin, width, i);
    }
  }

  /** The last cell of the range ends up with the first element chosen. */
  lemma FirstChoiceLast<E>(s: seq<E>, begin: nat, width: nat, choices: seq<nat>)
    requires 2 <= width && begin + width <= |s| && ValidChoices(width, choices)
    ensures |Shuffled(s, begin, width, choices)| == |s|
    ensures Shuffled(s, begin, width, choices)[begin + width - 1] == s[begin + choices[0]]
  {
    var last := begin + width - 1;
    var t := Swap(s, begin + choices[0], last);
    var u := Shuffled(t, begin, width - 1, choices[1..]);
    ShufflePermutes(t, begin, width - 1, choices[1..]);
    assert u[last] == t[last];
  }

  lemma DistinctAfterSwap<E>(s: seq<E>, begin: nat, width: nat, i: nat)
    requires DistinctWithin(s, begin, width) && begin <= i < begin + width
    ensures DistinctWithin(Swap(s, i, begin + width - 1), begin, width - 1)
  {
  }

  /** Different choice streams give different orders. */
  lemma {:induction false} ShuffleInjective<E>(s: seq<E>, begin: nat, width: nat, a: seq<nat>, b: seq<nat>)
    requires DistinctWithin(s, begin, width) && ValidChoices(width, a) && ValidChoices(width, b)
    requires Shuffled(s, begin, width, a) == Shuffled(s, begin, width, b)
    ensures a == b
    decreases width
  {
    if width >= 2 {
      FirstChoiceLast(s, begin, width, a);
      FirstChoiceLast(s, begin, width, b);
      assert a[0] == b[0];
      DistinctAfterSwap(s, begin, width, begin + a[0]);
      ShuffleInjective(Swap(s, begin + a[0], begin + width - 1), begin, width - 1, a[1..], b[1..]);
      assert a == [a[0]] + a[1..] && b == [b[0]] + b[1..];
    }
  }

  lemma NarrowPermutation<E>(s: seq<E>, t: seq<E>, begin: nat, width: nat)
    requires Permutes(s, t, begin, width) && width < 2
    ensures s == t
  {
    if width == 1 {
      CellsStep(s, begin, width);
      CellsStep(t, begin, width);
      assert t[begin] in Cells(s, begin, width);
    }
  }

  /** The element that belongs in the last cell is somewhere in the range. */
  lemma FindLast<E>(s: seq<E>, t: seq<E>, begin: nat, width: nat) returns (i: nat)
    requires Permutes(s, t, begin, width) && 0 < width
    ensures begin <= i < begin + width && s[i] == t[begin + width - 1]
  {
    CellsStep(t, begin, width);
    var x := t[begin + width - 1];
    assert x in Cells(s, begin, width);
    var k :| 0 <= k < width && s[begin..begin + width][k] == x;
    i := begin + k;
  }

  /** Every permutation of the range is the result of some choice stream. */
  lemma {:induction false} ShuffleSurjective<E>(s: seq<E>, t: seq<E>, begin: nat, width: nat)
    returns (choices: seq<nat>)
    requires Permutes(s, t, begin, width)
    ensures ValidChoices(width, choices) && Shuffled(s, begin, width, choices) == t
    decreases width
  {
    if width < 2 {
      NarrowPermutation(s, t, begin, width);
      return [];
    }
    var i := FindLast(s, t, begin, width);
    var s' := Swap(s, i, begin + width - 1);
    SwapPermutes(s, begin, width, i);
    PermutesTrans(s, s', t, begin, width);
    PermutesShrinks(s', t, begin, width);
    var rest := ShuffleSurjective(s', t, begin, width - 1);
    choices := [i - begin] + rest;
    assert choices[1..] == rest;
  }

  /** On distinct elements, choice streams and permutations of the range correspond one to one. */
  lemma ShuffleBijection<E>(s: seq<E>, t: seq<E>, begin: nat, width: nat)
    requires DistinctWithin(s, begin, width)
    ensures Permutes(s, t, begin, width) <==>
              exists choices :: ValidChoices(width, choices) && Shuffled(s, begin, width, choices) == t
    ensures forall a, b |
              ValidChoices(width, a) && ValidChoices(width, b)
              && Shuffled(s, begin, width, a) == t && Shuffled(s, begin, width, b) == t :: a == b
  {
    if Permutes(s, t, begin, width) {
      var choices := ShuffleSurjective(s, t, begin, width);
    }
    if choices :| ValidChoices(width, choices) && Shuffled(s, begin, width, choices) == t {
      ShufflePermutes(s, begin, width, choices);
    }
    forall a, b |
      ValidChoices(width, a) && ValidChoices(width, b)
      && Shuffled(s, begin, width, a) == t && Shuffled(s, begin, width, b) == t
      ensures a == b
    {
      ShuffleInjective(s, begin, width, a, b);
    }
  }
}

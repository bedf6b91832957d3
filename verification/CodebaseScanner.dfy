/** Packing source files into a token budget. */
module CodebaseScanners {

  /** A candidate file, with what reading it gives. */
  datatype Candidate = Candidate(path: string, content: string, readable: bool)

  datatype ScanResult = ScanResult(content: string, tokens: nat, included: seq<string>, skipped: seq<string>)

  function EstimateTokens(text: string): nat {
    |text| / 4 + 1
  }

  function Header(c: Candidate): string {
    "\n// ==== " + c.path + " ====\n"
  }

  function EntryTokens(c: Candidate): nat {
    EstimateTokens(Header(c)) + EstimateTokens(c.content)
  }

  /** Every four characters of the header and of the content cost a token, and so do the
      characters left over, or one more. */
  lemma EntryCost(c: Candidate)
    ensures EntryTokens(c) == (|c.path| + 19) / 4 + (|c.content| + 4) / 4
  {
  }

  /** The paths of the readable candidates for which `kept` is `want`. */
  function Paths(files: seq<Candidate>, kept: seq<bool>, want: bool): seq<string>
    requires |kept| == |files|
  {
    if files == [] then []
    else
      var n := |files| - 1;
      Paths(files[..n], kept[..n], want) + if files[n].readable && kept[n] == want then [files[n].path] else []
  }

  function Cost(files: seq<Candidate>, kept: seq<bool>): nat
    requires |kept| == |files|
  {
    if files == [] then 0
    else
      var n := |files| - 1;
      Cost(files[..n], kept[..n]) + if kept[n] then EntryTokens(files[n]) else 0
  }

  function Text(files: seq<Candidate>, kept: seq<bool>): string
    requires |kept| == |files|
  {
    if files == [] then ""
    else
      var n := |files| - 1;
      Text(files[..n], kept[..n]) + if kept[n] then Header(files[n]) + files[n].content else ""
  }

  /** Each readable candidate whose `kept` is `want` has its path in the list, after those before
      it, and no other candidate has. */
  lemma {:induction false} PathsAt(files: seq<Candidate>, kept: seq<bool>, want: bool, k: nat)
    requires |kept| == |files| && k < |files|
    ensures var (paths, before, after) := (Paths(files, kept, want), Paths(files[..k], kept[..k], want),
                                           Paths(files[..k + 1], kept[..k + 1], want));
            && (k == 0 ==> before == []) && after <= paths
            && (files[k].readable && kept[k] == want ==> after == before + [files[k].path])
            && (!files[k].readable || kept[k] != want ==> after == before)
  {
    var n := |files| - 1;
    if k < n {
      PathsAt(files[..n], kept[..n], want, k);
      assert files[..n][..k] == files[..k] && kept[..n][..k] == kept[..k];
      assert files[..n][..k + 1] == files[..k + 1] && kept[..n][..k + 1] == kept[..k + 1];
    } else {
      assert files[..k + 1] == files && kept[..k + 1] == kept;
    }
  }

  /** Each file kept stands in the text under its header, after the files kept before it, and a
      file that is not kept takes no room. */
  lemma {:induction false} TextAt(files: seq<Candidate>, kept: seq<bool>, k: nat)
    requires |kept| == |files| && k < |files|
    ensures var (text, before, after) := (Text(files, kept), Text(files[..k], kept[..k]),
                                          Text(files[..k + 1], kept[..k + 1]));
            && (k == 0 ==> before == "") && after <= text
            && after == before + if kept[k] then "\n// ==== " + files[k].path + " ====\n" + files[k].content else ""
  {
    var n := |files| - 1;
    if k < n {
      TextAt(files[..n], kept[..n], k);
      assert files[..n][..k] == files[..k] && kept[..n][..k] == kept[..k];
      assert files[..n][..k + 1] == files[..k + 1] && kept[..n][..k + 1] == kept[..k + 1];
    } else {
      assert files[..k + 1] == files && kept[..k + 1] == kept;
    }
  }

  function ReadablePaths(files: seq<Candidate>): seq<string> {
    if files == [] then []
    else
      var n := |files| - 1;
      ReadablePaths(files[..n]) + if files[n].readable then [files[n].path] else []
  }

  /** A file is kept exactly if it can be read and fits in what the files before it left. */
  ghost predicate Greedy(files: seq<Candidate>, kept: seq<bool>, budget: nat) {
    && |kept| == |files|
    && forall k | 0 <= k < |files| ::
         kept[k] <==> files[k].readable && Cost(files[..k], kept[..k]) + EntryTokens(files[k]) <= budget
  }

  /** What the scan returns for a choice of files. */
  function Packed(files: seq<Candidate>, kept: seq<bool>): ScanResult
    requires |kept| == |files|
  {
    ScanResult(Text(files, kept), Cost(files, kept), Paths(files, kept, true), Paths(files, kept, false))
  }

  lemma ScanStep(files: seq<Candidate>, kept: seq<bool>, keep: bool, i: nat, budget: nat)
    requires i < |files| && Greedy(files[..i], kept, budget)
    requires keep <==> files[i].readable && Cost(files[..i], kept) + EntryTokens(files[i]) <= budget
    ensures Greedy(files[..i + 1], kept + [keep], budget)
    ensures files[..i + 1][..i] == files[..i] && (kept + [keep])[..i] == kept
  {
    var more := kept + [keep];
    assert files[..i + 1][..i] == files[..i] && more[..i] == kept;
    forall k | 0 <= k < i
      ensures files[..i + 1][..k] == files[..i][..k] && more[..k] == kept[..k]
    {
    }
  }

  /** Packs the candidates in order. */
  method Scan(files: seq<Candidate>, budget: nat) returns (result: ScanResult)
    ensures exists kept :: Greedy(files, kept, budget) && result == Packed(files, kept)
  {
    var out, tokensUsed: nat, included: seq<string>, skipped: seq<string> := "", 0, [], [];
    ghost var kept: seq<bool> := [];
    for i := 0 to |files|
      invariant Greedy(files[..i], kept, budget)
      invariant out == Text(files[..i], kept) && tokensUsed == Cost(files[..i], kept)
      invariant included == Paths(files[..i], kept, true) && skipped == Paths(files[..i], kept, false)
    {
      var file := files[i];
      ghost var keep := file.readable && tokensUsed + EntryTokens(file) <= budget;
      ScanStep(files, kept, keep, i, budget);
      kept := kept + [keep];
      if !file.readable {
        continue;
      }
      var header := Header(file);
      var entryTokens := EstimateTokens(header) + EstimateTokens(file.content);
      if tokensUsed + entryTokens > budget {
        skipped := skipped + [file.path];
        continue;
      }
      out := out + (header + file.content);
      tokensUsed := tokensUsed + entryTokens;
      included := included + [file.path];
    }
    assert files[..|files|] == files;
    result := ScanResult(out, tokensUsed, included, skipped);
  }

  lemma GreedyPrefix(files: seq<Candidate>, kept: seq<bool>, n: nat, budget: nat)
    requires n <= |files| && Greedy(files, kept, budget)
    ensures Greedy(files[..n], kept[..n], budget)
  {
    forall k | 0 <= k < n
      ensures files[..n][..k] == files[..k] && kept[..n][..k] == kept[..k]
    {
    }
  }

  /** The choice is determined by the budget. */
  lemma {:induction false} GreedyIsUnique(files: seq<Candidate>, a: seq<bool>, b: seq<bool>, budget: nat)
    requires Greedy(files, a, budget) && Greedy(files, b, budget)
    ensures a == b
  {
    if files != [] {
      var n := |files| - 1;
      GreedyPrefix(files, a, n, budget);
      GreedyPrefix(files, b, n, budget);
      GreedyIsUnique(files[..n], a[..n], b[..n], budget);
      assert a == a[..n] + [a[n]] && b == b[..n] + [b[n]];
    }
  }

  /** The choice that the budget determines. */
  ghost function Choice(files: seq<Candidate>, budget: nat): (kept: seq<bool>)
    ensures Greedy(files, kept, budget)
  {
    if files == [] then []
    else
      var n := |files| - 1;
      var kept := Choice(files[..n], budget);
      var keep := files[n].readable && Cost(files[..n], kept) + EntryTokens(files[n]) <= budget;
      ScanStep(files, kept, keep, n, budget);
      assert files[..n + 1] == files;
      kept + [keep]
  }

  /** The budget is respected, and so the text is bounded: four characters a token. */
  lemma {:induction false} WithinBudget(files: seq<Candidate>, kept: seq<bool>, budget: nat)
    requires Greedy(files, kept, budget)
    ensures Cost(files, kept) <= budget
    ensures |Text(files, kept)| <= 4 * Cost(files, kept)
  {
    if files != [] {
      var n := |files| - 1;
      GreedyPrefix(files, kept, n, budget);
      WithinBudget(files[..n], kept[..n], budget);
    }
  }

  lemma {:induction false} CostGrows(files: seq<Candidate>, kept: seq<bool>, k: nat)
    requires |kept| == |files| && k <= |files|
    ensures Cost(files[..k], kept[..k]) <= Cost(files, kept)
  {
    if k < |files| {
      var n := |files| - 1;
      CostGrows(files[..n], kept[..n], k);
      assert files[..n][..k] == files[..k] && kept[..n][..k] == kept[..k];
    } else {
      assert files[..k] == files && kept[..k] == kept;
    }
  }

  /** No skipped file fits in what is left at the end. */
  lemma NoSkippedFileFits(files: seq<Candidate>, kept: seq<bool>, budget: nat, k: nat)
    requires Greedy(files, kept, budget) && k < |files| && files[k].readable && !kept[k]
    ensures Cost(files, kept) + EntryTokens(files[k]) > budget
  {
    CostGrows(files, kept, k);
  }

  /** Every readable candidate is included or skipped, once. */
  lemma {:induction false} IncludedOrSkipped(files: seq<Candidate>, kept: seq<bool>)
    requires |kept| == |files|
    ensures multiset(Paths(files, kept, true)) + multiset(Paths(files, kept, false)) == multiset(ReadablePaths(files))
  {
    if files != [] {
      var n := |files| - 1;
      IncludedOrSkipped(files[..n], kept[..n]);
    }
  }
}

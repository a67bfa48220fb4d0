/**
  The end of `suggestCorrections`: scan the filled grid for its first strict
  maximum, then walk the candidates from last to first and take each one
  whose profit closes the gap between `dp[remaining_k][remaining_w]` and the
  cell one item and one weight lower. The walk reads the FINAL grid, not the
  grid as it stood when that candidate was offered, so it can stop short of
  `best_k` picks and need not return a best-scoring subset.
 */
module Selection {
  import opened Words
  import opened Dictionary
  import opened Candidates
  import opened Knapsack

  /** `(k, j)` is scanned before `(bk, bw)` in the row-major order of the best scan. */
  predicate ScannedBefore(k: int, j: int, bk: int, bw: int) {
    k < bk || (k == bk && j < bw)
  }

  /**
    The best scan: `maxProfit` starts at -1 and a cell replaces the best only
    when it is strictly greater, so the first cell holding the maximum wins.
   */
  method FindBest(dp: array2<int>) returns (bestK: nat, bestW: nat, maxProfit: int)
    requires dp.Length0 == MaxItems + 1 && dp.Length1 == Capacity + 1
    ensures bestK <= MaxItems && bestW <= Capacity
    ensures maxProfit >= Unreachable
    ensures forall k, j :: 0 <= k <= MaxItems && 0 <= j <= Capacity ==> dp[k, j] <= maxProfit
    ensures maxProfit > Unreachable ==> dp[bestK, bestW] == maxProfit
    ensures maxProfit > Unreachable ==>
      forall k, j :: 0 <= k <= MaxItems && 0 <= j <= Capacity && ScannedBefore(k, j, bestK, bestW) ==> dp[k, j] < maxProfit
    ensures maxProfit == Unreachable ==> bestK == 0 && bestW == 0
  {
    maxProfit := Unreachable;
    bestK, bestW := 0, 0;
    var k := 0;
    while k <= MaxItems
      invariant 0 <= k <= MaxItems + 1
      invariant bestK <= MaxItems && bestW <= Capacity
      invariant maxProfit >= Unreachable
      invariant forall k', j' :: 0 <= k' < k && 0 <= j' <= Capacity ==> dp[k', j'] <= maxProfit
      invariant maxProfit > Unreachable ==> dp[bestK, bestW] == maxProfit && bestK < k
      invariant maxProfit > Unreachable ==>
        forall k', j' :: 0 <= k' <= MaxItems && 0 <= j' <= Capacity && ScannedBefore(k', j', bestK, bestW) ==> dp[k', j'] < maxProfit
      invariant maxProfit == Unreachable ==> bestK == 0 && bestW == 0
    {
      var j := 0;
      while j <= Capacity
        invariant 0 <= j <= Capacity + 1
        invariant bestK <= MaxItems && bestW <= Capacity
        invariant maxProfit >= Unreachable
        invariant forall k', j' :: 0 <= k' < k && 0 <= j' <= Capacity ==> dp[k', j'] <= maxProfit
        invariant forall j' :: 0 <= j' < j ==> dp[k, j'] <= maxProfit
        invariant maxProfit > Unreachable ==> dp[bestK, bestW] == maxProfit && ScannedBefore(bestK, bestW, k, j)
        invariant maxProfit > Unreachable ==>
          forall k', j' :: 0 <= k' <= MaxItems && 0 <= j' <= Capacity && ScannedBefore(k', j', bestK, bestW) ==> dp[k', j'] < maxProfit
        invariant maxProfit == Unreachable ==> bestK == 0 && bestW == 0
      {
        if dp[k, j] > maxProfit {
          maxProfit := dp[k, j];
          bestK, bestW := k, j;
        }
        j := j + 1;
      }
      k := k + 1;
    }
  }

  /**
    The reconstruction walk over candidates `i - 1` down to 0, with `rk` items
    and weight `rw` still to account for; `taken` holds the candidate indices
    already selected, and the result extends it in the order of selection.
   */
  function Pick(dp: Grid, cs: seq<Candidate>, i: nat, rk: nat, rw: nat, taken: seq<nat>): (picked: seq<nat>)
    requires IsGrid(dp) && WeightsInRange(cs)
    requires i <= |cs| && rk <= MaxItems && rw <= Capacity
    ensures |taken| <= |picked| <= |taken| + rk
    decreases i
  {
    if i == 0 || rk == 0 then taken
    else
      var c := cs[i - 1];
      if c.weight <= rw && dp[rk][rw] == dp[rk - 1][rw - c.weight] + c.profit
      then Pick(dp, cs, i - 1, rk - 1, rw - c.weight, taken + [i - 1])
      else Pick(dp, cs, i - 1, rk, rw, taken)
  }

  /** One step of the walk: candidate `i - 1` is taken exactly when its cell check passes. */
  lemma PickStep(dp: Grid, cs: seq<Candidate>, i: nat, rk: nat, rw: nat, taken: seq<nat>)
    requires IsGrid(dp) && WeightsInRange(cs)
    requires 0 < i <= |cs| && 0 < rk <= MaxItems && rw <= Capacity
    ensures Pick(dp, cs, i, rk, rw, taken) ==
      if cs[i - 1].weight <= rw && dp[rk][rw] == dp[rk - 1][rw - cs[i - 1].weight] + cs[i - 1].profit
      then Pick(dp, cs, i - 1, rk - 1, rw - cs[i - 1].weight, taken + [i - 1])
      else Pick(dp, cs, i - 1, rk, rw, taken)
  {
  }

  /** Indices the walk adds are below its starting point. */
  lemma {:induction false} PickBelow(dp: Grid, cs: seq<Candidate>, i: nat, rk: nat, rw: nat, taken: seq<nat>)
    requires IsGrid(dp) && WeightsInRange(cs)
    requires i <= |cs| && rk <= MaxItems && rw <= Capacity
    requires forall x :: 0 <= x < |taken| ==> taken[x] < |cs|
    ensures forall x :: 0 <= x < |Pick(dp, cs, i, rk, rw, taken)| ==> Pick(dp, cs, i, rk, rw, taken)[x] < |cs|
    decreases i
  {
    if i > 0 && rk > 0 {
      var c := cs[i - 1];
      if c.weight <= rw && dp[rk][rw] == dp[rk - 1][rw - c.weight] + c.profit {
        PickBelow(dp, cs, i - 1, rk - 1, rw - c.weight, taken + [i - 1]);
      } else {
        PickBelow(dp, cs, i - 1, rk, rw, taken);
      }
    }
  }

  predicate UnitWeights(cs: seq<Candidate>) {
    forall i :: 0 <= i < |cs| ==> cs[i].weight == 1
  }

  /**
    The reconstruction loop. The candidates come out in strictly decreasing
    candidate order, each at most once, and every step keeps
    `selectedCount + remaining_k == best_k`; with unit weights and
    `best_w == best_k` it also keeps `remaining_w == remaining_k`.
   */
  method Reconstruct(dp: array2<int>, ghost g: Grid, cs: seq<Candidate>, bestK: nat, bestW: nat)
    returns (selected: seq<Candidate>, picked: seq<nat>)
    requires dp.Length0 == MaxItems + 1 && dp.Length1 == Capacity + 1 && IsGrid(g)
    requires forall k, j :: 0 <= k <= MaxItems && 0 <= j <= Capacity ==> dp[k, j] == g[k][j]
    requires WeightsInRange(cs) && bestK <= MaxItems && bestW <= Capacity
    ensures picked == Pick(g, cs, |cs|, bestK, bestW, [])
    ensures |selected| == |picked| <= bestK
    ensures forall x :: 0 <= x < |picked| ==> picked[x] < |cs| && selected[x] == cs[picked[x]]
    ensures forall x, y :: 0 <= x < y < |picked| ==> picked[x] > picked[y]
  {
    selected, picked := [], [];
    var remainingK: nat, remainingW: nat := bestK, bestW;
    var i: nat := |cs|;
    while i > 0 && remainingK > 0
      invariant i <= |cs| && remainingK <= MaxItems && remainingW <= Capacity
      invariant Walking(g, cs, bestK, bestW, i, remainingK, remainingW, picked, selected)
    {
      var p := cs[i - 1].profit;
      var w := cs[i - 1].weight;
      if w <= remainingW {
        assert dp[remainingK, remainingW] == g[remainingK][remainingW];
        assert dp[remainingK - 1, remainingW - w] == g[remainingK - 1][remainingW - w];
      }
      if w <= remainingW && dp[remainingK, remainingW] == dp[remainingK - 1, remainingW - w] + p {
        WalkTake(g, cs, bestK, bestW, i, remainingK, remainingW, picked, selected);
        selected := selected + [cs[i - 1]];
        picked := picked + [i - 1];
        remainingK := remainingK - 1;
        remainingW := remainingW - w;
      } else {
        WalkSkip(g, cs, bestK, bestW, i, remainingK, remainingW, picked, selected);
      }
      i := i - 1;
    }
    assert Pick(g, cs, i, remainingK, remainingW, picked) == picked;
  }

  /**
    The walk's state before looking at candidate `i - 1`: finishing the walk
    from here gives the same picks as the whole walk, every pick so far is a
    later candidate than `i - 1`, and `remaining_k` counts down as picks are made.
   */
  ghost predicate Walking(g: Grid, cs: seq<Candidate>, bestK: nat, bestW: nat,
                          i: nat, rk: nat, rw: nat, picked: seq<nat>, selected: seq<Candidate>) {
    && IsGrid(g) && WeightsInRange(cs)
    && i <= |cs| && rk <= MaxItems && rw <= Capacity && bestK <= MaxItems && bestW <= Capacity
    && Pick(g, cs, i, rk, rw, picked) == Pick(g, cs, |cs|, bestK, bestW, [])
    && |picked| + rk == bestK
    && (UnitWeights(cs) && bestW == bestK ==> rw == rk)
    && Descending(picked, i, |cs|)
    && (forall x :: 0 <= x < |picked| ==> picked[x] < |cs|)
    && selected == Gather(cs, picked)
  }

  /** Taking candidate `i - 1` when its cell check passes keeps the walk's state. */
  lemma WalkTake(g: Grid, cs: seq<Candidate>, bestK: nat, bestW: nat,
                 i: nat, rk: nat, rw: nat, picked: seq<nat>, selected: seq<Candidate>)
    requires Walking(g, cs, bestK, bestW, i, rk, rw, picked, selected)
    requires i > 0 && rk > 0
    requires cs[i - 1].weight <= rw && g[rk][rw] == g[rk - 1][rw - cs[i - 1].weight] + cs[i - 1].profit
    ensures Walking(g, cs, bestK, bestW, i - 1, rk - 1, rw - cs[i - 1].weight, picked + [i - 1], selected + [cs[i - 1]])
  {
    PickStep(g, cs, i, rk, rw, picked);
    DescendingSnoc(picked, i - 1, |cs|);
    assert Gather(cs, picked + [i - 1]) == Gather(cs, picked) + [cs[i - 1]];
  }

  /** Passing over candidate `i - 1` when its cell check fails keeps the walk's state. */
  lemma WalkSkip(g: Grid, cs: seq<Candidate>, bestK: nat, bestW: nat,
                 i: nat, rk: nat, rw: nat, picked: seq<nat>, selected: seq<Candidate>)
    requires Walking(g, cs, bestK, bestW, i, rk, rw, picked, selected)
    requires i > 0 && rk > 0
    requires !(cs[i - 1].weight <= rw && g[rk][rw] == g[rk - 1][rw - cs[i - 1].weight] + cs[i - 1].profit)
    ensures Walking(g, cs, bestK, bestW, i - 1, rk, rw, picked, selected)
  {
    PickStep(g, cs, i, rk, rw, picked);
    DescendingWeaken(picked, i - 1, |cs|);
  }

  /** `picked` lies in `lo .. hi - 1` and strictly decreases. */
  predicate Descending(picked: seq<nat>, lo: nat, hi: nat) {
    && (forall x :: 0 <= x < |picked| ==> lo <= picked[x] < hi)
    && (forall x, y :: 0 <= x < y < |picked| ==> picked[x] > picked[y])
  }

  /** Selecting candidate `i` below all earlier picks keeps the picks descending. */
  lemma DescendingSnoc(picked: seq<nat>, i: nat, hi: nat)
    requires Descending(picked, i + 1, hi) && i < hi
    ensures Descending(picked + [i], i, hi)
  {
  }

  lemma DescendingWeaken(picked: seq<nat>, i: nat, hi: nat)
    requires Descending(picked, i + 1, hi)
    ensures Descending(picked, i, hi)
  {
  }

  /** The candidates at positions `picked`, in that order. */
  function Gather(cs: seq<Candidate>, picked: seq<nat>): seq<Candidate>
    requires forall x :: 0 <= x < |picked| ==> picked[x] < |cs|
  {
    seq(|picked|, x requires 0 <= x < |picked| => cs[picked[x]])
  }

  /** `min(3, n)`: how many candidates the best scan settles on. */
  function Settled(n: nat): nat {
    if n < MaxItems then n else MaxItems
  }

  /** `Best` grows strictly with `k` up to the number of candidates. */
  lemma BestStrictlyIncreasing(ps: seq<int>, a: nat, b: nat)
    requires forall i :: 0 <= i < |ps| ==> ps[i] >= 1
    requires a < b <= |ps|
    ensures Best(ps, a) < Best(ps, b)
  {
    var c := a + 1;
    BestIncreasing(ps, a);
    while c < b
      invariant a < c <= b
      invariant Best(ps, a) < Best(ps, c)
    {
      BestIncreasing(ps, c);
      c := c + 1;
    }
  }

  /**
    With unit weights and profits of at least 1, the first strict maximum of
    the grid is the diagonal cell `(min(3, n), min(3, n))`.
   */
  lemma FirstMaxIsSettled(cs: seq<Candidate>, bestK: nat, bestW: nat, maxProfit: int)
    requires forall i :: 0 <= i < |cs| ==> cs[i].weight == 1 && cs[i].profit >= 1
    requires bestK <= MaxItems && bestW <= Capacity
    requires forall k, j :: 0 <= k <= MaxItems && 0 <= j <= Capacity ==> Fill(cs)[k][j] <= maxProfit
    requires maxProfit > Unreachable ==> Fill(cs)[bestK][bestW] == maxProfit
    requires maxProfit > Unreachable ==>
      forall k, j :: 0 <= k <= MaxItems && 0 <= j <= Capacity && ScannedBefore(k, j, bestK, bestW) ==> Fill(cs)[k][j] < maxProfit
    ensures bestK == Settled(|cs|) && bestW == bestK
    ensures maxProfit == Best(Profits(cs), bestK)
  {
    ProfitsAt(cs);
    FillDiagonal(cs);
    DiagonalFirstMax(Fill(cs), Profits(cs), bestK, bestW, maxProfit);
  }

  /** The scan argument on any grid that holds `Best` on its diagonal and -1 elsewhere. */
  lemma DiagonalFirstMax(g: Grid, ps: seq<int>, bestK: nat, bestW: nat, maxProfit: int)
    requires IsGrid(g) && forall i :: 0 <= i < |ps| ==> ps[i] >= 1
    requires forall k, j :: 0 <= k <= MaxItems && 0 <= j <= Capacity ==>
      g[k][j] == if j == k then Best(ps, k) else Unreachable
    requires bestK <= MaxItems && bestW <= Capacity
    requires forall k, j :: 0 <= k <= MaxItems && 0 <= j <= Capacity ==> g[k][j] <= maxProfit
    requires maxProfit > Unreachable ==> g[bestK][bestW] == maxProfit
    requires maxProfit > Unreachable ==>
      forall k, j :: 0 <= k <= MaxItems && 0 <= j <= Capacity && ScannedBefore(k, j, bestK, bestW) ==> g[k][j] < maxProfit
    ensures bestK == Settled(|ps|) && bestW == bestK
    ensures maxProfit == Best(ps, bestK)
  {
    var m := Settled(|ps|);
    assert g[m][m] == Best(ps, m) >= 0;
    assert g[bestK][bestW] == maxProfit;
    assert bestW == bestK;
    if bestK < m {
      BestStrictlyIncreasing(ps, bestK, m);
    }
  }

  /**
    With unit weights the walk from `(K, K)` cannot pass candidate `m` when
    `m`'s profit is exactly the gain `dp[K][K] - dp[K - 1][K - 1]`: it takes
    `m` or some later candidate first.
   */
  lemma {:induction false} WalkMeetsGain(g: Grid, cs: seq<Candidate>, i: nat, bestK: nat, m: nat)
    requires IsGrid(g) && WeightsInRange(cs) && UnitWeights(cs)
    requires 1 <= bestK <= MaxItems && bestK <= Capacity
    requires m < i <= |cs|
    requires g[bestK][bestK] == g[bestK - 1][bestK - 1] + cs[m].profit
    ensures |Pick(g, cs, i, bestK, bestK, [])| > 0
    decreases i
  {
    PickStep(g, cs, i, bestK, bestK, []);
    var c := cs[i - 1];
    if !(c.weight <= bestK && g[bestK][bestK] == g[bestK - 1][bestK - c.weight] + c.profit) {
      WalkMeetsGain(g, cs, i - 1, bestK, m);
    }
  }

  /**
    The walk from the settled cell takes at least one candidate whenever
    there is one: "No suitable suggestions" only follows an empty scan.
   */
  lemma SelectionNonEmpty(cs: seq<Candidate>)
    requires forall i :: 0 <= i < |cs| ==> cs[i].weight == 1 && cs[i].profit >= 1
    requires |cs| > 0
    ensures |Pick(Fill(cs), cs, |cs|, Settled(|cs|), Settled(|cs|), [])| > 0
  {
    var ps := Profits(cs);
    var k := Settled(|cs|);
    ProfitsAt(cs);
    FillDiagonal(cs);
    var m := BestGainIsAProfit(ps, k);
    assert Fill(cs)[k][k] == Best(ps, k) && Fill(cs)[k - 1][k - 1] == Best(ps, k - 1);
    WalkMeetsGain(Fill(cs), cs, |cs|, k, m);
  }

  /**
    The whole selection block: fill the grid, find the best cell, walk back.
    At most three candidates come out, each one of the input, in strictly
    decreasing candidate order; none come out of an empty candidate list.
   */
  method SelectSuggestions(cs: seq<Candidate>) returns (selected: seq<Candidate>, picked: seq<nat>, bestK: nat)
    requires WeightsInRange(cs)
    ensures |selected| == |picked| <= bestK <= MaxItems
    ensures forall x :: 0 <= x < |picked| ==> picked[x] < |cs| && selected[x] == cs[picked[x]]
    ensures forall x, y :: 0 <= x < y < |picked| ==> picked[x] > picked[y]
    ensures |cs| == 0 ==> selected == []
    ensures (forall i :: 0 <= i < |cs| ==> cs[i].weight == 1 && cs[i].profit >= 1) ==>
      bestK == Settled(|cs|) && picked == Pick(Fill(cs), cs, |cs|, bestK, bestK, [])
    ensures (forall i :: 0 <= i < |cs| ==> cs[i].weight == 1 && cs[i].profit >= 1) && |cs| > 0 ==>
      |selected| > 0
  {
    var dp := FillTable(cs);
    var bestW, maxProfit;
    bestK, bestW, maxProfit := FindBest(dp);
    selected, picked := Reconstruct(dp, Fill(cs), cs, bestK, bestW);
    if forall i :: 0 <= i < |cs| ==> cs[i].weight == 1 && cs[i].profit >= 1 {
      FirstMaxIsSettled(cs, bestK, bestW, maxProfit);
      if |cs| > 0 {
        SelectionNonEmpty(cs);
      }
    }
  }

  /** The suggestions as the source defines them, for a non-empty query. */
  function Suggestions(t: Table, raw: string): (ws: seq<string>)
    ensures |ws| <= MaxItems
  {
    var cs := FindCandidates(t, Normalize(raw));
    var picked := Pick(Fill(cs), cs, |cs|, Settled(|cs|), Settled(|cs|), []);
    PickBelow(Fill(cs), cs, |cs|, Settled(|cs|), Settled(|cs|), []);
    WordsAt(cs, picked)
  }

  /** A word with letters and at least one candidate always gets a suggestion. */
  lemma SuggestionsNonEmpty(t: Table, raw: string)
    requires |Normalize(raw)| > 0 && FindCandidates(t, Normalize(raw)) != []
    ensures |Suggestions(t, raw)| > 0
  {
    var cs := FindCandidates(t, Normalize(raw));
    assert forall i :: 0 <= i < |cs| ==> cs[i] in cs;
    SelectionNonEmpty(cs);
  }

  /** The words of the candidates at positions `picked`, in that order. */
  function WordsAt(cs: seq<Candidate>, picked: seq<nat>): seq<string>
    requires forall x :: 0 <= x < |picked| ==> picked[x] < |cs|
  {
    seq(|picked|, x requires 0 <= x < |picked| => cs[picked[x]].word)
  }

  /**
    `suggestCorrections` without its report: the words it would print, in the
    order printed. Each is a stored word passing the candidate test; with no
    candidate there is no suggestion.
   */
  method SuggestCorrections(t: Table, raw: string) returns (suggestions: seq<string>)
    ensures |suggestions| <= MaxItems
    ensures forall s :: s in suggestions ==> s in Entries(t) && Plausible(Normalize(raw), s)
    ensures FindCandidates(t, Normalize(raw)) == [] ==> suggestions == []
    ensures |Normalize(raw)| > 0 ==> suggestions == Suggestions(t, raw)
    ensures WellFormed(t) && |Normalize(raw)| == 0 ==> suggestions == []
    ensures |Normalize(raw)| > 0 && FindCandidates(t, Normalize(raw)) != [] ==> |suggestions| > 0
  {
    var q := Normalize(raw);
    var cs := CollectCandidates(t, q);
    var selected, picked, bestK := SelectSuggestions(cs);
    suggestions := seq(|selected|, x requires 0 <= x < |selected| => selected[x].word);
    assert forall x :: 0 <= x < |selected| ==> selected[x] in cs;
    assert suggestions == WordsAt(cs, picked);
    if |q| > 0 {
      assert forall i :: 0 <= i < |cs| ==> cs[i] in cs;
    } else if WellFormed(t) {
      EmptyQueryNoCandidates(t);
    }
  }

  /** The best totals of one, two and three of the profits 5, 3, 2, 4. */
  lemma ExampleBest()
    ensures Best([5, 3, 2, 4], 1) == 5 && Best([5, 3, 2, 4], 2) == 9 && Best([5, 3, 2, 4], 3) == 12
  {
    assert [5, 3, 2, 4][..3] == [5, 3, 2] && [5, 3, 2][..2] == [5, 3] && [5, 3][..1] == [5] && [5][..0] == [];
    assert Best([5], 1) == 5;
    assert Best([5, 3], 1) == 5 && Best([5, 3], 2) == 8;
    assert Best([5, 3, 2], 1) == 5 && Best([5, 3, 2], 2) == 8 && Best([5, 3, 2], 3) == 10;
  }

  /** Four unit-weight candidates whose profits are 5, 3, 2, 4 in candidate order. */
  predicate IsExample(cs: seq<Candidate>) {
    |cs| == 4 && UnitWeights(cs) && Profits(cs) == [5, 3, 2, 4]
  }

  /** The walk over a grid whose diagonal reads 0, 5, 9, 12 takes candidate 1 only. */
  lemma ExampleWalk(g: Grid, cs: seq<Candidate>)
    requires IsGrid(g) && IsExample(cs)
    requires g[1][1] == 5 && g[2][2] == 9 && g[3][3] == 12
    ensures Pick(g, cs, 4, 3, 3, []) == [1]
  {
    ProfitsAt(cs);
    assert cs[0].profit == 5 && cs[1].profit == 3 && cs[2].profit == 2 && cs[3].profit == 4;
    assert Pick(g, cs, 1, 2, 2, [1]) == [1];
    assert Pick(g, cs, 2, 3, 3, []) == [1];
    assert Pick(g, cs, 3, 3, 3, []) == [1];
  }

  /** The filled grid of the example: its diagonal reads 0, 5, 9, 12. */
  lemma ExampleGrid(cs: seq<Candidate>)
    requires IsExample(cs)
    ensures IsGrid(Fill(cs))
    ensures Fill(cs)[1][1] == 5 && Fill(cs)[2][2] == 9 && Fill(cs)[3][3] == 12
  {
    ExampleBest();
    ProfitsAt(cs);
    FillDiagonal(cs);
  }

  /** Candidates 0, 1 and 3 of the example are worth 12 together. */
  lemma ExampleChoice(cs: seq<Candidate>)
    requires IsExample(cs)
    ensures IsChoice([0, 1, 3], |cs|, 3) && ChoiceSum(Profits(cs), [0, 1, 3]) == 12
  {
    var ps := Profits(cs);
    assert [0, 1, 3][..2] == [0, 1] && [0, 1][..1] == [0] && [0][..0] == [];
    assert ChoiceSum(ps, [0]) == 5;
    assert ChoiceSum(ps, [0, 1]) == 8;
  }

  /**
    The reconstruction is not an optimiser. With profits 5, 3, 2, 4 in
    candidate order (possible for a five-letter query, where every profit lies
    between 2 and 5) the grid's best is 12 = 5 + 3 + 4, yet the walk takes only
    candidate 1, worth 3: the last candidate fails the check because the final
    `dp[2][2]` already counts it.
   */
  lemma ReconstructionNotOptimal(cs: seq<Candidate>)
    requires IsExample(cs)
    ensures Best(Profits(cs), 3) == 12
    ensures IsChoice([0, 1, 3], |cs|, 3) && ChoiceSum(Profits(cs), [0, 1, 3]) == 12
    ensures Pick(Fill(cs), cs, |cs|, Settled(|cs|), Settled(|cs|), []) == [1]
  {
    ExampleBest();
    ExampleGrid(cs);
    ExampleWalk(Fill(cs), cs);
    ExampleChoice(cs);
  }
}

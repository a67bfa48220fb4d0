/**
  The selection table of `suggestCorrections`: a `(max_items + 1) x
  (capacity + 1)` grid, both 3, where `dp[k][j]` is the best total profit of
  `k` candidates of total weight `j`, and -1 marks a cell no choice reaches.
  Each candidate relaxes the grid once, rows from 3 down to 1 and weights
  from 3 down to `w`, so a cell only ever reads the row below it as it was
  before this candidate: no candidate is used twice.
 */
module Knapsack {
  import opened Similarity
  import opened Candidates

  const MaxItems: nat := 3
  const Capacity: nat := 3

  /** The `memset(dp, -1, ...)` sentinel. */
  const Unreachable: int := -1

  type Grid = seq<seq<int>>

  predicate IsGrid(dp: Grid) {
    |dp| == MaxItems + 1 && forall k :: 0 <= k < |dp| ==> |dp[k]| == Capacity + 1
  }

  /** Weights index the grid as `j - w`, which stays in range only for `w >= 0`. */
  predicate WeightsInRange(cs: seq<Candidate>) {
    forall i :: 0 <= i < |cs| ==> cs[i].weight >= 0
  }

  /** The grid before any candidate: only `dp[0][0]` is reachable, with profit 0. */
  function Init(): (dp: Grid)
    ensures IsGrid(dp)
  {
    seq(MaxItems + 1, k => seq(Capacity + 1, j => if k == 0 && j == 0 then 0 else Unreachable))
  }

  /** Cell `(k, j)` after one candidate `(p, w)` has been offered to grid `dp`. */
  function Relaxed(dp: Grid, p: int, w: int, k: nat, j: nat): (r: int)
    requires IsGrid(dp) && w >= 0 && k <= MaxItems && j <= Capacity
    ensures r >= dp[k][j]
    ensures 1 <= k && w <= j && dp[k - 1][j - w] != Unreachable ==> r >= dp[k - 1][j - w] + p
    ensures r != dp[k][j] ==> 1 <= k && w <= j && dp[k - 1][j - w] != Unreachable && r == dp[k - 1][j - w] + p
  {
    if 1 <= k && w <= j && dp[k - 1][j - w] != Unreachable && dp[k][j] < dp[k - 1][j - w] + p
    then dp[k - 1][j - w] + p
    else dp[k][j]
  }

  /** One pass of the `k`, `j` loops for a single candidate. */
  function Relax(dp: Grid, p: int, w: int): (dp': Grid)
    requires IsGrid(dp) && w >= 0
    ensures IsGrid(dp')
    ensures forall k, j :: 0 <= k <= MaxItems && 0 <= j <= Capacity ==> dp'[k][j] == Relaxed(dp, p, w, k, j)
    ensures forall k, j :: 0 <= k <= MaxItems && 0 <= j <= Capacity ==> dp[k][j] <= dp'[k][j]
    ensures dp'[0] == dp[0]
  {
    var r := seq(MaxItems + 1, k requires 0 <= k <= MaxItems =>
      seq(Capacity + 1, j requires 0 <= j <= Capacity => Relaxed(dp, p, w, k, j)));
    assert r[0] == dp[0];
    r
  }

  /** The grid after all of `cs` has been offered, in order. */
  function Fill(cs: seq<Candidate>): (dp: Grid)
    requires WeightsInRange(cs)
    ensures IsGrid(dp)
    ensures dp[0] == Init()[0]
  {
    if |cs| == 0 then Init()
    else
      var c := cs[|cs| - 1];
      Relax(Fill(cs[..|cs| - 1]), c.profit, c.weight)
  }

  /** The profits of the candidates, in order. */
  function Profits(cs: seq<Candidate>): seq<int> {
    seq(|cs|, i requires 0 <= i < |cs| => cs[i].profit)
  }

  lemma ProfitsAt(cs: seq<Candidate>)
    ensures |Profits(cs)| == |cs|
    ensures forall i :: 0 <= i < |cs| ==> Profits(cs)[i] == cs[i].profit
  {
  }

  /**
    The best total of exactly `k` of the profits `ps`, each used at most once,
    or `Unreachable` when there are fewer than `k`: either the last profit is
    left out, or it is taken together with the best `k - 1` of the others.
   */
  function Best(ps: seq<int>, k: nat): (r: int)
    ensures k > |ps| ==> r == Unreachable
    ensures (forall i :: 0 <= i < |ps| ==> ps[i] >= 0) && k <= |ps| ==> r >= 0
  {
    if k > |ps| then Unreachable
    else if k == 0 then 0
    else
      var n := |ps| - 1;
      var taken := Best(ps[..n], k - 1) + ps[n];
      if k <= n then Max(Best(ps[..n], k), taken) else taken
  }

  /** `idx` picks `k` distinct positions below `n`, in increasing order. */
  ghost predicate IsChoice(idx: seq<int>, n: nat, k: nat) {
    && |idx| == k
    && (forall x :: 0 <= x < |idx| ==> 0 <= idx[x] < n)
    && (forall x, y :: 0 <= x < y < |idx| ==> idx[x] < idx[y])
  }

  /** The total profit of the positions `idx` picks. */
  ghost function ChoiceSum(ps: seq<int>, idx: seq<int>): int
    requires forall x :: 0 <= x < |idx| ==> 0 <= idx[x] < |ps|
  {
    if |idx| == 0 then 0 else ChoiceSum(ps, idx[..|idx| - 1]) + ps[idx[|idx| - 1]]
  }

  /** A choice of `k` distinct positions below `n` needs `k <= n`. */
  lemma ChoiceFits(idx: seq<int>, n: nat, k: nat)
    requires IsChoice(idx, n, k)
    ensures k <= n
  {
    var x := 0;
    while x < k
      invariant 0 <= x <= k
      invariant forall y :: 0 <= y < x ==> idx[y] >= y
    {
      if x > 0 {
        assert idx[x - 1] < idx[x];
      }
      x := x + 1;
    }
    if k > 0 {
      assert idx[k - 1] >= k - 1;
    }
  }

  /** Dropping profits the choice does not use leaves its sum alone. */
  lemma {:induction false} ChoiceSumPrefix(ps: seq<int>, n: nat, idx: seq<int>)
    requires n <= |ps|
    requires forall x :: 0 <= x < |idx| ==> 0 <= idx[x] < n
    ensures ChoiceSum(ps[..n], idx) == ChoiceSum(ps, idx)
    decreases |idx|
  {
    if |idx| > 0 {
      ChoiceSumPrefix(ps, n, idx[..|idx| - 1]);
    }
  }

  /** A choice ending at position `n` is a smaller choice below `n` plus `n`. */
  lemma ChoiceDropLast(idx: seq<int>, n: nat, k: nat)
    requires k > 0 && IsChoice(idx, n + 1, k) && idx[k - 1] == n
    ensures IsChoice(idx[..k - 1], n, k - 1)
  {
    assert forall x :: 0 <= x < k - 1 ==> idx[x] < idx[k - 1];
  }

  /** A choice whose last position is below `n` lies entirely below `n`. */
  lemma ChoiceBelowLast(idx: seq<int>, n: nat, k: nat)
    requires k > 0 && IsChoice(idx, n + 1, k) && idx[k - 1] < n
    ensures IsChoice(idx, n, k)
  {
    assert forall x :: 0 <= x < k ==> idx[x] <= idx[k - 1];
  }

  /** No choice of `k` distinct candidates beats `Best(ps, k)`. */
  lemma {:induction false} BestIsUpperBound(ps: seq<int>, k: nat, idx: seq<int>)
    requires IsChoice(idx, |ps|, k)
    ensures ChoiceSum(ps, idx) <= Best(ps, k)
    decreases |ps|
  {
    ChoiceFits(idx, |ps|, k);
    if k > 0 {
      var n := |ps| - 1;
      var ps' := ps[..n];
      assert 0 <= idx[k - 1] < |ps|;
      if idx[k - 1] == n {
        var idx' := idx[..k - 1];
        ChoiceDropLast(idx, n, k);
        BestIsUpperBound(ps', k - 1, idx');
        ChoiceSumPrefix(ps, n, idx');
      } else {
        ChoiceBelowLast(idx, n, k);
        ChoiceFits(idx, n, k);
        BestIsUpperBound(ps', k, idx);
        ChoiceSumPrefix(ps, n, idx);
      }
    }
  }

  /** Some choice of `k` distinct candidates reaches `Best(ps, k)`. */
  lemma {:induction false} BestIsAttained(ps: seq<int>, k: nat) returns (idx: seq<int>)
    requires k <= |ps|
    ensures IsChoice(idx, |ps|, k)
    ensures ChoiceSum(ps, idx) == Best(ps, k)
    decreases |ps|
  {
    if k == 0 {
      idx := [];
    } else {
      var n := |ps| - 1;
      var ps' := ps[..n];
      if k <= n && Best(ps', k) >= Best(ps', k - 1) + ps[n] {
        idx := BestIsAttained(ps', k);
        ChoiceSumPrefix(ps, n, idx);
      } else {
        var idx' := BestIsAttained(ps', k - 1);
        ChoiceSumPrefix(ps, n, idx');
        idx := idx' + [n];
        assert idx[..k - 1] == idx';
      }
    }
  }

  /** With every profit at least 1, one more candidate always means a larger best total. */
  lemma {:induction false} BestIncreasing(ps: seq<int>, k: nat)
    requires forall i :: 0 <= i < |ps| ==> ps[i] >= 1
    requires k + 1 <= |ps|
    ensures Best(ps, k) < Best(ps, k + 1)
    decreases |ps|
  {
    var n := |ps| - 1;
    var ps' := ps[..n];
    if k > 0 {
      BestIncreasing(ps', k - 1);
    }
  }

  /**
    The gains of `Best` never grow: taking one more item adds at most what
    the previous item added.
   */
  lemma {:induction false} BestConcave(ps: seq<int>, k: nat)
    requires 1 <= k && k + 1 <= |ps|
    ensures Best(ps, k + 1) - Best(ps, k) <= Best(ps, k) - Best(ps, k - 1)
    decreases |ps|, 0
  {
    var n := |ps| - 1;
    var ps' := ps[..n];
    var x := ps[n];
    var km1: nat := k - 1;
    var hasUp, hasDown := k + 1 <= n, 1 <= km1;
    var c, m1 := Best(ps', k), Best(ps', km1);
    var p1 := if hasUp then Best(ps', k + 1) else 0;
    var m2 := if hasDown then Best(ps', km1 - 1) else 0;
    if hasUp {
      BestConcave(ps', k);
    }
    if hasDown {
      BestConcaveAt(ps', km1, k);
    }
    BestSnoc(ps, k + 1);
    BestSnocAt(ps, k, km1);
    if hasDown {
      BestSnocAt(ps, km1, km1 - 1);
    }
    MergeConcave(p1, c, m1, m2, x, hasUp, hasDown);
  }

  /** `BestConcave` at `j`, stated with `j + 1` given by name. */
  lemma BestConcaveAt(ps: seq<int>, j: nat, k: nat)
    requires k == j + 1 && 1 <= j && k <= |ps|
    ensures Best(ps, k) - Best(ps, j) <= Best(ps, j) - Best(ps, j - 1)
    decreases |ps|, 1
  {
    BestConcave(ps, j);
  }

  /** `BestSnoc` at `k`, stated with `k - 1` given by name. */
  lemma BestSnocAt(ps: seq<int>, k: nat, j: nat)
    requires 1 <= k <= |ps| && j + 1 == k
    ensures Best(ps, k) ==
      if k <= |ps| - 1 then Max(Best(ps[..|ps| - 1], k), Best(ps[..|ps| - 1], j) + ps[|ps| - 1])
      else Best(ps[..|ps| - 1], j) + ps[|ps| - 1]
  {
    BestSnoc(ps, k);
  }

  /**
    The arithmetic behind `BestConcave`: with gains `p1 - c <= c - m1 <= m1 - m2`
    (each where it exists), also offering `x` keeps the gains non-increasing.
   */
  lemma MergeConcave(p1: int, c: int, m1: int, m2: int, x: int, hasUp: bool, hasDown: bool)
    requires hasUp ==> p1 - c <= c - m1
    requires hasDown ==> c - m1 <= m1 - m2
    ensures (if hasUp then Max(p1, c + x) else c + x) + (if hasDown then Max(m1, m2 + x) else m1)
      <= 2 * Max(c, m1 + x)
  {
  }

  /** `Best` of a non-empty list, unfolded once on its last profit. */
  lemma BestSnoc(ps: seq<int>, k: nat)
    requires 1 <= k <= |ps|
    ensures Best(ps, k) ==
      if k <= |ps| - 1 then Max(Best(ps[..|ps| - 1], k), Best(ps[..|ps| - 1], k - 1) + ps[|ps| - 1])
      else Best(ps[..|ps| - 1], k - 1) + ps[|ps| - 1]
  {
  }

  /**
    Adding one profit `x` at the end: each gain of the longer list is `x`
    itself or a gain of the shorter list.
   */
  lemma GainOfSnoc(ps: seq<int>, k: nat)
    requires 1 <= k <= |ps|
    ensures
      var n := |ps| - 1;
      var d := Best(ps, k) - Best(ps, k - 1);
      || d == ps[n]
      || (k <= n && d == Best(ps[..n], k) - Best(ps[..n], k - 1))
      || (2 <= k && d == Best(ps[..n], k - 1) - Best(ps[..n], k - 2))
  {
    var n := |ps| - 1;
    BestSnoc(ps, k);
    if 2 <= k {
      BestSnoc(ps, k - 1);
      if k <= n {
        BestConcave(ps[..n], k - 1);
      }
    }
  }

  /**
    Each gain of `Best` is the profit of some candidate: going from `k - 1`
    to `k` items adds exactly `ps[i]` for some `i`.
   */
  lemma {:induction false} BestGainIsAProfit(ps: seq<int>, k: nat) returns (i: nat)
    requires 1 <= k <= |ps|
    ensures i < |ps| && ps[i] == Best(ps, k) - Best(ps, k - 1)
    decreases |ps|
  {
    var n := |ps| - 1;
    var ps' := ps[..n];
    var d := Best(ps, k) - Best(ps, k - 1);
    GainOfSnoc(ps, k);
    if d == ps[n] {
      i := n;
    } else if k <= n && d == Best(ps', k) - Best(ps', k - 1) {
      i := BestGainIsAProfit(ps', k);
      assert ps[i] == ps'[i];
    } else {
      i := BestGainIsAProfit(ps', k - 1);
      assert ps[i] == ps'[i];
    }
  }

  /**
    With unit weights and non-negative profits only the diagonal is ever
    reachable: `dp[k][j]` is -1 for `j != k`, and `dp[k][k]` is the best total
    of `k` distinct candidates so far (-1 while there are fewer than `k`).
   */
  lemma {:induction false} FillDiagonal(cs: seq<Candidate>)
    requires forall i :: 0 <= i < |cs| ==> cs[i].weight == 1 && cs[i].profit >= 0
    ensures forall k, j :: 0 <= k <= MaxItems && 0 <= j <= Capacity ==>
      Fill(cs)[k][j] == if j == k then Best(Profits(cs), k) else Unreachable
    decreases |cs|
  {
    if |cs| > 0 {
      var n := |cs| - 1;
      var cs' := cs[..n];
      FillDiagonal(cs');
      assert Profits(cs)[..n] == Profits(cs');
    }
  }

  /**
    The innermost loop: weights from 3 down to `w` in row `k`, reading only
    row `k - 1`, which still holds the grid from before this candidate.
   */
  method RelaxRow(dp: array2<int>, k: nat, p: int, w: int, ghost before: Grid)
    requires dp.Length0 == MaxItems + 1 && dp.Length1 == Capacity + 1
    requires IsGrid(before) && 1 <= k <= MaxItems && w >= 0
    requires forall k', j' :: k - 1 <= k' <= k && 0 <= j' <= Capacity ==> dp[k', j'] == before[k'][j']
    modifies dp
    ensures forall j' :: 0 <= j' <= Capacity ==> dp[k, j'] == Relaxed(before, p, w, k, j')
    ensures forall k', j' :: 0 <= k' <= MaxItems && k' != k && 0 <= j' <= Capacity ==> dp[k', j'] == old(dp[k', j'])
  {
    var below := k - 1;
    var j: int := Capacity;
    while j >= w
      invariant -1 <= j <= Capacity
      invariant forall k', j' :: 0 <= k' <= MaxItems && k' != k && 0 <= j' <= Capacity ==> dp[k', j'] == old(dp[k', j'])
      invariant forall j' :: j < j' <= Capacity ==> dp[k, j'] == Relaxed(before, p, w, k, j')
      invariant forall j' :: 0 <= j' <= j ==> dp[k, j'] == before[k][j']
      invariant forall j' :: 0 <= j' <= Capacity ==> dp[below, j'] == before[below][j']
    {
      assert dp[k - 1, j - w] == before[k - 1][j - w];
      assert dp[k, j] == before[k][j];
      if dp[k - 1, j - w] != Unreachable {
        if dp[k, j] < dp[k - 1, j - w] + p {
          dp[k, j] := dp[k - 1, j - w] + p;
        }
      }
      j := j - 1;
    }
  }

  /**
    The `memset`, the candidate loop and the two downward loops of
    `suggestCorrections`, in place on a 4 x 4 array.
   */
  method FillTable(cs: seq<Candidate>) returns (dp: array2<int>)
    requires WeightsInRange(cs)
    ensures dp.Length0 == MaxItems + 1 && dp.Length1 == Capacity + 1
    ensures forall k, j :: 0 <= k <= MaxItems && 0 <= j <= Capacity ==> dp[k, j] == Fill(cs)[k][j]
  {
    dp := new int[MaxItems + 1, Capacity + 1]((k, j) => Unreachable);
    dp[0, 0] := 0;
    var i := 0;
    while i < |cs|
      invariant 0 <= i <= |cs|
      invariant forall k, j :: 0 <= k <= MaxItems && 0 <= j <= Capacity ==> dp[k, j] == Fill(cs[..i])[k][j]
    {
      var p := cs[i].profit;
      var w := cs[i].weight;
      ghost var before := Fill(cs[..i]);
      var k := MaxItems;
      while k >= 1
        invariant 0 <= k <= MaxItems
        invariant forall k', j' :: k < k' <= MaxItems && 0 <= j' <= Capacity ==> dp[k', j'] == Relaxed(before, p, w, k', j')
        invariant forall k', j' :: 0 <= k' <= k && 0 <= j' <= Capacity ==> dp[k', j'] == before[k'][j']
      {
        RelaxRow(dp, k, p, w, before);
        k := k - 1;
      }
      assert cs[..i + 1][..i] == cs[..i];
      i := i + 1;
    }
    assert cs[..i] == cs;
  }
}

/**
  Similarity score: the length of a longest common subsequence, computed by
  `LCS` with the classic `(len1 + 1) x (len2 + 1)` table.
 */
module Similarity {

  function Max(a: int, b: int): int {
    if a >= b then a else b
  }

  /**
    The recurrence the table follows, on prefixes: `Lcs(a, b)` is `dp[|a|][|b|]`.
    It never exceeds either length.
   */
  function Lcs(a: string, b: string): (r: nat)
    ensures r <= |a| && r <= |b|
    decreases |a| + |b|
  {
    if |a| == 0 || |b| == 0 then 0
    else if a[|a| - 1] == b[|b| - 1] then Lcs(a[..|a| - 1], b[..|b| - 1]) + 1
    else Max(Lcs(a[..|a| - 1], b), Lcs(a, b[..|b| - 1]))
  }

  /**
    `ia` and `ib` pick the same characters, in increasing positions, out of
    `a` and `b`: a common subsequence of length `|ia|`.
   */
  ghost predicate CommonSubsequence(a: string, b: string, ia: seq<int>, ib: seq<int>) {
    && |ia| == |ib|
    && (forall k :: 0 <= k < |ia| ==> 0 <= ia[k] < |a| && 0 <= ib[k] < |b| && a[ia[k]] == b[ib[k]])
    && (forall k, l :: 0 <= k < l < |ia| ==> ia[k] < ia[l] && ib[k] < ib[l])
  }

  /** No common subsequence is longer than `Lcs(a, b)`. */
  lemma {:induction false} LcsIsUpperBound(a: string, b: string, ia: seq<int>, ib: seq<int>)
    requires CommonSubsequence(a, b, ia, ib)
    ensures |ia| <= Lcs(a, b)
    decreases |a| + |b|
  {
    var n := |ia|;
    if n > 0 {
      assert 0 <= ia[n - 1] < |a| && 0 <= ib[n - 1] < |b|;
      var a' := a[..|a| - 1];
      var b' := b[..|b| - 1];
      var lastA := ia[n - 1] == |a| - 1;
      var lastB := ib[n - 1] == |b| - 1;
      if a[|a| - 1] == b[|b| - 1] {
        // Drop the last pair; what remains lies strictly inside both prefixes.
        var ja, jb := ia[..n - 1], ib[..n - 1];
        assert CommonSubsequence(a', b', ja, jb);
        LcsIsUpperBound(a', b', ja, jb);
      } else if !lastA {
        assert forall k :: 0 <= k < n ==> ia[k] <= ia[n - 1];
        assert CommonSubsequence(a', b, ia, ib);
        LcsIsUpperBound(a', b, ia, ib);
      } else {
        assert !lastB;
        assert forall k :: 0 <= k < n ==> ib[k] <= ib[n - 1];
        assert CommonSubsequence(a, b', ia, ib);
        LcsIsUpperBound(a, b', ia, ib);
      }
    }
  }

  /** Some common subsequence is exactly `Lcs(a, b)` long. */
  lemma {:induction false} LcsIsAttained(a: string, b: string) returns (ia: seq<int>, ib: seq<int>)
    ensures CommonSubsequence(a, b, ia, ib)
    ensures |ia| == Lcs(a, b)
    decreases |a| + |b|
  {
    if |a| == 0 || |b| == 0 {
      ia, ib := [], [];
    } else {
      var a' := a[..|a| - 1];
      var b' := b[..|b| - 1];
      if a[|a| - 1] == b[|b| - 1] {
        var ja, jb := LcsIsAttained(a', b');
        ia, ib := ja + [|a| - 1], jb + [|b| - 1];
      } else if Lcs(a', b) >= Lcs(a, b') {
        ia, ib := LcsIsAttained(a', b);
      } else {
        ia, ib := LcsIsAttained(a, b');
      }
    }
  }

  /** The score does not depend on which word comes first. */
  lemma LcsSymmetric(a: string, b: string)
    ensures Lcs(a, b) == Lcs(b, a)
  {
    var ia, ib := LcsIsAttained(a, b);
    assert CommonSubsequence(b, a, ib, ia);
    LcsIsUpperBound(b, a, ib, ia);
    var ja, jb := LcsIsAttained(b, a);
    assert CommonSubsequence(a, b, jb, ja);
    LcsIsUpperBound(a, b, jb, ja);
  }

  /** A word scores its full length against itself; against the empty word, 0. */
  lemma LcsSelfAndEmpty(a: string)
    ensures Lcs(a, a) == |a|
    ensures Lcs(a, []) == 0 && Lcs([], a) == 0
  {
    var ids := seq(|a|, k => k);
    assert CommonSubsequence(a, a, ids, ids);
    LcsIsUpperBound(a, a, ids, ids);
  }

  /** Two non-empty words that end in the same letter score at least 1. */
  lemma LcsSameLastLetter(a: string, b: string)
    requires |a| > 0 && |b| > 0 && a[|a| - 1] == b[|b| - 1]
    ensures 1 <= Lcs(a, b)
  {
  }

  /** The recurrence for the cell `dp[i][j]`, written on prefixes of `s1` and `s2`. */
  lemma LcsPrefixStep(s1: string, s2: string, i: nat, j: nat)
    requires 0 < i <= |s1| && 0 < j <= |s2|
    ensures Lcs(s1[..i], s2[..j]) ==
      if s1[i - 1] == s2[j - 1] then Lcs(s1[..i - 1], s2[..j - 1]) + 1
      else Max(Lcs(s1[..i - 1], s2[..j]), Lcs(s1[..i], s2[..j - 1]))
  {
    assert s1[..i][..i - 1] == s1[..i - 1];
    assert s2[..j][..j - 1] == s2[..j - 1];
  }

  /**
    One row of the `LCS` table: with rows `0 .. i - 1` already holding the
    recurrence on prefixes, row `i` is filled left to right to hold it too.
   */
  method LcsRow(dp: array2<int>, s1: string, s2: string, i: nat)
    requires dp.Length0 == |s1| + 1 && dp.Length1 == |s2| + 1 && i <= |s1|
    requires forall i', j' :: 0 <= i' < i && 0 <= j' <= |s2| ==> dp[i', j'] == Lcs(s1[..i'], s2[..j'])
    modifies dp
    ensures forall i', j' :: 0 <= i' <= i && 0 <= j' <= |s2| ==> dp[i', j'] == Lcs(s1[..i'], s2[..j'])
  {
    var j := 0;
    while j <= |s2|
      invariant 0 <= j <= |s2| + 1
      invariant forall i', j' :: 0 <= i' < i && 0 <= j' <= |s2| ==> dp[i', j'] == Lcs(s1[..i'], s2[..j'])
      invariant forall j' :: 0 <= j' < j ==> dp[i, j'] == Lcs(s1[..i], s2[..j'])
    {
      if i == 0 || j == 0 {
        dp[i, j] := 0;
      } else {
        LcsPrefixStep(s1, s2, i, j);
        if s1[i - 1] == s2[j - 1] {
          dp[i, j] := dp[i - 1, j - 1] + 1;
        } else {
          dp[i, j] := if dp[i - 1, j] > dp[i, j - 1] then dp[i - 1, j] else dp[i, j - 1];
        }
      }
      j := j + 1;
    }
  }

  /** `LCS`: fills `dp[i][j]` row by row and returns the bottom-right cell. */
  method LcsTable(s1: string, s2: string) returns (r: int)
    ensures r == Lcs(s1, s2)
    ensures 0 <= r <= |s1| && r <= |s2|
  {
    var len1 := |s1|;
    var len2 := |s2|;
    var dp := new int[len1 + 1, len2 + 1];
    var i := 0;
    while i <= len1
      invariant 0 <= i <= len1 + 1
      invariant forall i', j' :: 0 <= i' < i && 0 <= j' <= len2 ==> dp[i', j'] == Lcs(s1[..i'], s2[..j'])
    {
      LcsRow(dp, s1, s2, i);
      i := i + 1;
    }
    assert s1[..len1] == s1 && s2[..len2] == s2;
    r := dp[len1, len2];
  }
}

/**
  The candidate scan at the start of `suggestCorrections`: walk every bucket
  in index order and every chain head first, and keep each entry that has at
  least one character, the query's first and last letter, and the query's
  length or one more. A kept entry becomes a candidate whose profit is its
  LCS with the query and whose weight is 1. At most 1000 are kept; later
  matches are dropped silently.
 */
module Candidates {
  import opened Words
  import opened Dictionary
  import opened Similarity

  /** The size of the `candidates` buffer. */
  const MaxCandidates: nat := 1000

  datatype Candidate = Candidate(word: string, profit: int, weight: int)

  /** `firstLetter`: NUL for the empty query, which no stored word starts with. */
  function FirstLetter(q: string): char {
    if |q| > 0 then q[0] else '\0'
  }

  function LastLetter(q: string): char {
    if |q| > 0 then q[|q| - 1] else '\0'
  }

  /** The four-part test an entry must pass to be a candidate for `q`. */
  predicate Plausible(q: string, d: string)
    ensures Plausible(q, d) && IsNormal(d) ==> |q| > 0
  {
    && |d| >= 1
    && d[0] == FirstLetter(q)
    && d[|d| - 1] == LastLetter(q)
    && (|d| == |q| || |d| == |q| + 1)
  }

  /** All stored words in scan order: bucket 0 first, each chain head first. */
  function Entries(t: seq<Chain>): (es: seq<string>)
    ensures forall e :: e in es ==> exists i :: 0 <= i < |t| && e in t[i]
  {
    if |t| == 0 then []
    else
      var n := |t| - 1;
      assert forall i :: 0 <= i < n ==> t[..n][i] == t[i];
      Entries(t[..n]) + t[n]
  }

  /** The candidates the scan would produce from `es` with no buffer limit. */
  function Matching(q: string, es: seq<string>): (cs: seq<Candidate>)
    ensures |cs| <= |es|
    ensures forall c :: c in cs ==> c.word in es && Plausible(q, c.word) && c.weight == 1 && c.profit == Lcs(q, c.word)
  {
    if |es| == 0 then []
    else
      var e := es[|es| - 1];
      Matching(q, es[..|es| - 1]) + (if Plausible(q, e) then [Candidate(e, Lcs(q, e), 1)] else [])
  }

  /** The silent cut-off at `MaxCandidates`. */
  function Cap(cs: seq<Candidate>): (r: seq<Candidate>)
    ensures |r| <= MaxCandidates
    ensures |cs| > MaxCandidates ==> |r| == MaxCandidates
    ensures r <= cs
    ensures |cs| <= MaxCandidates ==> r == cs
  {
    if |cs| <= MaxCandidates then cs else cs[..MaxCandidates]
  }

  /**
    The candidates for query `q`. Each is a stored word that passes the test,
    with weight 1 and profit at most `|q|`; for a non-empty query the shared
    last letter makes the profit at least 1.
   */
  function FindCandidates(t: Table, q: string): (cs: seq<Candidate>)
    ensures |cs| <= MaxCandidates
    ensures forall c :: c in cs ==>
      && c.word in Entries(t) && Plausible(q, c.word)
      && c.weight == 1 && c.profit == Lcs(q, c.word) && c.profit <= |q|
      && (|q| > 0 ==> 1 <= c.profit)
  {
    var cs := Cap(Matching(q, Entries(t)));
    assert forall c :: c in cs ==> c in Matching(q, Entries(t));
    forall c | c in cs && |q| > 0
      ensures 1 <= c.profit
    {
      LcsSameLastLetter(q, c.word);
    }
    cs
  }

  /** Every stored word of a bucket is listed by `Entries`. */
  lemma {:induction false} EntriesContains(t: seq<Chain>, i: nat, e: string)
    requires i < |t| && e in t[i]
    ensures e in Entries(t)
    decreases |t|
  {
    if i < |t| - 1 {
      assert t[..|t| - 1][i] == t[i];
      EntriesContains(t[..|t| - 1], i, e);
    }
  }

  /** Every candidate `Matching` keeps is listed, none is lost. */
  lemma {:induction false} MatchingComplete(q: string, es: seq<string>, e: string)
    requires e in es && Plausible(q, e)
    ensures Candidate(e, Lcs(q, e), 1) in Matching(q, es)
    decreases |es|
  {
    var n := |es| - 1;
    if es[n] != e {
      assert e in es[..n];
      MatchingComplete(q, es[..n], e);
    }
  }

  /**
    Below the buffer limit the scan misses nothing: each stored word that passes
    the test is a candidate.
   */
  lemma FindCandidatesComplete(t: Table, q: string, i: nat, e: string)
    requires i < |t| && e in t[i] && Plausible(q, e)
    requires |Matching(q, Entries(t))| <= MaxCandidates
    ensures Candidate(e, Lcs(q, e), 1) in FindCandidates(t, q)
  {
    EntriesContains(t, i, e);
    MatchingComplete(q, Entries(t), e);
  }

  /** A normalised entry never starts with NUL, so the empty query has no candidates. */
  lemma {:induction false} EmptyQueryMatchesNothing(es: seq<string>)
    requires forall k :: 0 <= k < |es| ==> IsNormal(es[k])
    ensures Matching([], es) == []
    decreases |es|
  {
    if |es| > 0 {
      var n := |es| - 1;
      assert forall k :: 0 <= k < n ==> es[..n][k] == es[k];
      EmptyQueryMatchesNothing(es[..n]);
      assert !Plausible([], es[n]) by {
        if |es[n]| >= 1 {
          assert IsLower(es[n][0]);
        }
      }
    }
  }

  /** Entries of a well-formed table are all normalised. */
  lemma {:induction false} EntriesNormal(t: seq<Chain>)
    requires forall i, k :: 0 <= i < |t| && 0 <= k < |t[i]| ==> IsNormal(t[i][k])
    ensures forall k :: 0 <= k < |Entries(t)| ==> IsNormal(Entries(t)[k])
    decreases |t|
  {
    if |t| > 0 {
      var n := |t| - 1;
      assert forall i :: 0 <= i < n ==> t[..n][i] == t[i];
      EntriesNormal(t[..n]);
    }
  }

  /** An empty normalised query yields no candidates. */
  lemma EmptyQueryNoCandidates(t: Table)
    requires WellFormed(t)
    ensures FindCandidates(t, []) == []
  {
    EntriesNormal(t);
    EmptyQueryMatchesNothing(Entries(t));
  }

  /** Appending one more entry to the scan appends at most one candidate. */
  lemma MatchingSnoc(q: string, es: seq<string>, e: string)
    ensures Matching(q, es + [e]) == Matching(q, es) + (if Plausible(q, e) then [Candidate(e, Lcs(q, e), 1)] else [])
  {
    assert (es + [e])[..|es|] == es;
  }

  /** The buffer check `numCandidates < 1000` before each append. */
  lemma CapSnoc(cs: seq<Candidate>, c: Candidate)
    ensures Cap(cs + [c]) == if |Cap(cs)| < MaxCandidates then Cap(cs) + [c] else Cap(cs)
  {
    if |cs| >= MaxCandidates {
      assert (cs + [c])[..MaxCandidates] == cs[..MaxCandidates];
    }
  }

  /**
    The inner `while (current != NULL)` walk over one chain: each entry that
    passes the test is scored with `LCS` and appended while the buffer has room.
   */
  method ScanChain(q: string, es: seq<string>, chain: Chain, cs0: seq<Candidate>) returns (cs: seq<Candidate>)
    requires cs0 == Cap(Matching(q, es))
    ensures cs == Cap(Matching(q, es + chain))
  {
    cs := cs0;
    var k := 0;
    assert es + chain[..0] == es;
    while k < |chain|
      invariant 0 <= k <= |chain|
      invariant cs == Cap(Matching(q, es + chain[..k]))
    {
      var d := chain[k];
      assert (es + chain[..k]) + [d] == es + chain[..k + 1];
      MatchingSnoc(q, es + chain[..k], d);
      if |d| >= 1 && d[0] == FirstLetter(q) && d[|d| - 1] == LastLetter(q) && (|d| == |q| || |d| == |q| + 1) {
        CapSnoc(Matching(q, es + chain[..k]), Candidate(d, Lcs(q, d), 1));
        if |cs| < MaxCandidates {
          var profit := LcsTable(q, d);
          cs := cs + [Candidate(d, profit, 1)];
        }
      }
      k := k + 1;
    }
    assert chain[..k] == chain;
  }

  /**
    The nested scan loops of `suggestCorrections`, calling `LCS` on each match;
    they build exactly `FindCandidates`.
   */
  method CollectCandidates(t: Table, q: string) returns (cs: seq<Candidate>)
    ensures cs == FindCandidates(t, q)
    ensures |cs| <= MaxCandidates
  {
    cs := [];
    var i := 0;
    while i < |t|
      invariant 0 <= i <= |t|
      invariant cs == Cap(Matching(q, Entries(t[..i])))
    {
      cs := ScanChain(q, Entries(t[..i]), t[i], cs);
      assert t[..i + 1][..i] == t[..i];
      i := i + 1;
    }
    assert t[..i] == t;
  }
}

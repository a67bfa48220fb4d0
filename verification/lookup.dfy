/**
  `isCorrectWord`: normalise the query, walk the single chain of bucket
  `hash(query)`, and accept as soon as an entry equals the query or contains
  it as a substring (the entry is the text, the query the pattern). Entries
  of other buckets are never looked at, so the substring leniency only
  reaches words that collide with the query.
 */
module Lookup {
  import opened Words
  import opened Djb2
  import opened Substring
  import opened Dictionary

  /** An entry accepts the query: `!strcmp(entry, w) || stringMatch(entry, w)`. */
  predicate EntryAccepts(entry: string, w: string)
    ensures EntryAccepts(entry, w) <==> Occurs(entry, w)
  {
    OccursInItself(w);
    entry == w || Occurs(entry, w)
  }

  /** The `while (current)` walk down one chain, head first. */
  function ChainAccepts(chain: Chain, w: string): (r: bool)
    ensures r <==> exists k :: 0 <= k < |chain| && Occurs(chain[k], w)
  {
    if |chain| == 0 then false
    else if EntryAccepts(chain[0], w) then
      OccursInItself(w);
      true
    else
      assert forall k :: 1 <= k < |chain| ==> chain[k] == chain[1..][k - 1];
      ChainAccepts(chain[1..], w)
  }

  /** `isCorrectWord`. */
  function IsCorrectWord(t: Table, raw: string): (r: bool)
    ensures r <==> exists e :: e in t[Hash(Normalize(raw))] && Occurs(e, Normalize(raw))
  {
    var w := Normalize(raw);
    ChainAccepts(t[Hash(w)], w)
  }

  /**
    `isCorrectWord` step by step: normalise into a local buffer, hash, then
    walk the chain and stop at the first entry that equals the word or
    contains it.
   */
  method IsCorrectWordLoop(t: Table, raw: string) returns (ok: bool)
    ensures ok == IsCorrectWord(t, raw)
  {
    var word := FilterWordInPlace(Truncate(raw));
    var index := HashLoop(word);
    var chain := t[index];
    var k := 0;
    while k < |chain|
      invariant 0 <= k <= |chain|
      invariant ChainAccepts(chain, word) == ChainAccepts(chain[k..], word)
    {
      var found := StringMatch(chain[k], word);
      if chain[k] == word || found == 1 {
        return true;
      }
      assert chain[k..][1..] == chain[k + 1..];
      k := k + 1;
    }
    return false;
  }

  /** A word just added is accepted. */
  lemma AddThenCorrect(t: Table, raw: string)
    ensures IsCorrectWord(Add(t, raw), raw)
  {
    var w := Normalize(raw);
    OccursInItself(w);
    assert w in Add(t, raw)[Hash(w)];
  }

  /** Adding a word never turns an accepted query into a rejected one. */
  lemma AddKeepsCorrect(t: Table, raw: string, query: string)
    requires IsCorrectWord(t, query)
    ensures IsCorrectWord(Add(t, raw), query)
  {
    var w := Normalize(query);
    var e :| e in t[Hash(w)] && Occurs(e, w);
    AddKeepsEntries(t, raw, Hash(w), e);
  }

  /** Every token of the dictionary file is accepted once the file is loaded. */
  lemma LoadThenCorrect(t: Table, tokens: seq<string>, n: nat)
    requires n < |tokens|
    ensures IsCorrectWord(Load(t, tokens), tokens[n])
  {
    LoadStoresEvery(t, tokens, n);
    OccursInItself(Normalize(tokens[n]));
  }

  /**
    The substring leniency is confined to the query's bucket: in a well-formed
    table an accepting entry hashes exactly like the query.
   */
  lemma CorrectOnlyWithinBucket(t: Table, raw: string)
    requires WellFormed(t)
    requires IsCorrectWord(t, raw)
    ensures exists e :: e in t[Hash(Normalize(raw))] && Hash(e) == Hash(Normalize(raw)) && Occurs(e, Normalize(raw))
  {
  }

  /**
    "cat" is a substring of "category", yet with only "category" stored the
    query "cat" is rejected: the two words hash to different buckets.
   */
  lemma SubstringOutsideBucketRejected()
    ensures !IsCorrectWord(Add(Empty(), "category"), "cat")
  {
    HashSamples();
    assert Normalize("category") == "category" by {
      FilterWordFixesNormal("category");
    }
    assert Normalize("cat") == "cat" by {
      FilterWordFixesNormal("cat");
    }
    assert Add(Empty(), "category")[2780] == [];
  }
}

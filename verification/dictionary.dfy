/**
  The dictionary: a fixed array of `HASH_TABLE_SIZE` chains. `addToDictionary`
  normalises the raw word and prepends it to the chain of its bucket; nothing
  is ever removed and duplicates are kept as separate entries. A chain is
  modelled head first, so `chain[0]` is the node `dictionary[i]` points to.
 */
module Dictionary {
  import opened Words
  import opened Djb2

  type Chain = seq<string>

  /** One chain per bucket, exactly `HASH_TABLE_SIZE` of them. */
  type Table = t: seq<Chain> | |t| == TableSize witness seq(TableSize, _ => [])

  /** Every stored word is normalised and sits in the bucket its hash names. */
  ghost predicate WellFormed(t: Table) {
    forall i, k :: 0 <= i < TableSize && 0 <= k < |t[i]| ==>
      IsNormal(t[i][k]) && |t[i][k]| <= MaxWordChars && Hash(t[i][k]) == i
  }

  /** The table before any word is loaded: every chain is `NULL`. */
  function Empty(): (t: Table)
    ensures forall i :: 0 <= i < TableSize ==> t[i] == []
    ensures WellFormed(t)
  {
    seq(TableSize, _ => [])
  }

  /**
    `addToDictionary`: the normalised word goes to the head of its own bucket;
    that chain keeps its old nodes behind it and every other chain is untouched.
   */
  function Add(t: Table, raw: string): (t': Table)
    ensures t'[Hash(Normalize(raw))] == [Normalize(raw)] + t[Hash(Normalize(raw))]
    ensures forall i :: 0 <= i < TableSize && i != Hash(Normalize(raw)) ==> t'[i] == t[i]
    ensures WellFormed(t) ==> WellFormed(t')
  {
    var w := Normalize(raw);
    var h := Hash(w);
    t[h := [w] + t[h]]
  }

  /** The `addToDictionary` loop of `loadDictionaryFromFile`, over the tokens read. */
  function Load(t: Table, tokens: seq<string>): (t': Table)
    ensures WellFormed(t) ==> WellFormed(t')
  {
    if |tokens| == 0 then t else Add(Load(t, tokens[..|tokens| - 1]), tokens[|tokens| - 1])
  }

  /**
    `addToDictionary` step by step: copy at most 49 characters, filter the
    copy in place, hash it, and link a new node in front of the bucket's chain.
   */
  method AddToDictionary(t: Table, raw: string) returns (t': Table)
    ensures t' == Add(t, raw)
  {
    var word := FilterWordInPlace(Truncate(raw));
    var index := HashLoop(word);
    t' := t[index := [word] + t[index]];
  }

  /** The `while (fscanf(...) == 1)` loop of `loadDictionaryFromFile`, over the tokens read. */
  method LoadDictionary(t: Table, tokens: seq<string>) returns (t': Table)
    ensures t' == Load(t, tokens)
  {
    t' := t;
    var i := 0;
    while i < |tokens|
      invariant 0 <= i <= |tokens|
      invariant t' == Load(t, tokens[..i])
    {
      assert tokens[..i + 1][..i] == tokens[..i];
      t' := AddToDictionary(t', tokens[i]);
      i := i + 1;
    }
    assert tokens[..i] == tokens;
  }

  /** Adding never drops a stored word: every old entry is still in its bucket. */
  lemma AddKeepsEntries(t: Table, raw: string, i: nat, e: string)
    requires i < TableSize && e in t[i]
    ensures e in Add(t, raw)[i]
  {
  }

  /** After loading, each token's normalised form is stored in its bucket. */
  lemma {:induction false} LoadStoresEvery(t: Table, tokens: seq<string>, n: nat)
    requires n < |tokens|
    ensures Normalize(tokens[n]) in Load(t, tokens)[Hash(Normalize(tokens[n]))]
    decreases |tokens|
  {
    var last := |tokens| - 1;
    var prev := Load(t, tokens[..last]);
    if n < last {
      assert tokens[..last][n] == tokens[n];
      LoadStoresEvery(t, tokens[..last], n);
      AddKeepsEntries(prev, tokens[last], Hash(Normalize(tokens[n])), Normalize(tokens[n]));
    }
  }
}

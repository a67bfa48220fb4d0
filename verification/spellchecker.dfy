/**
  The classification loop of `processWordsFromFile`: read tokens while fewer
  than `limit` have been handled, strip each one to its letters, count it as
  correct when the dictionary accepts it, and otherwise count it as incorrect
  and report it with its suggestions. The token stream stands in for the
  `fscanf` reads of the input file, and the reports for the output file.
 */
module SpellChecker {
  import opened Words
  import opened Djb2
  import opened Substring
  import opened Dictionary
  import opened Lookup
  import opened Candidates
  import opened Knapsack
  import opened Selection

  /** One entry of the output file: a misspelt word and what was offered for it. */
  datatype Report = Report(word: string, suggestions: seq<string>)

  /**
    What `suggestCorrections` offers for a report's word: at most three stored
    words that pass the candidate test, exactly `Suggestions` for a word with
    letters.
   */
  predicate Offered(t: Table, r: Report) {
    && |r.suggestions| <= MaxItems
    && (forall s :: s in r.suggestions ==> s in Entries(t) && Plausible(Normalize(r.word), s))
    && (|Normalize(r.word)| > 0 ==> r.suggestions == Suggestions(t, r.word))
  }

  /** The misspelt words the reports name, in order. */
  function WordsOf(rs: seq<Report>): (ws: seq<string>)
    ensures |ws| == |rs|
    ensures forall x :: 0 <= x < |rs| ==> ws[x] == rs[x].word
  {
    if |rs| == 0 then [] else WordsOf(rs[..|rs| - 1]) + [rs[|rs| - 1].word]
  }

  /** Growing a prefix by one element appends that element. */
  lemma PrefixSnoc<T>(s: seq<T>, n: nat)
    requires n < |s|
    ensures s[..n + 1] == s[..n] + [s[n]]
  {
  }

  /** Every report of `rs` carries what `suggestCorrections` offers, checked from the back. */
  predicate AllOffered(t: Table, rs: seq<Report>) {
    |rs| == 0 || (AllOffered(t, rs[..|rs| - 1]) && Offered(t, rs[|rs| - 1]))
  }

  lemma {:induction false} AllOfferedEach(t: Table, rs: seq<Report>)
    requires AllOffered(t, rs)
    ensures forall r :: r in rs ==> Offered(t, r)
    decreases |rs|
  {
    if |rs| > 0 {
      AllOfferedEach(t, rs[..|rs| - 1]);
      assert forall r :: r in rs ==> r in rs[..|rs| - 1] || r == rs[|rs| - 1];
    }
  }

  /** The tokens the loop gets to: the first `limit` of them, none for a non-positive limit. */
  function Processed(tokens: seq<string>, limit: int): (ws: seq<string>)
    ensures ws <= tokens
    ensures |ws| == if limit <= 0 then 0 else if limit < |tokens| then limit else |tokens|
  {
    if limit <= 0 then [] else if limit < |tokens| then tokens[..limit] else tokens
  }

  /** The loop's test for one token: `filterWord` in place, then `isCorrectWord`. */
  predicate Accepted(t: Table, token: string)
    ensures var key := Truncate(FilterWord(token));
      Accepted(t, token) <==> exists e :: e in t[Hash(key)] && Occurs(e, key)
  {
    FilterWordFixesNormal(Truncate(FilterWord(token)));
    IsCorrectWord(t, FilterWord(token))
  }

  /** The loop's verdict on each token, in reading order. */
  function Verdicts(t: Table, ws: seq<string>): (vs: seq<bool>)
    ensures |vs| == |ws|
  {
    if |ws| == 0 then [] else Verdicts(t, ws[..|ws| - 1]) + [Accepted(t, ws[|ws| - 1])]
  }

  /** The `k`-th verdict is the loop's test on the `k`-th token. */
  lemma {:induction false} VerdictsAt(t: Table, ws: seq<string>, k: nat)
    requires k < |ws|
    ensures Verdicts(t, ws)[k] == Accepted(t, ws[k])
    decreases |ws|
  {
    if k < |ws| - 1 {
      assert ws[..|ws| - 1][k] == ws[k];
      VerdictsAt(t, ws[..|ws| - 1], k);
    }
  }

  /** How many verdicts say correct. */
  function CountTrue(vs: seq<bool>): (n: nat)
    ensures n <= |vs|
  {
    if |vs| == 0 then 0 else CountTrue(vs[..|vs| - 1]) + (if vs[|vs| - 1] then 1 else 0)
  }

  /** The filtered forms of the tokens whose verdict is incorrect, in reading order. */
  function Rejected(ws: seq<string>, vs: seq<bool>): (ms: seq<string>)
    requires |vs| == |ws|
    ensures |ms| <= |ws|
    ensures forall m :: m in ms ==> exists k :: 0 <= k < |ws| && m == FilterWord(ws[k]) && !vs[k]
  {
    if |ws| == 0 then []
    else
      var n := |ws| - 1;
      var rest := Rejected(ws[..n], vs[..n]);
      assert forall k :: 0 <= k < n ==> ws[..n][k] == ws[k] && vs[..n][k] == vs[k];
      if vs[n] then rest else rest + [FilterWord(ws[n])]
  }

  /** One more token extends the rejected list by at most its filtered form. */
  lemma RejectedSnoc(ws: seq<string>, vs: seq<bool>, w: string, v: bool)
    requires |vs| == |ws|
    ensures Rejected(ws + [w], vs + [v]) == Rejected(ws, vs) + (if v then [] else [FilterWord(w)])
  {
    assert (ws + [w])[..|ws|] == ws;
    assert (vs + [v])[..|vs|] == vs;
  }

  /** One more verdict raises the count by one exactly when it says correct. */
  lemma CountTrueSnoc(vs: seq<bool>, v: bool)
    ensures CountTrue(vs + [v]) == CountTrue(vs) + (if v then 1 else 0)
  {
    assert (vs + [v])[..|vs|] == vs;
  }

  /** How many of `ws` are counted correct. */
  function CountCorrect(t: Table, ws: seq<string>): nat {
    CountTrue(Verdicts(t, ws))
  }

  /** The filtered forms of the tokens of `ws` that are counted incorrect. */
  function Misspelled(t: Table, ws: seq<string>): seq<string> {
    Rejected(ws, Verdicts(t, ws))
  }

  /** Every token lands on exactly one side: the correct count plus the misspelt list is all of `ws`. */
  lemma {:induction false} CountsPartition(ws: seq<string>, vs: seq<bool>)
    requires |vs| == |ws|
    ensures CountTrue(vs) + |Rejected(ws, vs)| == |ws|
    decreases |ws|
  {
    if |ws| > 0 {
      CountsPartition(ws[..|ws| - 1], vs[..|vs| - 1]);
    }
  }

  /** Verdicts on a prefix are the prefix of the verdicts. */
  lemma VerdictsPrefix(t: Table, ws: seq<string>, n: nat)
    requires n <= |ws|
    ensures Verdicts(t, ws[..n]) == Verdicts(t, ws)[..n]
  {
    forall k | 0 <= k < n
      ensures Verdicts(t, ws[..n])[k] == Verdicts(t, ws)[k]
    {
      VerdictsAt(t, ws[..n], k);
      VerdictsAt(t, ws, k);
      assert ws[..n][k] == ws[k];
    }
  }

  /**
    For a token that fits the 50-byte buffer, filtering before the lookup
    changes nothing: the loop's test is `isCorrectWord` on the raw token.
   */
  lemma AcceptedShortToken(t: Table, token: string)
    requires |token| <= MaxWordChars
    ensures Accepted(t, token) == IsCorrectWord(t, token)
  {
    FilterWordIdempotent(token);
    assert Normalize(FilterWord(token)) == FilterWord(token);
    assert Normalize(token) == FilterWord(token);
  }

  /** All verdicts say correct: the count is full and nothing is rejected. */
  lemma {:induction false} AllTrueCounts(ws: seq<string>, vs: seq<bool>)
    requires |vs| == |ws|
    requires forall k :: 0 <= k < |vs| ==> vs[k]
    ensures CountTrue(vs) == |vs| && Rejected(ws, vs) == []
    decreases |ws|
  {
    if |ws| > 0 {
      var n := |ws| - 1;
      assert forall k :: 0 <= k < n ==> vs[..n][k] == vs[k];
      AllTrueCounts(ws[..n], vs[..n]);
    }
  }

  /**
    A text made only of dictionary words (each fitting the buffer) is all
    correct: nothing is misspelt.
   */
  lemma DictionaryTextAllCorrect(t: Table, dict: seq<string>, ws: seq<string>)
    requires forall k :: 0 <= k < |ws| ==> ws[k] in dict && |ws[k]| <= MaxWordChars
    ensures CountCorrect(Load(t, dict), ws) == |ws|
    ensures Misspelled(Load(t, dict), ws) == []
  {
    var loaded := Load(t, dict);
    var vs := Verdicts(loaded, ws);
    forall k | 0 <= k < |ws|
      ensures vs[k]
    {
      var i :| 0 <= i < |dict| && dict[i] == ws[k];
      LoadThenCorrect(t, dict, i);
      AcceptedShortToken(loaded, ws[k]);
      VerdictsAt(loaded, ws, k);
    }
    AllTrueCounts(ws, vs);
  }

  /** Handling more tokens never lowers the correct count. */
  lemma {:induction false} CountTruePrefix(vs: seq<bool>, n: nat)
    requires n <= |vs|
    ensures CountTrue(vs[..n]) <= CountTrue(vs)
    decreases |vs|
  {
    if n < |vs| {
      var m := |vs| - 1;
      assert vs[..m][..n] == vs[..n];
      CountTruePrefix(vs[..m], n);
    } else {
      assert vs[..n] == vs;
    }
  }

  /** A larger limit never lowers the correct count. */
  lemma CountCorrectMonotone(t: Table, tokens: seq<string>, a: int, b: int)
    requires a <= b
    ensures CountCorrect(t, Processed(tokens, a)) <= CountCorrect(t, Processed(tokens, b))
  {
    var wb := Processed(tokens, b);
    var n := |Processed(tokens, a)|;
    assert Processed(tokens, a) == wb[..n];
    VerdictsPrefix(t, wb, n);
    CountTruePrefix(Verdicts(t, wb), n);
  }

  /**
    The loop's bookkeeping after handling the tokens `done`: `seen` holds
    their verdicts, `correct` counts the accepted ones, and `reports` names
    the rejected ones in order, each with what was offered for it.
   */
  ghost predicate Tally(t: Table, done: seq<string>, seen: seq<bool>, correct: nat, incorrect: nat, reports: seq<Report>) {
    && seen == Verdicts(t, done)
    && correct == CountTrue(seen)
    && correct + incorrect == |done|
    && |reports| == incorrect
    && WordsOf(reports) == Rejected(done, seen)
    && AllOffered(t, reports)
  }

  /** Handling one more token, as the loop body does, keeps the bookkeeping. */
  lemma TallyStep(t: Table, done: seq<string>, seen: seq<bool>, correct: nat, incorrect: nat, reports: seq<Report>,
                  token: string, ok: bool, report: Report)
    requires Tally(t, done, seen, correct, incorrect, reports)
    requires ok == Accepted(t, token) && report.word == FilterWord(token) && (!ok ==> Offered(t, report))
    ensures Tally(t, done + [token], seen + [ok], correct + (if ok then 1 else 0),
                  incorrect + (if ok then 0 else 1), if ok then reports else reports + [report])
  {
    SnocDrop(done, token);
    SnocDrop(reports, report);
    RejectedSnoc(done, seen, token, ok);
    CountTrueSnoc(seen, ok);
  }

  /** Dropping the element just appended gives back the sequence. */
  lemma SnocDrop<T>(s: seq<T>, x: T)
    ensures (s + [x])[..|s|] == s
  {
  }

  /**
    One pass of the loop body: filter the token, look it up, and for a
    rejected token build its report from `suggestCorrections`.
   */
  method CheckWord(t: Table, token: string) returns (ok: bool, report: Report)
    ensures ok == Accepted(t, token)
    ensures report.word == FilterWord(token)
    ensures !ok ==> Offered(t, report)
  {
    var word := FilterWordInPlace(token);
    ok := IsCorrectWord(t, word);
    var suggestions := [];
    if !ok {
      suggestions := SuggestCorrections(t, word);
    }
    report := Report(word, suggestions);
  }

  /**
    `processWordsFromFile` over a token stream: `total` is how many tokens the
    limit let through, `correct + incorrect == total`, and there is one report
    per incorrect token, naming its filtered form in reading order together
    with the suggestions `suggestCorrections` prints for it.
   */
  method ProcessWords(t: Table, tokens: seq<string>, limit: int) returns (total: nat, correct: nat, incorrect: nat, reports: seq<Report>)
    ensures total == |Processed(tokens, limit)|
    ensures total <= |tokens| && (limit <= 0 ==> total == 0) && (limit > 0 ==> total <= limit)
    ensures correct + incorrect == total
    ensures correct == CountCorrect(t, tokens[..total])
    ensures |reports| == incorrect
    ensures WordsOf(reports) == Misspelled(t, tokens[..total])
    ensures forall r :: r in reports ==> Offered(t, r)
  {
    ghost var seen: seq<bool> := [];
    total, correct, incorrect := 0, 0, 0;
    reports := [];
    var wordCount := 0;
    while wordCount < |tokens| && wordCount < limit
      invariant 0 <= wordCount <= |tokens|
      invariant limit > 0 ==> wordCount <= limit
      invariant limit <= 0 ==> wordCount == 0
      invariant Tally(t, tokens[..wordCount], seen, correct, incorrect, reports)
    {
      var ok, report := CheckWord(t, tokens[wordCount]);
      TallyStep(t, tokens[..wordCount], seen, correct, incorrect, reports, tokens[wordCount], ok, report);
      PrefixSnoc(tokens, wordCount);
      seen := seen + [ok];
      if ok {
        correct := correct + 1;
      } else {
        incorrect := incorrect + 1;
        reports := reports + [report];
      }
      wordCount := wordCount + 1;
    }
    total := wordCount;
    AllOfferedEach(t, reports);
  }
}

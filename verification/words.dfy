/**
  Word normalisation: every word the spell checker stores or looks up is
  first cut to the 49 characters `strncpy` copies into a 50-byte buffer,
  then reduced to its alphabetic characters, lowercased, in their original
  order (`filterWord`). Characters are ASCII; strings are the contents of C
  strings, so they never contain NUL.
 */
module Words {

  /** `MAX_WORD_LENGTH - 1`: the characters a 50-byte buffer can hold. */
  const MaxWordChars: nat := 49

  predicate IsAlpha(c: char) {
    'a' <= c <= 'z' || 'A' <= c <= 'Z'
  }

  predicate IsLower(c: char) {
    'a' <= c <= 'z'
  }

  /** ASCII `tolower`. */
  function ToLower(c: char): (r: char)
    ensures IsAlpha(c) ==> IsLower(r)
    ensures 'A' <= c <= 'Z' ==> r as int - c as int == 'a' as int - 'A' as int
    ensures IsLower(c) ==> r == c
    ensures !IsAlpha(c) ==> r == c
  {
    if 'A' <= c <= 'Z' then (c as int - 'A' as int + 'a' as int) as char else c
  }

  /** A normalised word: lowercase letters only. */
  predicate IsNormal(w: string) {
    forall i :: 0 <= i < |w| ==> IsLower(w[i])
  }

  /** `filterWord`: the alphabetic characters of `s`, lowercased, in order. */
  function FilterWord(s: string): (r: string)
    ensures |r| <= |s|
    ensures IsNormal(r)
  {
    if |s| == 0 then []
    else
      var last := s[|s| - 1];
      FilterWord(s[..|s| - 1]) + (if IsAlpha(last) then [ToLower(last)] else [])
  }

  /**
    The two-index compaction loop of `filterWord`, run on a copy of `s` in a
    buffer: `i` reads, `j <= i` writes, and the first `j` cells end up holding
    the result.
   */
  method FilterWordInPlace(s: string) returns (r: string)
    ensures r == FilterWord(s)
  {
    var word := new char[|s|](k requires 0 <= k < |s| => s[k]);
    var i, j := 0, 0;
    while i < word.Length
      invariant 0 <= j <= i <= word.Length
      invariant word[..j] == FilterWord(s[..i])
      invariant forall k :: i <= k < word.Length ==> word[k] == s[k]
    {
      assert s[..i + 1][..i] == s[..i];
      if IsAlpha(word[i]) {
        ghost var kept := word[..j];
        word[j] := ToLower(word[i]);
        assert word[..j] == kept;
        assert word[..j + 1] == kept + [ToLower(s[i])];
        j := j + 1;
      }
      i := i + 1;
    }
    assert s[..i] == s;
    r := word[..j];
  }

  /** The `strncpy` into a `MAX_WORD_LENGTH` buffer that callers do first. */
  function Truncate(raw: string): (r: string)
    ensures |r| <= MaxWordChars
    ensures |raw| > MaxWordChars ==> |r| == MaxWordChars
    ensures |raw| <= MaxWordChars ==> r == raw
    ensures r <= raw
  {
    if |raw| <= MaxWordChars then raw else raw[..MaxWordChars]
  }

  /** The key a raw token is stored and looked up under. */
  function Normalize(raw: string): (w: string)
    ensures |w| <= MaxWordChars
    ensures IsNormal(w)
  {
    FilterWord(Truncate(raw))
  }

  /** Filtering distributes over concatenation. */
  lemma {:induction false} FilterWordAppend(a: string, b: string)
    ensures FilterWord(a + b) == FilterWord(a) + FilterWord(b)
    decreases |b|
  {
    if |b| == 0 {
      assert a + b == a;
    } else {
      var b' := b[..|b| - 1];
      assert (a + b)[..|a + b| - 1] == a + b';
      FilterWordAppend(a, b');
    }
  }

  /** A word that is already normalised passes through the filter unchanged. */
  lemma {:induction false} FilterWordFixesNormal(w: string)
    requires IsNormal(w)
    ensures FilterWord(w) == w
    decreases |w|
  {
    if |w| > 0 {
      var w' := w[..|w| - 1];
      FilterWordFixesNormal(w');
      assert w' + [w[|w| - 1]] == w;
    }
  }

  /** Applying `filterWord` twice is the same as applying it once. */
  lemma FilterWordIdempotent(s: string)
    ensures FilterWord(FilterWord(s)) == FilterWord(s)
  {
    FilterWordFixesNormal(FilterWord(s));
  }

  /** Normalising a normalised word changes nothing. */
  lemma NormalizeIdempotent(raw: string)
    ensures Normalize(Normalize(raw)) == Normalize(raw)
  {
    FilterWordFixesNormal(Normalize(raw));
  }

  /**
    `pos` lists, in increasing order, the positions of `s` whose characters
    survive the filter: each survivor is the lowercased character at its
    position, and every alphabetic position is listed.
   */
  ghost predicate Survivors(s: string, pos: seq<nat>) {
    && |pos| == |FilterWord(s)|
    && (forall k :: 0 <= k < |pos| ==> pos[k] < |s| && IsAlpha(s[pos[k]]) && FilterWord(s)[k] == ToLower(s[pos[k]]))
    && (forall k, l :: 0 <= k < l < |pos| ==> pos[k] < pos[l])
    && (forall i :: 0 <= i < |s| && IsAlpha(s[i]) ==> i in pos)
  }

  /** A trailing letter survives, after all earlier survivors. */
  lemma SurvivorsLetter(s: string, pos: seq<nat>)
    requires |s| > 0 && IsAlpha(s[|s| - 1]) && Survivors(s[..|s| - 1], pos)
    ensures Survivors(s, pos + [|s| - 1])
  {
    var n := |s| - 1;
    assert forall i :: 0 <= i < n ==> s[..n][i] == s[i];
    assert FilterWord(s) == FilterWord(s[..n]) + [ToLower(s[n])];
  }

  /** A trailing non-letter is dropped and changes nothing. */
  lemma SurvivorsOther(s: string, pos: seq<nat>)
    requires |s| > 0 && !IsAlpha(s[|s| - 1]) && Survivors(s[..|s| - 1], pos)
    ensures Survivors(s, pos)
  {
    var n := |s| - 1;
    assert forall i :: 0 <= i < n ==> s[..n][i] == s[i];
    assert FilterWord(s) == FilterWord(s[..n]);
  }

  /** The filter keeps exactly the alphabetic characters, in order, lowercased. */
  lemma {:induction false} FilterWordKeepsLetters(s: string) returns (pos: seq<nat>)
    ensures Survivors(s, pos)
    decreases |s|
  {
    if |s| == 0 {
      pos := [];
    } else {
      var n := |s| - 1;
      var pos' := FilterWordKeepsLetters(s[..n]);
      if IsAlpha(s[n]) {
        SurvivorsLetter(s, pos');
        pos := pos' + [n];
      } else {
        SurvivorsOther(s, pos');
        pos := pos';
      }
    }
  }

  /** The filter on the four fragments of the example below. */
  lemma FilterWordFragments()
    ensures FilterWord("Th") == "th" && FilterWord("3 ") == ""
    ensures FilterWord("Qu") == "qu" && FilterWord("!ck") == "ck"
  {
    assert "Th"[..1] == "T" && "T"[..0] == "";
    assert "3 "[..1] == "3" && "3"[..0] == "";
    assert "Qu"[..1] == "Q" && "Q"[..0] == "";
    assert "!ck"[..2] == "!c" && "!c"[..1] == "!" && "!"[..0] == "";
  }

  /** `filterWord("Th3 Qu!ck")` keeps the six letters `thquck`. */
  lemma FilterWordExample()
    ensures FilterWord("Th3 Qu!ck") == "thquck"
  {
    FilterWordFragments();
    assert "Th3 Qu!ck" == ("Th" + "3 ") + ("Qu" + "!ck");
    FilterWordAppend("Th" + "3 ", "Qu" + "!ck");
    FilterWordAppend("Th", "3 ");
    FilterWordAppend("Qu", "!ck");
  }
}

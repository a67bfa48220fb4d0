/**
  `stringMatch(text, pattern)`: naive left-to-right substring search that
  tries every start `i` in `0 .. |text| - |pattern|` and compares the
  pattern character by character, stopping at the first full match.
 */
module Substring {

  /** `pattern` sits in `text` starting at position `i`. */
  predicate MatchesAt(text: string, pattern: string, i: int) {
    0 <= i && i + |pattern| <= |text| && text[i..i + |pattern|] == pattern
  }

  /** `pattern` occurs as a contiguous block of `text`. */
  predicate Occurs(text: string, pattern: string) {
    exists i | 0 <= i <= |text| - |pattern| :: MatchesAt(text, pattern, i)
  }

  /** The nested loops of `stringMatch`; the result is the C `int` flag. */
  method StringMatch(text: string, pattern: string) returns (result: int)
    ensures result == 0 || result == 1
    ensures result == 1 <==> Occurs(text, pattern)
    ensures |pattern| == 0 ==> result == 1
    ensures |pattern| > |text| ==> result == 0
  {
    result := 0;
    var n := |text|;
    var m := |pattern|;
    var i := 0;
    while i <= n - m
      invariant 0 <= i
      invariant m <= n ==> i <= n - m + 1
      invariant result == 0
      invariant forall i' :: 0 <= i' < i ==> !MatchesAt(text, pattern, i')
    {
      var j := 0;
      while j < m
        invariant 0 <= j <= m
        invariant i + m <= n
        invariant text[i..i + j] == pattern[..j]
      {
        if text[i + j] != pattern[j] {
          break;
        }
        assert text[i..i + j + 1] == text[i..i + j] + [text[i + j]];
        assert pattern[..j + 1] == pattern[..j] + [pattern[j]];
        j := j + 1;
      }
      if j == m {
        assert MatchesAt(text, pattern, i);
        result := 1;
        break;
      }
      assert text[i..i + m][j] != pattern[j];
      i := i + 1;
    }
    if m == 0 {
      assert MatchesAt(text, pattern, 0);
    }
  }

  /** Every string contains itself, so an exact match is also a substring match. */
  lemma OccursInItself(s: string)
    ensures Occurs(s, s)
  {
    assert MatchesAt(s, s, 0);
  }

  /** A pattern longer than the text never occurs in it; the empty one always does. */
  lemma OccursBounds(text: string, pattern: string)
    ensures |pattern| > |text| ==> !Occurs(text, pattern)
    ensures |pattern| == 0 ==> Occurs(text, pattern)
  {
    if |pattern| == 0 {
      assert MatchesAt(text, pattern, 0);
    }
  }
}

/**
  The djb2 string hash of the dictionary: start from 5381, then for each
  character `h = (h << 5) + h + c`, i.e. `h * 33 + c`, in 64-bit
  `unsigned long` arithmetic that wraps; the bucket is `h % 10007`.
  Only normalised words (ASCII `a`..`z`) are ever hashed, so the signedness
  of `char` never matters and a character's code is its `int` value.
 */
module Djb2 {

  /** `HASH_TABLE_SIZE`. */
  const TableSize: nat := 10007

  const Seed: nat := 5381

  /** 2^64: `unsigned long` wraps modulo this. */
  const WordModulus: nat := 0x1_0000_0000_0000_0000

  /** One round of the loop body, with the 64-bit wrap-around written out. */
  function Step(h: nat, c: char): (r: nat)
    ensures r < WordModulus
  {
    (h * 33 + c as int) % WordModulus
  }

  /** The unreduced accumulator after all of `s` has been consumed. */
  function Accumulate(s: string): (r: nat)
    ensures r < WordModulus
  {
    if |s| == 0 then Seed else Step(Accumulate(s[..|s| - 1]), s[|s| - 1])
  }

  /** `hash`: the bucket index of `s`. */
  function Hash(s: string): (r: nat)
    ensures r < TableSize
  {
    Accumulate(s) % TableSize
  }

  /** The `while (*str)` loop of `hash`, character by character. */
  method HashLoop(s: string) returns (r: nat)
    ensures r == Hash(s)
    ensures r < TableSize
  {
    var h: nat := Seed;
    var i := 0;
    while i < |s|
      invariant 0 <= i <= |s|
      invariant h == Accumulate(s[..i])
    {
      assert s[..i + 1][..i] == s[..i];
      h := Step(h, s[i]);
      i := i + 1;
    }
    assert s[..i] == s;
    r := h % TableSize;
  }

  /** Buckets of two sample words, computed by unfolding the recurrence. */
  lemma HashSamples()
    ensures Hash("cat") == 2780
    ensures Hash("category") == 6174
  {
    assert "cat"[..2] == "ca" && "ca"[..1] == "c" && "c"[..0] == "";
    assert Accumulate("c") == 177672;
    assert Accumulate("ca") == 5863273;
    assert Accumulate("cat") == 193488125;
    assert "category"[..7] == "categor" && "categor"[..6] == "catego";
    assert "catego"[..5] == "categ" && "categ"[..4] == "cate" && "cate"[..3] == "cat";
    assert Accumulate("cate") == 6385108226;
    assert Accumulate("categ") == 210708571561;
    assert Accumulate("catego") == 6953382861624;
    assert Accumulate("categor") == 229461634433706;
    assert Accumulate("category") == 7572233936312419;
  }
}

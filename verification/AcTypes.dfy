/** Widths, word counts and ranges of the integer and fixed-point types. */
module AcTypes {
  import opened Powers
  import opened Words

  /** Words of an `ac_int` of width w: an unsigned type keeps a spare sign bit. */
  function WordsFor(w: nat, s: bool): (n: nat)
    requires 0 < w
    ensures 0 < n
  {
    (w + 31 + (if s then 0 else 1)) / 32
  }

  /** The words hold the number and a sign bit, with none to spare. */
  lemma WordsAreEnough(w: nat, s: bool)
    requires 0 < w
    ensures 32 * (WordsFor(w, s) - 1) < (if s then w else w + 1) <= 32 * WordsFor(w, s)
  {
  }

  /** Eight-bit numbers. */
  lemma EightBitTypes(x: int)
    ensures InType(x, 8, true) <==> -128 <= x <= 127
    ensures InType(x, 8, false) <==> 0 <= x <= 255
  {
    Pow2Values();
    assert Pow2(7) == 128;
  }

  predicate InType(x: int, w: nat, s: bool)
    requires 0 < w
  {
    if s then -Pow2(w - 1) <= x < Pow2(w - 1) else 0 <= x < Pow2(w)
  }

  lemma TypeFitsWords(x: int, w: nat, s: bool)
    requires 0 < w && InType(x, w, s)
    ensures
      var n := WordsFor(w, s);
      -Pow2(32 * n - 1) <= x < Pow2(32 * n - 1) && Wrap(x, 32 * n) == x
  {
    var n := WordsFor(w, s);
    Pow2Mono(if s then w - 1 else w, 32 * n - 1);
    WrapFits(x, 32 * n);
  }
}

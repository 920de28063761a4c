/** Numbers as arrays of 32-bit words, least significant word first. */
module Words {
  import opened Powers

  const WORD: int := 0x1_0000_0000
  const HALF: int := 0x1_0000
  const SIGN: int := 0x8000_0000

  /** One C++ `int`, held as its unsigned bit pattern. */
  type word = x: int | 0 <= x < 0x1_0000_0000

  /** The two's-complement reading of a bit pattern. */
  function Signed(w: word): (x: int)
    ensures -SIGN <= x < SIGN
  {
    if w < SIGN then w else w - WORD
  }

  /** The low 32 bits of an integer: the effect of a C++ cast to `int` or `unsigned`. */
  function Low(x: int): (w: word)
  {
    x % WORD
  }

  const W64: int := 0x1_0000_0000_0000_0000
  const S64: int := 0x8000_0000_0000_0000

  /** Conversion to a 64-bit signed integer. */
  function ToSlong(x: int): (r: int)
    ensures -S64 <= r < S64
  {
    var u := x % W64;
    if u < S64 then u else u - W64
  }

  /** Weight of word i. */
  function Weight(i: nat): (p: int)
    ensures p > 0
  {
    Pow2(32 * i)
  }

  /** Unsigned value of a word sequence. */
  function UVal(s: seq<word>): (v: int)
    ensures 0 <= v
  {
    if |s| == 0 then 0
    else
      var hi := s[|s| - 1] * Weight(|s| - 1);
      UVal(s[..|s| - 1]) + hi
  }

  /** Two's-complement value: the top word carries the sign. */
  function SVal(s: seq<word>): int
    requires |s| > 0
  {
    if s[|s| - 1] < SIGN then UVal(s) else UVal(s) - Weight(|s|)
  }

  /** The first word is the lowest, and the top bit of the last one is the sign. */
  lemma WordOrder(a: word, b: word)
    ensures UVal([a, b]) == a + b * 0x1_0000_0000
    ensures SVal([a, b]) == a + b * 0x1_0000_0000 - (if b < 0x8000_0000 then 0 else 0x1_0000_0000 * 0x1_0000_0000)
  {
    assert [a, b] == [a] + [b];
    UValSnoc([a], b);
    UValSnoc([], a);
    assert [] + [a] == [a];
    WeightNext(0);
    WeightNext(1);
  }

  lemma WeightIsPow2(i: nat)
    ensures Weight(i) == Pow2(32 * i)
  {
  }

  lemma WeightNext(i: nat)
    ensures Weight(i + 1) == WORD * Weight(i)
    ensures Weight(0) == 1
  {
    Pow2Add(32, 32 * i);
    Pow2Values();
  }

  lemma WeightAdd(i: nat, j: nat)
    ensures Weight(i + j) == Weight(i) * Weight(j)
  {
    Pow2Add(32 * i, 32 * j);
  }

  lemma UValSnoc(s: seq<word>, w: word)
    ensures UVal(s + [w]) == UVal(s) + w * Weight(|s|)
  {
    assert (s + [w])[..|s|] == s;
  }

  lemma {:induction false} UValBound(s: seq<word>)
    ensures UVal(s) < Weight(|s|)
  {
    if |s| == 0 {
      WeightNext(0);
    } else {
      var n := |s| - 1;
      UValBound(s[..n]);
      WeightNext(n);
      MulMono(s[n], WORD - 1, Weight(n));
      assert (WORD - 1) * Weight(n) == WORD * Weight(n) - Weight(n);
    }
  }

  lemma {:induction false} UValConcat(a: seq<word>, b: seq<word>)
    ensures UVal(a + b) == UVal(a) + UVal(b) * Weight(|a|)
    decreases |b|
  {
    if |b| == 0 {
      assert a + b == a;
    } else {
      var n := |b| - 1;
      UValConcat(a, b[..n]);
      assert a + b == (a + b[..n]) + [b[n]];
      UValSnoc(a + b[..n], b[n]);
      assert b == b[..n] + [b[n]];
      UValSnoc(b[..n], b[n]);
      WeightAdd(|a|, n);
      ScaleSum(UVal(b[..n]), b[n], Weight(n), Weight(|a|));
    }
  }

  /** The number with a new lowest word. */
  lemma UValCons(x: word, s: seq<word>)
    ensures UVal([x] + s) == x + UVal(s) * WORD
  {
    var none: seq<word> := [];
    assert UVal(none) == 0 && none + [x] == [x];
    hide UVal, Weight;
    WeightNext(0);
    UValSnoc(none, x);
    UValConcat([x], s);
  }

  lemma ScaleSum(u: int, d: int, w: int, p: int)
    ensures (u + d * w) * p == u * p + d * (p * w)
  {
    assert (u + d * w) * p == u * p + (d * w) * p;
    assert (d * w) * p == d * (p * w);
  }

  lemma {:induction false} UValZeros(s: seq<word>)
    requires forall i :: 0 <= i < |s| ==> s[i] == 0
    ensures UVal(s) == 0
  {
    if |s| != 0 {
      UValZeros(s[..|s| - 1]);
    }
  }

  /** Replacing one word changes the value by that word's difference at its weight. */
  lemma UValUpdate(s: seq<word>, i: nat, w: word)
    requires i < |s|
    ensures UVal(s[i := w]) == UVal(s) + (w - s[i]) * Weight(i)
  {
    var a, b := s[..i], s[i + 1..];
    assert s == (a + [s[i]]) + b && s[i := w] == (a + [w]) + b;
    UValConcat(a + [s[i]], b);
    UValConcat(a + [w], b);
    UValSnoc(a, s[i]);
    UValSnoc(a, w);
  }

  /** The value splits at any word boundary. */
  lemma UValSplit(s: seq<word>, i: nat)
    requires i <= |s|
    ensures UVal(s) == UVal(s[..i]) + UVal(s[i..]) * Weight(i)
    ensures UVal(s[..i]) == UVal(s) % Weight(i)
    ensures UVal(s[i..]) == UVal(s) / Weight(i)
  {
    assert s == s[..i] + s[i..];
    UValConcat(s[..i], s[i..]);
    UValBound(s[..i]);
    DivIntro(UVal(s), Weight(i), UVal(s[i..]), UVal(s[..i]));
  }

  lemma {:induction false} UValZeroWords(s: seq<word>)
    requires UVal(s) == 0
    ensures forall i :: 0 <= i < |s| ==> s[i] == 0
  {
    if |s| != 0 {
      var n := |s| - 1;
      if s[n] != 0 {
        MulMono(1, s[n], Weight(n));
      }
      UValZeroWords(s[..n]);
      assert forall i :: 0 <= i < n ==> s[i] == s[..n][i];
    }
  }

  /** Words above the top of a small value are zero. */
  lemma UValHighZero(s: seq<word>, i: nat)
    requires i <= |s| && UVal(s) < Weight(i)
    ensures forall j :: i <= j < |s| ==> s[j] == 0
    ensures UVal(s[..i]) == UVal(s)
  {
    UValSplit(s, i);
    ModSmall(UVal(s), Weight(i));
    UValZeroWords(s[i..]);
    assert forall j :: i <= j < |s| ==> s[j] == s[i..][j - i];
  }

  lemma {:induction false} UValInjective(a: seq<word>, b: seq<word>)
    requires |a| == |b| && UVal(a) == UVal(b)
    ensures a == b
  {
    if |a| != 0 {
      var n := |a| - 1;
      UValLast(a);
      UValLast(b);
      UValInjective(a[..n], b[..n]);
      assert a == a[..n] + [a[n]] && b == b[..n] + [b[n]];
    }
  }

  lemma UValLast(s: seq<word>)
    requires |s| > 0
    ensures var n := |s| - 1;
      s[n] == UVal(s) / Weight(n) && UVal(s[..n]) == UVal(s) % Weight(n)
  {
    var n := |s| - 1;
    UValBound(s[..n]);
    DivIntro(UVal(s), Weight(n), s[n], UVal(s[..n]));
  }

  /** The signed value is the only number in two's-complement range with these bits. */
  lemma SValRange(s: seq<word>)
    requires |s| > 0
    ensures -Pow2(32 * |s| - 1) <= SVal(s) < Pow2(32 * |s| - 1)
    ensures SVal(s) % Weight(|s|) == UVal(s)
    ensures SVal(s) < 0 <==> s[|s| - 1] >= SIGN
    ensures Weight(|s|) == 2 * Pow2(32 * |s| - 1)
  {
    var n := |s| - 1;
    Pow2Add(31, 32 * n);
    Pow2Values();
    assert 31 + 32 * n == 32 * |s| - 1;
    UValBound(s);
    UValBound(s[..n]);
    if s[n] < SIGN {
      MulMono(s[n], SIGN - 1, Weight(n));
      assert (SIGN - 1) * Weight(n) == SIGN * Weight(n) - Weight(n);
      ModSmall(UVal(s), Weight(|s|));
    } else {
      MulMono(SIGN, s[n], Weight(n));
      ModMultiple(UVal(s), -1, Weight(|s|));
      ModSmall(UVal(s), Weight(|s|));
    }
  }

  /** The top word counts with its sign. */
  lemma SValTop(s: seq<word>)
    requires |s| > 0
    ensures SVal(s) == UVal(s[..|s| - 1]) + Signed(s[|s| - 1]) * Weight(|s| - 1)
  {
    hide Weight;
    WeightNext(|s| - 1);
    BorrowFromTop(s[|s| - 1], Weight(|s| - 1));
  }

  lemma BorrowFromTop(w: word, p: int)
    ensures (w - WORD) * p == w * p - WORD * p
  {
  }

  /** The number in two's-complement range of w bits congruent to x. */
  function Wrap(x: int, w: nat): (r: int)
    requires w > 0
    ensures -Pow2(w - 1) <= r < Pow2(w - 1)
  {
    var u := x % Pow2(w);
    if u < Pow2(w - 1) then u else u - Pow2(w)
  }

  lemma WrapFits(x: int, w: nat)
    requires w > 0 && -Pow2(w - 1) <= x < Pow2(w - 1)
    ensures Wrap(x, w) == x
  {
    if x < 0 {
      ModMultiple(x, 1, Pow2(w));
      ModSmall(x + Pow2(w), Pow2(w));
    } else {
      ModSmall(x, Pow2(w));
    }
  }

  lemma WrapMultiple(x: int, k: int, w: nat)
    requires w > 0
    ensures Wrap(x + k * Pow2(w), w) == Wrap(x, w)
  {
    ModMultiple(x, k, Pow2(w));
  }

  lemma WrapCongruent(x: int, w: nat) returns (k: int)
    requires w > 0
    ensures Wrap(x, w) % Pow2(w) == x % Pow2(w)
    ensures Wrap(x, w) == x + k * Pow2(w)
  {
    var p := Pow2(w);
    DivBounds(x, p);
    k := -(x / p) - (if x % p < Pow2(w - 1) then 0 else 1);
    WrapCongruentStep(x, p, x / p, k);
    ModMultiple(x, k, p);
  }

  lemma WrapCongruentStep(x: int, p: int, q: int, k: int)
    ensures k == -q ==> x + k * p == x - q * p
    ensures k == -q - 1 ==> x + k * p == x - q * p - p
  {
  }

  /** A word sequence congruent to x holds x wrapped to its width. */
  lemma SValIsWrap(s: seq<word>, x: int)
    requires |s| > 0 && UVal(s) == x % Weight(|s|)
    ensures SVal(s) == Wrap(x, 32 * |s|)
  {
    SValRange(s);
  }

  /** The word that sign-extends a two's-complement number. */
  function Extension(negative: bool): word {
    if negative then WORD - 1 else 0
  }

  lemma {:induction false} SignExtend(s: seq<word>, t: seq<word>)
    requires 0 < |s| <= |t| && t[..|s|] == s
    requires forall i :: |s| <= i < |t| ==> t[i] == Extension(s[|s| - 1] >= SIGN)
    ensures SVal(t) == SVal(s)
    ensures t[|t| - 1] >= SIGN <==> s[|s| - 1] >= SIGN
    decreases |t|
  {
    if |s| == |t| {
      assert s == t;
    } else {
      var n := |t| - 1;
      SignExtend(s, t[..n]);
      assert t[..n][..|s|] == s;
      WeightNext(n);
      assert (WORD - 1) * Weight(n) == WORD * Weight(n) - Weight(n);
    }
  }

  /** Fills r from index i with a sign word. */
  method Extend(r: array<word>, i: nat, ext: word)
    modifies r
    ensures forall j :: 0 <= j < r.Length ==> r[j] == (if i <= j then ext else old(r[j]))
  {
    if i < r.Length {
      for k := i to r.Length
        invariant forall j :: 0 <= j < r.Length ==> r[j] == (if i <= j < k then ext else old(r[j]))
      {
        r[k] := ext;
      }
    }
  }

  /** Assigns a 64-bit integer to r, truncating or sign-extending it. */
  method AssignInt64(r: array<word>, l: int)
    requires 0 < r.Length && -S64 <= l < S64
    modifies r
    ensures SVal(r[..]) == Wrap(l, 32 * r.Length)
  {
    r[0] := Low(l);
    if r.Length > 1 {
      r[1] := Low(l / WORD);
      Extend(r, 2, Extension(r[1] >= SIGN));
      TwoWords(r[..2], l);
      SignExtend(r[..2], r[..]);
      SValRange(r[..]);
      WrapFits(l, 32 * r.Length);
    } else {
      OneWord(r[..], l);
    }
  }

  lemma OneWord(s: seq<word>, l: int)
    requires |s| == 1 && s[0] == Low(l)
    ensures UVal(s) == s[0] && SVal(s) == Signed(s[0]) == Wrap(l, 32)
  {
    WeightNext(0);
    Pow2Values();
  }

  lemma TwoWords(s: seq<word>, l: int)
    requires |s| == 2 && s[0] == Low(l) && s[1] == Low(l / WORD) && -S64 <= l < S64
    ensures SVal(s) == l
  {
    hide Weight, UVal, SVal, Pow2;
    WeightNext(0);
    WeightNext(1);
    OneWord(s[..1], l);
    SValTop(s);
  }
}

/** `bit_adjust`: the top word of a number of w bits, shifted up and back to sign- or zero-extend it. */
module TopWord {
  import opened Powers
  import opened Words
  import opened AcTypes
  import opened Bits

  /** The top word with the bits above the width dropped: shifted up and back down. */
  function TopAdjusted(t: word, w: nat, s: bool): word {
    TopCut(t, (32 - w % 32) % 32, s)
  }

  /** The top word shifted up by rem places and back. */
  function TopCut(t: word, rem: nat, s: bool): word {
    var up := Low(t * Pow2(rem));
    if s then Low(Signed(up) / Pow2(rem))
    else if rem != 0 then Low(up / Pow2(rem))
    else 0
  }

  lemma TopAdjustedSigned(t: word, w: nat, k: nat) returns (m: int)
    requires 0 < w && k == 32 - (32 - w % 32) % 32
    ensures Signed(TopAdjusted(t, w, true)) == Signed(t) + m * Pow2(k)
    ensures -Pow2(k - 1) <= Signed(TopAdjusted(t, w, true)) < Pow2(k - 1)
  {
    var rem := (32 - w % 32) % 32;
    Pow2Add(k, rem);
    Pow2Values();
    DoublePow2(k - 1);
    Pow2Mono(k, 32);
    hide Pow2;
    var p, r := Pow2(k), Pow2(rem);
    var y := t % p;
    LowPart(t, p, r);
    DivBounds(t, p);
    ShiftBack(y, p, r, Pow2(k - 1));
    m := -(t / p) + (if t < SIGN then 0 else r) - (if y < Pow2(k - 1) then 0 else 1);
    MultipleOfTop(t / p, r, p, m, t < SIGN, y < Pow2(k - 1));
    SignedLow(Signed(Low(t * r)) / r);
  }

  lemma ShiftBack(y: int, p: int, r: int, h: int)
    requires 0 <= y < p && p * r == WORD && p == h * 2 && 0 < r && p <= WORD
    ensures 0 <= y * r < WORD
    ensures Signed(y * r) / r == (if y < h then y else y - p)
    ensures -SIGN <= Signed(y * r) / r < SIGN
  {
    TopBitPlace(y, p, r, h);
    if y < h {
      DivIntro(y * r, r, y, 0);
    } else {
      DivIntro(y * r - WORD, r, y - p, 0);
    }
  }

  lemma TopBitPlace(y: int, p: int, r: int, h: int)
    requires 0 <= y < p && p * r == WORD && p == h * 2 && 0 < r
    ensures 0 <= y * r < WORD && (y < h <==> y * r < SIGN) && (y - p) * r == y * r - WORD
  {
    assert (h * 2) * r == 2 * (h * r);
    MulMono(0, y, r);
    MulStrict(y, p, r);
    assert (y - p) * r == y * r - p * r;
    if y < h {
      MulStrict(y, h, r);
    } else {
      MulMono(h, y, r);
    }
  }

  lemma MultipleOfTop(q: int, r: int, p: int, m: int, pos: bool, low: bool)
    requires p * r == WORD && m == -q + (if pos then 0 else r) - (if low then 0 else 1)
    ensures m * p == -(q * p) + (if pos then 0 else WORD) - (if low then 0 else p)
  {
  }

  lemma TopAdjustedUnsigned(t: word, w: nat)
    requires 0 < w
    ensures TopAdjusted(t, w, false) == t % Pow2(w % 32) && t % Pow2(w % 32) < SIGN
  {
    hide Pow2, TopCut;
    UnsignedCut(t, w % 32);
  }

  lemma UnsignedCut(t: word, b: nat)
    requires b < 32
    ensures TopCut(t, if b == 0 then 0 else 32 - b, false) == t % Pow2(b) < SIGN
  {
    hide Pow2, Low, Signed;
    Pow2Values();
    if b != 0 {
      LowBitsBack(t, b);
    }
  }

  lemma LowBitsBack(t: word, b: nat)
    requires 0 < b < 32
    ensures Low(Low(t * Pow2(32 - b)) / Pow2(32 - b)) == t % Pow2(b) < SIGN
  {
    Pow2Mono(b, 31);
    Pow2Add(b, 32 - b);
    Pow2Values();
    hide Pow2;
    UnsignedBack(t, Pow2(b), Pow2(32 - b));
  }

  lemma UnsignedBack(t: word, p: int, r: int)
    requires 0 < p <= SIGN && 0 < r && p * r == WORD
    ensures Low(Low(t * r) / r) == t % p < SIGN
  {
    LowPart(t, p, r);
    DivBounds(t, p);
    DivIntro((t % p) * r, r, t % p, 0);
  }

  /** The number kept after the top word is adjusted. */
  function Adjusted(x: int, w: nat, s: bool): int
    requires 0 < w
  {
    if s then Wrap(x, w) else x % Pow2(w)
  }

  lemma BitAdjustedSigned(v: seq<word>, v': seq<word>, w: nat)
    requires 0 < w && |v| == WordsFor(w, true)
    requires v' == v[|v| - 1 := TopAdjusted(v[|v| - 1], w, true)]
    ensures SVal(v') == Wrap(SVal(v), w)
  {
    hide SVal, UVal, Weight, Pow2, TopAdjusted, Wrap, Signed;
    var n := |v|;
    SValTop(v);
    SValTop(v');
    assert v'[..n - 1] == v[..n - 1];
    UValBound(v[..n - 1]);
    WeightIsPow2(n - 1);
    var k: nat := 32 - (32 - w % 32) % 32;
    var m := TopAdjustedSigned(v[n - 1], w, k);
    KeptBits(w);
    SignedTopRange(UVal(v[..n - 1]), Signed(v'[n - 1]), Signed(v[n - 1]), m, Pow2(k), Pow2(k - 1), Weight(n - 1));
    assert SVal(v') == SVal(v) + m * Pow2(w);
    WrapFits(SVal(v'), w);
    WrapMultiple(SVal(v), m, w);
  }

  /** The width of a signed type, as whole words and bits of the top word. */
  lemma KeptBits(w: nat)
    requires 0 < w
    ensures
      var n, k := WordsFor(w, true), 32 - (32 - w % 32) % 32;
      && Pow2(k) * Pow2(32 * (n - 1)) == Pow2(w)
      && Pow2(k - 1) * Pow2(32 * (n - 1)) == Pow2(w - 1)
  {
    hide Pow2;
    var n, k := WordsFor(w, true), 32 - (32 - w % 32) % 32;
    assert k + 32 * (n - 1) == w;
    Pow2Add(k, 32 * (n - 1));
    Pow2Add(k - 1, 32 * (n - 1));
  }

  lemma BitAdjusted(v: seq<word>, v': seq<word>, w: nat, s: bool)
    requires 0 < w && |v| == WordsFor(w, s)
    requires v' == v[|v| - 1 := TopAdjusted(v[|v| - 1], w, s)]
    ensures SVal(v') == Adjusted(SVal(v), w, s)
  {
    hide SVal, UVal, Weight, Pow2, TopAdjusted, Wrap;
    if s {
      BitAdjustedSigned(v, v', w);
    } else {
      BitAdjustedUnsigned(v, v', w);
    }
  }

  lemma BitAdjustedUnsigned(v: seq<word>, v': seq<word>, w: nat)
    requires 0 < w && |v| == WordsFor(w, false)
    requires v' == v[|v| - 1 := TopAdjusted(v[|v| - 1], w, false)]
    ensures SVal(v') == SVal(v) % Pow2(w)
  {
    hide SVal, UVal, Weight, Pow2, TopAdjusted, Wrap;
    var n, k := |v|, w % 32;
    var t := v[n - 1];
    assert w == k + 32 * (n - 1);
    SValTop(v');
    assert v'[..n - 1] == v[..n - 1];
    UValBound(v[..n - 1]);
    WeightIsPow2(n - 1);
    TopAdjustedUnsigned(t, w);
    Pow2Add(k, 32 * (n - 1));
    SameLowBits(v, w);
    UValTop(v);
    UnsignedTopRange(UVal(v[..n - 1]), t, Pow2(k), Weight(n - 1));
  }

  lemma UValTop(v: seq<word>)
    requires 0 < |v|
    ensures UVal(v) == UVal(v[..|v| - 1]) + v[|v| - 1] * Weight(|v| - 1)
  {
  }

  lemma SignedTopRange(low: int, t': int, t: int, m: int, p: int, h: int, wt: int)
    requires 0 <= low < wt && t' == t + m * p && -h <= t' < h
    ensures low + t' * wt == low + t * wt + m * (p * wt)
    ensures -(h * wt) <= low + t' * wt < h * wt
  {
    assert (t + m * p) * wt == t * wt + (m * p) * wt;
    MulAssoc(m, p, wt);
    MulMono(-h, t', wt);
    MulMono(t' + 1, h, wt);
    assert (-h) * wt == -(h * wt) && (t' + 1) * wt == t' * wt + wt;
  }

  lemma UnsignedTopRange(low: int, t: int, p: int, wt: int)
    requires 0 <= low < wt && 0 < p && 0 <= t
    ensures (low + t * wt) % (p * wt) == low + (t % p) * wt
  {
    DivBounds(t, p);
    var q, m := t / p, t % p;
    assert (q * p + m) * wt == (q * p) * wt + m * wt;
    MulAssoc(q, p, wt);
    MulMono(m + 1, p, wt);
    assert (m + 1) * wt == m * wt + wt;
    MulMono(0, m, wt);
    DivIntro(low + t * wt, p * wt, q, low + m * wt);
  }
}

/** The word-level shift left `iv_shift_l` and the slice update `iv::set_slc` built on it. */
module SetSlice {
  import opened Powers
  import opened Words
  import opened AcTypes
  import opened Bits
  import opened TopWord

  // ---- Shift left ----

  /** Words of the operand that a shift by b bits into nr words looks at. */
  function Taken(n: nat, nr: nat, b: nat): (e: nat)
    ensures e <= n
  {
    var ishift, m := if b / 32 > nr then nr else b / 32, if n < nr then n else nr;
    if m < ishift then 0 else m - ishift
  }

  /** The operand moved up by whole words, zeros around it; words from n on are never filled. */
  function MovedUp(op: seq<word>, ishift: nat, nr: nat): (x: seq<word>)
    ensures |x| == nr
    ensures forall i :: 0 <= i < nr ==> x[i] == if ishift <= i < |op| then op[i - ishift] else 0
  {
    if nr == 0 then [] else MovedUp(op, ishift, nr - 1) + [if ishift <= nr - 1 < |op| then op[nr - 1 - ishift] else 0]
  }

  lemma MovedUpValue(op: seq<word>, ishift: nat, nr: nat)
    requires ishift <= nr
    ensures UVal(MovedUp(op, ishift, nr)) == UVal(op[..Taken(|op|, nr, 32 * ishift)]) * Weight(ishift)
  {
    hide UVal, Weight, MovedUp;
    var x, e := MovedUp(op, ishift, nr), Taken(|op|, nr, 32 * ishift);
    if e == 0 {
      UValZeros(x);
      UValZeros(op[..0]);
      assert 0 * Weight(ishift) == 0;
    } else {
      assert x == (x[..ishift] + op[..e]) + x[ishift + e..];
      UValConcat(x[..ishift] + op[..e], x[ishift + e..]);
      UValConcat(x[..ishift], op[..e]);
      UValZeros(x[..ishift]);
      UValZeros(x[ishift + e..]);
      assert 0 * Weight(|x[..ishift] + op[..e]|) == 0;
    }
  }

  /** Every word joined with the bits that spill over from the word below. */
  function Spread(x: seq<word>, s: nat): (w: seq<word>)
    requires s < 32
    ensures |w| == |x|
    ensures forall i :: 0 <= i < |x| ==> w[i] == SpreadAt(x, s, i)
    decreases |x|
  {
    if |x| == 0 then []
    else
      var n := |x| - 1;
      Spread(x[..n], s) + [SpreadAt(x, s, n)]
  }

  function SpreadAt(x: seq<word>, s: nat, i: nat): word
    requires s < 32 && i < |x|
  {
    if s == 0 then x[i] else Funnel(x[i], if i > 0 then x[i - 1] else 0, 32 - s)
  }

  /** Spread words hold the product cut to their width. */
  lemma SpreadValue(x: seq<word>, s: nat)
    requires s < 32
    ensures UVal(Spread(x, s)) == UVal(x) * Pow2(s) % Weight(|x|)
  {
    hide UVal, Weight, Pow2, Funnel, Spread, SpreadAt;
    var w := Spread(x, s);
    UValBound(w);
    if s == 0 {
      Pow2Values();
      SpreadNone(x);
      ModSmall(UVal(x), Weight(|x|));
    } else {
      forall i | 0 <= i < |x| ensures w[i] == Funnel(x[i], if i > 0 then x[i - 1] else 0, 32 - s) {
        SpreadWordIs(x, s, i);
      }
      SpreadRow(x, w, s, |w|);
      assert w[..|w|] == w && x[..|w|] == x;
      var c := if |w| > 0 then x[|w| - 1] / Pow2(32 - s) else 0;
      DivIntro(UVal(x) * Pow2(s), Weight(|w|), c, UVal(w));
    }
  }

  /** `iv_shift_l`, writing nr words of r from index off. */
  method ShiftL(op: array<word>, b: nat, r: array<word>, off: nat, nr: nat)
    requires r != op && off + nr <= r.Length
    modifies r
    ensures ShiftedTo(op[..], b, r[off..off + nr])
    ensures r[..off] == old(r[..off]) && r[off + nr..] == old(r[off + nr..])
  {
    hide UVal, Weight, Pow2, Funnel, MovedUp, Spread, SpreadAt;
    var s31 := b % 32;
    var ishift := if b / 32 > nr then nr else b / 32;
    ghost var x := MovedUp(op[..], ishift, nr);
    if s31 != 0 && ishift != nr {
      ghost var w := Spread(x, s31);
      var lw: word := 0;
      for i := 0 to nr
        invariant lw == if i > 0 then x[i - 1] else 0
        invariant r[off..off + i] == w[..i]
        invariant r[..off] == old(r[..off]) && r[off + nr..] == old(r[off + nr..])
      {
        var hw: word := if i >= ishift && i < op.Length then op[i - ishift] else 0;
        assert hw == x[i];
        SpreadWordIs(x, s31, i);
        r[off + i] := Funnel(hw, lw, 32 - s31);
        assert r[off..off + i + 1] == r[off..off + i] + [w[i]];
        lw := hw;
      }
      assert w[..nr] == w;
    } else {
      for i := 0 to nr
        invariant r[off..off + i] == x[..i]
        invariant r[..off] == old(r[..off]) && r[off + nr..] == old(r[off + nr..])
      {
        r[off + i] := if i >= ishift && i < op.Length then op[i - ishift] else 0;
        assert r[off..off + i + 1] == r[off..off + i] + [x[i]];
      }
      assert x[..nr] == x;
    }
    ShiftedValue(op[..], b, nr, r[off..off + nr], ishift);
  }

  lemma SpreadWordIs(x: seq<word>, s: nat, i: nat)
    requires 0 < s < 32 && i < |x|
    ensures Spread(x, s)[i] == Funnel(x[i], if i > 0 then x[i - 1] else 0, 32 - s)
  {
  }

  lemma ShiftedValue(op: seq<word>, b: nat, nr: nat, w: seq<word>, ishift: nat)
    requires |w| == nr && ishift == (if b / 32 > nr then nr else b / 32)
    requires w == (if b % 32 != 0 && ishift != nr then Spread(MovedUp(op, ishift, nr), b % 32) else MovedUp(op, ishift, nr))
    ensures UVal(w) == UVal(op[..Taken(|op|, nr, b)]) * Pow2(b) % Weight(nr)
  {
    hide UVal, Weight, Pow2, MovedUp, Spread;
    if ishift == nr {
      NothingTaken(op, nr, w, b);
    } else {
      if b % 32 == 0 {
        SpreadNone(MovedUp(op, ishift, nr));
      }
      ProductOfTaken(op, ishift, b % 32, nr, b);
    }
  }

  lemma ProductOfTaken(op: seq<word>, ishift: nat, s: nat, nr: nat, b: nat)
    requires ishift < nr && s < 32 && b == 32 * ishift + s
    ensures UVal(Spread(MovedUp(op, ishift, nr), s)) == UVal(op[..Taken(|op|, nr, b)]) * Pow2(b) % Weight(nr)
  {
    hide UVal, Weight, Pow2, MovedUp, Spread, Taken;
    SameTaken(|op|, nr, ishift, s, b);
    MovedUpValue(op, ishift, nr);
    SpreadValue(MovedUp(op, ishift, nr), s);
    SplitShift(UVal(op[..Taken(|op|, nr, b)]), ishift, s);
  }

  lemma SameTaken(n: nat, nr: nat, ishift: nat, s: nat, b: nat)
    requires s < 32 && b == 32 * ishift + s
    ensures Taken(n, nr, 32 * ishift) == Taken(n, nr, b)
  {
    assert b / 32 == ishift && 32 * ishift / 32 == ishift;
  }

  lemma SpreadNone(x: seq<word>)
    ensures Spread(x, 0) == x
  {
  }

  lemma SplitShift(u: int, ishift: nat, s: nat)
    ensures u * Weight(ishift) * Pow2(s) == u * Pow2(32 * ishift + s)
  {
    WeightIsPow2(ishift);
    Pow2Add(32 * ishift, s);
    hide Weight, Pow2;
    MulAssoc(u, Weight(ishift), Pow2(s));
  }

  lemma NothingTaken(op: seq<word>, nr: nat, w: seq<word>, b: nat)
    requires w == MovedUp(op, nr, nr) && nr <= b / 32
    ensures UVal(w) == UVal(op[..Taken(|op|, nr, b)]) * Pow2(b) % Weight(nr)
  {
    assert Taken(|op|, nr, b) == 0;
    hide Weight, Pow2, MovedUp;
    UValZeros(w);
    UValZeros(op[..0]);
    assert 0 * Pow2(b) == 0;
    ModSmall(0, Weight(nr));
  }

  /** Whether the low g bits of d are clear. */
  predicate Clear(d: int, g: nat) {
    d % Pow2(g) == 0
  }

  /** The operand words that a shift never looks at have no bit below place g.  Places are counted
      from the first of these words; a negative g asks for nothing. */
  predicate LowClear(s: seq<word>, g: int) {
    forall i :: 0 <= i < |s| ==> Clear(s[i], Places(g - 32 * i))
  }

  /** How many of the 32 places of a word lie below place g of it. */
  function Places(g: int): nat {
    if g < 0 then 0 else if g < 32 then g else 32
  }

  lemma ClearWord(x: word, g: int)
    ensures g <= 0 ==> Clear(x, Places(g))
    ensures 32 <= g ==> (Clear(x, Places(g)) <==> x == 0)
  {
    Pow2Values();
  }

  /** Clear low places are divisibility by the power of two. */
  lemma {:induction false} LowClearIs(s: seq<word>, g: nat)
    ensures LowClear(s, g) <==> Clear(UVal(s), g)
    decreases |s|
  {
    hide Clear, UVal, Places;
    if |s| == 0 {
      UValZeros(s);
      ZeroClear(g);
    } else {
      hide LowClear;
      var x, t := s[0], s[1..];
      assert s == [x] + t;
      UValCons(x, t);
      LowClearCons(x, t, g);
      if g <= 32 {
        LowClearNone(t, g - 32);
        LowWord(x, UVal(t), g);
      } else {
        LowClearIs(t, g - 32);
        ClearWord(x, g);
        LowWordZero(x, UVal(t), g - 32);
      }
    }
  }

  lemma ZeroClear(g: nat)
    ensures Clear(0, g)
  {
    ModSmall(0, Pow2(g));
  }

  lemma LowClearCons(x: word, t: seq<word>, g: int)
    ensures LowClear([x] + t, g) <==> Clear(x, Places(g)) && LowClear(t, g - 32)
  {
    hide Clear, Places;
    var s := [x] + t;
    if LowClear(s, g) {
      assert s[0] == x;
      forall i | 0 <= i < |t| ensures Clear(t[i], Places(g - 32 - 32 * i)) {
        assert s[i + 1] == t[i] && g - 32 * (i + 1) == g - 32 - 32 * i;
      }
    }
    if Clear(x, Places(g)) && LowClear(t, g - 32) {
      forall i | 0 <= i < |s| ensures Clear(s[i], Places(g - 32 * i)) {
        if i > 0 {
          assert s[i] == t[i - 1] && g - 32 * i == g - 32 - 32 * (i - 1);
        }
      }
    }
  }

  lemma LowClearNone(t: seq<word>, g: int)
    requires g <= 0
    ensures LowClear(t, g)
  {
    hide Clear, Places;
    forall i | 0 <= i < |t| ensures Clear(t[i], Places(g - 32 * i)) {
      ClearWord(t[i], g - 32 * i);
    }
  }

  /** Up to 32 places of a number are those of its lowest word. */
  lemma LowWord(x: word, u: int, g: nat)
    requires g <= 32
    ensures Clear(x + u * WORD, g) <==> Clear(x, Places(g))
  {
    Pow2Add(32 - g, g);
    Pow2Values();
    hide Pow2;
    MulAssoc(u, Pow2(32 - g), Pow2(g));
    ModMultiple(x, u * Pow2(32 - g), Pow2(g));
  }

  /** More places are the lowest word and the places above it. */
  lemma LowWordZero(x: word, u: int, h: nat)
    ensures Clear(x + u * WORD, 32 + h) <==> x == 0 && Clear(u, h)
  {
    Pow2Add(32, h);
    Pow2Values();
    hide Pow2;
    var p := Pow2(h);
    DivBounds(u, p);
    ScaledRemainder(u / p, u % p, WORD, p);
    MulMono(u % p, p - 1, WORD);
    MulMono(0, u % p, WORD);
    DivIntro(x + u * WORD, WORD * p, u / p, x + u % p * WORD);
  }

  lemma ScaledRemainder(q: int, r: int, w: int, p: int)
    ensures (q * p + r) * w == q * (w * p) + r * w && (p - 1) * w == w * p - w
  {
  }

  /** The unsigned product survives: the operand is at least as long as the result, or everything is
      shifted out, or no dropped bit would land in the result. */
  predicate NothingDropped(op: seq<word>, b: nat, nr: nat) {
    nr <= |op| || 32 * nr <= b || LowClear(op[Taken(|op|, nr, b)..], 32 * nr - b - 32 * Taken(|op|, nr, b))
  }

  /** The signed product survives: in addition no sign bits of a negative number are missing, which
      happens only where all words of a shorter operand are looked at. */
  predicate NoSignDropped(op: seq<word>, b: nat, nr: nat)
    requires 0 < |op|
  {
    NothingDropped(op, b, nr) && (nr <= |op| || 32 <= b || op[|op| - 1] < SIGN)
  }

  /** The words of x shifted by b, cut to nr words. */
  function Shifted(x: int, b: nat, nr: nat): (r: int)
  {
    x * Pow2(b) % Weight(nr)
  }

  /** What ShiftL leaves in the result. */
  predicate ShiftedTo(op: seq<word>, b: nat, w: seq<word>) {
    UVal(w) == Shifted(UVal(op[..Taken(|op|, |w|, b)]), b, |w|)
  }

  /** How far the words looked at reach. */
  lemma Reach(n: nat, nr: nat, b: nat)
    ensures
      var e := Taken(n, nr, b);
      && (nr <= n || 32 * nr <= b <==> 32 * nr <= 32 * e + b)
      && (nr > n && b < 32 * nr && 32 <= b && 0 < n ==> e < n)
      && (nr > n && b < 32 ==> e == n)
  {
  }

  /** The unsigned product, exactly when no bit is dropped. */
  lemma ShiftIsProductIff(op: seq<word>, b: nat, w: seq<word>)
    requires ShiftedTo(op, b, w)
    ensures UVal(w) == Shifted(UVal(op), b, |w|) <==> NothingDropped(op, b, |w|)
  {
    hide UVal, Weight, Pow2, Shifted, Taken, LowClear, Clear;
    var nr, e := |w|, Taken(|op|, |w|, b);
    Reach(|op|, nr, b);
    var g := 32 * nr - b - 32 * e;
    UnsignedResidue(op, e, b, nr);
    if 0 < g {
      LowClearIs(op[e..], g);
    }
  }

  lemma UnsignedResidue(op: seq<word>, e: nat, b: nat, nr: nat)
    requires e <= |op|
    ensures
      var g := 32 * nr - 32 * e - b;
      Shifted(UVal(op[..e]), b, nr) == Shifted(UVal(op), b, nr) <==> g <= 0 || Clear(UVal(op[e..]), g)
  {
    hide UVal, Weight, Shifted, Clear;
    UValSplit(op, e);
    Residues(UVal(op[..e]), UVal(op[e..]), e, b, nr, UVal(op));
  }

  /** Numbers that agree below word e have equal shifted residues exactly when what one has above
      would not show. */
  lemma Residues(a: int, d: int, e: nat, b: nat, nr: nat, x: int)
    requires x == a + d * Weight(e)
    ensures
      var g := 32 * nr - 32 * e - b;
      Shifted(a, b, nr) == Shifted(x, b, nr) <==> g <= 0 || Clear(d, g)
  {
    var c, m := 32 * e, 32 * nr;
    Pow2Add(c, b);
    var g: nat := if m <= c + b then c + b - m else m - c - b;
    if m <= c + b {
      Pow2Add(m, g);
    } else {
      Pow2Add(g, c + b);
    }
    hide Pow2;
    MulSum(a, d, Pow2(c), Pow2(b));
    SameResidue(a * Pow2(b), d * Pow2(c + b), Pow2(m));
    if m <= c + b {
      HighMultiple(d, Pow2(c + b), Pow2(m), Pow2(g));
    } else {
      ScaledDivides(d, Pow2(g), Pow2(c + b));
    }
  }

  lemma ScaledDivides(d: int, m: int, p: int)
    requires 0 < m && 0 < p
    ensures 0 < m * p
    ensures d * p % (m * p) == 0 <==> d % m == 0
  {
    ScaledDiv(d, m, p);
    if d % m != 0 {
      MulMono(1, d % m, p);
    }
  }

  /** The signed product, exactly when no bit and no sign bit is dropped. */
  lemma ShiftIsSignedProductIff(op: seq<word>, b: nat, w: seq<word>)
    requires 0 < |op| && 0 < |w| && ShiftedTo(op, b, w)
    ensures SVal(w) == Wrap(SVal(op) * Pow2(b), 32 * |w|) <==> NoSignDropped(op, b, |w|)
  {
    hide UVal, SVal, Weight, Pow2, Wrap, Shifted, Taken, LowClear, Clear, SignedHigh;
    var n, nr, e := |op|, |w|, Taken(|op|, |w|, b);
    Reach(n, nr, b);
    var g := 32 * nr - b - 32 * e;
    SValMatches(w, SVal(op), b);
    SignedResidue(op, e, b, nr);
    if 0 < g {
      SignedHighClear(op, e, g);
    }
  }

  /** The signed number above word e. */
  function SignedHigh(op: seq<word>, e: nat): int
    requires 0 < |op| && e <= |op|
  {
    WithSign(UVal(op[e..]), op[|op| - 1] >= SIGN, 32 * (|op| - e))
  }

  /** A number of c bits with a sign above them. */
  function WithSign(u: int, negative: bool, c: nat): int {
    if negative then u - Pow2(c) else u
  }

  lemma SignedResidue(op: seq<word>, e: nat, b: nat, nr: nat)
    requires 0 < |op| && e <= |op|
    ensures
      var g := 32 * nr - 32 * e - b;
      Shifted(UVal(op[..e]), b, nr) == Shifted(SVal(op), b, nr) <==> g <= 0 || Clear(SignedHigh(op, e), g)
  {
    hide UVal, SVal, Weight, Shifted, Clear, SignedHigh;
    SignedSplit(op, e);
    Residues(UVal(op[..e]), SignedHigh(op, e), e, b, nr, SVal(op));
  }

  lemma SignedSplit(op: seq<word>, e: nat)
    requires 0 < |op| && e <= |op|
    ensures SVal(op) == UVal(op[..e]) + SignedHigh(op, e) * Weight(e)
  {
    UValSplit(op, e);
    WeightAdd(|op| - e, e);
    assert |op| - e + e == |op|;
    WeightIsPow2(|op| - e);
    hide UVal, Weight, Pow2;
    MulMinus(UVal(op[e..]), Weight(|op| - e), Weight(e));
  }

  /** Words hold a wrapped product exactly when they are congruent to it. */
  lemma SValMatches(w: seq<word>, x: int, b: nat)
    requires 0 < |w|
    ensures SVal(w) == Wrap(x * Pow2(b), 32 * |w|) <==> UVal(w) == Shifted(x, b, |w|)
  {
    SValRange(w);
    WeightIsPow2(|w|);
    var y := x * Pow2(b);
    var k := WrapCongruent(y, 32 * |w|);
    if UVal(w) == Shifted(x, b, |w|) {
      SValIsWrap(w, y);
    }
    hide UVal, SVal, Weight, Pow2, Wrap;
  }

  /** The dropped part of a signed number does not show in g places exactly when its low places are
      clear, and there is a word that could hold the sign or none is needed. */
  lemma SignedHighClear(op: seq<word>, e: nat, g: nat)
    requires 0 < |op| && e <= |op| && 0 < g
    ensures Clear(SignedHigh(op, e), g) <==> LowClear(op[e..], g) && (e < |op| || op[|op| - 1] < SIGN)
  {
    var s, k := op[e..], |op| - e;
    var negative := op[|op| - 1] >= SIGN;
    LowClearIs(s, g);
    WeightIsPow2(k);
    UValBound(s);
    TopOfZero(s);
    if k > 0 {
      assert s[k - 1] == op[|op| - 1];
    }
    hide Pow2, UVal, Weight, LowClear, Clear, WithSign;
    if g <= 32 * k {
      SignAbove(UVal(s), negative, 32 * k, g);
    } else {
      SignWithin(UVal(s), negative, 32 * k, g);
    }
  }

  lemma SignAbove(u: int, negative: bool, c: nat, g: nat)
    requires g <= c
    ensures Clear(WithSign(u, negative, c), g) <==> Clear(u, g)
  {
    Pow2Add(c - g, g);
    hide Pow2;
    var h, m := Pow2(c - g), Pow2(g);
    MulNeg(h, m);
    ModMultiple(u, -h, m);
  }

  lemma SignWithin(u: int, negative: bool, c: nat, g: nat)
    requires c < g && 0 <= u < Pow2(c)
    ensures Clear(u, g) <==> u == 0
    ensures Clear(WithSign(u, negative, c), g) <==> u == 0 && !negative
  {
    Pow2Mono(c, g);
    hide Pow2;
    SmallMultiple(u, Pow2(g));
    SmallMultiple(u - Pow2(c), Pow2(g));
  }

  lemma TopOfZero(s: seq<word>)
    ensures UVal(s) == 0 && 0 < |s| ==> s[|s| - 1] == 0
  {
    if UVal(s) == 0 {
      UValZeroWords(s);
    }
  }

  lemma SmallMultiple(d: int, m: int)
    requires -m < d < m
    ensures d % m == 0 <==> d == 0
  {
    if 0 <= d {
      ModSmall(d, m);
    } else {
      ModMultiple(d, 1, m);
      ModSmall(d + m, m);
    }
  }

  lemma SameResidue(x: int, y: int, m: int)
    requires 0 < m
    ensures x % m == (x + y) % m <==> y % m == 0
  {
    DivBounds(x, m);
    DivBounds(y, m);
    DivBounds(x + y, m);
    var k, j := y / m, (x + y) / m - x / m;
    MulMinus((x + y) / m, x / m, m);
    if y % m == 0 {
      ModMultiple(x, k, m);
    } else if x % m == (x + y) % m {
      DivIntro(y, m, j, 0);
    }
  }

  /** It does so whenever the result is no longer than the operand, or the shift is below 32 and, for
      the signed product, the number is not negative. */
  lemma ShiftIsProduct(op: seq<word>, b: nat, w: seq<word>)
    requires 0 < |w| && 0 < |op| && ShiftedTo(op, b, w)
    ensures |w| <= |op| || b < 32 ==> UVal(w) == UVal(op) * Pow2(b) % Weight(|w|)
    ensures |w| <= |op| || (b < 32 && op[|op| - 1] < SIGN) ==> SVal(w) == Wrap(SVal(op) * Pow2(b), 32 * |w|)
  {
    ShiftIsProductIff(op, b, w);
    ShiftIsSignedProductIff(op, b, w);
    Reach(|op|, |w|, b);
    hide UVal, SVal, Weight, Pow2, Wrap;
  }

  lemma HighMultiple(d: int, x: int, m: int, k: int)
    requires 0 < m && x == m * k
    ensures d * x % m == 0
  {
    assert d * (m * k) == (d * k) * m;
    DivIntro(d * x, m, d * k, 0);
  }

  /** A result longer than the operand loses words that a shift by 32 moves past the operand's own length. */
  lemma LongShiftExample(w: seq<word>)
    requires |w| == 2 && ShiftedTo([1], 32, w)
    ensures UVal(w) == 0 && Shifted(UVal([1]), 32, 2) == WORD
  {
    hide UVal, Shifted, Taken;
    assert Taken(1, 2, 32) == 0 && [1][..0] == [] by {
      ShiftOfOne();
    }
    UValZeros([]);
    OneWord([1], 1);
    Pow2Values();
    FitsTwoWords(0, 32, 0);
    FitsTwoWords(1, 32, WORD);
  }

  lemma ShiftOfOne()
    ensures Taken(1, 2, 32) == 0 && [1][..0] == [] && Taken(1, 2, 1) == 1
  {
  }

  /** Minus one shifted by one place into two words is 2^33 - 2, for want of sign bits. */
  lemma NegativeShiftExample(w: seq<word>)
    requires |w| == 2 && ShiftedTo([WORD - 1], 1, w)
    ensures SVal(w) == 2 * WORD - 2 && Wrap(SVal([WORD - 1]) * Pow2(1), 64) == -2
  {
    hide UVal, SVal, Shifted, Taken, Pow2, Wrap, Weight;
    var s: seq<word> := [WORD - 1];
    ShiftOfOne();
    assert s[..1] == s;
    OneWord(s, -1);
    Pow2Values();
    FitsTwoWords(WORD - 1, 1, 2 * WORD - 2);
    LongNumbers(s);
    SValIsWrap(w, 2 * WORD - 2);
  }

  /** The product fits two words. */
  lemma FitsTwoWords(x: int, b: nat, y: int)
    requires x * Pow2(b) == y && 0 <= y < WORD * WORD
    ensures Shifted(x, b, 2) == y && y % Weight(2) == y
  {
    WeightNext(0);
    WeightNext(1);
    hide Weight;
    ModSmall(y, Weight(2));
  }

  lemma LongNumbers(s: seq<word>)
    requires s == [WORD - 1]
    ensures SVal(s) == -1 && Wrap(-2, 64) == -2 && Wrap(2 * WORD - 2, 64) == 2 * WORD - 2
  {
    OneWord(s, -1);
    Pow2Values();
    Pow2Add(31, 32);
    hide Pow2, Wrap, SVal;
    WrapFits(-1, 32);
    WrapFits(-2, 64);
    WrapFits(2 * WORD - 2, 64);
  }

  // ---- Slice update ----

  /** v with its bits [lsb, lsb + ws) replaced by the low ws bits of o. */
  function Replaced(v: int, lsb: nat, ws: nat, o: int): int {
    (v / Pow2(lsb + ws)) * Pow2(lsb + ws) + (o % Pow2(ws)) * Pow2(lsb) + v % Pow2(lsb)
  }

  method SetSlc(v: array<word>, lsb: nat, ws: nat, op2: array<word>)
    requires v != op2 && 1 <= ws && lsb + ws <= 32 * v.Length && op2.Length == (31 + ws) / 32
    modifies v
    ensures UVal(v[..]) == Replaced(UVal(old(v[..])), lsb, ws, UVal(op2[..]))
  {
    var msb := lsb + ws - 1;
    var lsbV, lsbB, msbV, msbB := lsb / 32, lsb % 32, msb / 32, msb % 32;
    SliceWords(lsb, ws, op2.Length, lsbV, lsbB, msbV, msbB);
    assert lsb == 32 * lsbV + lsbB;
    hide *;
    ReplaceWords(v, lsb, ws, lsbV, lsbB, msbV, msbB, op2);
  }

  /** The words of the slice, given where it starts and ends. */
  method ReplaceWords(v: array<word>, ghost lsb: nat, ghost ws: nat, lsbV: nat, lsbB: nat, msbV: nat, msbB: nat, op2: array<word>)
    requires v != op2 && 1 <= op2.Length && msbV < v.Length && lsbB < 32 && msbB < 32 && 1 <= ws
    requires lsbV + op2.Length - 1 <= msbV <= lsbV + op2.Length && (msbV == lsbV + op2.Length ==> 0 < lsbB)
    requires lsb == 32 * lsbV + lsbB && lsbB + ws == 32 * (msbV - lsbV) + msbB + 1
    modifies v
    ensures UVal(v[..]) == Replaced(UVal(old(v[..])), lsb, ws, UVal(op2[..]))
  {
    hide *;
    var n2 := op2.Length;
    ghost var s := v[..];
    ghost var c := msbV - lsbV + 1;
    QuotientInRange(v[msbV], Pow2(msbB + 1));
    var msbKept: int := v[msbV] - v[msbV] % Pow2(msbB + 1);
    var lsbKept: int := v[lsbV] % Pow2(lsbB);
    ShiftL(op2, lsbB, v, lsbV, n2);
    ghost var shifted := v[lsbV..lsbV + n2];
    if msbV - lsbV == n2 {
      SpillWord(op2[n2 - 1], lsbB);
      v[msbV] := op2[n2 - 1] / 2 / Pow2(31 - lsbB);
    }
    ghost var f := v[lsbV..lsbV + c];
    assert f[..n2] == shifted;
    assert v[..] == s[..lsbV] + f + s[lsbV + c..];
    ShiftedSlice(op2[..], lsbB, f);
    MergeFits(f, s[lsbV..lsbV + c], lsbB, msbB + 1, ws, UVal(op2[..]));
    MergeWords(v, lsbV, msbV, lsbB, msbB, lsbKept, msbKept, s[lsbV..lsbV + c]);
    ghost var f2 := MergedWords(f, s[lsbV..lsbV + c], lsbB, msbB + 1);
    assert v[..] == s[..lsbV] + f2 + s[lsbV + c..];
    SliceDone(s, f2, lsbV, c, lsb, lsbB, ws, UVal(op2[..]));
  }

  /** Clears what the shift left above the slice and brings back the bits kept at both ends. */
  method MergeWords(v: array<word>, lsbV: nat, msbV: nat, lsbB: nat, msbB: nat, lsbKept: int, msbKept: int, ghost was: seq<word>)
    requires lsbV <= msbV < v.Length && |was| == msbV - lsbV + 1
    requires msbKept == was[msbV - lsbV] as int - was[msbV - lsbV] % Pow2(msbB + 1) && lsbKept == was[0] % Pow2(lsbB)
    requires 0 <= TopMerged(v[lsbV..msbV + 1], was, msbB + 1) < WORD
    requires 0 <= FirstMerged(v[lsbV..msbV + 1], was, lsbB, msbB + 1) < WORD
    modifies v
    ensures v[..] == old(v[..lsbV]) + MergedWords(old(v[lsbV..msbV + 1]), was, lsbB, msbB + 1) + old(v[msbV + 1..])
  {
    hide Pow2;
    QuotientInRange(v[msbV], Pow2(msbB + 1));
    v[msbV] := v[msbV] % Pow2(msbB + 1);
    v[msbV] := v[msbV] + msbKept;
    v[lsbV] := v[lsbV] + lsbKept;
  }

  /** Which words the slice spans. */
  lemma SliceWords(lsb: nat, ws: nat, n2: nat, lsbV: nat, lsbB: nat, msbV: nat, msbB: nat)
    requires 1 <= ws && n2 == (31 + ws) / 32
    requires lsbV == lsb / 32 && lsbB == lsb % 32 && msbV == (lsb + ws - 1) / 32 && msbB == (lsb + ws - 1) % 32
    ensures lsbV + n2 - 1 <= msbV <= lsbV + n2 && 1 <= n2
    ensures lsbB + ws == 32 * (msbV - lsbV) + msbB + 1
    ensures msbV == lsbV + n2 ==> 0 < lsbB
  {
  }

  lemma SpillWord(x: word, b: nat)
    requires 0 < b < 32
    ensures 0 <= x / 2 / Pow2(31 - b) < WORD && x / 2 / Pow2(31 - b) == x / Pow2(32 - b)
  {
    DivDiv(x, 2, Pow2(31 - b));
    assert Pow2(32 - b) == 2 * Pow2(31 - b);
    hide Pow2;
    QuotientInRange(x, Pow2(32 - b));
  }

  lemma QuotientInRange(x: int, p: int)
    requires 0 <= x && 0 < p
    ensures 0 <= x / p <= x && 0 <= x % p <= x
  {
    DivBounds(x, p);
    if x / p < 0 {
      MulMono(x / p + 1, 0, p);
    }
    MulMono(1, p, x / p);
    MulMono(0, x / p, p);
    assert p * (x / p) == (x / p) * p;
  }

  /** The operand shifted into place, with the word it spills into if there is one. */
  lemma ShiftedSlice(op: seq<word>, b: nat, f: seq<word>)
    requires 0 < |op| <= |f| <= |op| + 1 && b < 32
    requires ShiftedTo(op, b, f[..|op|])
    requires |f| == |op| + 1 ==> 0 < b && f[|op|] == op[|op| - 1] / Pow2(32 - b)
    ensures UVal(f) == UVal(op) * Pow2(b) % Weight(|f|)
  {
    ShiftIsProduct(op, b, f[..|op|]);
    hide UVal, Weight, Pow2;
    var n := |op|;
    if |f| == n {
      assert f[..n] == f;
    } else {
      assert f == f[..n] + [f[n]];
      UValSnoc(f[..n], f[n]);
      Spilled(op, b);
      DivBounds(UVal(op) * Pow2(b), Weight(n));
      UValBound(f);
      ModSmall(UVal(f), Weight(n + 1));
    }
  }

  /** What a shift by b spills over the top word. */
  lemma Spilled(op: seq<word>, b: nat)
    requires 0 < |op| && 0 < b < 32
    ensures UVal(op) * Pow2(b) / Weight(|op|) == op[|op| - 1] / Pow2(32 - b)
  {
    var n := |op| - 1;
    UValLast(op);
    Pow2Add(b, 32 - b);
    WeightNext(n);
    Pow2Values();
    hide UVal, Weight, Pow2;
    DivDiv(UVal(op), Weight(n), Pow2(32 - b));
    RegroupWord(Weight(n), Pow2(b), Pow2(32 - b));
    ScaledDiv(UVal(op), Weight(n) * Pow2(32 - b), Pow2(b));
  }

  lemma RegroupWord(w: int, p: int, q: int)
    requires p * q == WORD
    ensures WORD * w == (w * q) * p
  {
    assert (w * q) * p == w * (p * q);
  }

  // ---- Merging with the bits that stay ----

  /** Cutting the top word to k bits cuts the number. */
  lemma CutTop(f: seq<word>, k: nat)
    requires 0 < |f| && k <= 32
    ensures var c := |f| - 1;
      (f[c] - f[c] % Pow2(k)) * Weight(c) == UVal(f) - UVal(f) % Pow2(32 * c + k)
  {
    hide UVal, Weight, Pow2;
    var c := |f| - 1;
    UValBound(f[..c]);
    WeightIsPow2(c);
    Pow2Add(k, 32 * c);
    assert k + 32 * c == 32 * c + k;
    assert f == f[..c] + [f[c]];
    UValSnoc(f[..c], f[c]);
    CutWord(UVal(f[..c]), f[c], Pow2(k), Weight(c));
  }

  lemma CutWord(low: int, x: int, p: int, w: int)
    requires 0 <= low < w && 0 < p
    ensures 0 < p * w && (x - x % p) * w == (low + x * w) - (low + x * w) % (p * w)
  {
    DivBounds(x, p);
    var q, r := x / p, x % p;
    MulMono(1, p, w);
    assert x * w == q * (p * w) + r * w by {
      assert (q * p + r) * w == q * (p * w) + r * w;
    }
    MulMono(0, r, w);
    MulMono(r + 1, p, w);
    assert (r + 1) * w == r * w + w;
    DivIntro(low + x * w, p * w, q, low + r * w);
    assert (q * p) * w == q * (p * w);
  }

  /** The lowest b bits of a number are those of its first word. */
  lemma FirstWord(f: seq<word>, b: nat)
    requires 0 < |f| && b <= 32
    ensures UVal(f) % Pow2(b) == f[0] % Pow2(b)
  {
    hide UVal, Weight, Pow2;
    HeadAndRest(f);
    Pow2Add(32 - b, b);
    Pow2Values();
    MulAssoc(UVal(f[1..]), Pow2(32 - b), Pow2(b));
    ModMultiple(f[0], UVal(f[1..]) * Pow2(32 - b), Pow2(b));
  }

  lemma HeadAndRest(f: seq<word>)
    requires 0 < |f|
    ensures UVal(f) == f[0] + UVal(f[1..]) * WORD
  {
    assert f == [f[0]] + f[1..];
    UValCons(f[0], f[1..]);
  }

  function TopMerged(f: seq<word>, was: seq<word>, k: nat): int
    requires 0 < |f| == |was|
  {
    var c := |f| - 1;
    f[c] % Pow2(k) + ((was[c] as int) - was[c] % Pow2(k))
  }

  function FirstMerged(f: seq<word>, was: seq<word>, b: nat, k: nat): int
    requires 0 < |f| == |was|
  {
    (if |f| == 1 then TopMerged(f, was, k) else f[0]) + was[0] % Pow2(b)
  }

  /** The words written: the slice below bit k of the top word, with the old bits above it and below bit b. */
  ghost function MergedWords(f: seq<word>, was: seq<word>, b: nat, k: nat): seq<word>
    requires 0 < |f| == |was|
  {
    if 0 <= TopMerged(f, was, k) < WORD && 0 <= FirstMerged(f, was, b, k) < WORD then
      f[|f| - 1 := TopMerged(f, was, k)][0 := FirstMerged(f, was, b, k)]
    else f
  }

  /** Nothing overlaps, so adding the kept bits is or-ing them, and the merged words hold the replaced number. */
  lemma MergeFits(f: seq<word>, was: seq<word>, b: nat, k: nat, ws: nat, o: nat)
    requires 0 < |f| == |was| && b < 32 && 1 <= k <= 32 && 1 <= ws && b + ws == 32 * (|f| - 1) + k
    requires UVal(f) == o * Pow2(b) % Weight(|f|)
    ensures 0 <= TopMerged(f, was, k) < WORD && 0 <= FirstMerged(f, was, b, k) < WORD
    ensures UVal(MergedWords(f, was, b, k)) == Replaced(UVal(was), b, ws, o)
  {
    hide UVal, Weight, Pow2, Replaced, TopMerged, FirstMerged, MergedWords;
    MergeStart(f, was, b, k, ws, o);
    var f1 := f[|f| - 1 := TopMerged(f, was, k)];
    FirstWord(was, b);
    UValUpdate(f1, 0, FirstMerged(f, was, b, k));
    MergedValue(f, was, b, k, f1);
    ReplacedIs(UVal(was), b, ws, o);
  }

  /** The top word merged: the slice and what lies above it, with room for what lies below. */
  lemma MergeStart(f: seq<word>, was: seq<word>, b: nat, k: nat, ws: nat, o: nat)
    requires 0 < |f| == |was| && b < 32 && 1 <= k <= 32 && 1 <= ws && b + ws == 32 * (|f| - 1) + k
    requires UVal(f) == o * Pow2(b) % Weight(|f|)
    ensures 0 <= TopMerged(f, was, k) < WORD && 0 <= FirstMerged(f, was, b, k) < WORD
    ensures
      UVal(f[|f| - 1 := TopMerged(f, was, k)])
      == (o % Pow2(ws)) * Pow2(b) + (UVal(was) - UVal(was) % Pow2(b + ws))
  {
    hide UVal, Weight, Pow2, TopMerged, FirstMerged;
    TopFits(f, was, k);
    TopValue(f, was, k);
    KeptSlice(UVal(f), o, b, ws, |f|);
    LowPartFree(UVal(was), o, b, ws);
    FirstWord(f[|f| - 1 := TopMerged(f, was, k)], b);
    FirstFits(f, was, b, k);
  }

  lemma TopFits(f: seq<word>, was: seq<word>, k: nat)
    requires 0 < |f| == |was| && 1 <= k <= 32
    ensures 0 <= TopMerged(f, was, k) < WORD
  {
    Pow2Add(k, 32 - k);
    Pow2Values();
    hide Pow2;
    var x, y, p := f[|f| - 1], was[|f| - 1], Pow2(k);
    DivBounds(y, p);
    DivBounds(x, p);
    HighPart(y, p, Pow2(32 - k));
    MulMono(y / p + 1, Pow2(32 - k), p);
    MoveUnit(y / p, p);
    MulMono(0, y / p, p);
    assert Pow2(32 - k) * p == p * Pow2(32 - k);
  }

  /** The number after the top word was merged. */
  lemma TopValue(f: seq<word>, was: seq<word>, k: nat)
    requires 0 < |f| == |was| && 1 <= k <= 32 && 0 <= TopMerged(f, was, k) < WORD
    ensures
      var h := 32 * (|f| - 1) + k;
      UVal(f[|f| - 1 := TopMerged(f, was, k)]) == UVal(f) % Pow2(h) + (UVal(was) - UVal(was) % Pow2(h))
  {
    var c := |f| - 1;
    CutTop(f, k);
    CutTop(was, k);
    UValUpdate(f, c, TopMerged(f, was, k));
    hide UVal, Weight, Pow2;
    TopDifference(f[c] % Pow2(k), f[c], was[c], was[c] % Pow2(k), Weight(c));
  }

  lemma TopDifference(x: int, y: int, z: int, u: int, w: int)
    ensures (x + (z - u) - y) * w == (z - u) * w - (y - x) * w
  {
  }

  /** The low h bits of the shifted operand are the slice in place. */
  lemma KeptSlice(u: int, o: nat, b: nat, ws: nat, c: nat)
    requires b + ws <= 32 * c && u == o * Pow2(b) % Weight(c)
    ensures u % Pow2(b + ws) == (o % Pow2(ws)) * Pow2(b)
  {
    WeightIsPow2(c);
    Pow2Add(b + ws, 32 * c - (b + ws));
    Pow2Add(ws, b);
    assert ws + b == b + ws;
    hide Weight, Pow2;
    NestedMod(o * Pow2(b), Pow2(b + ws), Pow2(32 * c - (b + ws)));
    ScaledDiv(o, Pow2(ws), Pow2(b));
  }

  /** Below bit b the merged top and the slice are empty. */
  lemma LowPartFree(v: int, o: nat, b: nat, ws: nat)
    ensures ((o % Pow2(ws)) * Pow2(b) + (v - v % Pow2(b + ws))) % Pow2(b) == 0
  {
    Pow2Add(ws, b);
    assert ws + b == b + ws;
    hide Pow2;
    DivBounds(v, Pow2(b + ws));
    MulAssoc(v / Pow2(b + ws), Pow2(ws), Pow2(b));
    var n := o % Pow2(ws) + v / Pow2(b + ws) * Pow2(ws);
    assert n * Pow2(b) == (o % Pow2(ws)) * Pow2(b) + v / Pow2(b + ws) * Pow2(ws) * Pow2(b);
    DivIntro(n * Pow2(b), Pow2(b), n, 0);
  }

  /** A word with its low b bits clear has room for b more bits. */
  lemma FirstFits(f: seq<word>, was: seq<word>, b: nat, k: nat)
    requires 0 < |f| == |was| && b < 32 && 0 <= TopMerged(f, was, k) < WORD
    requires (f[|f| - 1 := TopMerged(f, was, k)])[0] % Pow2(b) == 0
    ensures 0 <= FirstMerged(f, was, b, k) < WORD
  {
    Pow2Add(b, 32 - b);
    Pow2Values();
    hide Pow2, TopMerged;
    var x: int := (f[|f| - 1 := TopMerged(f, was, k)])[0];
    RoomBelow(x, was[0], Pow2(b), Pow2(32 - b));
  }

  lemma RoomBelow(x: int, y: int, p: int, q: int)
    requires 0 < p && 0 < q && p * q == WORD && 0 <= x < WORD && x % p == 0
    ensures 0 <= x + y % p < WORD
  {
    DivBounds(x, p);
    HighPart(x, p, q);
    MulMono(x / p + 1, q, p);
    MoveUnit(x / p, p);
    assert q * p == p * q;
  }

  lemma MergedValue(f: seq<word>, was: seq<word>, b: nat, k: nat, f1: seq<word>)
    requires 0 < |f| == |was| && b < 32
    requires 0 <= TopMerged(f, was, k) < WORD && 0 <= FirstMerged(f, was, b, k) < WORD
    requires f1 == f[|f| - 1 := TopMerged(f, was, k)]
    requires UVal(f1[0 := FirstMerged(f, was, b, k)]) == UVal(f1) + (FirstMerged(f, was, b, k) - f1[0]) * Weight(0)
    ensures UVal(MergedWords(f, was, b, k)) == UVal(f1) + was[0] % Pow2(b)
  {
    WeightNext(0);
    hide UVal, Weight, Pow2, TopMerged;
  }

  lemma ReplacedIs(v: int, b: nat, ws: nat, o: nat)
    ensures Replaced(v, b, ws, o) == (o % Pow2(ws)) * Pow2(b) + (v - v % Pow2(b + ws)) + v % Pow2(b)
  {
    hide Pow2;
    DivBounds(v, Pow2(b + ws));
  }

  /** Replacing bits of a stretch of words replaces the bits of the whole number. */
  lemma SliceDone(s: seq<word>, f: seq<word>, a: nat, c: nat, lsb: nat, b: nat, ws: nat, o: nat)
    requires a + c <= |s| && |f| == c && lsb == 32 * a + b && b + ws <= 32 * c
    requires UVal(f) == Replaced(UVal(s[a..a + c]), b, ws, o)
    ensures UVal(s[..a] + f + s[a + c..]) == Replaced(UVal(s), lsb, ws, o)
  {
    hide UVal, Weight, Pow2, Replaced;
    var mid := UVal(s[a..a + c]);
    assert s == s[..a] + s[a..a + c] + s[a + c..];
    ThreeParts(s[..a], s[a..a + c], s[a + c..]);
    ThreeParts(s[..a], f, s[a + c..]);
    UValBound(s[..a]);
    WeightIsPow2(a);
    WeightIsPow2(c);
    Pow2Add(32 * a, b);
    Pow2Add(32 * a, b + ws);
    Pow2Add(b + ws, 32 * c - (b + ws));
    Pow2Add(b, 32 * c - b);
    assert 32 * a + (b + ws) == lsb + ws;
    ReplacedIs(mid, b, ws, o);
    ReplacedIs(UVal(s), lsb, ws, o);
    var low, high := UVal(s[..a]), UVal(s[a + c..]);
    LowBitsOf(low, mid, high, Weight(a), Weight(c), Pow2(b), Pow2(32 * c - b));
    LowBitsOf(low, mid, high, Weight(a), Weight(c), Pow2(b + ws), Pow2(32 * c - (b + ws)));
    SpreadSlice(o % Pow2(ws), Weight(a), Pow2(b), mid, mid % Pow2(b + ws), mid % Pow2(b), UVal(f));
  }

  lemma ThreeParts(x: seq<word>, y: seq<word>, z: seq<word>)
    ensures UVal(x + y + z) == UVal(x) + UVal(y) * Weight(|x|) + UVal(z) * (Weight(|x|) * Weight(|y|))
  {
    UValConcat(x + y, z);
    UValConcat(x, y);
    WeightAdd(|x|, |y|);
  }

  /** The low bits of a number taken apart at a word boundary. */
  lemma LowBitsOf(low: int, mid: int, high: int, wa: int, wc: int, p: int, q: int)
    requires 0 <= low < wa && 0 < p && 0 < q && wc == p * q
    ensures 0 < wa * p
    ensures (low + mid * wa + high * (wa * wc)) % (wa * p) == low + (mid % p) * wa
  {
    MulMono(1, wa, p);
    DivBounds(mid, p);
    var d, r := mid / p, mid % p;
    assert mid * wa == d * (wa * p) + r * wa by {
      assert (d * p + r) * wa == d * (wa * p) + r * wa;
    }
    assert high * (wa * (p * q)) == (high * q) * (wa * p);
    assert (d + high * q) * (wa * p) == d * (wa * p) + (high * q) * (wa * p);
    MulMono(0, r, wa);
    MulMono(r + 1, p, wa);
    MoveUnit(r, wa);
    assert p * wa == wa * p;
    DivIntro(low + mid * wa + high * (wa * wc), wa * p, d + high * q, low + r * wa);
  }

  lemma SpreadSlice(n: int, wa: int, p: int, mid: int, a: int, b: int, f: int)
    requires f == n * p + (mid - a) + b
    ensures f * wa == n * (wa * p) + mid * wa - a * wa + b * wa
  {
    assert (n * p + (mid - a) + b) * wa == (n * p) * wa + (mid - a) * wa + b * wa;
    assert (mid - a) * wa == mid * wa - a * wa;
    assert (n * p) * wa == n * (wa * p);
  }

  // ---- What a slice update means bit by bit ----

  /** Bits a.. of width n. */
  function Slice(v: int, a: nat, n: nat): int {
    (v / Pow2(a)) % Pow2(n)
  }

  /** The parts of a replaced number. */
  lemma ReplacedParts(v: int, lsb: nat, ws: nat, o: int)
    ensures
      var r := Replaced(v, lsb, ws, o);
      && r % Pow2(lsb) == v % Pow2(lsb)
      && r / Pow2(lsb) == (v / Pow2(lsb + ws)) * Pow2(ws) + o % Pow2(ws)
      && r / Pow2(lsb + ws) == v / Pow2(lsb + ws)
  {
    Pow2Add(lsb, ws);
    Pow2Add(ws, lsb);
    hide Pow2;
    DivBounds(v, Pow2(lsb));
    DivBounds(o, Pow2(ws));
    var hi, m, low, p, q := v / Pow2(lsb + ws), o % Pow2(ws), v % Pow2(lsb), Pow2(lsb), Pow2(ws);
    assert hi * (p * q) + m * p + low == (hi * q + m) * p + low by {
      assert (hi * q + m) * p == (hi * q) * p + m * p;
      assert (hi * q) * p == hi * (p * q);
    }
    DivIntro(Replaced(v, lsb, ws, o), p, hi * q + m, low);
    DivDiv(Replaced(v, lsb, ws, o), p, q);
    DivIntro(hi * q + m, q, hi, m);
  }

  // ---- Slice read ----

  /** `iv_shift_r`: the signed number divided by 2^b and rounded down, in any number of words. */
  method ShiftR(op: array<word>, b: nat, r: array<word>)
    requires r != op && 0 < op.Length && 0 < r.Length
    modifies r
    ensures SVal(r[..]) == Wrap(SVal(op[..]) / Pow2(b), 32 * r.Length)
  {
    hide SVal, UVal, Wrap, Weight, Pow2, Funnel;
    var n := op.Length;
    var s31 := b % 32;
    var ishift := if b / 32 > n then n else b / 32;
    var ext := Extension(op[n - 1] >= SIGN);
    if s31 != 0 && ishift != n {
      var lw := if ishift < n then op[ishift] else ext;
      for i := 0 to r.Length
        invariant lw == ExtWord(op[..], i + ishift)
        invariant forall j :: 0 <= j < i ==>
          r[j] == Funnel(ExtWord(op[..], j + ishift + 1), ExtWord(op[..], j + ishift), s31)
      {
        var hw := if i + ishift + 1 < n then op[i + ishift + 1] else ext;
        r[i] := Funnel(hw, lw, s31);
        lw := hw;
      }
      ShiftedRight(op[..], ishift, s31, r[..]);
    } else {
      for i := 0 to r.Length
        invariant forall j :: 0 <= j < i ==> r[j] == ExtWord(op[..], j + ishift)
      {
        r[i] := if i + ishift < n then op[i + ishift] else ext;
      }
      ShiftedWords(op[..], b, ishift, r[..]);
    }
  }

  /** `slc`: ws bits from lsb on, as a signed or unsigned number of that width. */
  method Slc(v: array<word>, lsb: nat, ws: nat, s: bool, r: array<word>)
    requires r != v && 0 < v.Length && 1 <= ws && r.Length == WordsFor(ws, s)
    modifies r
    ensures SVal(r[..]) == Adjusted(SVal(v[..]) / Pow2(lsb), ws, s)
    ensures lsb + ws <= 32 * v.Length ==> SVal(r[..]) == Adjusted(Slice(UVal(v[..]), lsb, ws), ws, s)
  {
    hide SVal, UVal, Wrap, Weight, Pow2, Slice, Adjusted, TopAdjusted;
    ShiftR(v, lsb, r);
    ghost var shifted := r[..];
    r[r.Length - 1] := TopAdjusted(r[r.Length - 1], ws, s);
    BitAdjusted(shifted, r[..], ws, s);
    AdjustedWraps(SVal(v[..]) / Pow2(lsb), 32 * r.Length, ws, s);
    if lsb + ws <= 32 * v.Length {
      SignedSlice(v[..], lsb, ws, s);
    }
  }

  lemma AdjustedCongruent(x: int, y: int, w: nat, s: bool)
    requires 0 < w && x % Pow2(w) == y % Pow2(w)
    ensures Adjusted(x, w, s) == Adjusted(y, w, s)
  {
  }

  /** Wrapping to whole words first changes nothing. */
  lemma AdjustedWraps(x: int, n: nat, w: nat, s: bool)
    requires 0 < w <= n
    ensures Adjusted(Wrap(x, n), w, s) == Adjusted(x, w, s)
  {
    hide Pow2, Wrap, Adjusted;
    var k := WrapCongruent(x, n);
    Pow2Add(n - w, w);
    MulAssoc(k, Pow2(n - w), Pow2(w));
    ModMultiple(x, k * Pow2(n - w), Pow2(w));
    AdjustedCongruent(Wrap(x, n), x, w, s);
  }

  /** Bits inside the words are the same in the signed and the unsigned reading. */
  lemma SignedSlice(v: seq<word>, lsb: nat, ws: nat, s: bool)
    requires 0 < |v| && 1 <= ws && lsb + ws <= 32 * |v|
    ensures Adjusted(SVal(v) / Pow2(lsb), ws, s) == Adjusted(Slice(UVal(v), lsb, ws), ws, s)
  {
    hide Pow2, SVal, UVal, Adjusted, Wrap;
    SValRange(v);
    UValBound(v);
    WeightIsPow2(|v|);
    ModSmall(UVal(v), Weight(|v|));
    SliceBelow(SVal(v), UVal(v), lsb, ws, 32 * |v|);
    SliceTwice(UVal(v), lsb, ws);
    AdjustedCongruent(SVal(v) / Pow2(lsb), Slice(UVal(v), lsb, ws), ws, s);
  }

  lemma SliceTwice(v: int, a: nat, n: nat)
    ensures Slice(v, a, n) % Pow2(n) == Slice(v, a, n)
  {
    ModSmall(Slice(v, a, n), Pow2(n));
  }

  /** Writing a slice and reading it gives the low ws bits that were written. */
  method WriteThenRead(v: array<word>, lsb: nat, ws: nat, op2: array<word>, s: bool, r: array<word>)
    requires v != op2 && r != v && 1 <= ws && lsb + ws <= 32 * v.Length && op2.Length == (31 + ws) / 32
    requires r.Length == WordsFor(ws, s)
    modifies v, r
    ensures UVal(v[..]) == Replaced(UVal(old(v[..])), lsb, ws, UVal(old(op2[..])))
    ensures SVal(r[..]) == Adjusted(UVal(old(op2[..])), ws, s)
  {
    hide SVal, UVal, Pow2, Slice, Adjusted, Replaced;
    ghost var was := UVal(v[..]);
    SetSlc(v, lsb, ws, op2);
    Slc(v, lsb, ws, s, r);
    ReadBack(was, lsb, ws, UVal(old(op2[..])));
    LowBitsAdjusted(UVal(old(op2[..])), ws, s);
  }

  lemma LowBitsAdjusted(o: int, ws: nat, s: bool)
    requires 0 < ws
    ensures Adjusted(o % Pow2(ws), ws, s) == Adjusted(o, ws, s)
  {
    hide Pow2, Adjusted;
    ModSmall(o % Pow2(ws), Pow2(ws));
    AdjustedCongruent(o % Pow2(ws), o, ws, s);
  }

  /** The slice reads back what was written. */
  lemma ReadBack(v: int, lsb: nat, ws: nat, o: int)
    ensures Slice(Replaced(v, lsb, ws, o), lsb, ws) == o % Pow2(ws)
  {
    ReplacedParts(v, lsb, ws, o);
    hide Pow2, Replaced;
    DivBounds(o, Pow2(ws));
    DivIntro((v / Pow2(lsb + ws)) * Pow2(ws) + o % Pow2(ws), Pow2(ws), v / Pow2(lsb + ws), o % Pow2(ws));
  }

  /** A slice that does not overlap is untouched. */
  lemma DisjointSlice(v: int, lsb: nat, ws: nat, o: int, a: nat, n: nat)
    requires a + n <= lsb || lsb + ws <= a
    ensures Slice(Replaced(v, lsb, ws, o), a, n) == Slice(v, a, n)
  {
    ReplacedParts(v, lsb, ws, o);
    hide Pow2, Replaced;
    var r := Replaced(v, lsb, ws, o);
    if a + n <= lsb {
      SliceBelow(r, v, a, n, lsb);
    } else {
      SliceAbove(r, v, a, lsb + ws);
    }
  }

  lemma SliceBelow(r: int, v: int, a: nat, n: nat, lsb: nat)
    requires a + n <= lsb && r % Pow2(lsb) == v % Pow2(lsb)
    ensures Slice(r, a, n) == Slice(v, a, n)
  {
    Pow2Add(a + n, lsb - (a + n));
    Pow2Add(a, n);
    hide Pow2;
    LowSlice(r, Pow2(a), Pow2(n), Pow2(lsb - (a + n)));
    LowSlice(v, Pow2(a), Pow2(n), Pow2(lsb - (a + n)));
  }

  /** A slice depends on the bits below its end only. */
  lemma LowSlice(x: int, a: int, n: int, h: int)
    requires 0 < a && 0 < n && 0 < h
    ensures 0 < a * n * h && (x / a) % n == ((x % (a * n * h)) / a) % n
  {
    MulMono(1, a, n);
    MulMono(1, a * n, h);
    var m := a * n * h;
    DivBounds(x, m);
    var k, r := x / m, x % m;
    assert k * (a * n * h) == (k * h * n) * a by {
      assert k * (a * n * h) == k * h * n * a;
    }
    ModMultiple(r, k * h * n, a);
    ModMultiple(r / a, k * h, n);
  }

  lemma SliceAbove(r: int, v: int, a: nat, h: nat)
    requires h <= a && r / Pow2(h) == v / Pow2(h)
    ensures r / Pow2(a) == v / Pow2(a)
  {
    Pow2Add(h, a - h);
    hide Pow2;
    DivDiv(r, Pow2(h), Pow2(a - h));
    DivDiv(v, Pow2(h), Pow2(a - h));
  }

  /** Writing the slice that is already there changes nothing, and the last of two writes wins. */
  lemma RewriteSlice(v: int, lsb: nat, ws: nat, o: int, o': int)
    ensures Replaced(v, lsb, ws, Slice(v, lsb, ws)) == v
    ensures Replaced(Replaced(v, lsb, ws, o), lsb, ws, o') == Replaced(v, lsb, ws, o')
  {
    ReplacedParts(v, lsb, ws, o);
    Pow2Add(lsb, ws);
    hide Pow2;
    var p, q := Pow2(lsb), Pow2(ws);
    DivBounds(v, p);
    DivDiv(v, p, q);
    DivBounds(v / p, q);
    ModSmall((v / p) % q, q);
    var hi, m := v / (p * q), (v / p) % q;
    assert (hi * q + m) * p == hi * (p * q) + m * p by {
      assert (hi * q) * p == hi * (p * q);
    }
  }
}

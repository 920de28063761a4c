/** The converting constructor of `ac_fixed`: a shift into the target's words, a rounding carry from
    one bit and one sticky flag, and an overflow test from the deleted bits. */
module FixedConversion {
  import opened Powers
  import opened Words
  import opened AcTypes
  import opened Bits
  import opened Rounding
  import opened TopWord

  // ---- What the deleted bits say about the rounded number ----

  /** No bits of the top word lie above a signed number that fills its words. */
  predicate Filled(w: nat, s: bool) {
    w % 32 == 0 && s
  }

  predicate DeletedZero(top: word, w: nat, s: bool) {
    Filled(w, s) || Signed(top) / Pow2(w % 32) == 0
  }

  predicate DeletedOne(top: word, w: nat, s: bool) {
    Filled(w, s) || Signed(top) / Pow2(w % 32) == -1
  }

  /** The arithmetic shift of a word tells whether its high bits are all clear or all set. */
  lemma HighBitsOfWord(t: word, k: nat)
    requires k < 32
    ensures Signed(t) / Pow2(k) == 0 <==> t / Pow2(k) == 0
    ensures Signed(t) / Pow2(k) == -1 <==> t / Pow2(k) == Pow2(32 - k) - 1
  {
    Pow2Add(k, 32 - k);
    Pow2Values();
    DoublePow2(31 - k);
    hide Pow2;
    ArithmeticShift(t, Pow2(k), Pow2(31 - k));
  }

  lemma ArithmeticShift(t: word, p: int, h: int)
    requires 0 < p && 0 < h && p * (h * 2) == WORD
    ensures Signed(t) / p == 0 <==> t / p == 0
    ensures Signed(t) / p == -1 <==> t / p == h * 2 - 1
  {
    assert p * (h * 2) == 2 * (h * p);
    if t < SIGN {
      QuotientBelow(t, p, h);
    } else {
      assert (-(h * 2)) * p == -(p * (h * 2));
      ModMultiple(t, -(h * 2), p);
      QuotientAbove(t, p, h);
      QuotientBelow(t, p, h * 2);
    }
  }

  lemma QuotientBelow(t: int, p: int, h: int)
    requires 0 <= t < h * p && 0 < p
    ensures 0 <= t / p < h
  {
    HighPart(t, p, h) by {
      assert p * h == h * p;
      if h <= 0 {
        MulMono(h, 0, p);
      }
    }
  }

  lemma QuotientAbove(t: int, p: int, h: int)
    requires h * p <= t && 0 < p
    ensures h <= t / p
  {
    DivMono(h * p, t, p);
    DivIntro(h * p, p, h, 0);
  }

  /** The words hold z modulo their size, with hi dropped above them: the tests on the top word
      and on hi together read off all bits of z from w upwards, and bit w - 1. */
  lemma DeletedBits(v: seq<word>, z: int, w: nat, s: bool)
    requires 0 < w && |v| == WordsFor(w, s) && UVal(v) == z % Weight(|v|)
    ensures
      var top, hi := v[|v| - 1], z / Weight(|v|);
      && (z / Pow2(w) == 0 <==> hi == 0 && DeletedZero(top, w, s))
      && (z / Pow2(w) == -1 <==> hi == -1 && DeletedOne(top, w, s))
    ensures s ==> (BitOf(v, w - 1) <==> (z / Pow2(w - 1)) % 2 == 1)
  {
    hide UVal, SVal, Pow2;
    var n, k := |v|, w % 32;
    WeightIsPow2(n);
    var c, hi := 32 * n - w, z / Weight(n);
    Pow2Add(c, w);
    DivBounds(z, Weight(n));
    MulAssoc(hi, Pow2(c), Pow2(w));
    ModMultiple(UVal(v), hi * Pow2(c), Pow2(w));
    var t := UVal(v) / Pow2(w);
    assert z / Pow2(w) == t + hi * Pow2(c);
    if Filled(w, s) {
      Pow2Values();
      UValBound(v);
      ModSmall(UVal(v), Pow2(w));
    } else {
      UValLast(v);
      WeightIsPow2(n - 1);
      Pow2Add(32 * (n - 1), k);
      assert 32 * (n - 1) + k == w;
      DivDiv(UVal(v), Weight(n - 1), Pow2(k));
      HighBitsOfWord(v[n - 1], k);
      Pow2Add(k, 32 - k);
      Pow2Values();
      HighPart(v[n - 1], Pow2(k), Pow2(32 - k));
    }
    HighAndLow(t, hi, Pow2(c));
    if s {
      SameLowBits(v, w - 1);
      Pow2Add(c, w - 1);
      DoublePow2(w - 1);
      BitBelow(z, UVal(v), hi, Pow2(c), Pow2(w - 1));
    }
  }

  lemma HighAndLow(t: int, hi: int, d: int)
    requires 0 <= t < d
    ensures t + hi * d == 0 <==> hi == 0 && t == 0
    ensures t + hi * d == -1 <==> hi == -1 && t == d - 1
  {
    if 0 < hi {
      MulMono(1, hi, d);
    } else if hi < -1 {
      MulMono(hi, -2, d);
    }
  }

  lemma BitBelow(z: int, u: int, hi: int, c: int, h: int)
    requires 0 < h && z == u + hi * (c * (h * 2))
    ensures (z / h) % 2 == (u / h) % 2
  {
    assert hi * (c * (h * 2)) == ((hi * c) * 2) * h by {
      assert hi * (c * (h * 2)) == (hi * c) * (h * 2);
      assert (hi * c) * (h * 2) == ((hi * c) * 2) * h;
    }
    ModMultiple(u, (hi * c) * 2, h);
    ModMultiple(u / h, hi * c, 2);
  }

  /** Sign, sign bit and deleted bits decide whether z fits. */
  lemma OverflowExact(z: int, w: nat, s: bool)
    requires 0 < w
    ensures
      var negTrg := s && (z / Pow2(w - 1)) % 2 == 1;
      InType(z, w, s) <==>
        !(0 <= z && (negTrg || z / Pow2(w) != 0)) && !(z < 0 && (!negTrg || z / Pow2(w) != -1))
  {
    DoublePow2(w - 1);
    hide Pow2;
    var h := Pow2(w - 1);
    DivDiv(z, h, 2);
    ZeroQuotient(z, h);
    ZeroQuotient(z, Pow2(w));
    var a := z / h;
    assert a == 2 * (a / 2) + a % 2;
  }

  // ---- Skipping the overflow test ----

  /** The source's guard: can the conversion leave the target's range at all? */
  predicate MayOverflow(w: nat, i: int, s: bool, q: QMode, o: OMode, w2: nat, i2: int, s2: bool, o2: OMode) {
    var f, f2 := w - i, w2 - i2;
    var quanInc := f2 > f && !(q == TRN || (q == TRN_ZERO && !s2));
    (!s && s2)
    || i - Bit(s) < i2 - Bit(s2) + Bit(quanInc || (s2 && o == SAT_SYM && (o2 != SAT_SYM || f2 > f)))
  }

  function Bit(b: bool): int {
    if b then 1 else 0
  }

  /** When the guard is false, the rounded number fits, and in the symmetric range too unless it is the
      minimum of a symmetric source. */
  lemma SkipIsSafe(x: int, w: nat, i: int, s: bool, q: QMode, o: OMode, w2: nat, i2: int, s2: bool, o2: OMode)
    requires 0 < w && 0 < w2 && InType(x, w2, s2)
    requires !MayOverflow(w, i, s, q, o, w2, i2, s2, o2)
    ensures
      var z := Quantize(q, x, (w2 - i2) - (w - i));
      && InType(z, w, s)
      && (o == SAT_SYM && s && w > 1 ==> (-Pow2(w - 1) < z <==> !MinimumKept(x, w, i, s, o, w2, i2, s2, o2)))
  {
    var sh := (w2 - i2) - (w - i);
    if sh <= 0 {
      SkipLeft(x, w, s, w2, s2, -sh, o == SAT_SYM && o2 != SAT_SYM && s2);
    } else {
      var inc := !(q == TRN || (q == TRN_ZERO && !s2)) || (s2 && o == SAT_SYM);
      SkipRight(q, x, w, s, w2, s2, sh, inc);
    }
  }

  /** Scaling up keeps the number of significant bits; k is the scale. */
  lemma SkipLeft(x: int, w: nat, s: bool, w2: nat, s2: bool, k: nat, spare: bool)
    requires 0 < w && 0 < w2 && InType(x, w2, s2) && (s || !s2)
    requires w2 - Bit(s2) + k + Bit(spare) <= w - Bit(s)
    ensures InType(x * Pow2(k), w, s)
    ensures s && w > 1 && (spare || !s2 || x != -Pow2(w2 - 1)) ==> -Pow2(w - 1) < x * Pow2(k)
    ensures s && s2 && !spare && x == -Pow2(w2 - 1) ==> (-Pow2(w - 1) < x * Pow2(k) <==> w2 + k != w)
  {
    hide Pow2;
    var m: nat := w2 - Bit(s2);
    var n: nat := w - Bit(s);
    Pow2Add(m, k);
    Pow2Mono(m + k, n);
    ScaledBounds(x, Pow2(m), Pow2(k));
  }

  lemma ScaledBounds(x: int, m: int, p: int)
    requires 0 < p
    ensures (x < m ==> x * p < m * p) && (0 <= x ==> 0 <= x * p)
    ensures (-m <= x ==> -(m * p) <= x * p) && (-m < x ==> -(m * p) < x * p)
  {
    MulNeg(m, p);
    if x < m {
      MulStrict(x, m, p);
    }
    if 0 <= x {
      MulMono(0, x, p);
    }
    if -m < x {
      MulStrict(-m, x, p);
    }
  }

  /** Scaling down with one spare bit leaves room for the rounding carry; truncation needs none. */
  lemma SkipRight(q: QMode, x: int, w: nat, s: bool, w2: nat, s2: bool, sh: nat, inc: bool)
    requires 0 < w && 0 < w2 && 0 < sh && InType(x, w2, s2) && (s || !s2)
    requires w2 - Bit(s2) - sh + Bit(inc) <= w - Bit(s)
    requires inc || q == TRN || (q == TRN_ZERO && !s2)
    ensures InType(Round(q, x, Pow2(sh)), w, s)
    ensures s && w > 1 && (inc || !s2) ==> -Pow2(w - 1) < Round(q, x, Pow2(sh))
  {
    var m: nat := w2 - Bit(s2);
    var n: nat := w - Bit(s);
    var p, z := Pow2(sh), Round(q, x, Pow2(sh));
    Pow2Add(n, sh);
    DivBounds(x, p);
    RoundBounds(x, p, x / p, x % p);
    var limit := Pow2(n);
    if inc {
      if m + 1 <= n + sh {
        Pow2Mono(m + 1, n + sh);
        RoundWithRoom(x, p, limit, x / p);
      }
      if n == 0 {
        Pow2Mono(m + 1, sh);
        NearZero(q, x, p);
      } else {
        DoublePow2(n - 1);
      }
    } else {
      Pow2Mono(m, n + sh);
      TruncateWithinBounds(x, p, limit);
      assert !s2 ==> z == x / p;
    }
  }

  lemma RoundWithRoom(x: int, p: int, limit: int, f: int)
    requires 0 < p && 0 < limit && f == x / p
    requires -(limit * p) <= 2 * x < limit * p
    ensures -limit <= 2 * f + 1 && 2 * f < limit
  {
    DivBounds(x, p);
    assert (2 * f) * p == 2 * (f * p) && (2 * f + 2) * p == 2 * ((f + 1) * p);
    MulCancelLt(2 * f, limit, p);
    assert (-limit) * p == -(limit * p);
    MulCancelLt(-limit, 2 * f + 2, p);
  }

  lemma NearZero(q: QMode, x: int, p: int)
    requires 0 < p && -p <= 2 * x < p
    ensures -1 <= Round(q, x, p) <= 0
  {
    if 0 <= x {
      DivIntro(x, p, 0, x);
    } else {
      DivIntro(x, p, -1, x + p);
    }
    RoundedDown(q, x, p);
  }

  lemma RoundedDown(q: QMode, x: int, p: int)
    requires 0 < p && (x / p == -1 || (x / p == 0 && 2 * (x % p) < p && 0 <= x))
    ensures -1 <= Round(q, x, p) <= 0
  {
    hide IsRounded;
  }

  lemma TruncateWithinBounds(x: int, p: int, limit: int)
    requires 0 < p && -(limit * p) <= x < limit * p
    ensures -limit <= x / p < limit
  {
    DivBounds(x, p);
    MulCancelLt(x / p, limit, p);
    assert (-limit) * p == -(limit * p);
    MulCancelLt(-limit, x / p + 1, p);
  }

  // ---- Saturation ----

  function Saturated(o: OMode, w: nat, s: bool, neg: bool): int
    requires 0 < w
  {
    if o == SAT_ZERO then 0
    else if !neg then Largest(w, s)
    else if s && o == SAT_SYM && w == 1 then -1
    else Smallest(w, s, o == SAT_SYM)
  }

  /** Words of ones below a top word of j ones. */
  lemma OnesBelow(v: seq<word>, j: nat)
    requires 0 < |v| && j < 32 && v[|v| - 1] == Pow2(j) - 1
    requires forall i :: 0 <= i < |v| - 1 ==> v[i] == WORD - 1
    ensures SVal(v) == Pow2(32 * (|v| - 1) + j) - 1
  {
    var n := |v| - 1;
    Pow2Mono(j, 31);
    Pow2Values();
    Pow2Add(j, 32 * n);
    hide Pow2, UVal;
    WeightIsPow2(n);
    hide Weight, Complement, SVal;
    ComplementValue(v[..n]);
    UValZeros(Complement(v[..n]));
    SValTop(v);
    LessOne(Pow2(j), Weight(n));
  }

  lemma LessOne(a: int, w: int)
    ensures (a - 1) * w == a * w - w
    ensures (-a) * w == -(a * w)
  {
  }

  /** Words of zeros, one lowest bit apart, below a top word with its bits from j set. */
  lemma ZerosBelow(v: seq<word>, j: nat, one: word)
    requires 0 < |v| && j < 32 && one <= 1
    requires |v| == 1 ==> v[0] == WORD - Pow2(j) + (if j == 0 then 0 else one)
    requires |v| > 1 ==> v[0] == one && v[|v| - 1] == WORD - Pow2(j)
    requires forall i :: 0 < i < |v| - 1 ==> v[i] == 0
    ensures SVal(v) == -Pow2(32 * (|v| - 1) + j) + (if |v| == 1 && j == 0 then 0 else one)
  {
    var n := |v| - 1;
    Pow2Mono(j, 31);
    Pow2Mono(if j == 0 then 0 else 1, j);
    Pow2Values();
    Pow2Add(j, 32 * n);
    WeightIsPow2(n);
    hide Pow2, UVal, SVal, Weight;
    SValTop(v);
    if n == 0 {
      UValZeros(v[..0]);
    } else {
      OneLowWord(v[..n], one);
      LessOne(Pow2(j), Weight(n));
    }
  }

  lemma OneLowWord(v: seq<word>, one: word)
    requires 0 < |v| && v[0] == one && forall i :: 0 < i < |v| ==> v[i] == 0
    ensures UVal(v) == one
  {
    WeightNext(0);
    hide UVal, Weight;
    UValUpdate(v, 0, 0);
    UValZeros(v[0 := 0]);
  }

  // ---- The conversion ----

  /** The rounding carry ran out of the words: only an unsigned source whose integer bits end
      exactly at the top of the target's words can do that, and nothing examines it. */
  predicate CarryLost(x: int, w: nat, i: int, s: bool, q: QMode, w2: nat, i2: int, s2: bool)
    requires 0 < w
  {
    var sh := (w2 - i2) - (w - i);
    !s2 && w2 == sh + 32 * WordsFor(w, s) && Quantize(q, x, sh) == Pow2(32 * WordsFor(w, s))
  }

  /** The source holds the number that its symmetric type should not, and a symmetric target with the
      same integer bits takes it over untested. */
  predicate MinimumKept(x: int, w: nat, i: int, s: bool, o: OMode, w2: nat, i2: int, s2: bool, o2: OMode)
    requires 0 < w2
  {
    && s && s2 && o == SAT_SYM && o2 == SAT_SYM && 1 < w
    && i == i2 && w2 - i2 <= w - i && x == -Pow2(w2 - 1)
  }

  /** That number, scaled, is the smallest of the target. */
  lemma MinimumScaled(x: int, w: nat, i: int, s: bool, q: QMode, o: OMode, w2: nat, i2: int, s2: bool, o2: OMode)
    requires 0 < w2 && MinimumKept(x, w, i, s, o, w2, i2, s2, o2)
    ensures Quantize(q, x, (w2 - i2) - (w - i)) == -Pow2(w - 1)
  {
    hide Pow2;
    var k := (w - i) - (w2 - i2);
    Pow2Add(w2 - 1, k);
    assert w2 - 1 + k == w - 1;
    MulNeg(Pow2(w2 - 1), Pow2(k));
    Pow2Values();
  }

  /** What the constructor stores. */
  ghost function Converted(x: int, w: nat, i: int, s: bool, q: QMode, o: OMode, w2: nat, i2: int, s2: bool,
                           o2: OMode): int
    requires 0 < w && 0 < w2
  {
    var z := Quantize(q, x, (w2 - i2) - (w - i));
    if CarryLost(x, w, i, s, q, w2, i2, s2) then 0
    else if s && o == SAT_SYM && w == 1 && z < 0 then -1
    else if MinimumKept(x, w, i, s, o, w2, i2, s2, o2) then z
    else Fit(o, z, w, s)
  }

  /** The conversion is "round by Q, then fit by O" except in three families: a saturating target whose
      rounding carry is lost, negative numbers in a one-bit symmetric target, and the minimum that a
      symmetric source passes on. */
  lemma ConversionIsExactIff(x: int, w: nat, i: int, s: bool, q: QMode, o: OMode, w2: nat, i2: int, s2: bool, o2: OMode)
    requires 0 < w && 0 < w2
    ensures
      var z := Quantize(q, x, (w2 - i2) - (w - i));
      Converted(x, w, i, s, q, o, w2, i2, s2, o2) == Fit(o, z, w, s)
      <==> && !(CarryLost(x, w, i, s, q, w2, i2, s2) && (o == SAT || o == SAT_SYM) && !(s && w == 1))
           && !(s && o == SAT_SYM && w == 1 && z < 0)
           && !MinimumKept(x, w, i, s, o, w2, i2, s2, o2)
  {
    hide Quantize, Pow2, Fit;
    LostCarryFit(o, w, s);
    NothingNegative(Quantize(q, x, (w2 - i2) - (w - i)));
    if MinimumKept(x, w, i, s, o, w2, i2, s2, o2) {
      MinimumScaled(x, w, i, s, q, o, w2, i2, s2, o2);
      MinimumNotSymmetric(w);
    }
  }

  lemma NothingNegative(z: int)
    ensures z < 0 ==> Fit(SAT_SYM, z, 1, true) == 0
  {
    Pow2Values();
  }

  lemma MinimumNotSymmetric(w: nat)
    requires 1 < w
    ensures Fit(SAT_SYM, -Pow2(w - 1), w, true) != -Pow2(w - 1)
  {
    Pow2Mono(0, w - 1);
    Pow2Values();
  }

  /** Outside those families a saturating conversion stores the number of the target's range, symmetric
      for SAT_SYM, that is nearest to the rounded source. */
  lemma ConvertedIsNearest(x: int, w: nat, i: int, s: bool, q: QMode, o: OMode, w2: nat, i2: int, s2: bool, o2: OMode,
                           y: int)
    requires 0 < w && 0 < w2 && (o == SAT || o == SAT_SYM)
    requires !CarryLost(x, w, i, s, q, w2, i2, s2) && !MinimumKept(x, w, i, s, o, w2, i2, s2, o2)
    requires s && o == SAT_SYM ==> 1 < w
    requires if s then -Pow2(w - 1) <= y < Pow2(w - 1) else 0 <= y < Pow2(w)
    requires s && o == SAT_SYM ==> -Pow2(w - 1) < y
    ensures
      var z, r := Quantize(q, x, (w2 - i2) - (w - i)), Converted(x, w, i, s, q, o, w2, i2, s2, o2);
      && (if s then -Pow2(w - 1) <= r < Pow2(w - 1) else 0 <= r < Pow2(w))
      && (s && o == SAT_SYM ==> -Pow2(w - 1) < r)
      && AbsVal(r - z) <= AbsVal(y - z)
  {
    hide Pow2, Quantize, CarryLost, MinimumKept, Fit;
    var z := Quantize(q, x, (w2 - i2) - (w - i));
    if o == SAT {
      SaturationIsNearest(z, w, s, y);
    } else {
      SymmetricIsNearest(z, w, s, y);
    }
  }

  /** Zeroing stores zero for every rounded source outside the target, a lost carry included. */
  lemma ConvertedZeroes(x: int, w: nat, i: int, s: bool, q: QMode, w2: nat, i2: int, s2: bool, o2: OMode)
    requires 0 < w && 0 < w2
    ensures
      var z := Quantize(q, x, (w2 - i2) - (w - i));
      Converted(x, w, i, s, q, SAT_ZERO, w2, i2, s2, o2)
      == if (if s then -Pow2(w - 1) <= z < Pow2(w - 1) else 0 <= z < Pow2(w)) then z else 0
  {
    hide Pow2, Quantize, CarryLost, MinimumKept, Fit, Converted, Smallest, Largest;
    ConversionIsExactIff(x, w, i, s, q, SAT_ZERO, w2, i2, s2, o2);
    NoFamily(x, w, i, s, w2, i2, s2, o2);
    ZeroedOrWrapped(Quantize(q, x, (w2 - i2) - (w - i)), w, s);
  }

  /** Wrapping stores the low bits of the rounded source, a lost carry included. */
  lemma ConvertedWraps(x: int, w: nat, i: int, s: bool, q: QMode, w2: nat, i2: int, s2: bool, o2: OMode)
    requires 0 < w && 0 < w2
    ensures
      var z, r := Quantize(q, x, (w2 - i2) - (w - i)), Converted(x, w, i, s, q, WRAP, w2, i2, s2, o2);
      && (if s then -Pow2(w - 1) <= r < Pow2(w - 1) else 0 <= r < Pow2(w))
      && r % Pow2(w) == z % Pow2(w)
  {
    hide Pow2, Quantize, CarryLost, MinimumKept, Fit, Converted, Smallest, Largest;
    ConversionIsExactIff(x, w, i, s, q, WRAP, w2, i2, s2, o2);
    NoFamily(x, w, i, s, w2, i2, s2, o2);
    ZeroedOrWrapped(Quantize(q, x, (w2 - i2) - (w - i)), w, s);
  }

  lemma NoFamily(x: int, w: nat, i: int, s: bool, w2: nat, i2: int, s2: bool, o2: OMode)
    requires 0 < w2
    ensures !MinimumKept(x, w, i, s, SAT_ZERO, w2, i2, s2, o2) && !MinimumKept(x, w, i, s, WRAP, w2, i2, s2, o2)
  {
  }

  /** -200 and 200 in sixteen bits, and -5, converted to eight bits. */
  lemma SaturationExamples()
    ensures Converted(-200, 8, 8, true, TRN, SAT, 16, 16, true, WRAP) == -128
    ensures Converted(200, 8, 8, true, TRN, SAT, 16, 16, true, WRAP) == 127
    ensures Converted(-200, 8, 8, true, TRN, SAT_SYM, 16, 16, true, WRAP) == -127
    ensures Converted(-200, 8, 8, true, TRN, SAT_ZERO, 16, 16, true, WRAP) == 0
    ensures Converted(200, 8, 8, true, TRN, WRAP, 16, 16, true, WRAP) == -56
    ensures Converted(-5, 8, 8, false, TRN, SAT, 16, 16, true, WRAP) == 0
  {
    Pow2Values();
    assert Pow2(7) == 128;
    EightBits();
  }

  lemma EightBits()
    ensures Quantize(TRN, -200, 0) == -200 && Quantize(TRN, 200, 0) == 200 && Quantize(TRN, -5, 0) == -5
    ensures Wrap(200, 8) == -56 && Pow2(8) == 256 && Pow2(7) == 128
  {
    Pow2Values();
    assert Pow2(7) == 128;
  }

  /** A rounding carry out of the words should saturate, and otherwise leaves zero. */
  lemma LostCarryFit(o: OMode, w: nat, s: bool)
    requires 0 < w
    ensures
      var f := Fit(o, Pow2(32 * WordsFor(w, s)), w, s);
      f == 0 <==> !((o == SAT || o == SAT_SYM) && !(s && w == 1))
    ensures 0 < Pow2(32 * WordsFor(w, s))
  {
    var n := WordsFor(w, s);
    Pow2Mono(w, 32 * n);
    DoublePow2(w - 1);
    Pow2Add(32 * n - w, w);
    Pow2Values();
    hide Pow2;
    ModMultiple(0, Pow2(32 * n - w), Pow2(w));
    ModSmall(0, Pow2(w));
    if s && w > 1 {
      Pow2Mono(1, w - 1);
    } else if !s {
      Pow2Mono(1, w);
    }
  }

  /** A 33-bit unsigned source of all ones, one fraction bit more than a 32-bit signed target:
      rounding should saturate, but the carry is lost and the result is zero. */
  lemma LostCarryExample()
    ensures
      var x := Pow2(33) - 1;
      && InType(x, 33, false)
      && Converted(x, 32, 32, true, RND, SAT, 33, 32, false, WRAP) == 0
      && Fit(SAT, Quantize(RND, x, 1), 32, true) == Pow2(31) - 1
  {
    Pow2Add(32, 1);
    Pow2Values();
    assert Round(RND, Pow2(33) - 1, 2) == Pow2(32);
  }

  /** Minus one in a one-bit symmetric target stays minus one, where the symmetric range holds only zero. */
  lemma OneBitSymmetricExample()
    ensures
      && InType(-1, 2, true)
      && Converted(-1, 1, 1, true, TRN, SAT_SYM, 2, 2, true, WRAP) == -1
      && Fit(SAT_SYM, Quantize(TRN, -1, 0), 1, true) == 0
  {
    Pow2Values();
  }

  /** That minus one, converted on to eight bits with the same integer bit, becomes -128 in a type
      whose symmetric range ends at -127. */
  lemma SymmetricMinimumExample()
    ensures
      && InType(-1, 1, true)
      && Converted(-1, 8, 1, true, TRN, SAT_SYM, 1, 1, true, SAT_SYM) == -128
      && Fit(SAT_SYM, Quantize(TRN, -1, -7), 8, true) == -127
  {
    Pow2Values();
    assert Pow2(7) == 128;
  }

  // ---- Facts that connect the words with the rounded number ----

  /** The truncated scaled source. */
  function Scaled(x: int, sh: int): int {
    if 0 < sh then x / Pow2(sh) else x * Pow2(-sh)
  }

  /** Bits of the source above the target's words are the bits of the scaled source above them. */
  lemma SourceAbove(x: int, sh: int, n: nat)
    requires 0 <= sh + 32 * n
    ensures Scaled(x, sh) / Weight(n) == x / Pow2(sh + 32 * n)
  {
    WeightIsPow2(n);
    if 0 < sh {
      Pow2Add(sh, 32 * n);
      hide Pow2;
      DivDiv(x, Pow2(sh), Weight(n));
    } else {
      Pow2Add(sh + 32 * n, -sh);
      hide Pow2;
      ScaledDiv(x, Pow2(sh + 32 * n), Pow2(-sh));
    }
  }

  /** Adding the carry to the low words of f. */
  lemma CarryIntoHigh(f: int, u: int, inc: int, carry: bool, m: int)
    requires 0 < m && 0 <= u < m && u + (if carry then m else 0) == f % m + inc
    ensures u == (f + inc) % m
    ensures (f + inc) / m == f / m + Bit(carry)
  {
    DivBounds(f, m);
    assert (f / m + Bit(carry)) * m == (f / m) * m + (if carry then m else 0);
    DivIntro(f + inc, m, f / m + Bit(carry), u);
  }

  lemma LowBit(v: seq<word>)
    requires 0 < |v|
    ensures UVal(v) % 2 == v[0] % 2
  {
    hide UVal;
    TailWord(v, 0);
    assert v[0..] == v;
    ModMultiple(v[0], SIGN * UVal(v[1..]), 2);
  }

  lemma OddOfLow(f: int, m: int)
    requires 0 < m
    ensures (f % (m * 2)) % 2 == f % 2
  {
    DivBounds(f, m * 2);
    var k := f / (m * 2);
    assert k * (m * 2) == (k * m) * 2;
    ModMultiple(f % (m * 2), k * m, 2);
  }

  /** The first dropped bit, also when the shift is longer than the source. */
  lemma FirstDroppedBit(x: int, w2: nat, s2: bool, k: nat)
    requires 0 < w2 <= k && InType(x, w2, s2)
    ensures (x / Pow2(k)) % 2 == 1 <==> x < 0
  {
    Pow2Mono(w2, k);
    DoublePow2(w2 - 1);
    AllShiftedOut(x, Pow2(k));
  }

  /** What is left after rounding, with its sign, in terms of the source's high bits. */
  lemma SignFromHigh(z: int, m: int)
    requires 0 < m
    ensures z < 0 <==> z / m < 0
  {
    DivBounds(z, m);
    if z / m < 0 {
      MulMono(z / m + 1, 0, m);
    } else {
      MulMono(0, z / m, m);
    }
  }

  /** With no source bits above the words, the rounded number is in them, unless the carry is lost. */
  lemma NothingAbove(x: int, w2: nat, s2: bool, sh: int, n: nat, z: int)
    requires 0 < w2 && 0 < n && InType(x, w2, s2) && w2 <= sh + 32 * n
    requires Scaled(x, sh) <= z <= Scaled(x, sh) + 1 && (x < 0 ==> z <= 0)
    ensures s2 || z != Pow2(32 * n) ==> z < Pow2(32 * n)
    ensures x < 0 ==> -Pow2(32 * n - 1) <= z <= 0
    ensures 0 <= x ==> 0 <= z <= Pow2(32 * n)
    ensures z == Pow2(32 * n) && !s2 ==> w2 == sh + 32 * n
  {
    hide Scaled, Pow2;
    var b: nat := sh + 32 * n;
    Pow2Mono(w2, b);
    DoublePow2(w2 - 1);
    DoublePow2(32 * n - 1);
    Pow2Mono(1, 32 * n);
    Pow2Values();
    ScaledSign(x, sh);
    if x < 0 || s2 {
      Pow2Mono(w2 - 1, b - 1);
      ScaledBound(x, sh, 32 * n - 1);
    } else if w2 < b {
      Pow2Mono(w2, b - 1);
      ScaledBound(x, sh, 32 * n - 1);
    } else {
      ScaledBound(x, sh, 32 * n);
    }
  }

  /** Shifted left past the words altogether: they are zero, and nothing but zero fits. */
  lemma AllLeft(v: seq<word>, q: QMode, x: int, w: nat, s: bool, sh: int, z: int, carry: bool)
    requires 0 < w && |v| == WordsFor(w, s) && sh + 32 * |v| < 0 && z == Quantize(q, x, sh)
    requires UVal(v) == z % Weight(|v|) && z / Weight(|v|) == Scaled(x, sh) / Weight(|v|) + Bit(carry)
    ensures !carry && (s ==> !BitOf(v, w - 1)) && DeletedZero(v[|v| - 1], w, s)
    ensures (z / Weight(|v|) == 0 <==> x / Pow2(0) == 0) && z / Weight(|v|) != -1
    ensures z < 0 <==> x < 0
  {
    hide Pow2, UVal, BitOf, DeletedZero;
    var n := |v|;
    Pow2Add(-sh - 32 * n - 1, 32 * n);
    DoublePow2(-sh - 1);
    WeightIsPow2(n);
    Pow2Values();
    FarProduct(x, Pow2(-sh - 32 * n - 1), Pow2(32 * n), Pow2(-sh));
    ModSmall(0, Weight(n));
    DivIntro(Pow2(32 * n), Weight(n), 1, 0);
    LostWords(v, w, s);
  }

  lemma FarProduct(x: int, h: int, m: int, p: int)
    requires 0 < h && 0 < m && p == 2 * (h * m)
    ensures (x * p) % m == 0 && (x * p) / m == 2 * (x * h)
    ensures (x * h == 0 <==> x == 0) && (x * h < 0 <==> x < 0) && (x * p < 0 <==> x < 0)
  {
    assert x * p == (2 * (x * h)) * m;
    DivIntro(x * p, m, 2 * (x * h), 0);
    MulAssoc(x, h, m);
    if x < 0 {
      MulMono(x, -1, h);
      MulMono(x, -1, p);
    } else if 0 < x {
      MulMono(1, x, h);
      MulMono(1, x, p);
    }
  }

  lemma ScaledSign(x: int, sh: int)
    ensures 0 <= x ==> 0 <= Scaled(x, sh)
    ensures x < 0 ==> Scaled(x, sh) < 0
  {
    if 0 < sh {
      SignFromHigh(x, Pow2(sh));
    } else {
      var k := Pow2(-sh);
      if 0 <= x {
        MulMono(0, x, k);
      } else {
        MulMono(x, -1, k);
      }
    }
  }

  /** A source below 2^(sh + m) scales to less than 2^m. */
  lemma ScaledBound(x: int, sh: int, m: nat)
    requires 0 <= sh + m && -Pow2(sh + m) <= x < Pow2(sh + m)
    ensures -Pow2(m) <= Scaled(x, sh) < Pow2(m)
  {
    if 0 < sh {
      Pow2Add(m, sh);
      TruncateWithinBounds(x, Pow2(sh), Pow2(m));
    } else {
      Pow2Add(sh + m, -sh);
      var p, k := Pow2(sh + m), Pow2(-sh);
      hide Pow2;
      MulStrict(x, p, k);
      MulMono(-p, x, k);
      assert (-p) * k == -(p * k);
    }
  }

  /** The number kept when the words hold z modulo their size. */
  lemma AdjustedHolds(v: seq<word>, z: int, w: nat, s: bool)
    requires 0 < w && |v| == WordsFor(w, s) && UVal(v) == z % Weight(|v|)
    ensures Adjusted(SVal(v), w, s) == Fit(WRAP, z, w, s)
    ensures InType(z, w, s) ==> Adjusted(SVal(v), w, s) == z
    ensures s && w > 1 && -Pow2(w - 1) <= z < 0 ==> (SVal(v) % Pow2(w - 1) == 0 <==> z == -Pow2(w - 1))
  {
    hide UVal, SVal, Pow2, Weight;
    SValRange(v);
    WeightIsPow2(|v|);
    var n := 32 * |v|;
    Pow2Add(n - w, w);
    LowerModulus(SVal(v), z, Pow2(n - w), Pow2(w));
    if InType(z, w, s) {
      if s {
        WrapFits(z, w);
      } else {
        ModSmall(z, Pow2(w));
      }
    }
    if s && w > 1 && -Pow2(w - 1) <= z < 0 {
      Pow2Add(n - w + 1, w - 1);
      LowerModulus(SVal(v), z, Pow2(n - w + 1), Pow2(w - 1));
      ModMultiple(z, 1, Pow2(w - 1));
      ModSmall(z + Pow2(w - 1), Pow2(w - 1));
    }
  }

  lemma LowerModulus(a: int, b: int, c: int, p: int)
    requires 0 < c && 0 < p && a % (c * p) == b % (c * p)
    ensures a % p == b % p
  {
    var m := c * p;
    DivBounds(a, m);
    DivBounds(b, m);
    var i, j := a / m, b / m;
    assert i * m == (i * c) * p && j * m == (j * c) * p;
    ModMultiple(a % m, i * c, p);
    ModMultiple(b % m, j * c, p);
  }

  /** The four tests of the constructor decide exactly whether z leaves the type's range. */
  lemma OverflowDecision(z: int, w: nat, s: bool, negSrc: bool, negTrg: bool, zero: bool, one: bool)
    requires 0 < w && (negSrc <==> z < 0) && (negTrg <==> s && (z / Pow2(w - 1)) % 2 == 1)
    requires 0 <= z ==> (zero <==> z / Pow2(w) == 0)
    requires z < 0 ==> (one <==> z / Pow2(w) == -1)
    ensures InType(z, w, s) <==> !((!negSrc && (negTrg || !zero)) || (negSrc && (!negTrg || !one)))
  {
    OverflowExact(z, w, s);
  }

  /** Bits read above the words: all of the source's high part, and its lowest bit. */
  lemma HighPartTests(x: int, b: nat)
    ensures x / Pow2(b) == -2 <==> x / Pow2(b + 1) == -1 && (x / Pow2(b)) % 2 == 0
  {
    Pow2Add(b, 1);
    Pow2Values();
    DivDiv(x, Pow2(b), 2);
  }

  lemma HalfBelow(n: nat)
    requires 0 < n
    ensures Pow2(32 * n - 1) < Pow2(32 * n)
  {
    Pow2Mono(32 * n - 1, 32 * n);
  }

  lemma LoadedWords(v: seq<word>, y: int)
    requires 0 < |v| && SVal(v) == Wrap(y, 32 * |v|)
    ensures UVal(v) == y % Weight(|v|)
  {
    hide UVal, SVal, Wrap;
    SValRange(v);
    var k := WrapCongruent(y, 32 * |v|);
  }

  lemma TruncationIsFloor(q: QMode, x: int, p: int)
    requires 0 < p
    ensures q == TRN || (q == TRN_ZERO && 0 <= x) ==> Round(q, x, p) == x / p
    ensures x / p <= Round(q, x, p) <= x / p + 1
  {
  }

  lemma NegativeIsSigned(x: int, w: nat, s: bool)
    requires 0 < w && InType(x, w, s)
    ensures x < 0 ==> s
  {
  }

  /** The bits the constructor looks at are the ones the rounding rule is about. */
  lemma DroppedBits(op: seq<word>, w2: nat, s2: bool, sh: nat, qb: bool, r: bool)
    requires 0 < w2 && |op| == WordsFor(w2, s2) && InType(SVal(op), w2, s2) && 0 < sh
    requires qb == if sh > w2 then op[|op| - 1] >= SIGN else BitOf(op, sh - 1)
    requires r == (sh > 1 && SVal(op) % Pow2(sh - 1) != 0)
    ensures qb == ((SVal(op) / Pow2(sh - 1)) % 2 == 1)
    ensures r == (SVal(op) % Pow2(sh - 1) != 0)
  {
    hide SVal, UVal, Pow2, InType;
    SValRange(op);
    Pow2Values();
    if sh > w2 {
      FirstDroppedBit(SVal(op), w2, s2, sh - 1);
    }
    if sh == 1 {
      assert SVal(op) % 1 == 0;
    }
  }

  lemma ParityOfFloor(v: seq<word>, y: int)
    requires 0 < |v| && UVal(v) == y % Weight(|v|)
    ensures v[0] % 2 == 1 <==> y % 2 == 1
  {
    LowBit(v);
    WeightIsPow2(|v|);
    DoublePow2(32 * |v| - 1);
    OddOfLow(y, Pow2(32 * |v| - 1));
  }

  lemma QuantizeSign(q: QMode, x: int, sh: int)
    ensures x < 0 ==> Quantize(q, x, sh) <= 0
  {
    ScaledSign(x, sh);
    if 0 < sh {
      TruncationIsFloor(q, x, Pow2(sh));
    }
  }

  /** The top bit of the words is the sign of a number that fits them. */
  lemma TopWordSign(v: seq<word>, z: int)
    requires 0 < |v| && UVal(v) == z % Weight(|v|)
    ensures -Pow2(32 * |v| - 1) <= z <= 0 ==> (v[|v| - 1] >= SIGN <==> z < 0)
  {
    hide UVal, SVal;
    SValRange(v);
    if -Pow2(32 * |v| - 1) <= z <= 0 {
      SValIsWrap(v, z);
      Pow2Values();
      Pow2Mono(0, 32 * |v| - 1);
      WrapFits(z, 32 * |v|);
    }
  }

  lemma RangeBelow(z: int, w: nat)
    requires 0 < w
    ensures InType(z, w, true) && z < 0 ==> -Pow2(w - 1) <= z
    ensures InType(z, w, true) && z < 0 && w == 1 ==> z == -1
  {
    Pow2Values();
  }

  /** A lost carry leaves only zeros behind. */
  lemma LostWords(v: seq<word>, w: nat, s: bool)
    requires 0 < w && |v| == WordsFor(w, s) && UVal(v) == Pow2(32 * |v|) % Weight(|v|)
    ensures DeletedZero(v[|v| - 1], w, s)
    ensures s ==> !BitOf(v, w - 1)
    ensures Fit(WRAP, Pow2(32 * |v|), w, s) == 0
  {
    hide UVal, SVal, Weight, Pow2;
    var n := |v|;
    WeightIsPow2(n);
    DivIntro(Pow2(32 * n), Weight(n), 1, 0);
    UValZeroWords(v);
    ModSmall(0, Pow2(w % 32));
    ModSmall(0, Pow2((w - 1) % 32));
    if s {
      BitIs(v, w - 1);
    }
    Pow2Add(32 * n - w, w);
    DivIntro(Pow2(32 * n), Pow2(w), Pow2(32 * n - w), 0);
  }

  /** The words after the overflow correction hold the converted number. */
  lemma FittedResult(x: int, w: nat, i: int, s: bool, q: QMode, o: OMode, w2: nat, i2: int, s2: bool, o2: OMode,
                     z: int, kept: int, overflow: bool, negSrc: bool)
    requires 0 < w && 0 < w2 && o != WRAP && !MinimumKept(x, w, i, s, o, w2, i2, s2, o2) && z == Quantize(q, x, (w2 - i2) - (w - i)) && InType(x, w2, s2)
    requires kept == Fit(WRAP, z, w, s) && (InType(z, w, s) ==> kept == z)
    requires CarryLost(x, w, i, s, q, w2, i2, s2) ==> !overflow && kept == 0
    requires
      !CarryLost(x, w, i, s, q, w2, i2, s2) ==>
        && (negSrc <==> z < 0)
        && (overflow <==> !InType(z, w, s) || (o == SAT_SYM && s && s2 && z < 0 && (w > 1 ==> z == -Pow2(w - 1))))
    ensures (if overflow then Saturated(o, w, s, negSrc) else kept) == Converted(x, w, i, s, q, o, w2, i2, s2, o2)
  {
    QuantizeNonNegative(q, x, (w2 - i2) - (w - i));
    Pow2Values();
    Pow2Mono(0, w - 1);
  }

  lemma QuantizeNonNegative(q: QMode, x: int, sh: int)
    ensures 0 <= x ==> 0 <= Quantize(q, x, sh)
  {
    ScaledSign(x, sh);
    if 0 < sh {
      TruncationIsFloor(q, x, Pow2(sh));
    }
  }

  lemma UncheckedResult(x: int, w: nat, i: int, s: bool, q: QMode, o: OMode, w2: nat, i2: int, s2: bool, o2: OMode,
                        z: int, kept: int)
    requires 0 < w && 0 < w2 && z == Quantize(q, x, (w2 - i2) - (w - i))
    requires kept == Fit(WRAP, z, w, s) && (InType(z, w, s) ==> kept == z)
    requires CarryLost(x, w, i, s, q, w2, i2, s2) ==> kept == 0
    requires
      o != WRAP ==>
        && InType(z, w, s)
        && (o == SAT_SYM && s && w > 1 ==> -Pow2(w - 1) < z || MinimumKept(x, w, i, s, o, w2, i2, s2, o2))
    ensures kept == Converted(x, w, i, s, q, o, w2, i2, s2, o2)
  {
    Pow2Values();
    Pow2Mono(0, w - 1);
  }

  lemma ConvertedInType(x: int, w: nat, i: int, s: bool, q: QMode, o: OMode, w2: nat, i2: int, s2: bool, o2: OMode)
    requires 0 < w && 0 < w2
    ensures InType(Converted(x, w, i, s, q, o, w2, i2, s2, o2), w, s)
  {
    hide Fit, Quantize, CarryLost;
    if MinimumKept(x, w, i, s, o, w2, i2, s2, o2) {
      MinimumScaled(x, w, i, s, q, o, w2, i2, s2, o2);
    }
    Pow2Values();
    Pow2Mono(0, w - 1);
    Pow2Mono(0, w);
  }

  class AcFixed {
    const w: nat
    const i: int
    const s: bool
    const q: QMode
    const o: OMode
    const v: array<word>

    /** The words hold a number of the type's width, sign- or zero-extended. */
    ghost predicate Valid()
      reads v
    {
      0 < w && v.Length == WordsFor(w, s) && InType(SVal(v[..]), w, s)
    }

    /** The converting constructor: op rounded and fitted into a w-bit type with i integer bits. */
    constructor Convert(w: nat, i: int, s: bool, q: QMode, o: OMode, op: AcFixed)
      requires 0 < w && op.Valid()
      requires q == TRN || (q == TRN_ZERO && !op.s) || (op.w - op.i) - (w - i) <= 32 * op.v.Length + 1 || SVal(op.v[..]) < 0
      requires o == WRAP || -32 <= (op.w - op.i) - (w - i) + 32 * WordsFor(w, s)
      ensures this.w == w && this.i == i && this.s == s && this.q == q && this.o == o && fresh(v)
      ensures Valid()
      ensures SVal(v[..]) == Converted(SVal(op.v[..]), w, i, s, q, o, op.w, op.i, op.s, op.o)
    {
      hide SVal, UVal, Weight, Wrap, Pow2, Quantize, Scaled, Fit, CarryLost;
      this.w, this.i, this.s, this.q, this.o := w, i, s, q, o;
      v := new word[WordsFor(w, s)];
      new;
      var carry := LoadQuantized(op);
      HandleOverflow(op, carry, Quantize(q, SVal(op.v[..]), (op.w - op.i) - (w - i)));
      ConvertedInType(SVal(op.v[..]), w, i, s, q, o, op.w, op.i, op.s, op.o);
    }

    method BitAdjust()
      requires 0 < w && v.Length == WordsFor(w, s)
      modifies v
      ensures SVal(v[..]) == Adjusted(SVal(old(v[..])), w, s)
    {
      ghost var was := v[..];
      v[v.Length - 1] := TopAdjusted(v[v.Length - 1], w, s);
      BitAdjusted(was, v[..], w, s);
    }

    method OverflowAdjust(overflow: bool, neg: bool)
      requires 0 < w && v.Length == WordsFor(w, s)
      modifies v
      ensures SVal(v[..]) == if o == WRAP || !overflow then Adjusted(SVal(old(v[..])), w, s) else Saturated(o, w, s, neg)
    {
      hide SVal, UVal, Wrap, Pow2, Adjusted;
      var n := v.Length;
      if o == WRAP {
        BitAdjust();
        return;
      } else if o == SAT_ZERO {
        if overflow {
          Extend(v, 0, 0);
          AllZeroWords(v[..]);
        } else {
          BitAdjust();
        }
      } else if s {
        if overflow {
          var j := (w - 1) % 32;
          Pow2Mono(j, 31);
          Pow2Values();
          if !neg {
            Extend(v, 0, WORD - 1);
            v[n - 1] := Pow2(j) - 1;
            OnesBelow(v[..], j);
          } else {
            Extend(v, 0, 0);
            v[n - 1] := WORD - Pow2(j);
            if o == SAT_SYM {
              v[0] := OrOne(v[0]);
            }
            OddTop(j);
            ZerosBelow(v[..], j, if o == SAT_SYM then 1 else 0);
          }
        } else {
          BitAdjust();
        }
      } else {
        if overflow {
          if !neg {
            var j := w % 32;
            Pow2Mono(j, 31);
            Pow2Values();
            Extend(v, 0, WORD - 1);
            v[n - 1] := Pow2(j) - 1;
            OnesBelow(v[..], j);
          } else {
            Extend(v, 0, 0);
            AllZeroWords(v[..]);
          }
        } else {
          BitAdjust();
        }
      }
    }

    /** Adds the rounding carry and returns the carry out of the words. */
    method QuantizationAdjust(qb: bool, r: bool, neg: bool) returns (carry: bool)
      requires 0 < v.Length
      modifies v
      ensures UVal(v[..]) + (if carry then Weight(v.Length) else 0)
           == UVal(old(v[..])) + (if RoundUp(q, qb, r, neg, old(v[0]) % 2 == 1) then 1 else 0)
    {
      if q == TRN {
        return false;
      }
      var b := qb;
      if q == RND_ZERO {
        b := b && (neg || r);
      } else if q == RND_MIN_INF {
        b := b && r;
      } else if q == RND_INF {
        b := b && (!neg || r);
      } else if q == RND_CONV {
        b := b && (v[0] % 2 == 1 || r);
      } else if q == RND_CONV_ODD {
        b := b && (!(v[0] % 2 == 1) || r);
      } else if q == TRN_ZERO {
        b := neg && (b || r);
      }
      carry := AddCarry(v, b);
    }

    /** Reads the first dropped bit and the bits below it, and adds the rounding carry they call for. */
    method RoundWords(op: AcFixed, sh: nat) returns (carry: bool)
      requires 0 < v.Length && op.Valid() && op.v != v && 0 < sh && (sh <= 32 * op.v.Length + 1 || SVal(op.v[..]) < 0)
      requires UVal(v[..]) == (SVal(op.v[..]) / Pow2(sh)) % Weight(v.Length)
      modifies v
      ensures
        var z, m := Round(q, SVal(op.v[..]), Pow2(sh)), Weight(v.Length);
        UVal(v[..]) == z % m && z / m == (SVal(op.v[..]) / Pow2(sh)) / m + Bit(carry)
    {
      hide SVal, UVal, Weight, Wrap, Pow2, RoundUp, IsRounded, Round;
      ghost var x := SVal(op.v[..]);
      SValRange(op.v[..]);
      var qb := if sh > op.w then op.v[op.v.Length - 1] >= SIGN else BitOf(op.v[..], sh - 1);
      var r := false;
      if sh > 1 {
        var zeros := EqualZerosTo(op.v, sh - 1);
        r := !zeros;
      }
      DroppedBits(op.v[..], op.w, op.s, sh, qb, r);
      ParityOfFloor(v[..], x / Pow2(sh));
      DoublePow2(sh - 1);
      RoundUpIsRounding(q, x, Pow2(sh - 1));
      NegativeIsSigned(x, op.w, op.s);
      carry := QuantizationAdjust(qb, r, op.s && op.v[op.v.Length - 1] >= SIGN);
      UValBound(v[..]);
      CarryIntoHigh(x / Pow2(sh), UVal(v[..]), Round(q, x, Pow2(sh)) - x / Pow2(sh), carry, Weight(v.Length));
    }

    /** Shift into the target's words, with the rounding carry. */
    method LoadQuantized(op: AcFixed) returns (carry: bool)
      requires 0 < w && v.Length == WordsFor(w, s) && op.Valid() && op.v != v
      requires q == TRN || (q == TRN_ZERO && !op.s) || (op.w - op.i) - (w - i) <= 32 * op.v.Length + 1 || SVal(op.v[..]) < 0
      modifies v
      ensures
        var x, sh, m := SVal(op.v[..]), (op.w - op.i) - (w - i), Weight(v.Length);
        && UVal(v[..]) == Quantize(q, x, sh) % m
        && Quantize(q, x, sh) / m == Scaled(x, sh) / m + Bit(carry)
        && Scaled(x, sh) <= Quantize(q, x, sh) <= Scaled(x, sh) + 1
    {
      hide SVal, UVal, Weight, Wrap, Pow2, IsRounded, Round;
      var f, f2 := w - i, op.w - op.i;
      ghost var x := SVal(op.v[..]);
      carry := false;
      if f2 == f {
        Assign(op.v, v);
        Pow2Values();
        LoadedWords(v[..], x);
      } else if f2 > f {
        ShiftRight(op.v, f2 - f, v);
        LoadedWords(v[..], x / Pow2(f2 - f));
        TruncationIsFloor(q, x, Pow2(f2 - f));
        NegativeIsSigned(x, op.w, op.s);
        if q != TRN && !(q == TRN_ZERO && !op.s) {
          carry := RoundWords(op, f2 - f);
        }
      } else {
        ShiftLeft(op.v, f - f2, v);
        LoadedWords(v[..], x * Pow2(f - f2));
      }
    }

    /** The overflow test and its correction, or just the width adjustment when it is not needed. */
    method HandleOverflow(op: AcFixed, carry: bool, ghost z: int)
      requires 0 < w && v.Length == WordsFor(w, s) && op.Valid() && op.v != v
      requires o == WRAP || -32 <= (op.w - op.i) - (w - i) + 32 * v.Length
      requires z == Quantize(q, SVal(op.v[..]), (op.w - op.i) - (w - i))
      requires
        var x, sh, m := SVal(op.v[..]), (op.w - op.i) - (w - i), Weight(v.Length);
        && UVal(v[..]) == z % m && z / m == Scaled(x, sh) / m + Bit(carry)
        && Scaled(x, sh) <= z <= Scaled(x, sh) + 1
      modifies v
      ensures SVal(v[..]) == Converted(SVal(op.v[..]), w, i, s, q, o, op.w, op.i, op.s, op.o)
    {
      hide SVal, UVal, Weight, Wrap, Pow2, Quantize, Scaled, Fit, InType;
      ghost var x := SVal(op.v[..]);
      ghost var kept := Adjusted(SVal(v[..]), w, s);
      AdjustedHolds(v[..], z, w, s);
      if CarryLost(x, w, i, s, q, op.w, op.i, op.s) {
        LostWords(v[..], w, s);
      }
      if o != WRAP && MayOverflow(w, i, s, q, o, op.w, op.i, op.s, op.o) {
        var overflow, negSrc := TestOverflow(op, carry, z);
        OverflowAdjust(overflow, negSrc);
        FittedResult(x, w, i, s, q, o, op.w, op.i, op.s, op.o, z, kept, overflow, negSrc);
      } else {
        if o != WRAP {
          SkipIsSafe(x, w, i, s, q, o, op.w, op.i, op.s, op.o);
        }
        UncheckedResult(x, w, i, s, q, o, op.w, op.i, op.s, op.o, z, kept);
        BitAdjust();
      }
    }

    /** Does the number leave the range, and on which side? */
    method TestOverflow(op: AcFixed, carry: bool, ghost z: int) returns (overflow: bool, negSrc: bool)
      requires 0 < w && v.Length == WordsFor(w, s) && op.Valid() && op.v != v && o != WRAP
      requires -32 <= (op.w - op.i) - (w - i) + 32 * v.Length
      requires z == Quantize(q, SVal(op.v[..]), (op.w - op.i) - (w - i))
      requires
        var x, sh, m := SVal(op.v[..]), (op.w - op.i) - (w - i), Weight(v.Length);
        && UVal(v[..]) == z % m && z / m == Scaled(x, sh) / m + Bit(carry)
        && Scaled(x, sh) <= z <= Scaled(x, sh) + 1
      ensures CarryLost(SVal(op.v[..]), w, i, s, q, op.w, op.i, op.s) ==> !overflow && !negSrc
      ensures
        !CarryLost(SVal(op.v[..]), w, i, s, q, op.w, op.i, op.s) ==>
          && (negSrc <==> z < 0)
          && (overflow <==>
                (!InType(z, w, s)
                 || (o == SAT_SYM && s && op.s && z < 0 && (w > 1 ==> z == -Pow2(w - 1)))))
    {
      hide SVal, UVal, Weight, Wrap, Pow2, Quantize, Scaled, InType, DeletedZero, DeletedOne, BitOf;
      var n := v.Length;
      var sh := (op.w - op.i) - (w - i);
      ghost var x := SVal(op.v[..]);
      SValRange(op.v[..]);
      DeletedBits(v[..], z, w, s);
      SignFromHigh(z, Weight(n));
      NegativeIsSigned(x, op.w, op.s);
      if sh + 32 * n < 0 {
        AllLeft(v[..], q, x, w, s, sh, z, carry);
      } else {
        SourceAbove(x, sh, n);
        SignFromHigh(x, Pow2(sh + 32 * n));
        HighPartTests(x, sh + 32 * n);
      }
      var zero := DeletedZero(v[n - 1], w, s);
      var one := DeletedOne(v[n - 1], w, s);
      if sh + 32 * n < op.w {
        var b := sh + 32 * n;
        var allOnes := EqualOnesFrom(op.v, b);
        if carry {
          var onesAbove := EqualOnesFrom(op.v, b + 1);
          zero := zero && allOnes;
          one := one && onesAbove && !BitOf(op.v[..], b);
        } else {
          var allZeros := EqualZerosFrom(op.v, b);
          zero := zero && allZeros;
          one := one && allOnes;
        }
        negSrc := op.s && op.v[op.v.Length - 1] >= SIGN && !(carry && allOnes);
      } else {
        QuantizeSign(q, x, sh);
        NothingAbove(x, op.w, op.s, sh, n, z);
        TopWordSign(v[..], z);
        if !CarryLost(x, w, i, s, q, op.w, op.i, op.s) {
          WeightIsPow2(n);
          HalfBelow(n);
          AllShiftedOut(z, Weight(n));
        }
        negSrc := op.s && op.v[op.v.Length - 1] >= SIGN && v[n - 1] >= SIGN;
      }
      var negTrg := s && BitOf(v[..], w - 1);
      overflow := (!negSrc && (negTrg || !zero)) || (negSrc && (!negTrg || !one));
      if CarryLost(x, w, i, s, q, op.w, op.i, op.s) {
        LostWords(v[..], w, s);
      } else {
        OverflowDecision(z, w, s, negSrc, negTrg, zero, if sh + 32 * n < 0 then false else one);
      }
      if o == SAT_SYM && s && op.s {
        AdjustedHolds(v[..], z, w, s);
        var edge := true;
        if w > 1 {
          edge := EqualZerosTo(v, w - 1);
        }
        RangeBelow(z, w);
        overflow := overflow || (negSrc && edge);
      }
    }
  }

  /** w | 1. */
  function OrOne(x: word): word {
    if x % 2 == 1 then x else x + 1
  }

  lemma OddTop(j: nat)
    requires j < 32
    ensures WORD - Pow2(j) == (if j == 0 then WORD - 1 else WORD - Pow2(j))
    ensures 0 < j ==> (WORD - Pow2(j)) % 2 == 0
  {
    Pow2Values();
    if 0 < j {
      DoublePow2(j - 1);
    }
  }

  lemma AllZeroWords(s: seq<word>)
    requires 0 < |s| && forall j :: 0 <= j < |s| ==> s[j] == 0
    ensures SVal(s) == 0
  {
    UValZeros(s);
  }
}

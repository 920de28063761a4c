/** `add_generic<AC_RND_CONV,false>` step by step.  Every value has the width of the variable that
    holds it in the source; a shift left or a complement is taken modulo that width. */
module FloatAdder {
  import opened Powers
  import opened Rounding
  import opened FloatFormat
  import opened FloatAddition

  /** Mantissa with its hidden bit; a subnormal is moved up one place, so that exponent fields 0
      and 1 weigh the same. */
  function Mu(mb: nat, x: Float): int {
    if x.e == 0 then 2 * x.m else Pow2(mb) + x.m
  }

  /** Largest alignment distance that the saturating counter holds. */
  function SatMax(mb: nat): nat {
    Pow2(BitLen(mb + 2)) - 1
  }

  function Saturated(mb: nat, d: nat): nat {
    if SatMax(mb) < d then SatMax(mb) else d
  }

  // ---- Aligning the smaller mantissa ----

  /** The mask of positions that the shift drops, less the two that remain as guard and round bits. */
  lemma StickyMask(mb: nat, sat: nat)
    ensures
      var top := Pow2(mb + 5);
      var k := if mb + 5 <= sat then mb + 3 else if 2 <= sat then sat - 2 else 0;
      (top - 1 - (top - 1) * Pow2(sat) % top) / 4 == Pow2(k) - 1
  {
    var top := Pow2(mb + 5);
    assert top == 4 * Pow2(mb + 3) by {
      Pow2Add(2, mb + 3);
      Pow2Values();
    }
    Pow2Values();
    if mb + 5 <= sat {
      Pow2Add(mb + 5, sat - (mb + 5));
      ShiftedOut(top, Pow2(sat - (mb + 5)));
    } else {
      Pow2Mono(sat, mb + 5);
      if 2 <= sat {
        Pow2Add(2, sat - 2);
      }
      hide Pow2;
      ShiftedOnes(top, Pow2(sat));
    }
  }

  /** Writing the sticky bit over the lowest kept bit jams the shifted mantissa. */
  lemma StickyIsJam(mb: nat, small: int, sat: nat)
    requires 0 <= small < 2 * Pow2(mb)
    ensures
      var k := if mb + 5 <= sat then mb + 3 else if 2 <= sat then sat - 2 else 0;
      var q := 8 * small / Pow2(sat);
      q - q % 2 + (if small % Pow2(k) != 0 then 1 else 0) == Jam(8 * small, Pow2(sat))
  {
    Pow2Values();
    if mb + 5 <= sat {
      Pow2Mono(mb + 5, sat);
      Pow2Add(3, mb);
      Pow2Add(4, mb);
      hide Pow2;
      ModSmall(8 * small, Pow2(sat));
      ModSmall(small, Pow2(mb + 3));
    } else if sat < 3 {
      ExactShift(small, Pow2(sat));
    } else {
      Pow2Add(3, sat - 3);
      Pow2Add(1, sat - 3);
      hide Pow2;
      DroppedBits(small, Pow2(sat - 3));
    }
  }

  lemma ExactShift(small: int, p: int)
    requires 0 <= small && (p == 1 || p == 2 || p == 4)
    ensures var q := 8 * small / p; q % 2 == 0 && 8 * small % p == 0 && small % 1 == 0
  {
    DivIntro(small, 1, small, 0);
    var h := if p == 1 then 4 * small else if p == 2 then 2 * small else small;
    DivIntro(8 * small, p, 2 * h, 0);
    DivIntro(2 * h, 2, h, 0);
  }

  lemma DroppedBits(small: int, p: int)
    requires 0 <= small && 0 < p
    ensures var q := 8 * small / (8 * p);
      q - q % 2 + (if small % (2 * p) != 0 then 1 else 0) == Jam(8 * small, 8 * p)
  {
    var a, b := small / (2 * p), small % (2 * p);
    DivBounds(small, 2 * p);
    assert a * (2 * p) == (2 * a) * p;
    var q, r := if b < p then 2 * a else 2 * a + 1, if b < p then b else b - p;
    assert (2 * a + 1) * p == (2 * a) * p + p;
    assert q * (8 * p) == 8 * (q * p);
    DivIntro(8 * small, 8 * p, q, 8 * r);
  }

  method AlignSmaller(mb: nat, small: int, eDif: nat) returns (r: int)
    requires 0 <= small < 2 * Pow2(mb)
    ensures r == Jam(8 * small, Pow2(Saturated(mb, eDif)))
  {
    var width := Pow2(mb + 5);
    var eDifSat := if SatMax(mb) < eDif then SatMax(mb) else eDif;
    r := 8 * small;
    var mask := width - 1;
    mask := mask * Pow2(eDifSat) % width;
    mask := width - 1 - mask;
    mask := mask / 4;
    StickyMask(mb, eDifSat);
    var sticky := small % (mask + 1) != 0;
    r := r / Pow2(eDifSat);
    StickyIsJam(mb, small, eDifSat);
    r := r - r % 2 + (if sticky then 1 else 0);
  }

  // ---- Normalizing and rounding ----

  lemma NormalizedRange(mb: nat, res: nat)
    requires 0 < res < Pow2(mb + 5)
    ensures
      var ls := LeadingZeros(res, mb + 5);
      0 <= ls && Pow2(mb + 4) <= res * Pow2(ls) < Pow2(mb + 5)
  {
    BitLenAtMost(res, mb + 5);
    BitLenBounds(res);
    var l := BitLen(res);
    var ls: nat := mb + 5 - l;
    Pow2Add(l - 1, ls);
    Pow2Add(l, ls);
    hide Pow2, BitLen;
    MulMono(Pow2(l - 1), res, Pow2(ls));
    MulStrict(res, Pow2(l), Pow2(ls));
  }

  lemma RoundedRange(mb: nat, y: nat)
    requires Pow2(mb + 4) <= y < Pow2(mb + 5)
    ensures Pow2(mb) <= Round(RND_CONV, y, 16) <= 2 * Pow2(mb)
  {
    hide Pow2, Round, IsRounded;
    Pow2Add(4, mb);
    Pow2Add(5, mb);
    Pow2Values();
    DivBounds(y, 16);
    RoundNearFloor(y, 16);
  }

  lemma SubnormalRange(mb: nat, exp: nat, res: nat)
    requires 0 < res < Pow2(mb + 5) && exp < LeadingZeros(res, mb + 5)
    requires (res * Pow2(exp)) % 16 == 0
    ensures 0 <= res * Pow2(exp) < Pow2(mb + 4)
    ensures Round(RND_CONV, res * Pow2(exp), 16) == (res * Pow2(exp)) / 16
    ensures 0 <= (res * Pow2(exp)) / 16 < Pow2(mb)
  {
    BitLenBounds(res);
    var l := BitLen(res);
    Pow2Add(l, exp);
    Pow2Mono(l + exp, mb + 4);
    Pow2Add(4, mb);
    Pow2Values();
    hide Pow2, BitLen, IsRounded;
    MulMono(0, res, Pow2(exp));
    MulStrict(res, Pow2(l), Pow2(exp));
    DivBounds(res * Pow2(exp), 16);
  }

  /** Exponent e and mantissa z with z in [p, 2p) form the code (e - 1) p + z. */
  lemma NormalCode(e: int, z: int, p: int, max: int)
    requires 0 < p && p <= z <= 2 * p
    ensures z < 2 * p ==> e * p + (z - p) == (e - 1) * p + z && (max <= e <==> max * p <= (e - 1) * p + z)
    ensures z == 2 * p ==> (e + 1) * p == (e - 1) * p + z && (max <= e + 1 <==> max * p <= (e - 1) * p + z)
    ensures z < 2 * p ==> z % p == z - p
    ensures z == 2 * p ==> (z / 2) % p == 0
  {
    assert (e - 1) * p == e * p - p;
    assert (e + 1) * p == e * p + p;
    if z < 2 * p {
      DivIntro(z, p, 1, z - p);
      if max <= e {
        MulMono(max, e, p);
      } else {
        MulMono(e + 1, max, p);
      }
    } else {
      DivIntro(z / 2, p, 1, 0);
      if max <= e + 1 {
        MulMono(max, e + 1, p);
      } else {
        MulMono(e + 2, max, p);
        assert (e + 2) * p == e * p + 2 * p;
      }
    }
  }

  lemma OverflowBit(mb: nat, z: int)
    requires 0 <= z <= 2 * Pow2(mb)
    ensures z % Pow2(mb + 2) == z
    ensures (z / Pow2(mb + 1)) % 2 == 1 <==> z == 2 * Pow2(mb)
  {
    Pow2Add(1, mb);
    Pow2Add(2, mb);
    Pow2Values();
    hide Pow2;
    ModSmall(z, Pow2(mb + 2));
    DivIntro(z, Pow2(mb + 1), if z == 2 * Pow2(mb) then 1 else 0, if z == 2 * Pow2(mb) then 0 else z);
  }

  lemma ZeroRounds(p: int, w: int, v: int)
    requires 0 < w && 0 < v
    ensures (0 * p) % w == 0 && Round(RND_CONV, 0, 16) % v == 0
  {
    ModSmall(0, w);
    ModSmall(0, v);
    assert 0 * p == 0;
  }

  /** Leading zeros out, round at 4 bits, renormalize; with the flags of the source. */
  method NormalizeRound(mb: nat, maxExp: int, exp0: nat, res0: int)
    returns (exp: int, m: int, normal: bool, zero: bool, inf: bool)
    requires 0 <= res0 < Pow2(mb + 5) && 0 < maxExp
    requires exp0 < LeadingZeros(res0, mb + 5) ==> (res0 * Pow2(exp0)) % 16 == 0
    ensures 0 <= m < Pow2(mb) && (zero <==> res0 == 0)
    ensures exp0 < maxExp ==> (inf <==> maxExp * Pow2(mb) <= Assemble(mb, exp0, res0))
    ensures exp0 < maxExp && !inf ==>
      var e := if zero || !normal then 0 else exp;
      0 <= e < maxExp && e * Pow2(mb) + m == Assemble(mb, exp0, res0)
  {
    hide Pow2, Round, IsRounded, BitLen;
    zero := res0 == 0;
    exp := exp0;
    var ls := LeadingZeros(res0, mb + 5);
    var resexp := exp - ls + 1;
    var expPlus1 := exp - ls + 2;
    inf := false;
    if !zero {
      NormalizedRange(mb, res0);
    } else {
      ZeroLength(mb);
    }
    if resexp <= 0 {
      ls := exp;
      exp := 0;
      expPlus1 := 1;
      normal := false;
    } else {
      exp := resexp;
      inf := maxExp <= exp;
      normal := true;
    }
    var res := res0 * Pow2(ls) % Pow2(mb + 5);
    var rounded := Round(RND_CONV, res, 16) % Pow2(mb + 2);
    ghost var z := Round(RND_CONV, res0 * Pow2(ls), 16);
    if zero {
      ZeroRounds(Pow2(ls), Pow2(mb + 5), Pow2(mb + 2));
      MulMono(1, maxExp, Pow2(mb));
      ModSmall(0, Pow2(mb));
      OverflowBit(mb, 0);
      assert rounded == 0;
    } else if !normal {
      SubnormalRange(mb, exp0, res0);
      Pow2Mono(mb + 4, mb + 5);
      ModSmall(res0 * Pow2(ls), Pow2(mb + 5));
      OverflowBit(mb, z);
      ModSmall(z, Pow2(mb));
      MulMono(1, maxExp, Pow2(mb));
    } else {
      ModSmall(res0 * Pow2(ls), Pow2(mb + 5));
      RoundedRange(mb, res0 * Pow2(ls));
      OverflowBit(mb, z);
      NormalCode(exp, z, Pow2(mb), maxExp);
    }
    if (rounded / Pow2(mb + 1)) % 2 == 1 {
      rounded := rounded / 2;
      exp := expPlus1;
      inf := inf || exp == maxExp;
      normal := normal || resexp == 0;
    }
    m := rounded % Pow2(mb);
    DivBounds(rounded, Pow2(mb));
  }

  lemma ZeroLength(mb: nat)
    ensures LeadingZeros(0, mb + 5) == mb + 5
  {
  }

  // ---- The sum ----

  function ExactSum(fmt: Format, a: Float, b: Float): int
    requires Finite(fmt, a) && Finite(fmt, b)
  {
    Value(fmt, a) + Value(fmt, b)
  }

  /** r is the exact sum rounded to nearest, ties to even, less `lost` units in the last place:
      infinity beyond the largest finite number, and the IEEE sign of an exact zero. */
  predicate IsSum(fmt: Format, a: Float, b: Float, lost: int, r: Float)
    requires Finite(fmt, a) && Finite(fmt, b)
  {
    var x := ExactSum(fmt, a, b);
    var c := RoundCode(fmt.mb, AbsVal(x)) - lost;
    && Encodes(fmt, r)
    && r.sign == (if x == 0 then a.sign && b.sign else x < 0)
    && (if fmt.MaxExp() * Pow2(fmt.mb) <= c then IsInf(fmt, r) else Finite(fmt, r) && Code(fmt, r) == c)
  }

  /** The addition loses its sticky bit: hi is a power of two, lo has the opposite sign and lies
      too far below for a saturating counter that holds only mb + 2. */
  predicate LosesSticky(mb: nat, hi: Float, lo: Float) {
    && SatMax(mb) == mb + 2
    && hi.sign != lo.sign
    && hi.m == 0 && mb + 3 <= hi.e - lo.e
    && Pow2(mb) < Mu(mb, lo)
  }

  function Lost(mb: nat, a: Float, b: Float): int {
    if LosesSticky(mb, a, b) || LosesSticky(mb, b, a) then 1 else 0
  }

  lemma MuMagnitude(mb: nat, x: Float)
    requires 0 <= x.e && 0 <= x.m < Pow2(mb)
    ensures 2 * Magnitude(mb, x.e, x.m) == Mu(mb, x) * Pow2(x.e)
    ensures 0 <= Mu(mb, x) < 2 * Pow2(mb) && (0 < x.e ==> Pow2(mb) <= Mu(mb, x))
  {
    Pow2Values();
    if 0 < x.e {
      DoublePow2(x.e - 1);
      hide Pow2;
      Twice(Pow2(mb) + x.m, Pow2(x.e - 1));
    }
  }

  lemma Twice(a: int, p: int)
    ensures 2 * (a * p) == a * (2 * p)
  {
  }

  /** hi is the operand with the larger exponent, or the larger mantissa at equal exponents. */
  predicate Ordered(mb: nat, hi: Float, lo: Float) {
    && 0 <= lo.e <= hi.e && 0 <= hi.m < Pow2(mb) && 0 <= lo.m < Pow2(mb)
    && (lo.e == hi.e ==> lo.m <= hi.m)
  }

  /** The sum or difference of the magnitudes. */
  function Combined(mb: nat, hi: Float, lo: Float): int
    requires 0 <= hi.e && 0 <= lo.e
  {
    var x, y := Magnitude(mb, hi.e, hi.m), Magnitude(mb, lo.e, lo.m);
    if hi.sign != lo.sign then x - y else x + y
  }

  /** The mantissas aligned without loss, with three extra bits. */
  function Aligned(mb: nat, hi: Float, lo: Float, d: nat): int {
    var b := 8 * Mu(mb, hi);
    if hi.sign != lo.sign then b * Pow2(d) - 8 * Mu(mb, lo) else b * Pow2(d) + 8 * Mu(mb, lo)
  }

  /** What the adder computes when the distance counter saturates at `sat`. */
  function Jammed(mb: nat, hi: Float, lo: Float, sat: nat): int {
    var j := Jam(8 * Mu(mb, lo), Pow2(sat));
    if hi.sign != lo.sign then 8 * Mu(mb, hi) - j else 8 * Mu(mb, hi) + j
  }

  lemma AlignedSum(mb: nat, hi: Float, lo: Float)
    requires Ordered(mb, hi, lo)
    ensures
      var d: nat := hi.e - lo.e;
      && (16 * Combined(mb, hi, lo)) * Pow2(d) == Aligned(mb, hi, lo, d) * Pow2(hi.e)
      && Jammed(mb, hi, lo, d) == Jam(Aligned(mb, hi, lo, d), Pow2(d))
      && Aligned(mb, hi, lo, d) % 8 == 0
  {
    var d: nat := hi.e - lo.e;
    MuMagnitude(mb, hi);
    MuMagnitude(mb, lo);
    Pow2Add(lo.e, d);
    DivIntro(8 * Mu(mb, hi), 2, 4 * Mu(mb, hi), 0);
    hide Pow2, Magnitude, Mu, Jam;
    JamSum(8 * Mu(mb, hi), 8 * Mu(mb, lo), Pow2(d));
    var x, y := Magnitude(mb, hi.e, hi.m), Magnitude(mb, lo.e, lo.m);
    AlignOne(x, y, Mu(mb, hi), Mu(mb, lo), Pow2(lo.e), Pow2(d), Pow2(hi.e));
  }

  lemma AlignOne(x: int, y: int, b: int, s: int, l: int, d: int, e: int)
    requires 2 * x == b * e && 2 * y == s * l && e == l * d
    ensures (16 * (x + y)) * d == ((8 * b) * d + 8 * s) * e
    ensures (16 * (x - y)) * d == ((8 * b) * d - 8 * s) * e
    ensures ((8 * b) * d + 8 * s) % 8 == 0 && ((8 * b) * d - 8 * s) % 8 == 0
  {
    AlignTerm(x, b, d, e);
    AlignTerm(y, s, d, l);
    MulAssoc(s, l, d);
    assert (16 * (x + y)) * d == (16 * x) * d + (16 * y) * d;
    assert (16 * (x - y)) * d == (16 * x) * d - (16 * y) * d;
    assert ((8 * b) * d + 8 * s) * e == ((8 * b) * d) * e + (8 * s) * e;
    assert ((8 * b) * d - 8 * s) * e == ((8 * b) * d) * e - (8 * s) * e;
    assert (8 * s) * e == 8 * (s * e);
    assert (8 * b) * d == 8 * (b * d);
    DivIntro((8 * b) * d + 8 * s, 8, b * d + s, 0);
    DivIntro((8 * b) * d - 8 * s, 8, b * d - s, 0);
  }

  lemma AlignTerm(x: int, b: int, d: int, e: int)
    requires 2 * x == b * e
    ensures (16 * x) * d == ((8 * b) * d) * e
    ensures (16 * x) * d == 8 * (b * e * d)
  {
    assert (16 * x) * d == (8 * (b * e)) * d;
    assert (8 * (b * e)) * d == 8 * (b * e * d);
    assert ((8 * b) * d) * e == 8 * (b * e * d);
  }

  lemma JamBound(y: int, d: int, k: int)
    requires 0 <= y && 0 < k <= d
    ensures 0 <= Jam(y, d) <= y / k + 1
    ensures d == 1 ==> Jam(y, d) == y
  {
    DivBounds(y, d);
    DivBounds(y, k);
    if y / d < 0 {
      MulMono(y / d, -1, d);
    }
    MulMono(k, d, y / d);
    assert k * (y / d) == (y / d) * k && d * (y / d) == (y / d) * d;
    if y / k < y / d {
      MulMono(y / k + 1, y / d, k);
    }
    if d == 1 {
      DivIntro(y, 1, y, 0);
    }
  }

  /** The smaller mantissa, shifted by s places, against powers of two. */
  lemma ShiftedSmaller(mb: nat, small: int, s: nat)
    requires 0 <= small < 2 * Pow2(mb)
    ensures
      var j := Jam(8 * small, Pow2(s));
      && 0 <= j <= 8 * small + 1 && (s == 0 ==> j == 8 * small)
      && (1 <= s ==> j < 8 * Pow2(mb)) && (3 <= s ==> j <= 2 * Pow2(mb))
  {
    Pow2Values();
    Pow2Mono(0, s);
    if 3 <= s {
      Pow2Mono(3, s);
    } else if 1 <= s {
      Pow2Mono(1, s);
    }
    hide Pow2, Jam;
    var k := if 3 <= s then 8 else if 1 <= s then 2 else 1;
    JamBound(8 * small, Pow2(s), k);
    DivBounds(8 * small, k);
  }

  lemma JammedRange(mb: nat, hi: Float, lo: Float, s: nat)
    requires Ordered(mb, hi, lo) && s <= hi.e - lo.e && (s == 0 ==> hi.e == lo.e)
    ensures 0 <= Jammed(mb, hi, lo, s) < Pow2(mb + 5)
    ensures 3 <= s ==> Pow2(mb + 2) <= Jammed(mb, hi, lo, s)
    ensures s == 0 ==> (Jammed(mb, hi, lo, s) == 0 <==>
        Mu(mb, hi) == Mu(mb, lo) && (hi.sign != lo.sign || Mu(mb, hi) == 0))
    ensures 0 < s ==> 0 < Jammed(mb, hi, lo, s)
  {
    MuMagnitude(mb, hi);
    MuMagnitude(mb, lo);
    MuOrder(mb, hi, lo);
    Pow2Add(2, mb);
    Pow2Add(5, mb);
    Pow2Values();
    hide Pow2, Magnitude, Jam, Mu, Ordered;
    ShiftedSmaller(mb, Mu(mb, lo), s);
    SumBounds(Pow2(mb), Mu(mb, hi), Mu(mb, lo), Jam(8 * Mu(mb, lo), Pow2(s)), s, hi.sign != lo.sign);
  }

  lemma SumBounds(p: int, b: int, small: int, j: int, s: nat, neg: bool)
    requires 0 <= b < 2 * p && 0 <= small < 2 * p && 0 <= j <= 8 * small + 1
    requires s == 0 ==> j == 8 * small && small <= b
    requires 0 < s ==> p <= b && j < 8 * p
    requires 3 <= s ==> j <= 2 * p
    ensures
      var r := if neg then 8 * b - j else 8 * b + j;
      && 0 <= r < 32 * p && (3 <= s ==> 4 * p <= r)
      && (s == 0 ==> (r == 0 <==> b == small && (neg || b == 0))) && (0 < s ==> 0 < r)
  {
  }

  lemma MuOrder(mb: nat, hi: Float, lo: Float)
    requires Ordered(mb, hi, lo)
    ensures hi.e == lo.e ==> Mu(mb, lo) <= Mu(mb, hi)
  {
  }

  /** The exact combination is positive unless the mantissas cancel. */
  lemma CombinedSign(mb: nat, hi: Float, lo: Float)
    requires Ordered(mb, hi, lo)
    ensures 0 <= Combined(mb, hi, lo) && 0 <= Aligned(mb, hi, lo, hi.e - lo.e)
    ensures Combined(mb, hi, lo) == 0 <==>
      hi.e == lo.e && Mu(mb, hi) == Mu(mb, lo) && (hi.sign != lo.sign || Mu(mb, hi) == 0)
  {
    var d: nat := hi.e - lo.e;
    AlignedSum(mb, hi, lo);
    JammedRange(mb, hi, lo, d);
    hide Pow2, Magnitude, Mu, Jammed, Combined, Aligned;
    var y, x := Aligned(mb, hi, lo, d), Combined(mb, hi, lo);
    JamSign(y, Pow2(d));
    hide Jam;
    SameSign(16 * x, Pow2(d), y, Pow2(hi.e));
  }

  lemma JamSign(y: int, d: int)
    requires 0 < d && 0 <= Jam(y, d)
    ensures 0 <= y && (y == 0 <==> Jam(y, d) == 0)
  {
    DivBounds(y, d);
    var q := y / d;
    if q < 0 {
      MulMono(q + 1, 0, d);
    } else {
      MulMono(0, q, d);
    }
  }

  lemma SameSign(a: int, p: int, b: int, q: int)
    requires 0 < p && 0 < q && a * p == b * q && 0 <= b
    ensures 0 <= a && (a == 0 <==> b == 0)
  {
    if a < 0 {
      MulMono(a, -1, p);
      MulMono(0, b, q);
    } else if 0 < a {
      MulMono(1, a, p);
    }
    if 0 < b {
      MulMono(1, b, q);
    }
  }

  // ---- When the distance counter saturates ----

  lemma SatMaxBound(mb: nat)
    ensures mb + 2 <= SatMax(mb)
  {
    BitLenBounds(mb + 2);
  }

  lemma FarSmaller(mb: nat, small: int, d: nat)
    requires 0 <= small < 2 * Pow2(mb) && mb + 3 <= d
    ensures Jam(8 * small, Pow2(d)) == (if small == 0 then 0 else 1)
  {
    hide Pow2, Jam;
    FarRange(mb, small, d);
    FarQuotient(8 * small, Pow2(d));
  }

  lemma FarRange(mb: nat, small: int, d: nat)
    requires 0 <= small < 2 * Pow2(mb) && mb + 3 <= d
    ensures 8 * small < 2 * Pow2(d)
  {
    Pow2Mono(mb + 3, d);
    Pow2Add(3, mb);
    Pow2Values();
  }

  lemma FarQuotient(y: int, p: int)
    requires 0 <= y < 2 * p
    ensures Jam(y, p) == (if y == 0 then 0 else 1)
  {
    if y < p {
      ModSmall(y, p);
    } else {
      DivIntro(y, p, 1, y - p);
    }
  }

  /** At distance mb + 2 the shifted mantissa still shows up to two of its bits. */
  lemma NearSmaller(mb: nat, small: int)
    requires 1 <= mb && 0 <= small < 2 * Pow2(mb)
    ensures
      var j := Jam(8 * small, Pow2(mb + 2));
      && 0 <= j <= 3 && (j == 0 <==> small == 0) && (j == 3 <==> Pow2(mb) < small)
  {
    Pow2Add(2, mb);
    Pow2Values();
    DoublePow2(mb - 1);
    hide Pow2;
    var p := Pow2(mb - 1);
    var q := if small < p then 0 else if small < 2 * p then 1 else if small < 3 * p then 2 else 3;
    DivIntro(8 * small, 8 * p, q, 8 * small - q * (8 * p)) by {
      assert 0 * (8 * p) == 0 && 1 * (8 * p) == 8 * p && 2 * (8 * p) == 16 * p && 3 * (8 * p) == 24 * p;
    }
  }

  /** Adding or subtracting up to three low units leaves a normalized mantissa rounded to itself,
      except three below a power of two. */
  lemma AssembleNear(mb: nat, exp: nat, big: int, j: int)
    requires 1 <= mb && 2 <= exp && Pow2(mb) <= big < 2 * Pow2(mb) && 0 <= j <= 3
    ensures 0 < 8 * big - j && Assemble(mb, exp, 8 * big + j) == (exp - 1) * Pow2(mb) + big
    ensures Assemble(mb, exp, 8 * big - j)
         == (exp - 1) * Pow2(mb) + big - (if big == Pow2(mb) && j == 3 then 1 else 0)
  {
    Pow2Mono(1, mb);
    Pow2Values();
    hide Pow2, Assemble;
    AssembleOneShift(mb, exp, big, j);
    if Pow2(mb) < big || j == 0 {
      AssembleOneShift(mb, exp, big, -j);
    } else {
      AssembleTwoShifts(mb, exp, j);
    }
  }

  lemma AssembleOneShift(mb: nat, exp: nat, big: int, j: int)
    requires 1 <= exp && Pow2(mb) <= big < 2 * Pow2(mb) && -3 <= j <= 3
    requires Pow2(mb) < big || 0 <= j
    ensures 0 < 8 * big + j && Assemble(mb, exp, 8 * big + j) == (exp - 1) * Pow2(mb) + big
  {
    hide *;
    NearLength(mb, big, j);
    RoundNear(big, 2 * j);
    Pow2Values();
    AssembleAt(mb, exp, 8 * big + j, 1, big);
  }

  lemma NearLength(mb: nat, big: int, j: int)
    requires Pow2(mb) <= big < 2 * Pow2(mb) && -3 <= j <= 3
    requires Pow2(mb) < big || 0 <= j
    ensures 0 < 8 * big + j && BitLen(8 * big + j) == mb + 4
  {
    Pow2Add(3, mb);
    Pow2Add(4, mb);
    Pow2Values();
    hide *;
    BitLenUnique(8 * big + j, mb + 4);
  }

  lemma BelowLength(mb: nat, j: int)
    requires 1 <= mb && 1 <= j <= 3
    ensures 0 < 8 * Pow2(mb) - j && BitLen(8 * Pow2(mb) - j) == mb + 3
  {
    Pow2Mono(1, mb);
    Pow2Add(2, mb);
    Pow2Add(3, mb);
    Pow2Values();
    hide *;
    BitLenUnique(8 * Pow2(mb) - j, mb + 3);
  }

  lemma RoundNear(n: int, k: int)
    requires -16 < k < 8 && (k == -8 ==> n % 2 == 0)
    ensures Round(RND_CONV, 16 * n + k, 16) == (if k <= -9 then n - 1 else n)
  {
    hide Round, IsRounded;
    if 0 <= k {
      RoundParts(16 * n + k, 16, n, k);
    } else {
      if k == -8 {
        DivIntro(n - 1, 2, n / 2 - 1, 1);
      }
      RoundParts(16 * n + k, 16, n - 1, 16 + k);
    }
  }

  /** The normalized case of Assemble, with its shift and its rounding known. */
  lemma AssembleAt(mb: nat, exp: nat, res: nat, ls: nat, z: int)
    requires 0 < res && BitLen(res) == mb + 5 - ls && ls <= exp
    requires Round(RND_CONV, res * Pow2(ls), 16) == z
    ensures Assemble(mb, exp, res) == (exp - ls) * Pow2(mb) + z
  {
    hide Pow2, Round, IsRounded, BitLen;
  }

  lemma AssembleTwoShifts(mb: nat, exp: nat, j: int)
    requires 1 <= mb && 2 <= exp && 1 <= j <= 3
    ensures 0 < 8 * Pow2(mb) - j
    ensures Assemble(mb, exp, 8 * Pow2(mb) - j) == (exp - 1) * Pow2(mb) + Pow2(mb) - (if j == 3 then 1 else 0)
  {
    hide *;
    BelowLength(mb, j);
    DivIntro(2 * Pow2(mb), 2, Pow2(mb), 0);
    RoundNear(2 * Pow2(mb), -4 * j);
    Pow2Values();
    AssembleAt(mb, exp, 8 * Pow2(mb) - j, 2, 2 * Pow2(mb) - (if j == 3 then 1 else 0));
    MoveUnit(exp - 2, Pow2(mb));
  }

  lemma MuNormal(mb: nat, x: Float)
    requires 0 < x.e
    ensures Mu(mb, x) == Pow2(mb) + x.m
  {
  }

  lemma SaturationShift(mb: nat, hi: Float, lo: Float)
    requires 1 <= mb && Ordered(mb, hi, lo) && SatMax(mb) < hi.e - lo.e
    requires 0 <= Jammed(mb, hi, lo, SatMax(mb)) && 0 <= Jammed(mb, hi, lo, hi.e - lo.e)
    ensures Assemble(mb, hi.e, Jammed(mb, hi, lo, SatMax(mb)))
         == Assemble(mb, hi.e, Jammed(mb, hi, lo, hi.e - lo.e)) - (if LosesSticky(mb, hi, lo) then 1 else 0)
  {
    hide Pow2, Magnitude, Jam, SatMax, Assemble, Mu;
    var d, small: int := hi.e - lo.e, Mu(mb, lo);
    SatMaxBound(mb);
    MuMagnitude(mb, hi);
    MuMagnitude(mb, lo);
    MuNormal(mb, hi);
    FarSmaller(mb, small, d);
    if SatMax(mb) == mb + 2 {
      NearSmaller(mb, small);
    } else {
      FarSmaller(mb, small, SatMax(mb));
    }
    AssembleNear(mb, hi.e, Mu(mb, hi), Jam(8 * small, Pow2(d)));
    AssembleNear(mb, hi.e, Mu(mb, hi), Jam(8 * small, Pow2(SatMax(mb))));
  }

  /** The adder's aligned sum, normalized and rounded, is the exact sum rounded once. */
  lemma AdderRounds(mb: nat, hi: Float, lo: Float)
    requires 1 <= mb && Ordered(mb, hi, lo)
    ensures
      var res := Jammed(mb, hi, lo, Saturated(mb, hi.e - lo.e));
      && 0 <= res < Pow2(mb + 5)
      && 0 <= Combined(mb, hi, lo)
      && Assemble(mb, hi.e, res) == RoundCode(mb, Combined(mb, hi, lo)) - (if LosesSticky(mb, hi, lo) then 1 else 0)
      && (hi.e < LeadingZeros(res, mb + 5) ==> (res * Pow2(hi.e)) % 16 == 0)
  {
    var d: nat := hi.e - lo.e;
    AlignedSum(mb, hi, lo);
    CombinedSign(mb, hi, lo);
    JammedRange(mb, hi, lo, d);
    var x, y, j := Combined(mb, hi, lo), Aligned(mb, hi, lo, d), Jammed(mb, hi, lo, d);
    if d < 4 {
      SmallDistance(y, d);
    }
    hide Pow2, Jam, Combined, Aligned, Jammed, Assemble, RoundCode, Mu, Ordered, LeadingZeros;
    AssembleIsRoundCode(mb, hi.e, j, x, y, d);
    SmallExact(mb, hi.e, j, x, y, d);
    SatMaxBound(mb);
    if SatMax(mb) < d {
      hide SatMax;
      JammedRange(mb, hi, lo, SatMax(mb));
      SaturationShift(mb, hi, lo);
      FewLeadingZeros(mb, Jammed(mb, hi, lo, SatMax(mb)));
    }
  }

  lemma SmallExact(mb: nat, exp: nat, res: nat, x: nat, y: nat, d: nat)
    requires d <= exp && y % 8 == 0 && res == Jam(y, Pow2(d)) && (16 * x) * Pow2(d) == y * Pow2(exp)
    requires y % Pow2(d) == 0 || Pow2(mb + 2) <= res
    ensures exp < LeadingZeros(res, mb + 5) ==> (res * Pow2(exp)) % 16 == 0
  {
    hide Pow2, Jam;
    if exp < LeadingZeros(res, mb + 5) {
      if y % Pow2(d) != 0 {
        FewLeadingZeros(mb, res);
      }
      hide LeadingZeros;
      ExactSmallSum(exp, res, x, y, d);
      DivIntro(16 * x, 16, x, 0);
    }
  }

  lemma FewLeadingZeros(mb: nat, res: nat)
    requires Pow2(mb + 2) <= res
    ensures LeadingZeros(res, mb + 5) <= 2
  {
    BitLenAtLeast(res, mb + 2);
  }

  lemma SmallDistance(y: int, d: nat)
    requires y % 8 == 0 && d < 4
    ensures y % Pow2(d) == 0
  {
    Pow2Values();
    var k := y / 8;
    DivIntro(y, Pow2(d), if d == 0 then 8 * k else if d == 1 then 4 * k else if d == 2 then 2 * k else k, 0);
  }

  // ---- Flags and special operands ----

  /** r is the sum of a and b by the rules for NaN and infinity, and otherwise the rounded exact sum. */
  predicate IsSumOf(fmt: Format, a: Float, b: Float, lost: int, r: Float) {
    if IsNan(fmt, a) || IsNan(fmt, b) || (IsInf(fmt, a) && IsInf(fmt, b) && a.sign != b.sign) then IsNan(fmt, r)
    else if IsInf(fmt, a) then IsInf(fmt, r) && r.sign == a.sign
    else if IsInf(fmt, b) then IsInf(fmt, r) && r.sign == b.sign
    else Finite(fmt, a) && Finite(fmt, b) && IsSum(fmt, a, b, lost, r)
  }

  /** The operand with the larger exponent and mantissa fields, and the other one. */
  function Larger(a: Float, b: Float): Float {
    if a.e < b.e || (a.e == b.e && a.m < b.m) then b else a
  }

  function Smaller(a: Float, b: Float): Float {
    if a.e < b.e || (a.e == b.e && a.m < b.m) then a else b
  }

  /** Selects the operand of larger magnitude, aligns the other, and adds or subtracts in mb + 5 bits. */
  method AddMantissas(mb: nat, a: Float, b: Float) returns (exp: int, rSign: bool, res: int)
    requires 1 <= mb && 0 <= a.e && 0 <= b.e && 0 <= a.m < Pow2(mb) && 0 <= b.m < Pow2(mb)
    ensures Ordered(mb, Larger(a, b), Smaller(a, b)) && exp == Larger(a, b).e
    ensures res == Jammed(mb, Larger(a, b), Smaller(a, b), Saturated(mb, Larger(a, b).e - Smaller(a, b).e))
    ensures rSign == (if a.e == b.e && Mu(mb, a) == Mu(mb, b) then a.sign && b.sign else Larger(a, b).sign)
  {
    hide Pow2, Mu, Jammed, Jam, Saturated, SatMax;
    var mu1 := a.m + (if a.e == 0 then 0 else Pow2(mb));
    var mu2 := b.m + (if b.e == 0 then 0 else Pow2(mb));
    var eDif := if a.e < b.e then b.e - a.e else a.e - b.e;
    var doSub := a.sign != b.sign;
    var op1Smaller := a.e < b.e || (a.e == b.e && a.m < b.m);
    if a.e == 0 {
      mu1 := mu1 * 2 % Pow2(mb + 1);
    }
    if b.e == 0 {
      mu2 := mu2 * 2 % Pow2(mb + 1);
    }
    MuStep(mb, a);
    MuStep(mb, b);
    var bigger := if op1Smaller then mu2 else mu1;
    var smaller := if op1Smaller then mu1 else mu2;
    exp := if op1Smaller then b.e else a.e;
    rSign := if op1Smaller then b.sign else a.sign;
    if a.e == b.e && mu1 == mu2 {
      rSign := a.sign && b.sign;
    }
    var width := Pow2(mb + 5);
    res := AlignSmaller(mb, smaller, eDif);
    AddWraps(mb, Larger(a, b), Smaller(a, b), res, width);
    if doSub {
      res := width - 1 - res;
    }
    res := (res + 8 * bigger + (if doSub then 1 else 0)) % width;
  }

  method AddGeneric(fmt: Format, a: Float, b: Float) returns (r: Float)
    requires fmt.Ok() && Encodes(fmt, a) && Encodes(fmt, b)
    ensures Encodes(fmt, r)
    ensures IsSumOf(fmt, a, b, Lost(fmt.mb, a, b), r)
    ensures IsNan(fmt, r) ==> r.m == Pow2(fmt.mb - 1)
  {
    hide Pow2, Mu, Jammed, Jam, Saturated, SatMax, Assemble, RoundCode, LeadingZeros, Lost, LosesSticky, IsSum;
    var mb, maxExp := fmt.mb, fmt.MaxExp();
    var inf1, nan1 := a.e == maxExp && a.m == 0, a.e == maxExp && a.m != 0;
    var inf2, nan2 := b.e == maxExp && b.m == 0, b.e == maxExp && b.m != 0;
    var exp0, rSign, res := AddMantissas(mb, a, b);
    ghost var hi, lo := Larger(a, b), Smaller(a, b);
    AdderRounds(mb, hi, lo);
    MaxExpBound(fmt);
    var exp, m, normal, zero, rInf := NormalizeRound(mb, maxExp, exp0, res);
    var nan := nan1 || nan2 || (inf1 && inf2 && a.sign != b.sign);
    var exception := inf1 || inf2 || nan1 || nan2 || rInf;
    var eR := if exception then maxExp else if zero || !normal then 0 else exp;
    if exception || zero {
      m := if nan then Pow2(mb - 1) else 0;
    }
    r := Float(rSign, eR, m);
    TopMantissaBit(mb);
    if Finite(fmt, a) && Finite(fmt, b) {
      if zero {
        ZeroAssembles(mb, exp0);
      }
      FiniteSum(fmt, a, b, hi, lo, r, Assemble(mb, exp0, res));
    }
  }

  lemma ZeroAssembles(mb: nat, exp: nat)
    ensures Assemble(mb, exp, 0) == 0
  {
  }

  /** The exact sum is the combined magnitude with the sign of the larger operand. */
  lemma CombinedIsSum(fmt: Format, a: Float, b: Float, hi: Float, lo: Float)
    requires Finite(fmt, a) && Finite(fmt, b) && Ordered(fmt.mb, hi, lo)
    requires (hi == a && lo == b) || (hi == b && lo == a)
    ensures AbsVal(ExactSum(fmt, a, b)) == Combined(fmt.mb, hi, lo)
    ensures ExactSum(fmt, a, b) < 0 <==> hi.sign && ExactSum(fmt, a, b) != 0
    ensures ExactSum(fmt, a, b) == 0 <==> a.e == b.e && Mu(fmt.mb, a) == Mu(fmt.mb, b) && (a.sign != b.sign || Mu(fmt.mb, a) == 0)
  {
    CombinedSign(fmt.mb, hi, lo);
    hide Pow2, Magnitude, Mu, Aligned;
  }

  lemma FiniteSum(fmt: Format, a: Float, b: Float, hi: Float, lo: Float, r: Float, c: int)
    requires 1 <= fmt.mb && Finite(fmt, a) && Finite(fmt, b) && Ordered(fmt.mb, hi, lo)
    requires (hi == a && lo == b) || (hi == b && lo == a)
    requires 0 <= Combined(fmt.mb, hi, lo)
    requires c == RoundCode(fmt.mb, Combined(fmt.mb, hi, lo)) - (if LosesSticky(fmt.mb, hi, lo) then 1 else 0)
    requires Encodes(fmt, r)
    requires r.sign == (if a.e == b.e && Mu(fmt.mb, a) == Mu(fmt.mb, b) then a.sign && b.sign else hi.sign)
    requires if fmt.MaxExp() * Pow2(fmt.mb) <= c then IsInf(fmt, r) else Finite(fmt, r) && Code(fmt, r) == c
    ensures IsSum(fmt, a, b, Lost(fmt.mb, a, b), r)
  {
    hide Pow2, Mu, RoundCode, Combined, ExactSum, SatMax;
    CombinedIsSum(fmt, a, b, hi, lo);
  }

  /** Where the sticky bit is lost, the exact sum rounds to the power of two it started from. */
  lemma LostRoundsUp(mb: nat, hi: Float, lo: Float)
    requires 1 <= mb && Ordered(mb, hi, lo) && LosesSticky(mb, hi, lo)
    ensures 0 <= Combined(mb, hi, lo) && RoundCode(mb, Combined(mb, hi, lo)) == hi.e * Pow2(mb)
  {
    hide Pow2, RoundCode, Combined, Jam, Assemble, SatMax, Magnitude;
    AdderRounds(mb, hi, lo);
    MuMagnitude(mb, lo);
    MuMagnitude(mb, hi);
    NearSmaller(mb, Mu(mb, lo));
    var j := Jam(8 * Mu(mb, lo), Pow2(mb + 2));
    assert Mu(mb, hi) == Pow2(mb);
    hide Mu;
    assert Jammed(mb, hi, lo, mb + 2) == 8 * Pow2(mb) - j;
    hide Jammed;
    AssembleNear(mb, hi.e, Pow2(mb), j);
    MoveUnit(hi.e - 1, Pow2(mb));
  }

  lemma LostStaysFinite(fmt: Format, a: Float, b: Float, hi: Float, lo: Float)
    requires fmt.Ok() && Finite(fmt, a) && Finite(fmt, b) && LosesSticky(fmt.mb, hi, lo)
    requires (hi == a && lo == b) || (hi == b && lo == a)
    ensures RoundCode(fmt.mb, AbsVal(ExactSum(fmt, a, b))) < fmt.MaxExp() * Pow2(fmt.mb)
  {
    hide Pow2, Mu, RoundCode, Combined, ExactSum, SatMax;
    CombinedIsSum(fmt, a, b, hi, lo);
    LostRoundsUp(fmt.mb, hi, lo);
    MulStrict(hi.e, fmt.MaxExp(), Pow2(fmt.mb));
  }

  /** The addition rounds correctly exactly when no sticky bit is lost. */
  lemma AddIsCorrectIff(fmt: Format, a: Float, b: Float, r: Float)
    requires fmt.Ok() && Encodes(fmt, a) && Encodes(fmt, b)
    requires IsSumOf(fmt, a, b, Lost(fmt.mb, a, b), r)
    ensures IsSumOf(fmt, a, b, 0, r) <==>
      !(Finite(fmt, a) && Finite(fmt, b) && (LosesSticky(fmt.mb, a, b) || LosesSticky(fmt.mb, b, a)))
  {
    hide Pow2, Mu, RoundCode, ExactSum, SatMax, LosesSticky;
    if Finite(fmt, a) && Finite(fmt, b) {
      if LosesSticky(fmt.mb, a, b) {
        LostStaysFinite(fmt, a, b, a, b);
      } else if LosesSticky(fmt.mb, b, a) {
        LostStaysFinite(fmt, a, b, b, a);
      }
    }
  }

  lemma MaxExpBound(fmt: Format)
    requires fmt.Ok()
    ensures 3 <= fmt.MaxExp()
  {
    Pow2Mono(2, fmt.eb);
    Pow2Values();
  }

  lemma MuStep(mb: nat, x: Float)
    requires 0 <= x.e && 0 <= x.m < Pow2(mb)
    ensures Mu(mb, x) == (if x.e == 0 then (x.m + 0) * 2 % Pow2(mb + 1) else x.m + Pow2(mb))
    ensures 0 <= Mu(mb, x) < 2 * Pow2(mb)
  {
    DoublePow2(mb);
    hide Pow2;
    if x.e == 0 {
      ModSmall(2 * x.m, Pow2(mb + 1));
    }
  }

  /** Subtraction by complement and carry-in, in mb + 5 bits. */
  lemma AddWraps(mb: nat, hi: Float, lo: Float, j: int, width: int)
    requires Ordered(mb, hi, lo) && width == Pow2(mb + 5)
    requires j == Jam(8 * Mu(mb, lo), Pow2(Saturated(mb, hi.e - lo.e)))
    ensures
      var neg := hi.sign != lo.sign;
      ((if neg then width - 1 - j else j) + 8 * Mu(mb, hi) + (if neg then 1 else 0)) % width
        == Jammed(mb, hi, lo, Saturated(mb, hi.e - lo.e))
  {
    SatMaxBound(mb);
    JammedRange(mb, hi, lo, Saturated(mb, hi.e - lo.e));
    hide Pow2, Jam, Mu, Saturated, SatMax;
    var t := Jammed(mb, hi, lo, Saturated(mb, hi.e - lo.e));
    ModSmall(t, width);
    ModMultiple(t, 1, width);
  }

  // ---- Which formats are affected ----

  /** Only a mantissa width three below a power of two has a counter that saturates too early. */
  lemma EarlySaturation(mb: nat)
    ensures SatMax(mb) == mb + 2 <==> exists k: nat :: mb + 3 == Pow2(k)
  {
    SatMaxBound(mb);
    if k: nat :| mb + 3 == Pow2(k) {
      Pow2Values();
      if k == 0 {
        assert false;
      }
      BitLenUnique(mb + 2, k);
    }
    if SatMax(mb) == mb + 2 {
      assert mb + 3 == Pow2(BitLen(mb + 2));
    }
  }

  /** binary16, binary32, binary64, binary128, binary256 and bfloat16 addition is correctly rounded on
      all inputs. */
  lemma StandardFormatsNeverLose(mb: nat, a: Float, b: Float)
    requires mb == 10 || mb == 23 || mb == 52 || mb == 112 || mb == 236 || mb == 7
    ensures Lost(mb, a, b) == 0
  {
    Pow2Values();
    Pow2Add(5, 1);
    Pow2Add(5, 2);
    assert Pow2(6) == 64 && Pow2(7) == 128;
    hide Pow2;
    BitLenUnique(mb + 2,
      if mb == 23 then 5 else if mb == 52 then 6 else if mb == 112 then 7 else if mb == 236 then 8 else 4);
  }

  /** Five mantissa bits and exponents eight apart: the exact difference rounds to the power of two it
      started from, and the code of the sum is one less. */
  lemma LostExample(r: Float)
    requires IsSumOf(Format(5, 8), Float(false, 20, 0), Float(true, 12, 1), Lost(5, Float(false, 20, 0), Float(true, 12, 1)), r)
    ensures
      var fmt, a, b := Format(5, 8), Float(false, 20, 0), Float(true, 12, 1);
      && Finite(fmt, a) && Finite(fmt, b) && 0 < ExactSum(fmt, a, b)
      && RoundCode(5, ExactSum(fmt, a, b)) == 20 * 32
      && Finite(fmt, r) && !r.sign && Code(fmt, r) == 20 * 32 - 1
  {
    hide Pow2, Mu, RoundCode, Combined, ExactSum, SatMax, LosesSticky;
    var fmt, a, b := Format(5, 8), Float(false, 20, 0), Float(true, 12, 1);
    LostInput();
    LostRoundsUp(5, a, b);
    CombinedIsSum(fmt, a, b, a, b);
    Pow2Values();
    ZeroCode(5);
  }

  lemma LostInput()
    ensures
      var fmt, a, b := Format(5, 8), Float(false, 20, 0), Float(true, 12, 1);
      Finite(fmt, a) && Finite(fmt, b) && LosesSticky(5, a, b) && Ordered(5, a, b)
  {
    Pow2Values();
    BitLenUnique(7, 3);
  }

  lemma ZeroCode(mb: nat)
    ensures RoundCode(mb, 0) == 0
  {
    Pow2Values();
    assert 0 * Pow2(mb) == 0;
  }

  // ---- What the contract gives a caller ----

  lemma CodeInjective(fmt: Format, x: Float, y: Float)
    requires Encodes(fmt, x) && Encodes(fmt, y) && Code(fmt, x) == Code(fmt, y)
    ensures x.e == y.e && x.m == y.m
  {
    hide Pow2;
    DivIntro(Code(fmt, x), Pow2(fmt.mb), x.e, x.m);
    DivIntro(Code(fmt, y), Pow2(fmt.mb), y.e, y.m);
  }

  /** Addition commutes, bit for bit, wherever the sum is a number. */
  lemma AddCommutes(fmt: Format, a: Float, b: Float, r: Float, r': Float)
    requires fmt.Ok() && Encodes(fmt, a) && Encodes(fmt, b) && Encodes(fmt, r) && Encodes(fmt, r')
    requires IsSumOf(fmt, a, b, Lost(fmt.mb, a, b), r) && IsSumOf(fmt, b, a, Lost(fmt.mb, b, a), r')
    requires !IsNan(fmt, r)
    ensures r == r'
  {
    hide Pow2, Mu, RoundCode, ExactSum, SatMax, LosesSticky, Code;
    if Finite(fmt, a) && Finite(fmt, b) {
      SumCommutes(fmt, a, b);
      if Finite(fmt, r) && Finite(fmt, r') {
        CodeInjective(fmt, r, r');
      }
    }
  }

  /** The operands that are no finite numbers: NaN spreads, infinities of opposite signs give NaN, and
      otherwise an infinity stays. */
  lemma SpecialSums(fmt: Format, a: Float, b: Float, lost: int, r: Float)
    requires fmt.Ok() && Encodes(fmt, a) && Encodes(fmt, b) && IsSumOf(fmt, a, b, lost, r)
    ensures (a.e == Pow2(fmt.eb) - 1 && a.m != 0) || (b.e == Pow2(fmt.eb) - 1 && b.m != 0) ==>
      r.e == Pow2(fmt.eb) - 1 && r.m != 0
    ensures a.e == b.e == Pow2(fmt.eb) - 1 && a.m == b.m == 0 ==>
      r.e == Pow2(fmt.eb) - 1 && (if a.sign == b.sign then r.m == 0 && r.sign == a.sign else r.m != 0)
    ensures a.e == Pow2(fmt.eb) - 1 && a.m == 0 && b.e < Pow2(fmt.eb) - 1 ==> r.e == a.e && r.m == 0 && r.sign == a.sign
    ensures b.e == Pow2(fmt.eb) - 1 && b.m == 0 && a.e < Pow2(fmt.eb) - 1 ==> r.e == b.e && r.m == 0 && r.sign == b.sign
  {
    hide IsSum;
  }

  /** An exact zero is positive unless both operands are negative, and no other sum is zero. */
  lemma ZeroSums(fmt: Format, a: Float, b: Float, r: Float)
    requires fmt.Ok() && Finite(fmt, a) && Finite(fmt, b) && IsSumOf(fmt, a, b, 0, r)
    ensures Value(fmt, a) + Value(fmt, b) == 0 ==> r == Float(a.sign && b.sign, 0, 0)
    ensures Value(fmt, a) + Value(fmt, b) < 0 ==> r.sign
    ensures 0 < Value(fmt, a) + Value(fmt, b) ==> !r.sign
  {
    MaxExpBound(fmt);
    ZeroCode(fmt.mb);
    hide Pow2, RoundCode;
    MulMono(1, fmt.MaxExp(), Pow2(fmt.mb));
    if Value(fmt, a) + Value(fmt, b) == 0 {
      DivIntro(0, Pow2(fmt.mb), 0, 0);
      DivIntro(Code(fmt, r), Pow2(fmt.mb), r.e, r.m);
    }
  }

  /** The sum becomes infinite exactly from half a unit beyond the largest finite number on. */
  lemma OverflowThreshold(fmt: Format, a: Float, b: Float, r: Float)
    requires fmt.Ok() && Finite(fmt, a) && Finite(fmt, b) && IsSumOf(fmt, a, b, 0, r)
    ensures 3 <= Pow2(fmt.eb) - 1
    ensures
      r.e == Pow2(fmt.eb) - 1
      <==> (Pow2(fmt.mb + 2) - 1) * Pow2(Pow2(fmt.eb) - 4) <= AbsVal(Value(fmt, a) + Value(fmt, b))
  {
    MaxExpBound(fmt);
    hide Pow2, RoundCode, Value;
    LargeCode(fmt.mb, AbsVal(Value(fmt, a) + Value(fmt, b)), fmt.MaxExp());
  }

  lemma LargeCode(mb: nat, x: nat, e: int)
    requires 3 <= e
    ensures e * Pow2(mb) <= RoundCode(mb, x) <==> (Pow2(mb + 2) - 1) * Pow2(e - 3) <= x
  {
    hide Pow2, Round, IsRounded, Excess;
    var sh, p := Excess(mb, x), Pow2(mb);
    var z := Round(RND_CONV, x, Pow2(sh));
    ExcessBounds(mb, x);
    ExcessRange(mb, x);
    DoublePow2(mb);
    DoublePow2(mb + 1);
    Thresholds(mb, e);
    CodeReaches(sh, z, p, e);
    if e - 2 < sh {
      Pow2Mono(mb + e - 1, mb + sh);
    } else if sh < e - 2 {
      Pow2Mono(mb + 1 + sh, mb + e - 2);
    } else {
      DoublePow2(e - 3);
      LastUnit(x, Pow2(e - 3), 2 * p);
    }
  }

  /** A code reaches exponent field e by its excess, or by rounding up to twice the hidden bit. */
  lemma CodeReaches(sh: int, z: int, p: int, e: int)
    requires 0 < p && z <= 2 * p
    ensures e - 2 < sh && p <= z ==> e * p <= sh * p + z
    ensures sh < e - 2 ==> sh * p + z < e * p
    ensures sh == e - 2 ==> (e * p <= sh * p + z <==> z == 2 * p)
  {
    MoveUnit(e - 1, p);
    MoveUnit(e - 2, p);
    MoveUnit(e - 3, p);
    if e - 2 < sh {
      MulMono(e - 1, sh, p);
    } else if sh < e - 2 {
      MulMono(sh, e - 3, p);
    }
  }

  lemma Thresholds(mb: nat, e: int)
    requires 3 <= e
    ensures Pow2(mb + e - 2) <= (Pow2(mb + 2) - 1) * Pow2(e - 3) < Pow2(mb + e - 1)
  {
    Pow2Add(mb + 2, e - 3);
    Pow2Add(mb + 1, e - 3);
    DoublePow2(mb + 1);
    Pow2Values();
    hide Pow2;
    MulMinus(Pow2(mb + 2), 1, Pow2(e - 3));
    MulMono(1, Pow2(mb + 1), Pow2(e - 3));
    assert mb + 1 + (e - 3) == mb + e - 2 && mb + 2 + (e - 3) == mb + e - 1;
  }

  /** x in units of 2 h rounds up to the even t exactly from half a unit below it on. */
  lemma LastUnit(x: nat, h: int, t: int)
    requires 0 < h && t % 2 == 0 && x / (2 * h) < t
    ensures Round(RND_CONV, x, 2 * h) == t <==> (2 * t - 1) * h <= x
  {
    hide IsRounded;
    var f, m := x / (2 * h), x % (2 * h);
    DivBounds(x, 2 * h);
    assert (2 * t - 1) * h == t * (2 * h) - h;
    if f == t - 1 {
      MoveUnit(f, 2 * h);
    } else {
      MulMono(f + 2, t, 2 * h);
      assert (f + 2) * (2 * h) == f * (2 * h) + 4 * h;
    }
  }

  lemma SumCommutes(fmt: Format, a: Float, b: Float)
    requires Finite(fmt, a) && Finite(fmt, b)
    ensures ExactSum(fmt, a, b) == ExactSum(fmt, b, a)
  {
  }

  /** A correctly rounded finite sum is at least as close to the exact sum as any finite number,
      and its mantissa is even when another number is equally close. */
  lemma SumIsNearest(fmt: Format, a: Float, b: Float, r: Float, y: Float)
    requires fmt.Ok() && Finite(fmt, a) && Finite(fmt, b) && IsSum(fmt, a, b, 0, r)
    requires Finite(fmt, r) && Finite(fmt, y)
    ensures AbsVal(Value(fmt, r) - ExactSum(fmt, a, b)) <= AbsVal(Value(fmt, y) - ExactSum(fmt, a, b))
    ensures
      var x := ExactSum(fmt, a, b);
      AbsVal(Value(fmt, r) - x) == AbsVal(Value(fmt, y) - x) && Value(fmt, r) != Value(fmt, y) ==> r.m % 2 == 0
  {
    DoublePow2(fmt.mb - 1);
    hide Pow2, Magnitude, MagnitudeOfCode, RoundCode, ExactSum;
    var mb, x := fmt.mb, ExactSum(fmt, a, b);
    CodeMagnitude(mb, r.e, r.m);
    CodeMagnitude(mb, y.e, y.m);
    EvenShift(r.e, mb, r.m);
    MagnitudeSign(mb, r);
    MagnitudeSign(mb, y);
    FiniteBelowMax(fmt, r);
    RoundCodeIsNearest(mb, AbsVal(x), Code(fmt, y));
    if Code(fmt, y) == Code(fmt, r) {
      CodeInjective(fmt, y, r);
    }
  }

  lemma MagnitudeSign(mb: nat, x: Float)
    requires 0 <= x.e && 0 <= x.m
    ensures 0 <= Magnitude(mb, x.e, x.m)
  {
    if 0 < x.e {
      MulMono(0, Pow2(mb) + x.m, Pow2(x.e - 1));
    }
  }

  lemma FiniteBelowMax(fmt: Format, r: Float)
    requires Finite(fmt, r)
    ensures Code(fmt, r) < fmt.MaxExp() * Pow2(fmt.mb) && !IsInf(fmt, r)
  {
    hide Pow2;
    MulMono(r.e + 1, fmt.MaxExp(), Pow2(fmt.mb));
    MoveUnit(r.e, Pow2(fmt.mb));
  }
}

/** Binary floating-point encodings and what it means to round a number to one of them. */
module FloatFormat {
  import opened Powers
  import opened Rounding

  /** mb mantissa bits and eb exponent bits. */
  datatype Format = Format(mb: nat, eb: nat) {
    predicate Ok() {
      1 <= mb && 2 <= eb
    }

    function MaxExp(): int {
      Pow2(eb) - 1
    }
  }

  /** The fields of an encoding. */
  datatype Float = Float(sign: bool, e: int, m: int)

  predicate Encodes(fmt: Format, x: Float) {
    0 <= x.e <= fmt.MaxExp() && 0 <= x.m < Pow2(fmt.mb)
  }

  predicate Finite(fmt: Format, x: Float) {
    Encodes(fmt, x) && x.e < fmt.MaxExp()
  }

  predicate IsInf(fmt: Format, x: Float) {
    x.e == fmt.MaxExp() && x.m == 0
  }

  predicate IsNan(fmt: Format, x: Float) {
    x.e == fmt.MaxExp() && x.m != 0
  }

  /** Exponent and mantissa read as one number: magnitudes are ordered as these codes are. */
  function Code(fmt: Format, x: Float): int {
    x.e * Pow2(fmt.mb) + x.m
  }

  /** The magnitude with exponent field e and mantissa field m, in units of the smallest subnormal. */
  function Magnitude(mb: nat, e: nat, m: int): int {
    if e == 0 then m else (Pow2(mb) + m) * Pow2(e - 1)
  }

  /** The magnitude that a code stands for, when exponents are not bounded. */
  function MagnitudeOfCode(mb: nat, c: nat): int {
    CodeParts(mb, c);
    Magnitude(mb, c / Pow2(mb), c % Pow2(mb))
  }

  lemma CodeParts(mb: nat, c: nat)
    ensures 0 <= c / Pow2(mb) && 0 <= c % Pow2(mb) < Pow2(mb)
  {
    RoundBounds(c, Pow2(mb), c / Pow2(mb), c % Pow2(mb));
  }

  /** The exact value of a finite encoding. */
  function Value(fmt: Format, x: Float): int
    requires Finite(fmt, x)
  {
    if x.sign then -Magnitude(fmt.mb, x.e, x.m) else Magnitude(fmt.mb, x.e, x.m)
  }

  /** Half precision, in units of 2^-24: one, the smallest negative number, and the largest number. */
  lemma HalfPrecision()
    ensures
      var fmt := Format(10, 5);
      && Finite(fmt, Float(false, 15, 0)) && Value(fmt, Float(false, 15, 0)) == Pow2(24)
      && Finite(fmt, Float(true, 0, 1)) && Value(fmt, Float(true, 0, 1)) == -1
      && Finite(fmt, Float(false, 30, 1023)) && Value(fmt, Float(false, 30, 1023)) == 65504 * Pow2(24)
      && IsInf(fmt, Float(false, 31, 0)) && IsNan(fmt, Float(false, 31, 512))
  {
    Pow2Values();
    Pow2Add(8, 2);
    Pow2Add(10, 14);
    Pow2Add(24, 5);
  }

  function BitLen(x: nat): nat {
    if x == 0 then 0 else 1 + BitLen(x / 2)
  }

  lemma {:induction false} BitLenBounds(x: nat)
    ensures x < Pow2(BitLen(x))
    ensures 0 < x ==> 0 < BitLen(x) && Pow2(BitLen(x) - 1) <= x
  {
    if 0 < x {
      BitLenBounds(x / 2);
    }
  }

  lemma BitLenUnique(x: nat, n: nat)
    requires 0 < n && Pow2(n - 1) <= x < Pow2(n)
    ensures BitLen(x) == n
  {
    BitLenBounds(x);
    if BitLen(x) < n {
      Pow2Mono(BitLen(x), n - 1);
    } else if n < BitLen(x) {
      Pow2Mono(n, BitLen(x) - 1);
    }
  }

  /** Low bits that mb + 1 significant bits cannot hold. */
  function Excess(mb: nat, x: nat): nat {
    if BitLen(x) <= mb + 1 then 0 else BitLen(x) - (mb + 1)
  }

  /** x rounded to mb + 1 significant bits, ties to even, as a code with unbounded exponent. */
  function RoundCode(mb: nat, x: nat): int {
    Excess(mb, x) * Pow2(mb) + Round(RND_CONV, x, Pow2(Excess(mb, x)))
  }

  lemma TopMantissaBit(mb: nat)
    requires 1 <= mb
    ensures 0 < Pow2(mb - 1) < Pow2(mb)
  {
  }

  lemma ShiftedNormal(mb: nat, sh: nat, y: nat)
    requires Pow2(mb) <= y < 2 * Pow2(mb)
    ensures 0 <= sh * Pow2(mb) + y
    ensures MagnitudeOfCode(mb, sh * Pow2(mb) + y) == y * Pow2(sh)
  {
    hide Pow2, MagnitudeOfCode, Magnitude;
    CodeMagnitude(mb, sh + 1, y - Pow2(mb));
    MoveUnit(sh, Pow2(mb));
    NormalMagnitude(mb, sh, y - Pow2(mb));
  }

  lemma ShiftedNext(mb: nat, sh: nat, y: nat)
    requires y == 2 * Pow2(mb)
    ensures 0 <= sh * Pow2(mb) + y
    ensures MagnitudeOfCode(mb, sh * Pow2(mb) + y) == y * Pow2(sh)
  {
    DoublePow2(sh);
    hide Pow2, MagnitudeOfCode, Magnitude;
    CodeMagnitude(mb, sh + 2, 0);
    MoveUnit(sh, Pow2(mb));
    MoveUnit(sh + 1, Pow2(mb));
    NormalMagnitude(mb, sh + 1, 0);
    Redouble(Pow2(mb), y, Pow2(sh));
  }

  /** Codes sh * 2^mb + y with y of mb or mb + 1 bits stand for y * 2^sh. */
  lemma MagnitudeOfShifted(mb: nat, sh: nat, y: nat)
    requires y <= 2 * Pow2(mb) && (sh > 0 ==> Pow2(mb) <= y)
    ensures 0 <= sh * Pow2(mb) + y
    ensures MagnitudeOfCode(mb, sh * Pow2(mb) + y) == y * Pow2(sh)
  {
    hide Pow2, MagnitudeOfCode, Magnitude;
    if y < Pow2(mb) {
      ShiftedSubnormal(mb, sh, y);
    } else if y < 2 * Pow2(mb) {
      ShiftedNormal(mb, sh, y);
    } else {
      ShiftedNext(mb, sh, y);
    }
  }

  lemma ShiftedSubnormal(mb: nat, sh: nat, y: nat)
    requires sh == 0 && y < Pow2(mb)
    ensures 0 <= sh * Pow2(mb) + y
    ensures MagnitudeOfCode(mb, sh * Pow2(mb) + y) == y * Pow2(sh)
  {
    Pow2Values();
    hide Pow2, MagnitudeOfCode, Magnitude;
    CodeMagnitude(mb, 0, y);
    SubnormalMagnitude(mb, y);
    assert sh * Pow2(mb) == 0 * Pow2(mb);
  }

  lemma SubnormalMagnitude(mb: nat, m: nat)
    ensures Magnitude(mb, 0, m) == m * 1
  {
  }

  lemma NormalMagnitude(mb: nat, sh: nat, m: nat)
    ensures Magnitude(mb, sh + 1, m) == (Pow2(mb) + m) * Pow2(sh)
  {
  }

  /** A code taken apart. */
  lemma CodeMagnitude(mb: nat, e: nat, m: nat)
    requires m < Pow2(mb)
    ensures 0 <= e * Pow2(mb) + m
    ensures MagnitudeOfCode(mb, e * Pow2(mb) + m) == Magnitude(mb, e, m)
  {
    MulMono(0, e, Pow2(mb));
    DivIntro(e * Pow2(mb) + m, Pow2(mb), e, m);
  }

  lemma Redouble(p: int, y: int, q: int)
    requires y == 2 * p
    ensures (p + 0) * (2 * q) == y * q
  {
  }

  /** Bits kept and dropped of a number with excess bits. */
  lemma ExcessBounds(mb: nat, x: nat)
    ensures
      var sh, f := Excess(mb, x), x / Pow2(Excess(mb, x));
      && 0 <= f < 2 * Pow2(mb) && (sh > 0 ==> Pow2(mb) <= f)
      && f <= Round(RND_CONV, x, Pow2(sh)) <= f + 1
  {
    hide Pow2, Round, IsRounded, Excess;
    var sh := Excess(mb, x);
    RoundNearFloor(x, Pow2(sh));
    DoublePow2(mb);
    ExcessRange(mb, x);
    if sh == 0 {
      Pow2Values();
    } else {
      Pow2Add(mb + 1, sh);
      Pow2Add(mb, sh);
      QuotientWithin(x, Pow2(sh), Pow2(mb), Pow2(mb + 1));
    }
  }

  lemma ExcessRange(mb: nat, x: nat)
    ensures
      var sh := Excess(mb, x);
      x < Pow2(mb + 1 + sh) && (sh > 0 ==> Pow2(mb + sh) <= x)
  {
    hide Pow2;
    BitLenBounds(x);
    if BitLen(x) <= mb + 1 {
      Pow2Mono(BitLen(x), mb + 1);
    }
  }

  lemma QuotientWithin(x: int, p: int, lo: int, hi: int)
    requires 0 < p && lo * p <= x < hi * p
    ensures lo <= x / p < hi
  {
    DivBounds(x, p);
    MulCancelLt(x / p, hi, p);
    MulCancelLt(lo, x / p + 1, p);
  }

  /** Magnitudes strictly increase with their codes. */
  lemma {:induction false} MagnitudeMonotone(mb: nat, c: nat, d: nat)
    requires c < d
    ensures MagnitudeOfCode(mb, c) < MagnitudeOfCode(mb, d)
    decreases d
  {
    MagnitudeStep(mb, d - 1);
    if c < d - 1 {
      MagnitudeMonotone(mb, c, d - 1);
    }
  }

  lemma MagnitudeStep(mb: nat, c: nat)
    ensures MagnitudeOfCode(mb, c) < MagnitudeOfCode(mb, c + 1)
  {
    var p := Pow2(mb);
    var e, m := c / p, c % p;
    CodeParts(mb, c);
    DivBounds(c, p);
    Pow2Values();
    hide Pow2, MagnitudeOfCode;
    var sh := if e == 0 then 0 else e - 1;
    var y := if e == 0 then m else p + m;
    MoveUnit(e - 1, p);
    assert c == sh * p + y;
    MagnitudeOfShifted(mb, sh, y);
    MagnitudeOfShifted(mb, sh, y + 1);
    MoveUnit(y, Pow2(sh));
  }

  /** x lies between two neighbouring codes, one of which is its rounding. */
  lemma Neighbours(mb: nat, x: nat, c: nat)
    ensures
      var sh := Excess(mb, x);
      var p, f, z := Pow2(sh), x / Pow2(sh), Round(RND_CONV, x, Pow2(sh));
      && 0 <= RoundCode(mb, x) && (z == f || z == f + 1)
      && f * p <= x < f * p + p && (f + 1) * p == f * p + p
      && MagnitudeOfCode(mb, RoundCode(mb, x)) == z * p
      && (MagnitudeOfCode(mb, c) <= f * p || f * p + p <= MagnitudeOfCode(mb, c))
      && (MagnitudeOfCode(mb, c) == z * p ==> c == RoundCode(mb, x))
  {
    var sh := Excess(mb, x);
    var p, f, z := Pow2(sh), x / Pow2(sh), Round(RND_CONV, x, Pow2(sh));
    ExcessBounds(mb, x);
    DivBounds(x, p);
    MoveUnit(f, p);
    hide Pow2, MagnitudeOfCode, Magnitude, Excess, Round;
    MagnitudeOfShifted(mb, sh, f);
    MagnitudeOfShifted(mb, sh, f + 1);
    var lo := sh * Pow2(mb) + f;
    if c < lo {
      MagnitudeMonotone(mb, c, lo);
    } else if lo + 1 < c {
      MagnitudeMonotone(mb, lo + 1, c);
    }
  }

  /** RoundCode picks the nearest magnitude of all codes, and the even code on a tie. */
  lemma RoundCodeIsNearest(mb: nat, x: nat, c: nat)
    ensures 0 <= RoundCode(mb, x)
    ensures
      var r := MagnitudeOfCode(mb, RoundCode(mb, x));
      && AbsVal(r - x) <= AbsVal(MagnitudeOfCode(mb, c) - x)
      && (1 <= mb && c != RoundCode(mb, x) && AbsVal(r - x) == AbsVal(MagnitudeOfCode(mb, c) - x) ==>
            RoundCode(mb, x) % 2 == 0)
  {
    hide Pow2, MagnitudeOfCode, Magnitude, Excess, Round;
    var sh := Excess(mb, x);
    var p, f, z := Pow2(sh), x / Pow2(sh), Round(RND_CONV, x, Pow2(sh));
    Neighbours(mb, x, c);
    if 1 <= mb {
      EvenShift(sh, mb, z);
    }
    NearestOfTwo(x, p, f, z, MagnitudeOfCode(mb, c));
  }

  lemma EvenShift(sh: nat, mb: nat, z: int)
    requires 1 <= mb
    ensures (sh * Pow2(mb) + z) % 2 == z % 2
  {
    assert sh * Pow2(mb) == (sh * Pow2(mb - 1)) * 2 by {
      MulAssoc(sh, Pow2(mb - 1), 2);
    }
    ModMultiple(z, sh * Pow2(mb - 1), 2);
  }

  lemma NearestOfTwo(x: int, p: int, f: int, z: int, other: int)
    requires 0 < p && f == x / p && f * p <= x < f * p + p && (f + 1) * p == f * p + p
    requires z == Round(RND_CONV, x, p)
    requires other <= f * p || f * p + p <= other
    ensures AbsVal(z * p - x) <= AbsVal(other - x)
    ensures AbsVal(z * p - x) == AbsVal(other - x) && other != z * p ==> z % 2 == 0
  {
    assert z == f || z == f + 1;
    assert IsRounded(RND_CONV, x, p, z);
  }
}

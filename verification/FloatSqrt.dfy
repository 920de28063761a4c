/** `sqrt_generic<AC_RND_CONV,false>` against the exact real square root. */
module FloatSqrt {
  import opened Powers
  import opened Rounding
  import opened FloatFormat
  import opened FloatAddition
  import opened FloatRoot

  function Bias(fmt: Format): int
    requires 1 <= fmt.eb
  {
    Pow2(fmt.eb - 1) - 1
  }

  lemma BiasBounds(fmt: Format)
    requires fmt.Ok()
    ensures 1 <= Bias(fmt) && fmt.MaxExp() == 2 * Bias(fmt) + 1
  {
    Pow2Mono(1, fmt.eb - 1);
    Pow2Values();
  }

  /** The code c is nearest to the real square root of n: the midpoints to its neighbours lie on
      either side of the root, and the root is at neither. */
  ghost predicate NearestRoot(mb: nat, n: int, c: int) {
    && 0 <= c
    && (0 < c ==> Square(MagnitudeOfCode(mb, c - 1) + MagnitudeOfCode(mb, c)) < 4 * n)
    && 4 * n < Square(MagnitudeOfCode(mb, c) + MagnitudeOfCode(mb, c + 1))
  }

  lemma SquareMono(a: int, b: int)
    requires 0 <= a <= b
    ensures Square(a) <= Square(b) && (a < b ==> Square(a) < Square(b))
  {
    MulMono(a, b, a);
    MulMono(a, b, b);
    if a < b {
      MulStrict(a, b, b);
    }
  }

  lemma {:induction false} MagnitudeFloor(mb: nat, c: nat)
    ensures 0 <= MagnitudeOfCode(mb, c)
  {
    if c == 0 {
      hide Pow2;
      CodeMagnitude(mb, 0, 0);
    } else {
      MagnitudeFloor(mb, c - 1);
      MagnitudeMonotone(mb, c - 1, c);
    }
  }

  /** A nearest code beats every other code: the midpoint with any other magnitude is beyond the root. */
  lemma NearestRootBeatsAll(mb: nat, n: int, c: nat, d: nat)
    requires NearestRoot(mb, n, c) && d != c
    ensures d < c ==> Square(MagnitudeOfCode(mb, d) + MagnitudeOfCode(mb, c)) < 4 * n
    ensures c < d ==> 4 * n < Square(MagnitudeOfCode(mb, c) + MagnitudeOfCode(mb, d))
  {
    hide Square, MagnitudeOfCode;
    MagnitudeFloor(mb, c);
    MagnitudeFloor(mb, d);
    if d < c {
      if d < c - 1 {
        MagnitudeMonotone(mb, d, c - 1);
      }
      SquareMono(MagnitudeOfCode(mb, d) + MagnitudeOfCode(mb, c), MagnitudeOfCode(mb, c - 1) + MagnitudeOfCode(mb, c));
    } else {
      MagnitudeFloor(mb, c + 1);
      if c + 1 < d {
        MagnitudeMonotone(mb, c + 1, d);
      }
      SquareMono(MagnitudeOfCode(mb, c) + MagnitudeOfCode(mb, c + 1), MagnitudeOfCode(mb, c) + MagnitudeOfCode(mb, d));
    }
  }

  lemma NearestRootUnique(mb: nat, n: int, c: nat, d: nat)
    requires NearestRoot(mb, n, c) && NearestRoot(mb, n, d)
    ensures c == d
  {
    hide NearestRoot, Square, MagnitudeOfCode;
    if c != d {
      NearestRootBeatsAll(mb, n, c, d);
      NearestRootBeatsAll(mb, n, d, c);
    }
  }

  // ---- Rounding the root with its sticky flag ----

  /** Half of q, rounded: even q is exact, odd q goes up because the root lies strictly above it. */
  lemma HalfRounds(q: nat, st: bool)
    requires q % 2 == 1 ==> st
    ensures
      var z := Round(RND_CONV, 2 * q + (if st then 1 else 0), 4);
      0 <= z && (if q % 2 == 0 then q == 2 * z else q == 2 * z - 1)
  {
    hide Round, IsRounded;
    var j := q / 4;
    var b := if st then 1 else 0;
    if q % 4 == 0 {
      RoundParts(2 * q + b, 4, 2 * j, b);
    } else if q % 4 == 1 {
      RoundParts(2 * q + b, 4, 2 * j, 2 + b);
    } else if q % 4 == 2 {
      RoundParts(2 * q + b, 4, 2 * j + 1, b);
    } else {
      RoundParts(2 * q + b, 4, 2 * j + 1, 2 + b);
    }
  }

  /** The root lies strictly between the midpoints around z, at scale a. */
  lemma MidpointsAroundRoot(q: nat, z: nat, st: bool, a: int, x: int)
    requires 0 < a && Square(q) * a <= x < Square(q + 1) * a && (!st <==> x == Square(q) * a)
    requires if q % 2 == 0 then q == 2 * z else q == 2 * z - 1 && st
    ensures x < Square(2 * z + 1) * a
    ensures 0 < z ==> Square(2 * z - 1) * a < x
  {
    if q == 2 * z {
      if 0 < z {
        SquareMono(2 * z - 1, 2 * z);
        MulStrict(Square(2 * z - 1), Square(2 * z), a);
      }
    } else {
      SquareMono(2 * z, 2 * z + 1);
      MulStrict(Square(2 * z), Square(2 * z + 1), a);
    }
  }

  /** Shifting a root right, with what falls off kept in the sticky flag. */
  lemma ShiftedRoot(root: nat, x: int, p: int)
    requires 0 < p && IsRoot(root, x)
    ensures
      var q, st := root / p, root * root != x || root % p != 0;
      0 <= q && Square(q) * Square(p) <= x < Square(q + 1) * Square(p) && (!st <==> x == Square(q) * Square(p))
  {
    DivBounds(root, p);
    var q := root / p;
    if q < 0 {
      MulMono(q + 1, 0, p);
    }
    MulMono(0, q, p);
    ProductSquare(q, p);
    ProductSquare(q + 1, p);
    SquareMono(q * p, root);
    SquareMono(root + 1, (q + 1) * p);
  }

  lemma ProductSquare(a: int, p: int)
    ensures Square(a * p) == Square(a) * Square(p)
  {
    assert (a * p) * (a * p) == (a * a) * (p * p) by {
      MulAssoc(a * p, a, p);
      MulAssoc(a * a, p, p);
      assert a * p * a == a * a * p;
    }
  }

  /** Roots at or above the smallest normal exponent. */
  lemma HighRoot(mb: nat, n: int, k: nat, x: int, root: nat, z: nat)
    requires 4 * n == x * Square(Pow2(k))
    requires Square(2 * z) <= x || z != Pow2(mb)
    requires x < Square(2 * z + 1) && Square(2 * z - 1) < x
    requires Pow2(mb) <= z < 2 * Pow2(mb)
    ensures 0 <= k * Pow2(mb) + z && NearestRoot(mb, n, k * Pow2(mb) + z)
  {
    var c, p := k * Pow2(mb) + z, Pow2(k);
    hide Pow2, MagnitudeOfCode, Square;
    MagnitudeOfShifted(mb, k, z);
    MagnitudeOfShifted(mb, k, z + 1);
    ScaledMidpoint(2 * z + 1, p, x);
    SumTimes(z, z + 1, p);
    if 0 < c {
      if Pow2(mb) < z {
        MagnitudeOfShifted(mb, k, z - 1);
        ScaledMidpoint(2 * z - 1, p, x);
        SumTimes(z, z - 1, p);
      } else {
        MagnitudeFloor(mb, c - 1);
        MagnitudeMonotone(mb, c - 1, c);
        ScaledMidpoint(2 * z, p, x);
        SumTimes(z, z, p);
        SquareMono(MagnitudeOfCode(mb, c - 1) + MagnitudeOfCode(mb, c), 2 * z * p);
      }
    }
  }

  lemma SumTimes(a: int, b: int, p: int)
    ensures a * p + b * p == (a + b) * p
  {
  }

  lemma ScaledMidpoint(m: int, p: int, x: int)
    requires 0 < p
    ensures x < Square(m) ==> x * Square(p) < Square(m * p)
    ensures Square(m) < x ==> Square(m * p) < x * Square(p)
    ensures Square(m) <= x ==> Square(m * p) <= x * Square(p)
  {
    ProductSquare(m, p);
    MulMono(1, p, p);
    hide Square;
    assert 0 < Square(p) by { PositiveSquare(p); }
    if x < Square(m) {
      MulStrict(x, Square(m), Square(p));
    } else {
      MulMono(Square(m), x, Square(p));
      if Square(m) < x {
        MulStrict(Square(m), x, Square(p));
      }
    }
  }

  lemma PositiveSquare(p: int)
    requires 0 < p
    ensures 0 < Square(p)
  {
    MulMono(1, p, p);
  }

  /** Roots below the smallest normal exponent. */
  lemma LowRoot(mb: nat, n: int, a: int, x: int, z: nat)
    requires 0 < a && 4 * n * a == x && z < Pow2(mb)
    requires x < Square(2 * z + 1) * a && (0 < z ==> Square(2 * z - 1) * a < x)
    ensures NearestRoot(mb, n, z)
  {
    hide Pow2, MagnitudeOfCode, Square;
    SubnormalCode(mb, z);
    SubnormalCode(mb, z + 1);
    MulCancelLt(4 * n, Square(2 * z + 1), a);
    if 0 < z {
      SubnormalCode(mb, z - 1);
      MulCancelLt(Square(2 * z - 1), 4 * n, a);
    }
  }

  lemma SubnormalCode(mb: nat, y: nat)
    requires y <= Pow2(mb)
    ensures MagnitudeOfCode(mb, y) == y
  {
    Pow2Values();
    hide Pow2, MagnitudeOfCode;
    MagnitudeOfShifted(mb, 0, y);
    assert 0 * Pow2(mb) == 0 && y * 1 == y;
  }

  // ---- Normalizing the operand ----

  /** Mantissa with its hidden bit, and the exponent field it counts for. */
  function Mantissa(mb: nat, x: Float): int {
    if x.e == 0 then x.m else x.m + Pow2(mb)
  }

  function Field(x: Float): int {
    if x.e == 0 then 1 else x.e
  }

  lemma NormalizedMantissa(mb: nat, x: Float)
    requires 0 <= x.e && 0 <= x.m < Pow2(mb)
    ensures 0 <= Mantissa(mb, x) < Pow2(mb + 1) && 1 <= Field(x)
    ensures Magnitude(mb, x.e, x.m) == Mantissa(mb, x) * Pow2(Field(x) - 1)
    ensures 0 <= LeadingZeros(Mantissa(mb, x), mb + 1) <= mb + 1
    ensures x.e == 0 && x.m == 0 <==> Mantissa(mb, x) == 0
    ensures Mantissa(mb, x) != 0 ==>
      var ls := LeadingZeros(Mantissa(mb, x), mb + 1);
      && ls <= mb && Pow2(mb) <= Mantissa(mb, x) * Pow2(ls) < 2 * Pow2(mb)
      && (x.e != 0 ==> ls == 0) && (x.e == 0 ==> 1 <= ls && Mantissa(mb, x) * Pow2(ls) <= 2 * Pow2(mb) - 2)
  {
    Pow2Values();
    DoublePow2(mb);
    var mu := Mantissa(mb, x);
    assert Magnitude(mb, x.e, x.m) == mu * Pow2(Field(x) - 1);
    hide Pow2, Magnitude;
    BitLenAtMost(mu, mb + 1);
    if mu != 0 {
      NormalizedShift(mu, mb);
      if x.e == 0 {
        BitLenAtMost(mu, mb);
        EvenBelow(mu, LeadingZeros(mu, mb + 1), mb);
      } else {
        BitLenUnique(mu, mb + 1);
      }
    }
  }

  lemma NormalizedShift(mu: nat, mb: nat)
    requires 0 < mu < Pow2(mb + 1) && BitLen(mu) <= mb + 1
    ensures
      var ls := LeadingZeros(mu, mb + 1);
      0 <= ls <= mb && Pow2(mb) <= mu * Pow2(ls) < Pow2(mb + 1)
  {
    BitLenBounds(mu);
    var l := BitLen(mu);
    var ls: nat := mb + 1 - l;
    Pow2Add(l - 1, ls);
    Pow2Add(l, ls);
    hide Pow2, BitLen;
    MulMono(Pow2(l - 1), mu, Pow2(ls));
    MulStrict(mu, Pow2(l), Pow2(ls));
  }

  /** A number shifted left is even. */
  lemma EvenBelow(mu: nat, ls: nat, mb: nat)
    requires 1 <= ls && mu * Pow2(ls) < 2 * Pow2(mb)
    ensures mu * Pow2(ls) <= 2 * Pow2(mb) - 2
  {
    DoublePow2(ls - 1);
    hide Pow2;
    DoubledProduct(mu, Pow2(ls - 1), Pow2(ls));
  }

  lemma DoubledProduct(mu: int, h: int, p: int)
    requires p == 2 * h
    ensures mu * p == 2 * (mu * h)
  {
  }

  /** The value under the root, in the scale of the integer root and in the scale of the result. */
  function Radicand(fmt: Format, x: Float): int
    requires fmt.Ok() && Finite(fmt, x)
  {
    BiasBounds(fmt);
    Magnitude(fmt.mb, x.e, x.m) * Pow2(fmt.mb + Bias(fmt) - 1)
  }

  lemma RadicandScales(fmt: Format, x: Float, ls: nat, ex: int)
    requires fmt.Ok() && Finite(fmt, x) && ex == Field(x) - ls - Bias(fmt)
    ensures
      var root := Mantissa(fmt.mb, x) * Pow2(ls) * Pow2(ex % 2) * Pow2(fmt.mb + 2);
      var k := ex / 2 - (1 - Bias(fmt));
      if 0 <= k then 4 * Radicand(fmt, x) == root * Square(Pow2(k))
      else 4 * Radicand(fmt, x) * Square(Pow2(-k)) == root
  {
    var mb, bias, mu := fmt.mb, Bias(fmt), Mantissa(fmt.mb, x);
    BiasBounds(fmt);
    NormalizedMantissa(mb, x);
    hide Pow2, Magnitude, Mantissa, Field, Bias, Square, LeadingZeros;
    var f: nat := Field(x) - 1;
    Times3(mu, f, mb + bias - 1, 2);
    Times3(mu, ls, ex % 2, mb + 2);
    var k := ex / 2 - (1 - bias);
    Pow2Values();
    assert 4 * Radicand(fmt, x) == mu * Pow2(f + (mb + bias - 1) + 2);
    if 0 <= k {
      SquarePow2(k);
      Pow2Add(ls + ex % 2 + (mb + 2), 2 * k);
      assert ls + ex % 2 + (mb + 2) + 2 * k == f + (mb + bias - 1) + 2;
      MulAssoc(mu, Pow2(ls + ex % 2 + (mb + 2)), Pow2(2 * k));
    } else {
      SquarePow2(-k);
      Pow2Add(f + (mb + bias - 1) + 2, 2 * -k);
      assert f + (mb + bias - 1) + 2 + 2 * -k == ls + ex % 2 + (mb + 2);
      MulAssoc(mu, Pow2(f + (mb + bias - 1) + 2), Pow2(2 * -k));
    }
  }

  lemma Times3(mu: int, a: nat, b: nat, c: nat)
    ensures mu * Pow2(a) * Pow2(b) * Pow2(c) == mu * Pow2(a + b + c)
  {
    Pow2Add(a, b);
    Pow2Add(a + b, c);
    hide Pow2;
    MulAssoc(mu, Pow2(a), Pow2(b));
    MulAssoc(mu, Pow2(a + b), Pow2(c));
  }

  lemma SquarePow2(k: nat)
    ensures Square(Pow2(k)) == Pow2(2 * k)
  {
    Pow2Add(k, k);
    hide Pow2;
    assert k + k == 2 * k;
  }

  /** Bounds of the root of a normalized mantissa of mb + 2 bits. */
  lemma RootRange(mb: nat, mi: int, root: nat, t: int)
    requires 1 <= mb && t == Pow2(mb + 2) && Pow2(mb) <= mi <= t - 2
    requires IsRoot(root, mi * Pow2(mb + 2))
    ensures 2 * Pow2(mb) <= root <= t - 2
    ensures mi <= t - 4 ==> root <= t - 3
    ensures root % 2 == 1 ==> root * root != mi * Pow2(mb + 2)
  {
    Pow2Add(2, mb);
    Pow2Values();
    Pow2Mono(1, mb);
    var p := Pow2(mb);
    hide Pow2;
    RootBounds(p, mi, root);
    if root % 2 == 1 {
      OddSquare(root, mi, p);
    }
  }

  lemma RootBounds(p: int, mi: int, root: nat)
    requires 2 <= p && p <= mi <= 4 * p - 2 && IsRoot(root, mi * (4 * p))
    ensures 2 * p <= root <= 4 * p - 2
    ensures mi <= 4 * p - 4 ==> root <= 4 * p - 3
  {
    var t := 4 * p;
    MulMono(p, mi, t);
    assert (2 * p) * (2 * p) == p * t;
    SquareBelow(root, 2 * p, mi * t);
    MulMono(mi, t - 2, t);
    assert (t - 1) * (t - 1) == (t - 2) * t + 1;
    SquareAbove(root, t - 1, mi * t);
    if mi <= t - 4 {
      MulMono(mi, t - 4, t);
      assert (t - 2) * (t - 2) == (t - 4) * t + 4;
      SquareAbove(root, t - 2, mi * t);
    }
  }

  lemma SquareBelow(root: nat, b: int, x: int)
    requires 0 <= b && b * b <= x && IsRoot(root, x)
    ensures b <= root
  {
    if root < b {
      MulMono(root + 1, b, root + 1);
      MulMono(root + 1, b, b);
    }
  }

  lemma SquareAbove(root: nat, b: int, x: int)
    requires 0 <= b && x < b * b && IsRoot(root, x)
    ensures root < b
  {
    if b <= root {
      MulMono(b, root, b);
      MulMono(b, root, root);
    }
  }

  lemma OddSquare(root: int, mi: int, p: int)
    requires root % 2 == 1
    ensures root * root != mi * (4 * p)
  {
    var h := root / 2;
    assert root * root == 2 * (2 * (h * h) + 2 * h) + 1 by {
      assert root == 2 * h + 1;
      assert (2 * h + 1) * (2 * h + 1) == 4 * (h * h) + 4 * h + 1;
    }
    assert mi * (4 * p) == 2 * (2 * (mi * p)) by {
      assert mi * (4 * p) == 4 * (mi * p);
    }
  }

  // ---- The operation ----

  /** r is the square root of x: by the rules for special operands, and otherwise the nearest encoding. */
  ghost predicate IsSqrtOf(fmt: Format, x: Float, r: Float)
    requires fmt.Ok()
  {
    if IsNan(fmt, x) || (x.sign && !(x.e == 0 && x.m == 0)) then IsNan(fmt, r)
    else if IsInf(fmt, x) then IsInf(fmt, r) && !r.sign
    else
      && Finite(fmt, x) && Finite(fmt, r) && r.sign == x.sign
      && 0 <= Code(fmt, r) && NearestRoot(fmt.mb, Radicand(fmt, x), Code(fmt, r))
  }

  /** The exponent of the root leaves the normal range only for subnormal operands. */
  lemma RootExponent(fmt: Format, x: Float, ls: nat)
    requires fmt.Ok() && Finite(fmt, x) && Mantissa(fmt.mb, x) != 0
    requires ls == LeadingZeros(Mantissa(fmt.mb, x), fmt.mb + 1)
    ensures
      var bias := Bias(fmt);
      var exp := (Field(x) - ls - bias) / 2;
      && exp + bias < fmt.MaxExp()
      && (exp < 1 - bias ==> x.e == 0 && -(1 - bias) < fmt.mb)
  {
    BiasBounds(fmt);
    NormalizedMantissa(fmt.mb, x);
  }

  /** The mantissa handed to the integer root. */
  lemma RootOperand(fmt: Format, x: Float, ls: nat, odd: nat, mi: int)
    requires fmt.Ok() && Finite(fmt, x) && Mantissa(fmt.mb, x) != 0 && odd < 2
    requires ls == LeadingZeros(Mantissa(fmt.mb, x), fmt.mb + 1)
    requires mi == Mantissa(fmt.mb, x) * Pow2(ls) * Pow2(odd)
    ensures Pow2(fmt.mb) <= mi <= Pow2(fmt.mb + 2) - 2
    ensures x.e == 0 ==> mi <= Pow2(fmt.mb + 2) - 4
  {
    NormalizedMantissa(fmt.mb, x);
    Pow2Add(2, fmt.mb);
    Pow2Mono(1, fmt.mb);
    Pow2Values();
    hide Pow2, Mantissa, LeadingZeros;
    ShiftByOne(Mantissa(fmt.mb, x) * Pow2(ls), odd, Pow2(odd));
  }

  lemma ShiftByOne(m: int, odd: nat, p: int)
    requires odd < 2 && p == (if odd == 0 then 1 else 2)
    ensures m * p == (if odd == 0 then m else 2 * m)
  {
  }

  /** The integer root with its sticky flag, rounded, is the code nearest to the exact root. */
  lemma HighRootRounds(mb: nat, n: int, k: nat, mi: int, root: nat)
    requires 1 <= mb && Pow2(mb) <= mi <= Pow2(mb + 2) - 2 && IsRoot(root, mi * Pow2(mb + 2))
    requires 4 * n == mi * Pow2(mb + 2) * Square(Pow2(k))
    ensures
      var z := Round(RND_CONV, 2 * root + (if root * root != mi * Pow2(mb + 2) then 1 else 0), 4);
      && Pow2(mb) <= z < 2 * Pow2(mb) && 0 <= k * Pow2(mb) + z
      && NearestRoot(mb, n, k * Pow2(mb) + z)
  {
    var x := mi * Pow2(mb + 2);
    var st := root * root != x;
    RootRange(mb, mi, root, Pow2(mb + 2));
    Pow2Add(2, mb);
    Pow2Values();
    hide Pow2, Round, IsRounded, NearestRoot;
    RootAsSquares(root, x);
    HalfRounds(root, st);
    var z := Round(RND_CONV, 2 * root + (if st then 1 else 0), 4);
    hide Square, IsRoot;
    MidpointsAroundRoot(root, z, st, 1, x);
    HighRoot(mb, n, k, x, root, z);
  }

  lemma RootAsSquares(root: nat, x: int)
    requires IsRoot(root, x)
    ensures Square(root) * 1 <= x < Square(root + 1) * 1 && (root * root == x <==> x == Square(root) * 1)
    ensures Square(root) <= x
  {
  }

  lemma LowRootRounds(mb: nat, n: int, o: nat, mi: int, root: nat)
    requires 1 <= mb && 1 <= o && Pow2(mb) <= mi <= Pow2(mb + 2) - 4 && IsRoot(root, mi * Pow2(mb + 2))
    requires 4 * n * Square(Pow2(o)) == mi * Pow2(mb + 2)
    ensures
      var st := root * root != mi * Pow2(mb + 2) || root % Pow2(o) != 0;
      var z := Round(RND_CONV, 2 * (root / Pow2(o)) + (if st then 1 else 0), 4);
      && 0 <= z < Pow2(mb) && NearestRoot(mb, n, z)
  {
    var x, p := mi * Pow2(mb + 2), Pow2(o);
    RootRange(mb, mi, root, Pow2(mb + 2));
    Pow2Add(2, mb);
    Pow2Mono(1, o);
    Pow2Values();
    hide Pow2, Round, IsRounded, NearestRoot;
    ShiftedRoot(root, x, p);
    ShiftedBound(root, p, Pow2(mb));
    var q, st := root / p, root * root != x || root % p != 0;
    hide IsRoot;
    PositiveSquare(p);
    if !st {
      NoTie(q, n, Square(p));
    }
    HalfRounds(q, st);
    var z := Round(RND_CONV, 2 * q + (if st then 1 else 0), 4);
    hide Square;
    MidpointsAroundRoot(q, z, st, Square(p), x);
    LowRoot(mb, n, Square(p), x, z);
  }

  lemma ShiftedBound(root: nat, p: int, u: int)
    requires 2 <= p && root <= 4 * u - 3
    ensures root / p <= 2 * u - 2
  {
    DivBounds(root, p);
    MulMono(2, p, 2 * u - 1);
    assert p * (2 * u - 1) == (2 * u - 1) * p;
    MulCancelLt(root / p, 2 * u - 1, p);
  }

  lemma NoTie(q: int, n: int, a: int)
    requires 0 < a && Square(q) * a == 4 * n * a
    ensures q % 2 == 0
  {
    if Square(q) < 4 * n {
      MulStrict(Square(q), 4 * n, a);
    } else if 4 * n < Square(q) {
      MulStrict(4 * n, Square(q), a);
    }
    if q % 2 == 1 {
      OddSquare(q, n, 1);
    }
  }

  /** Scale of the root relative to the smallest subnormal. */
  function RootScale(fmt: Format, x: Float): int
    requires fmt.Ok() && Encodes(fmt, x)
  {
    NormalizedMantissa(fmt.mb, x);
    (Field(x) - LeadingZeros(Mantissa(fmt.mb, x), fmt.mb + 1) - Bias(fmt)) / 2 - (1 - Bias(fmt))
  }

  /** Normalizes the mantissa, makes the exponent even, and takes the integer root. */
  method NormalizedRoot(fmt: Format, x: Float) returns (exp: int, root: int, sticky: bool, ghost mi: int)
    requires fmt.Ok() && Encodes(fmt, x)
    ensures exp == RootScale(fmt, x) + (1 - Bias(fmt)) && 0 <= root
    ensures IsRoot(root, mi * Pow2(fmt.mb + 2)) && (sticky <==> root * root != mi * Pow2(fmt.mb + 2))
    ensures Finite(fmt, x) && Mantissa(fmt.mb, x) != 0 ==>
      var k := RootScale(fmt, x);
      && Pow2(fmt.mb) <= mi <= Pow2(fmt.mb + 2) - 2 && (x.e == 0 ==> mi <= Pow2(fmt.mb + 2) - 4)
      && (if 0 <= k then 4 * Radicand(fmt, x) == mi * Pow2(fmt.mb + 2) * Square(Pow2(k))
          else 4 * Radicand(fmt, x) * Square(Pow2(-k)) == mi * Pow2(fmt.mb + 2))
  {
    hide Pow2, Mantissa, Field, Radicand, LeadingZeros, Bias, IsRoot, Scaled, Square;
    var mb, bias := fmt.mb, Bias(fmt);
    var normal := x.e != 0;
    var mu := x.m + (if normal then Pow2(mb) else 0);
    NormalizedMantissa(mb, x);
    MantissaIs(mb, x);
    var ls := LeadingZeros(mu, mb + 1);
    mu := mu * Pow2(ls) % Pow2(mb + 1);
    if (mu / Pow2(mb)) % 2 == 0 {
      mu := mu + Pow2(mb);
    }
    var expOdd := (x.e + (if normal then 0 else 1) + ls + bias) % 2;
    exp := x.e + (if normal then 0 else 1) - ls - bias;
    exp := exp / 2;
    var scaled := mu * Pow2(expOdd) % Pow2(mb + 2);
    OperandFits(mb, mu, expOdd);
    mi := scaled;
    root, sticky := FxSqrt(mb + 2, mb + 2, scaled);
    FullScale(mb + 2, scaled);
    if Finite(fmt, x) && Mantissa(mb, x) != 0 {
      RootPrepared(fmt, x, ls, mu, expOdd, mi);
    }
  }

  lemma FullScale(w: nat, x: nat)
    requires 1 <= w
    ensures Scaled(w, w, x) == x * Pow2(w)
  {
    hide Pow2, Scaled;
    ScalingIsExact(w, w, x);
    assert 2 * w - w == w;
  }

  lemma RootScaleBounds(fmt: Format, x: Float)
    requires fmt.Ok() && Finite(fmt, x) && Mantissa(fmt.mb, x) != 0
    ensures RootScale(fmt, x) + 1 < fmt.MaxExp()
    ensures RootScale(fmt, x) < 0 ==> x.e == 0 && -(1 - Bias(fmt)) < fmt.mb
  {
    hide Pow2, Mantissa, LeadingZeros, Bias;
    NormalizedMantissa(fmt.mb, x);
    RootExponent(fmt, x, LeadingZeros(Mantissa(fmt.mb, x), fmt.mb + 1));
    BiasBounds(fmt);
  }

  /** The rounded root of a finite non-zero operand. */
  lemma RootRounds(fmt: Format, x: Float, mi: int, root: nat)
    requires fmt.Ok() && Finite(fmt, x) && Mantissa(fmt.mb, x) != 0 && IsRoot(root, mi * Pow2(fmt.mb + 2))
    requires Pow2(fmt.mb) <= mi <= Pow2(fmt.mb + 2) - 2 && (x.e == 0 ==> mi <= Pow2(fmt.mb + 2) - 4)
    requires
      var k := RootScale(fmt, x);
      if 0 <= k then 4 * Radicand(fmt, x) == mi * Pow2(fmt.mb + 2) * Square(Pow2(k))
      else 4 * Radicand(fmt, x) * Square(Pow2(-k)) == mi * Pow2(fmt.mb + 2)
    ensures
      var mb, k := fmt.mb, RootScale(fmt, x);
      var p := if 0 <= k then 1 else Pow2(-k);
      var st := root * root != mi * Pow2(mb + 2) || (k < 0 && root % p != 0);
      var q := if 0 <= k then root else root / p;
      var z := Round(RND_CONV, 2 * q + (if st then 1 else 0), 4);
      var c := if 0 <= k then k * Pow2(mb) + z else z;
      && 0 <= z && (if 0 <= k then Pow2(mb) <= z < 2 * Pow2(mb) else z < Pow2(mb))
      && NearestRoot(mb, Radicand(fmt, x), c)
    ensures RootScale(fmt, x) + 1 < fmt.MaxExp()
    ensures RootScale(fmt, x) < 0 ==> -(1 - Bias(fmt)) < fmt.mb
  {
    hide Pow2, Mantissa, Field, Radicand, LeadingZeros, Bias, IsRoot, RootScale, Square, NearestRoot, Round, IsRounded;
    var k := RootScale(fmt, x);
    RootScaleBounds(fmt, x);
    if 0 <= k {
      HighRootRounds(fmt.mb, Radicand(fmt, x), k, mi, root);
    } else {
      LowRootRounds(fmt.mb, Radicand(fmt, x), -k, mi, root);
    }
  }

  method SqrtGeneric(fmt: Format, x: Float) returns (r: Float)
    requires fmt.Ok() && Encodes(fmt, x)
    ensures Encodes(fmt, r)
    ensures IsSqrtOf(fmt, x, r)
    ensures IsNan(fmt, r) ==> r.m == Pow2(fmt.mb - 1)
  {
    hide Pow2, Mantissa, Radicand, NearestRoot, Round, IsRounded, Bias, IsRoot, RootScale, Square, IsSqrtOf;
    BiasBounds(fmt);
    var mb, maxExp, bias := fmt.mb, fmt.MaxExp(), Bias(fmt);
    var zero := x.e == 0 && x.m == 0;
    var inf, nan := x.e == maxExp && x.m == 0, x.e == maxExp && x.m != 0;
    var exp, root, sticky, mi := NormalizedRoot(fmt, x);
    NormalizedMantissa(mb, x);
    if Finite(fmt, x) && !zero {
      RootRounds(fmt, x, mi, root);
    }
    var rNormal := true;
    var minExp := 1 - bias;
    if mb > -minExp {
      var over := minExp - exp;
      if over > 0 {
        sticky := sticky || root % Pow2(over) != 0;
        root := root / Pow2(over);
        exp := minExp;
        rNormal := false;
      }
    }
    var rounded := Round(RND_CONV, 2 * root + (if sticky then 1 else 0), 4) % Pow2(mb + 1);
    var m := rounded % Pow2(mb);
    var rNan := nan || (x.sign && !zero);
    var exception := rNan || inf;
    exp := exp + bias;
    var eR := if exception then maxExp else if zero || !rNormal then 0 else exp;
    ghost var k, z := RootScale(fmt, x), Round(RND_CONV, 2 * root + (if sticky then 1 else 0), 4);
    if exception || zero {
      m := if rNan then Pow2(mb - 1) else 0;
    }
    r := Float(x.sign, eR, m);
    DivBounds(rounded, Pow2(mb));
    TopMantissaBit(mb);
    if Finite(fmt, x) && !zero {
      RootCode(mb, k, z);
    }
    if Finite(fmt, x) && !zero && !x.sign {
      SqrtResult(fmt, x, r, if 0 <= k then k * Pow2(mb) + z else z);
    } else {
      SpecialRoot(fmt, x, r);
    }
  }

  /** Zeros, infinities, NaN and negative operands. */
  lemma SpecialRoot(fmt: Format, x: Float, r: Float)
    requires fmt.Ok() && Encodes(fmt, x) && r.sign == x.sign
    requires !Finite(fmt, x) || x.sign || (x.e == 0 && x.m == 0)
    requires x.e == 0 && x.m == 0 ==> Finite(fmt, r) && r.e == 0 && r.m == 0
    requires IsNan(fmt, x) || (x.sign && !(x.e == 0 && x.m == 0)) ==> IsNan(fmt, r)
    requires IsInf(fmt, x) && !x.sign ==> IsInf(fmt, r)
    ensures IsSqrtOf(fmt, x, r)
  {
    hide Pow2, Radicand, NearestRoot;
    if x.e == 0 && x.m == 0 && Finite(fmt, x) {
      ZeroRoot(fmt, x);
      assert 0 * Pow2(fmt.mb) == 0;
    }
  }

  /** Zeros and the positive infinity are their own roots; NaN and negative numbers have none. */
  lemma SpecialRoots(fmt: Format, x: Float, r: Float)
    requires fmt.Ok() && Encodes(fmt, x) && IsSqrtOf(fmt, x, r) && Encodes(fmt, r)
    ensures x.e == Pow2(fmt.eb) - 1 && x.m != 0 ==> r.e == Pow2(fmt.eb) - 1 && r.m != 0
    ensures x.sign && !(x.e == 0 && x.m == 0) ==> r.e == Pow2(fmt.eb) - 1 && r.m != 0
    ensures x == Float(false, Pow2(fmt.eb) - 1, 0) ==> r == x
    ensures x.e == 0 && x.m == 0 ==> r == x
  {
    Pow2Mono(2, fmt.eb);
    Pow2Values();
    if x.e == 0 && x.m == 0 {
      ZeroRoot(fmt, x);
      hide Pow2, NearestRoot, Radicand;
      NearestRootUnique(fmt.mb, Radicand(fmt, x), Code(fmt, r), 0);
      DivIntro(0, Pow2(fmt.mb), 0, 0);
      DivIntro(Code(fmt, r), Pow2(fmt.mb), r.e, r.m);
    }
  }

  /** A number whose root is a number has it: the product of two values in units of the smallest
      subnormal is their product in those units times the encoding of one. */
  lemma ExactSquares(fmt: Format, x: Float, y: Float, r: Float)
    requires fmt.Ok() && Finite(fmt, x) && Finite(fmt, y) && !x.sign && !y.sign && IsSqrtOf(fmt, x, r)
    requires 0 <= Bias(fmt) < fmt.MaxExp()
    requires Value(fmt, y) * Value(fmt, y) == Value(fmt, x) * Value(fmt, Float(false, Bias(fmt), 0))
    ensures r == y
  {
    var n, c := Radicand(fmt, x), Code(fmt, y);
    CodeMagnitude(fmt.mb, y.e, y.m);
    BiasBounds(fmt);
    Pow2Add(fmt.mb, Bias(fmt) - 1);
    assert n == Square(MagnitudeOfCode(fmt.mb, c));
    hide Pow2, Bias, Magnitude, MagnitudeOfCode, Radicand, NearestRoot, Value;
    SquareIsNearest(fmt.mb, c);
    NearestRootUnique(fmt.mb, n, Code(fmt, r), c);
    DivIntro(c, Pow2(fmt.mb), y.e, y.m);
    DivIntro(Code(fmt, r), Pow2(fmt.mb), r.e, r.m);
  }

  /** A square is between the squared midpoints around its root. */
  lemma SquareIsNearest(mb: nat, c: nat)
    ensures NearestRoot(mb, Square(MagnitudeOfCode(mb, c)), c)
  {
    hide Pow2, MagnitudeOfCode, Square;
    var v := MagnitudeOfCode(mb, c);
    MagnitudeMonotone(mb, c, c + 1);
    MagnitudeFloor(mb, c);
    if 0 < c {
      MagnitudeMonotone(mb, c - 1, c);
      MagnitudeFloor(mb, c - 1);
      SquareMono(MagnitudeOfCode(mb, c - 1) + v, 2 * v);
    }
    SquareMono(2 * v, v + MagnitudeOfCode(mb, c + 1));
    FourSquares(v);
  }

  lemma FourSquares(v: int)
    ensures Square(2 * v) == 4 * Square(v)
  {
  }

  lemma SqrtResult(fmt: Format, x: Float, r: Float, c: nat)
    requires fmt.Ok() && Finite(fmt, x) && Finite(fmt, r) && r.sign == x.sign && !x.sign
    requires Code(fmt, r) == c && NearestRoot(fmt.mb, Radicand(fmt, x), c)
    ensures IsSqrtOf(fmt, x, r)
  {
    hide Pow2, NearestRoot, Radicand, Code;
  }

  lemma ZeroRoot(fmt: Format, x: Float)
    requires fmt.Ok() && Finite(fmt, x) && x.e == 0 && x.m == 0
    ensures NearestRoot(fmt.mb, Radicand(fmt, x), 0)
  {
    BiasBounds(fmt);
    Pow2Mono(0, fmt.mb);
    Pow2Values();
    hide Pow2, MagnitudeOfCode;
    assert 0 * Pow2(fmt.mb + Bias(fmt) - 1) == 0;
    SubnormalCode(fmt.mb, 0);
    SubnormalCode(fmt.mb, 1);
  }

  /** Dropping the hidden bit leaves the mantissa field of the code. */
  lemma RootCode(mb: nat, k: int, z: int)
    requires 0 <= z && (if 0 <= k then Pow2(mb) <= z < 2 * Pow2(mb) else z < Pow2(mb))
    ensures
      var m := z % Pow2(mb + 1) % Pow2(mb);
      && 0 <= m < Pow2(mb)
      && (if 0 <= k then (k + 1) * Pow2(mb) + m == k * Pow2(mb) + z else 0 * Pow2(mb) + m == z)
  {
    DoublePow2(mb);
    hide Pow2;
    ModSmall(z, Pow2(mb + 1));
    if 0 <= k {
      DivIntro(z, Pow2(mb), 1, z - Pow2(mb));
      MoveUnit(k, Pow2(mb));
    } else {
      ModSmall(z, Pow2(mb));
    }
  }

  /** For a finite non-zero operand the shifts stay in their widths. */
  lemma RootPrepared(fmt: Format, x: Float, ls: nat, mu: int, odd: nat, mi: int)
    requires fmt.Ok() && Finite(fmt, x) && Mantissa(fmt.mb, x) != 0
    requires ls == LeadingZeros(Mantissa(fmt.mb, x), fmt.mb + 1)
    requires
      var mu1 := Mantissa(fmt.mb, x) * Pow2(ls) % Pow2(fmt.mb + 1);
      mu == (if (mu1 / Pow2(fmt.mb)) % 2 == 0 then mu1 + Pow2(fmt.mb) else mu1)
    requires odd == (Field(x) + ls + Bias(fmt)) % 2 && mi == mu * Pow2(odd) % Pow2(fmt.mb + 2)
    ensures
      var k := (Field(x) - ls - Bias(fmt)) / 2 - (1 - Bias(fmt));
      && Pow2(fmt.mb) <= mi <= Pow2(fmt.mb + 2) - 2 && (x.e == 0 ==> mi <= Pow2(fmt.mb + 2) - 4)
      && (if 0 <= k then 4 * Radicand(fmt, x) == mi * Pow2(fmt.mb + 2) * Square(Pow2(k))
          else 4 * Radicand(fmt, x) * Square(Pow2(-k)) == mi * Pow2(fmt.mb + 2))
  {
    var mb, ex := fmt.mb, Field(x) - ls - Bias(fmt);
    ParityOfExponent(Field(x), ls + Bias(fmt));
    NormalizedMantissa(mb, x);
    DoublePow2(mb);
    hide Pow2, Mantissa, Field, Radicand, LeadingZeros, Bias, Square;
    var m := Mantissa(mb, x) * Pow2(ls);
    ModSmall(m, Pow2(mb + 1));
    DivIntro(m, Pow2(mb), 1, m - Pow2(mb));
    RootOperand(fmt, x, ls, odd, m * Pow2(odd));
    ModSmall(m * Pow2(odd), Pow2(mb + 2));
    RadicandScales(fmt, x, ls, ex);
  }

  lemma ParityOfExponent(f: int, b: int)
    ensures (f + b) % 2 == (f - b) % 2
  {
    ModMultiple(f - b, b, 2);
  }

  lemma MantissaIs(mb: nat, x: Float)
    ensures Mantissa(mb, x) == x.m + (if x.e != 0 then Pow2(mb) else 0)
    ensures Field(x) == x.e + (if x.e != 0 then 0 else 1)
  {
  }

  lemma OperandFits(mb: nat, mu: int, odd: nat)
    ensures 0 <= mu * Pow2(odd) % Pow2(mb + 2) < Pow2(mb + 2)
  {
  }
}

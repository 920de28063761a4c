/** `ceil`, `floor`, `trunc` and `round` of `ac_std_float`: mask arithmetic on the fields. */
module FloatIntegral {
  import opened Powers
  import opened Rounding
  import opened FloatFormat
  import opened FloatSqrt
  import opened FloatOrder

  /** The number one, in units of the smallest subnormal. */
  function One(fmt: Format): (u: int)
    requires fmt.Ok()
    ensures 0 < u
  {
    BiasBounds(fmt);
    Pow2(fmt.mb + Bias(fmt) - 1)
  }

  /** The magnitude an encoding stands for; beyond the largest exponent, the power of two it would be. */
  function Mag(fmt: Format, x: Float): int
    requires Encodes(fmt, x)
  {
    Magnitude(fmt.mb, x.e, x.m)
  }

  /** A magnitude rounded down, up, or to the nearest (halves up) multiple of u. */
  function Down(v: int, u: int): int
    requires 0 < u
  {
    (v / u) * u
  }

  function Up(v: int, u: int): int
    requires 0 < u
  {
    ((v + u - 1) / u) * u
  }

  function Half(v: int, u: int): int
    requires 0 < u
  {
    ((2 * v + u) / (2 * u)) * u
  }

  function Signed(neg: bool, v: int): int {
    if neg then -v else v
  }

  // ---- The mantissa field ----

  /** Cutting the low f bits off the field, or cutting and adding one there. */
  lemma FieldCut(p: int, m: int, q: int, u: int, k: int)
    requires 0 < q && 0 < u && p == k * q && 0 <= m
    ensures 0 < q * u
    ensures Down((p + m) * u, q * u) == (p + (m - m % q)) * u
    ensures Up((p + m) * u, q * u) == (p + (m - m % q) + (if m % q != 0 then q else 0)) * u
  {
    var d, r := m / q, m % q;
    DivBounds(m, q);
    MulMono(1, q, u);
    assert (k + d) * q == k * q + d * q;
    var n := k + d;
    ScaledSum(n, q, r, u);
    DivIntro((p + m) * u, q * u, n, r * u);
    if r == 0 {
      DivIntro((p + m) * u + q * u - 1, q * u, n, q * u - 1);
    } else {
      DivIntro((p + m) * u + q * u - 1, q * u, n + 1, r * u - 1) by {
        assert (n + 1) * (q * u) == n * (q * u) + q * u;
      }
    }
    assert n * (q * u) == (n * q) * u && (n + 1) * (q * u) == (n * q + q) * u by {
      MulAssoc(n, q, u);
      assert (n * q + q) * u == n * q * u + q * u;
    }
  }

  lemma ScaledSum(n: int, q: int, r: int, u: int)
    requires 0 < u && 0 <= r < q
    ensures (n * q + r) * u == n * (q * u) + r * u
    ensures 0 <= r * u < q * u && (r != 0 ==> 1 <= r * u)
  {
    MulAssoc(n, q, u);
    MulMono(0, r, u);
    MulStrict(r, q, u);
    if r != 0 {
      MulMono(1, r, u);
    }
  }

  /** Rounding halves up at bit g: clear the bits below, add one there, clear it. */
  lemma FieldHalf(p: int, m: int, h: int, u: int)
    requires 0 < h && 0 < u && 0 <= m && p % h == 0
    ensures 0 < 2 * h * u
    ensures
      var y := p + (m - m % h) + h;
      Half((p + m) * u, 2 * h * u) == (y - y % (2 * h)) * u
  {
    var y, r := p + (m - m % h) + h, m % h;
    var n, s := y / (2 * h), y % (2 * h);
    MulMono(1, h, u);
    MulAssoc(2, h, u);
    DivBounds(m, h);
    DivBounds(p, h);
    DivBounds(y, 2 * h);
    var t := p / h + m / h + 1;
    assert y == t * h by {
      assert (p / h + m / h + 1) * h == (p / h) * h + (m / h) * h + h;
    }
    HalfStep(t, h, n, s);
    assert p + m + h == y + r;
    ScaledSum(n, 2 * h, s + r, u);
    assert 2 * ((p + m) * u) + 2 * h * u == 2 * ((n * (2 * h) + (s + r)) * u) by {
      assert (p + m + h) * u == (p + m) * u + h * u;
    }
    DivIntro(2 * ((p + m) * u) + 2 * h * u, 2 * (2 * h * u), n, 2 * ((s + r) * u)) by {
      assert n * (2 * (2 * h * u)) == 2 * (n * (2 * h * u));
    }
    assert n * (2 * h * u) == (n * (2 * h)) * u by {
      MulAssoc(n, 2 * h, u);
    }
  }

  /** A multiple of h leaves at most h after dividing by 2 h. */
  lemma HalfStep(t: int, h: int, n: int, s: int)
    requires 0 < h && t * h == n * (2 * h) + s && 0 <= s < 2 * h
    ensures s <= h
  {
    assert s == (t - 2 * n) * h by {
      assert (t - 2 * n) * h == t * h - n * (2 * h);
    }
    if 2 <= t - 2 * n {
      MulMono(2, t - 2 * n, h);
    } else {
      MulMono(t - 2 * n, 1, h);
    }
  }

  /** Filling the fraction with ones and adding one carries into the integer bits, or out of the field. */
  lemma RaisedField(mb: nat, e: nat, m: nat, f: nat)
    requires 1 <= e && f <= mb && m < Pow2(mb)
    ensures
      var low := m % Pow2(f);
      var mu := m - low + (Pow2(f) - 1) + (if low != 0 then 1 else 0);
      var e', m1 := e + mu / Pow2(mb), mu % Pow2(mb);
      var m' := m1 - m1 % Pow2(f);
      && 0 <= m' < Pow2(mb) && 0 <= mu && (e' == e || (e' == e + 1 && m' == 0))
      && Magnitude(mb, e', m') == (Pow2(mb) + (m - low) + (if low != 0 then Pow2(f) else 0)) * Pow2(e - 1)
  {
    Pow2Add(mb - f, f);
    DoublePow2(e - 1);
    hide Pow2;
    var q, k := Pow2(f), Pow2(mb - f);
    DivBounds(m, q);
    CarryOut(m, q, k);
    hide Magnitude;
    var hi := m - m % q;
    var mu := hi + (q - 1) + (if m % q != 0 then 1 else 0);
    if mu < Pow2(mb) {
      NormalMagnitude(mb, e - 1, mu - mu % q);
    } else {
      NextExponent(mb, e);
    }
  }

  lemma NextExponent(mb: nat, e: nat)
    requires 1 <= e
    ensures Magnitude(mb, e + 1, 0) == (Pow2(mb) + Pow2(mb)) * Pow2(e - 1)
  {
    DoublePow2(e - 1);
    hide Pow2;
    assert (Pow2(mb) + 0) * (2 * Pow2(e - 1)) == (Pow2(mb) + Pow2(mb)) * Pow2(e - 1);
  }

  /** The sum stays in the field or is exactly one unit beyond it. */
  lemma CarryOut(m: nat, q: int, k: int)
    requires 0 < q && 0 < k && m < k * q
    ensures
      var p, hi, low := k * q, m - m % q, m % q;
      var mu := hi + (q - 1) + (if low != 0 then 1 else 0);
      && 0 <= hi && hi + q <= p && 0 <= mu
      && (mu < p ==> mu / p == 0 && mu % p == mu && mu - mu % q == hi + (if low != 0 then q else 0))
      && (p <= mu ==> low != 0 && hi + q == p && mu / p == 1 && mu % p == 0 && 0 % q == 0)
  {
    var d := m / q;
    DivBounds(m, q);
    MulCancelLt(d, k, q);
    QuotientNonNegative(m, q);
    MulMono(0, d, q);
    MulMono(d + 1, k, q);
    assert (d + 1) * q == d * q + q;
    var p, low := k * q, m % q;
    var mu := d * q + (q - 1) + (if low != 0 then 1 else 0);
    if low != 0 {
      DivIntro(mu, q, d + 1, 0);
    } else {
      DivIntro(mu, q, d, q - 1);
    }
    if mu < p {
      ModSmall(mu, p);
    } else {
      DivIntro(mu, p, 1, 0);
    }
    ModSmall(0, q);
  }

  /** Magnitude and unit of a number whose last integer bit is at place f of the mantissa. */
  lemma FieldUnits(fmt: Format, x: Float, f: nat)
    requires fmt.Ok() && Encodes(fmt, x) && 1 <= x.e && f == fmt.mb + Bias(fmt) - x.e && f <= fmt.mb
    ensures Mag(fmt, x) == (Pow2(fmt.mb) + x.m) * Pow2(x.e - 1)
    ensures One(fmt) == Pow2(f) * Pow2(x.e - 1) && Pow2(fmt.mb) == Pow2(fmt.mb - f) * Pow2(f)
  {
    Pow2Add(f, x.e - 1);
    Pow2Add(fmt.mb - f, f);
    assert f + (x.e - 1) == fmt.mb + Bias(fmt) - 1;
  }

  /** Numbers without fraction bits are multiples of one. */
  lemma AlreadyIntegral(fmt: Format, x: Float)
    requires fmt.Ok() && Encodes(fmt, x) && fmt.mb + Bias(fmt) <= x.e
    ensures Mag(fmt, x) % One(fmt) == 0 && 0 <= Mag(fmt, x)
  {
    BiasBounds(fmt);
    Pow2Add(x.e - (fmt.mb + Bias(fmt)), fmt.mb + Bias(fmt) - 1);
    assert x.e - (fmt.mb + Bias(fmt)) + (fmt.mb + Bias(fmt) - 1) == x.e - 1;
    var a, k, u := Pow2(fmt.mb) + x.m, Pow2(x.e - (fmt.mb + Bias(fmt))), One(fmt);
    hide Pow2;
    MulAssoc(a, k, u);
    MulMono(0, a, k * u);
    DivIntro(a * (k * u), u, a * k, 0);
  }

  lemma MultipleStays(v: int, u: int)
    requires 0 < u && 0 <= v && v % u == 0
    ensures Down(v, u) == v && Up(v, u) == v && Half(v, u) == v
  {
    var n := v / u;
    DivBounds(v, u);
    DivIntro(v + u - 1, u, n, u - 1);
    assert n * (2 * u) == 2 * (n * u);
    DivIntro(2 * v + u, 2 * u, n, u);
  }

  /** Numbers below one. */
  lemma BelowOne(fmt: Format, x: Float)
    requires fmt.Ok() && Encodes(fmt, x) && x.e < Bias(fmt)
    ensures 0 <= Mag(fmt, x) < One(fmt) && (Mag(fmt, x) == 0 <==> x.e == 0 && x.m == 0)
    ensures x.e < Bias(fmt) - 1 ==> 2 * Mag(fmt, x) < One(fmt)
  {
    var mb := fmt.mb;
    BiasBounds(fmt);
    if x.e == 0 {
      Pow2Mono(mb, mb + Bias(fmt) - 1);
      if 1 < Bias(fmt) {
        Pow2Mono(mb + 1, mb + Bias(fmt) - 1);
      }
    } else {
      NormalBound(mb, x.e, x.m);
      Pow2Mono(mb + x.e, mb + Bias(fmt) - 1);
    }
  }

  lemma NormalBound(mb: nat, e: nat, m: nat)
    requires 1 <= e && m < Pow2(mb)
    ensures 0 < Magnitude(mb, e, m) < Pow2(mb + e)
  {
    Pow2Add(mb + 1, e - 1);
    DoublePow2(mb);
    hide Pow2;
    MulMono(1, Pow2(mb) + m, Pow2(e - 1));
    MulStrict(Pow2(mb) + m, Pow2(mb + 1), Pow2(e - 1));
  }

  lemma SmallParts(v: int, u: int)
    requires 0 <= v < u
    ensures Down(v, u) == 0 && (0 < v ==> Up(v, u) == u) && (2 * v < u ==> Half(v, u) == 0)
    ensures u <= 2 * v ==> Half(v, u) == u
  {
    ModSmall(v, u);
    assert 0 * u == 0 && 1 * u == u;
    if 0 < v {
      DivIntro(v + u - 1, u, 1, v - 1);
    }
    if 2 * v < u {
      ModSmall(2 * v + u, 2 * u);
    } else {
      DivIntro(2 * v + u, 2 * u, 1, 2 * v - u);
    }
  }

  // ---- The operations ----

  /** The number a result stands for. */
  function Result(fmt: Format, r: Float): int
    requires Encodes(fmt, r)
  {
    Signed(r.sign, Mag(fmt, r))
  }

  lemma UnitIsOne(fmt: Format)
    requires fmt.Ok()
    ensures 0 <= Bias(fmt) <= fmt.MaxExp() && Mag(fmt, Float(false, Bias(fmt), 0)) == One(fmt)
    ensures Mag(fmt, Float(false, 0, 0)) == 0
  {
    BiasBounds(fmt);
    Pow2Add(fmt.mb, Bias(fmt) - 1);
  }

  /** Rounds the magnitude away from zero where `away`, toward zero otherwise. */
  method CutFraction(fmt: Format, x: Float, away: bool) returns (r: Float)
    requires fmt.Ok() && Finite(fmt, x) && Bias(fmt) <= x.e <= fmt.mb + Bias(fmt)
    ensures Encodes(fmt, r) && r.sign == x.sign && x.e <= r.e && (x.e < r.e ==> r.m == 0)
    ensures Mag(fmt, r) == if away then Up(Mag(fmt, x), One(fmt)) else Down(Mag(fmt, x), One(fmt))
  {
    BiasBounds(fmt);
    var e, m, eDif := x.e, x.m, fmt.mb + Bias(fmt) - x.e;
    FieldUnits(fmt, x, eDif);
    ghost var p, u := Pow2(fmt.mb), Pow2(e - 1);
    FieldCut(p, m, Pow2(eDif), u, Pow2(fmt.mb - eDif));
    hide Pow2, Bias, Magnitude, Down, Up, One;
    RaisedField(fmt.mb, e, m, eDif);
    CutField(fmt.mb, e, m, eDif);
    var nonZeroFractional := m % Pow2(eDif) != 0;
    if away {
      m := m - m % Pow2(eDif) + (Pow2(eDif) - 1);
      var mu := m + (if nonZeroFractional then 1 else 0);
      e := e + mu / Pow2(fmt.mb);
      m := mu % Pow2(fmt.mb);
    }
    m := m - m % Pow2(eDif);
    r := Float(x.sign, e, m);
  }

  lemma CutField(mb: nat, e: nat, m: nat, f: nat)
    requires 1 <= e && f <= mb && m < Pow2(mb)
    ensures 0 <= m - m % Pow2(f) < Pow2(mb)
    ensures Magnitude(mb, e, m - m % Pow2(f)) == (Pow2(mb) + (m - m % Pow2(f))) * Pow2(e - 1)
  {
    DivBounds(m, Pow2(f));
    QuotientNonNegative(m, Pow2(f));
    MulMono(0, m / Pow2(f), Pow2(f));
  }

  /** What the magnitude roundings mean for signed numbers, in terms of the rounding modes. */
  lemma SignedRounding(neg: bool, v: int, u: int)
    requires 0 < u && 0 <= v
    ensures Signed(neg, if neg then Up(v, u) else Down(v, u)) == Round(TRN, Signed(neg, v), u) * u
    ensures Signed(neg, if neg then Down(v, u) else Up(v, u)) == -(Round(TRN, -Signed(neg, v), u) * u)
    ensures Signed(neg, Down(v, u)) == Round(TRN_ZERO, Signed(neg, v), u) * u
    ensures Signed(neg, Half(v, u)) == Round(RND_INF, Signed(neg, v), u) * u
  {
    DownAndUp(v, u);
    FloorOfNegative(v, u);
    TowardZero(neg, v, u);
    AwayOnTies(neg, v, u);
    hide Round, IsRounded, Down, Up, Half;
  }

  lemma DownAndUp(v: int, u: int)
    requires 0 < u && 0 <= v
    ensures Down(v, u) == Round(TRN, v, u) * u
  {
  }

  lemma FloorOfNegative(v: int, u: int)
    requires 0 < u && 0 <= v
    ensures Up(v, u) == -(Round(TRN, -v, u) * u)
  {
    hide IsRounded;
    NegatedQuotient(v, u);
    var n, r := v / u, v % u;
    if r == 0 {
      DivIntro(v + u - 1, u, n, u - 1);
    } else {
      assert (n + 1) * u == n * u + u;
      DivIntro(v + u - 1, u, n + 1, r - 1);
    }
  }

  lemma TowardZero(neg: bool, v: int, u: int)
    requires 0 < u && 0 <= v
    ensures Signed(neg, Down(v, u)) == Round(TRN_ZERO, Signed(neg, v), u) * u
  {
    hide IsRounded;
    NegatedQuotient(v, u);
    var n := v / u;
    TruncatedQuotient(neg, v, u, n);
    assert -n * u == -(n * u);
  }

  lemma TruncatedQuotient(neg: bool, v: int, u: int, n: int)
    requires 0 < u && 0 <= v && n == v / u
    ensures Round(TRN_ZERO, Signed(neg, v), u) == (if neg then -n else n)
  {
    hide IsRounded;
    NegatedQuotient(v, u);
    if v == 0 {
      ModSmall(0, u);
    }
  }

  lemma AwayOnTies(neg: bool, v: int, u: int)
    requires 0 < u && 0 <= v
    ensures Signed(neg, Half(v, u)) == Round(RND_INF, Signed(neg, v), u) * u
  {
    hide IsRounded, Half;
    var n, r := v / u, v % u;
    NegatedQuotient(v, u);
    HalfIs(v, u, n, r);
    NearestQuotient(neg, v, u, n, r);
    assert (n + 1) * u == n * u + u && -(n + 1) * u == -(n * u) - u;
  }

  lemma NearestQuotient(neg: bool, v: int, u: int, n: int, r: int)
    requires 0 < u && 0 <= v && n == v / u && r == v % u
    ensures
      var z := if u <= 2 * r then n + 1 else n;
      Round(RND_INF, Signed(neg, v), u) == (if neg then -z else z)
  {
    hide IsRounded;
    NegatedQuotient(v, u);
    if v == 0 {
      ModSmall(0, u);
    }
  }

  lemma HalfIs(v: int, u: int, n: int, r: int)
    requires 0 < u && v == n * u + r && 0 <= r < u
    ensures Half(v, u) == (if u <= 2 * r then n * u + u else n * u)
  {
    assert n * (2 * u) == 2 * (n * u) && (n + 1) * (2 * u) == 2 * (n * u) + 2 * u && (n + 1) * u == n * u + u;
    if u <= 2 * r {
      DivIntro(2 * v + u, 2 * u, n + 1, 2 * r - u);
    } else {
      DivIntro(2 * v + u, 2 * u, n, 2 * r + u);
    }
  }

  /** The power of two beyond the largest finite number. */
  function TooLarge(fmt: Format): int
    requires fmt.Ok()
  {
    Pow2Mono(0, fmt.eb);
    Mag(fmt, Float(false, fmt.MaxExp(), 0))
  }

  /** r is the number z, or infinity with the given sign where z is too large for a finite number. */
  predicate Gives(fmt: Format, negative: bool, z: int, r: Float)
    requires fmt.Ok()
  {
    && Encodes(fmt, r)
    && if TooLarge(fmt) <= AbsVal(z) then IsInf(fmt, r) && r.sign == negative else Finite(fmt, r) && Value(fmt, r) == z
  }

  /** What the four results are for a finite x where they are finite: multiples of one, the least not
      below x, the greatest not above it, the one next to it towards zero, and the nearest, away from
      zero halfway. */
  lemma IntegersAround(fmt: Format, x: Float, r: Float)
    requires fmt.Ok() && Finite(fmt, x) && Finite(fmt, r) && Encodes(fmt, Float(false, Bias(fmt), 0))
    ensures
      var v, y, u := Value(fmt, x), Value(fmt, r), Magnitude(fmt.mb, Bias(fmt), 0);
      && 0 < u
      && (Gives(fmt, x.sign, -(Round(TRN, -v, One(fmt)) * One(fmt)), r) ==> y % u == 0 && v <= y < v + u)
      && (Gives(fmt, x.sign, Round(TRN, v, One(fmt)) * One(fmt), r) ==> y % u == 0 && y <= v < y + u)
      && (Gives(fmt, x.sign, Round(TRN_ZERO, v, One(fmt)) * One(fmt), r) ==>
            y % u == 0 && AbsVal(y) <= AbsVal(v) < AbsVal(y) + u && (0 < v ==> 0 <= y) && (v < 0 ==> y <= 0))
      && (Gives(fmt, x.sign, Round(RND_INF, v, One(fmt)) * One(fmt), r) ==>
            y % u == 0 && 2 * AbsVal(y - v) <= u && (2 * AbsVal(y - v) == u ==> AbsVal(v) < AbsVal(y)))
  {
    UnitIsOne(fmt);
    NotTooLarge(fmt, r);
    var v, u := Value(fmt, x), One(fmt);
    hide Pow2, Bias, One, Magnitude, Value, Round;
    RoundedIntegers(v, u);
    if 0 < v {
      RoundedIntegers(-v, u);
    }
    RoundedMultiple(Round(TRN, -v, u), u);
    RoundedMultiple(-Round(TRN, -v, u), u);
    RoundedMultiple(Round(TRN, v, u), u);
    RoundedMultiple(Round(TRN_ZERO, v, u), u);
    RoundedMultiple(Round(RND_INF, v, u), u);
    MulNeg(Round(TRN, -v, u), u);
  }

  lemma NotTooLarge(fmt: Format, r: Float)
    requires fmt.Ok() && Finite(fmt, r)
    ensures !IsInf(fmt, r)
  {
  }

  lemma RoundedMultiple(z: int, u: int)
    requires 0 < u
    ensures z * u % u == 0
  {
    DivIntro(z * u, u, z, 0);
  }

  /** The rounding modes in numbers. */
  lemma RoundedIntegers(v: int, u: int)
    requires 0 < u
    ensures Round(TRN, v, u) * u <= v < Round(TRN, v, u) * u + u
    ensures Round(TRN, -v, u) * u <= -v < Round(TRN, -v, u) * u + u
    ensures
      var y := Round(TRN_ZERO, v, u) * u;
      AbsVal(y) <= AbsVal(v) < AbsVal(y) + u && (0 < v ==> 0 <= y) && (v < 0 ==> y <= 0)
    ensures
      var y := Round(RND_INF, v, u) * u;
      2 * AbsVal(y - v) <= u && (2 * AbsVal(y - v) == u ==> AbsVal(v) < AbsVal(y))
  {
    var z := Round(TRN_ZERO, v, u);
    if 0 <= z {
      MulMono(0, z, u);
    } else {
      MulMono(z, 0, u);
    }
    hide Round;
  }

  lemma ResultGives(fmt: Format, x: Float, z: int, r: Float)
    requires fmt.Ok() && Finite(fmt, x) && Encodes(fmt, r) && Result(fmt, r) == z
    requires r.e == fmt.MaxExp() ==> r.m == 0 && r.sign == x.sign
    ensures Gives(fmt, x.sign, z, r)
  {
    var inf := Float(false, fmt.MaxExp(), 0);
    Pow2Mono(0, fmt.eb);
    PositiveMag(fmt, r);
    if Finite(fmt, r) {
      ValueIsSigned(fmt, r);
      BelowInfinity(fmt, r);
    }
    hide Pow2, Magnitude;
  }

  lemma BelowInfinity(fmt: Format, r: Float)
    requires fmt.Ok() && Finite(fmt, r)
    ensures Mag(fmt, r) < TooLarge(fmt)
  {
    hide Pow2, Magnitude;
    Pow2Mono(0, fmt.eb);
    var p, inf := Pow2(fmt.mb), Float(false, fmt.MaxExp(), 0);
    assert (r.e + 1) * p == r.e * p + p;
    MulMono(r.e + 1, fmt.MaxExp(), p);
    MagnitudeOrder(fmt, r, inf);
  }

  lemma ValueIsSigned(fmt: Format, x: Float)
    requires Finite(fmt, x)
    ensures Value(fmt, x) == Signed(x.sign, Mag(fmt, x))
  {
  }

  /** Magnitudes with nothing to round. */
  lemma NothingToRound(fmt: Format, x: Float)
    requires fmt.Ok() && Finite(fmt, x) && (fmt.mb + Bias(fmt) < x.e || (x.e == 0 && x.m == 0))
    ensures
      var v, u := Mag(fmt, x), One(fmt);
      0 <= v && Down(v, u) == v && Up(v, u) == v && Half(v, u) == v
  {
    hide Pow2, Bias, One, Down, Up, Half;
    if x.e == 0 && x.m == 0 {
      ModSmall(0, One(fmt));
    } else {
      AlreadyIntegral(fmt, x);
    }
    MultipleStays(Mag(fmt, x), One(fmt));
  }

  lemma PositiveMag(fmt: Format, x: Float)
    requires fmt.Ok() && Encodes(fmt, x)
    ensures 0 <= Mag(fmt, x)
  {
    if 0 < x.e {
      MulMono(0, Pow2(fmt.mb) + x.m, Pow2(x.e - 1));
    }
  }

  /** The least integer not below x; NaN and infinities unchanged. */
  method Ceil(fmt: Format, x: Float) returns (r: Float)
    requires fmt.Ok() && Encodes(fmt, x)
    ensures Encodes(fmt, r) && (!Finite(fmt, x) ==> r == x)
    ensures r.e == 0 && r.m == 0 ==> !r.sign || r == x
    ensures Finite(fmt, x) ==> Gives(fmt, x.sign, -(Round(TRN, -Value(fmt, x), One(fmt)) * One(fmt)), r)
  {
    BiasBounds(fmt);
    UnitIsOne(fmt);
    PositiveMag(fmt, x);
    hide Pow2, Bias, One, Down, Up, Half, Round, IsRounded, Magnitude, Gives;
    if x.e == 0 && x.m == 0 {
      r := x;
      NothingToRound(fmt, x);
    } else if x.e < Bias(fmt) {
      r := if x.sign then Float(false, 0, 0) else Float(false, Bias(fmt), 0);
      BelowOne(fmt, x);
      SmallParts(Mag(fmt, x), One(fmt));
    } else {
      var eDif := fmt.mb + Bias(fmt) - x.e;
      if eDif < 0 || x.e == fmt.MaxExp() {
        r := x;
        if Finite(fmt, x) {
          NothingToRound(fmt, x);
        }
      } else {
        r := CutFraction(fmt, x, !x.sign);
      }
    }
    SignedRounding(x.sign, Mag(fmt, x), One(fmt));
    if Finite(fmt, x) {
      ValueIsSigned(fmt, x);
      ResultGives(fmt, x, -(Round(TRN, -Value(fmt, x), One(fmt)) * One(fmt)), r);
    }
  }

  /** The greatest integer not above x; NaN and infinities unchanged. */
  method Floor(fmt: Format, x: Float) returns (r: Float)
    requires fmt.Ok() && Encodes(fmt, x)
    ensures Encodes(fmt, r) && (!Finite(fmt, x) ==> r == x)
    ensures r.e == 0 && r.m == 0 ==> !r.sign || r == x
    ensures Finite(fmt, x) ==> Gives(fmt, x.sign, Round(TRN, Value(fmt, x), One(fmt)) * One(fmt), r)
  {
    BiasBounds(fmt);
    UnitIsOne(fmt);
    PositiveMag(fmt, x);
    NegativeOne(fmt);
    hide Pow2, Bias, One, Down, Up, Half, Round, IsRounded, Magnitude, Gives;
    if x.e == 0 && x.m == 0 {
      r := x;
      NothingToRound(fmt, x);
    } else if x.e < Bias(fmt) {
      r := if x.sign then Float(true, Bias(fmt), 0) else Float(false, 0, 0);
      BelowOne(fmt, x);
      SmallParts(Mag(fmt, x), One(fmt));
    } else {
      var eDif := fmt.mb + Bias(fmt) - x.e;
      if eDif < 0 || x.e == fmt.MaxExp() {
        r := x;
        if Finite(fmt, x) {
          NothingToRound(fmt, x);
        }
      } else {
        r := CutFraction(fmt, x, x.sign);
      }
    }
    SignedRounding(x.sign, Mag(fmt, x), One(fmt));
    if Finite(fmt, x) {
      ValueIsSigned(fmt, x);
      ResultGives(fmt, x, Round(TRN, Value(fmt, x), One(fmt)) * One(fmt), r);
    }
  }

  lemma NegativeOne(fmt: Format)
    requires fmt.Ok()
    ensures 0 <= Bias(fmt) <= fmt.MaxExp() && Mag(fmt, Float(true, Bias(fmt), 0)) == One(fmt)
  {
    UnitIsOne(fmt);
  }

  /** The integer part; NaN and infinities unchanged. */
  method Trunc(fmt: Format, x: Float) returns (r: Float)
    requires fmt.Ok() && Encodes(fmt, x)
    ensures Encodes(fmt, r) && (!Finite(fmt, x) ==> r == x)
    ensures r.e == 0 && r.m == 0 ==> !r.sign
    ensures Finite(fmt, x) ==> Gives(fmt, x.sign, Round(TRN_ZERO, Value(fmt, x), One(fmt)) * One(fmt), r)
  {
    BiasBounds(fmt);
    UnitIsOne(fmt);
    PositiveMag(fmt, x);
    hide Pow2, Bias, One, Down, Up, Half, Round, IsRounded, Magnitude, Gives;
    if x.e < Bias(fmt) {
      r := Float(false, 0, 0);
      BelowOne(fmt, x);
      SmallParts(Mag(fmt, x), One(fmt));
    } else {
      var eDif := fmt.mb + Bias(fmt) - x.e;
      if eDif < 0 || x.e == fmt.MaxExp() {
        r := x;
        if Finite(fmt, x) {
          NothingToRound(fmt, x);
        }
      } else {
        r := CutFraction(fmt, x, false);
      }
    }
    SignedRounding(x.sign, Mag(fmt, x), One(fmt));
    if Finite(fmt, x) {
      ValueIsSigned(fmt, x);
      ResultGives(fmt, x, Round(TRN_ZERO, Value(fmt, x), One(fmt)) * One(fmt), r);
    }
  }

  /** Adding one half at place g and clearing it, in the field or one unit beyond. */
  lemma HalvedField(mb: nat, e: nat, m: nat, g: nat)
    requires 1 <= e && g <= mb && m < Pow2(mb)
    ensures
      var mu := m - m % Pow2(g) + (Pow2(g) - 1) + 1;
      var e', m1 := e + mu / Pow2(mb), mu % Pow2(mb);
      var m', y := m1 - m1 % Pow2(g + 1), Pow2(mb) + (m - m % Pow2(g)) + Pow2(g);
      && 0 <= m' < Pow2(mb) && 0 <= mu && (e' == e || (e' == e + 1 && m' == 0))
      && Magnitude(mb, e', m') == (y - y % (2 * Pow2(g))) * Pow2(e - 1)
  {
    DoublePow2(g);
    Pow2Add(mb - g, g);
    hide Pow2, Magnitude;
    var h, k := Pow2(g), Pow2(mb - g);
    DivBounds(m, h);
    CarryOut(m, h, k);
    var mu := m - m % h + h;
    if mu < Pow2(mb) {
      ModSmall(mu, Pow2(mb));
      StaysInField(mb, e, mu, g);
    } else {
      DivIntro(mu, Pow2(mb), 1, 0);
      LeavesField(mb, e, h, k, g);
    }
  }

  lemma StaysInField(mb: nat, e: nat, mu: nat, g: nat)
    requires 1 <= e && g <= mb && Pow2(g) <= mu < Pow2(mb)
    ensures 0 <= mu - mu % Pow2(g + 1) < Pow2(mb)
    ensures
      var y := Pow2(mb) + mu;
      Magnitude(mb, e, mu - mu % Pow2(g + 1)) == (y - y % Pow2(g + 1)) * Pow2(e - 1)
  {
    DoublePow2(g);
    InsideField(mb, mu, Pow2(g), g);
    hide Pow2, Magnitude;
    QuotientNonNegative(mu, Pow2(g + 1));
    DivBounds(mu, Pow2(g + 1));
    MulMono(0, mu / Pow2(g + 1), Pow2(g + 1));
    NormalMagnitude(mb, e - 1, mu - mu % Pow2(g + 1));
  }

  lemma LeavesField(mb: nat, e: nat, h: int, k: int, g: nat)
    requires 1 <= e && 0 < h && k * h == Pow2(mb) && Pow2(g + 1) == 2 * h
    ensures
      var y := Pow2(mb) + Pow2(mb);
      Magnitude(mb, e + 1, 0 - 0 % Pow2(g + 1)) == (y - y % (2 * h)) * Pow2(e - 1)
    ensures 0 % Pow2(g + 1) == 0
  {
    hide Pow2, Magnitude;
    ModSmall(0, 2 * h);
    assert k * (2 * h) == 2 * (k * h);
    DivIntro(2 * Pow2(mb), 2 * h, k, 0);
    NextExponent(mb, e);
  }

  lemma InsideField(mb: nat, mu: int, h: int, g: nat)
    requires g <= mb && h == Pow2(g) && h <= mu < Pow2(mb)
    ensures (Pow2(mb) + mu) % (2 * h) == mu % (2 * h)
  {
    DoublePow2(g);
    if g == mb {
    } else {
      Pow2Add(mb - (g + 1), g + 1);
      hide Pow2;
      ModMultiple(mu, Pow2(mb - (g + 1)), 2 * h);
    }
  }

  /** Rounds the magnitude to the nearest integer, halves away from zero. */
  method RoundField(fmt: Format, x: Float) returns (r: Float)
    requires fmt.Ok() && Finite(fmt, x) && Bias(fmt) - 1 <= x.e <= fmt.mb + Bias(fmt) - 1
    ensures Encodes(fmt, r) && r.sign == x.sign && x.e <= r.e && (x.e < r.e ==> r.m == 0)
    ensures 1 <= x.e ==> Mag(fmt, r) == Half(Mag(fmt, x), One(fmt))
    ensures x.e == 0 ==> Bias(fmt) == 1 && r == Float(x.sign, 1, 0)
  {
    BiasBounds(fmt);
    var e, m, eDif := x.e, x.m, fmt.mb + Bias(fmt) - 1 - x.e;
    HalfUnits(fmt, x, eDif);
    FullField(fmt.mb, m);
    if 1 <= e {
      HalvedField(fmt.mb, e, m, eDif);
      FieldHalf(Pow2(fmt.mb), m, Pow2(eDif), Pow2(e - 1));
    }
    hide Pow2, Bias, Magnitude, Half, One;
    m := m - m % Pow2(eDif) + (Pow2(eDif) - 1);
    var mu := m + 1;
    e := e + mu / Pow2(fmt.mb);
    m := mu % Pow2(fmt.mb);
    m := m - m % Pow2(eDif + 1);
    r := Float(x.sign, e, m);
  }

  /** With every place below one half, the field fills up and carries out. */
  lemma FullField(mb: nat, m: nat)
    requires m < Pow2(mb)
    ensures
      var mu := m - m % Pow2(mb) + (Pow2(mb) - 1) + 1;
      mu / Pow2(mb) == 1 && mu % Pow2(mb) == 0 && 0 % Pow2(mb + 1) == 0
  {
    hide Pow2;
    ModSmall(m, Pow2(mb));
    DivIntro(Pow2(mb), Pow2(mb), 1, 0);
    ModSmall(0, Pow2(mb + 1));
  }

  lemma HalfUnits(fmt: Format, x: Float, g: nat)
    requires fmt.Ok() && Encodes(fmt, x) && g == fmt.mb + Bias(fmt) - 1 - x.e && g <= fmt.mb
    ensures 1 <= x.e ==>
      && Mag(fmt, x) == (Pow2(fmt.mb) + x.m) * Pow2(x.e - 1)
      && One(fmt) == 2 * Pow2(g) * Pow2(x.e - 1) && Pow2(fmt.mb) % Pow2(g) == 0
  {
    if 1 <= x.e {
      Pow2Add(g + 1, x.e - 1);
      assert g + 1 + (x.e - 1) == fmt.mb + Bias(fmt) - 1;
      Pow2Add(fmt.mb - g, g);
      DoublePow2(g);
      hide Pow2;
      DivIntro(Pow2(fmt.mb), Pow2(g), Pow2(fmt.mb - g), 0);
    }
  }

  /** The nearest integer, halves away from zero; NaN and infinities unchanged.  With two exponent
      bits every number below one half becomes one. */
  method RoundAway(fmt: Format, x: Float) returns (r: Float)
    requires fmt.Ok() && Encodes(fmt, x)
    ensures Encodes(fmt, r) && (!Finite(fmt, x) ==> r == x)
    ensures r.e == 0 && r.m == 0 ==> !r.sign
    ensures Finite(fmt, x) ==>
      (Gives(fmt, x.sign, Round(RND_INF, Value(fmt, x), One(fmt)) * One(fmt), r) <==>
        !(Bias(fmt) == 1 && x.e == 0 && 2 * x.m < Pow2(fmt.mb)))
    ensures Bias(fmt) == 1 && x.e == 0 ==> r == Float(x.sign, 1, 0)
  {
    BiasBounds(fmt);
    UnitIsOne(fmt);
    NegativeOne(fmt);
    PositiveMag(fmt, x);
    if Bias(fmt) == 1 && x.e == 0 {
      NarrowExponent(fmt, x);
    }
    hide Pow2, Bias, One, Down, Up, Half, Round, IsRounded, Magnitude, Gives;
    if x.e < Bias(fmt) - 1 {
      r := Float(false, 0, 0);
      BelowOne(fmt, x);
      SmallParts(Mag(fmt, x), One(fmt));
    } else {
      var eDif := fmt.mb + Bias(fmt) - 1 - x.e;
      if eDif < 0 || x.e == fmt.MaxExp() {
        r := x;
        if Finite(fmt, x) {
          WholeStays(fmt, x);
        }
      } else {
        r := RoundField(fmt, x);
      }
    }
    SignedRounding(x.sign, Mag(fmt, x), One(fmt));
    if Finite(fmt, x) && !(Bias(fmt) == 1 && x.e == 0 && 2 * x.m < Pow2(fmt.mb)) {
      ValueIsSigned(fmt, x);
      ResultGives(fmt, x, Round(RND_INF, Value(fmt, x), One(fmt)) * One(fmt), r);
    }
  }

  lemma WholeStays(fmt: Format, x: Float)
    requires fmt.Ok() && Finite(fmt, x) && fmt.mb + Bias(fmt) - 1 < x.e
    ensures Half(Mag(fmt, x), One(fmt)) == Mag(fmt, x)
  {
    hide Pow2, Bias, One, Down, Up, Half;
    AlreadyIntegral(fmt, x);
    MultipleStays(Mag(fmt, x), One(fmt));
  }

  /** With two exponent bits one is 2^mb units and a subnormal is its mantissa. */
  lemma NarrowExponent(fmt: Format, x: Float)
    requires fmt.Ok() && Encodes(fmt, x) && Bias(fmt) == 1 && x.e == 0
    ensures One(fmt) == Pow2(fmt.mb) && Mag(fmt, x) == x.m
    ensures Half(x.m, One(fmt)) == (if 2 * x.m < Pow2(fmt.mb) then 0 else One(fmt))
  {
    hide Pow2;
    SmallParts(x.m, Pow2(fmt.mb));
  }
}

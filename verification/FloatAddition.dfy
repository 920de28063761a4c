/** Floating-point addition with guard, round and sticky bits (`add_generic`, round to nearest even,
    subnormals supported) against the exact sum rounded once. */
module FloatAddition {
  import opened Powers
  import opened Rounding
  import opened FloatFormat

  // ---- Jamming: dropping bits but keeping whether any was set ----

  /** y / d with the lowest kept bit set when the division is inexact. */
  function Jam(y: int, d: int): int
    requires 0 < d
  {
    var q := y / d;
    if y % d == 0 || q % 2 == 1 then q else q + 1
  }

  /** Jamming the smaller operand and then adding or subtracting an even number jams the sum. */
  lemma JamSum(b: int, s: int, d: int)
    requires 0 < d && b % 2 == 0
    ensures Jam(b * d + s, d) == b + Jam(s, d)
    ensures Jam(b * d - s, d) == b - Jam(s, d)
  {
    ModMultiple(s, b, d);
    DivBounds(s, d);
    JamNegated(b, s / d, s % d, s, d);
    DivIntro(b, 2, b / 2, 0);
    ParityOfDifference(b / 2, s / d);
  }

  lemma JamNegated(b: int, q: int, r: int, s: int, d: int)
    requires 0 < d && s == q * d + r && 0 <= r < d
    ensures r == 0 ==> (b * d - s) / d == b - q && (b * d - s) % d == 0
    ensures r != 0 ==> (b * d - s) / d == b - q - 1 && (b * d - s) % d == d - r
  {
    assert (b - q) * d == b * d - q * d;
    assert (b - q - 1) * d == b * d - q * d - d;
    if r == 0 {
      DivIntro(b * d - s, d, b - q, 0);
    } else {
      DivIntro(b * d - s, d, b - q - 1, d - r);
    }
  }

  lemma ParityOfDifference(h: int, q: int)
    ensures (2 * h + q) % 2 == q % 2 && (2 * h - q) % 2 == q % 2 && (2 * h - q - 1) % 2 == 1 - q % 2
  {
    ModMultiple(q, h, 2);
    DivIntro(2 * h - q, 2, h - q / 2 - q % 2, q % 2);
    DivIntro(2 * h - q - 1, 2, h - q / 2 - 1, 1 - q % 2);
  }

  lemma RoundScale(x: int, p: int, c: int)
    requires 0 < p && 0 < c
    ensures 0 < p * c
    ensures Round(RND_CONV, x * c, p * c) == Round(RND_CONV, x, p)
  {
    MulMono(1, p, c);
    var z := Round(RND_CONV, x, p);
    assert z * (p * c) == (z * p) * c by {
      MulAssoc(z, p, c);
    }
    ScaleDistance(x, z * p, p, c);
    RoundedUnique(RND_CONV, x * c, p * c, z, Round(RND_CONV, x * c, p * c));
  }

  lemma ScaleDistance(x: int, y: int, p: int, c: int)
    requires 0 < c
    ensures 2 * AbsVal(x * c - y * c) == (2 * AbsVal(x - y)) * c
    ensures 2 * AbsVal(x - y) <= p ==> 2 * AbsVal(x * c - y * c) <= p * c
    ensures 2 * AbsVal(x * c - y * c) == p * c ==> 2 * AbsVal(x - y) == p
  {
    assert x * c - y * c == (x - y) * c;
    assert (-(x - y)) * c == -((x - y) * c);
    MulMono(0, AbsVal(x - y), c);
    assert AbsVal((x - y) * c) == AbsVal(x - y) * c by {
      if x - y < 0 {
        MulMono(x - y, 0, c);
      } else {
        MulMono(0, x - y, c);
      }
    }
    assert (2 * AbsVal(x - y)) * c == 2 * (AbsVal(x - y) * c);
    if 2 * AbsVal(x - y) <= p {
      MulMono(2 * AbsVal(x - y), p, c);
    }
    if 2 * AbsVal(x - y) < p {
      MulStrict(2 * AbsVal(x - y), p, c);
    } else if p < 2 * AbsVal(x - y) {
      MulStrict(p, 2 * AbsVal(x - y), c);
    }
  }

  /** Equal fractions round to the same integer. */
  lemma SameRatio(x: int, p: int, y: int, r: int)
    requires 0 < p && 0 < r && x * r == y * p
    ensures Round(RND_CONV, x, p) == Round(RND_CONV, y, r)
  {
    hide Round, IsRounded;
    RoundScale(x, p, r);
    RoundScale(y, r, p);
    assert p * r == r * p;
  }

  /** Rounding to nearest even, from the quotient and the remainder. */
  lemma RoundParts(x: int, p: int, f: int, m: int)
    requires 0 <= m < p && x == f * p + m
    ensures Round(RND_CONV, x, p) == (if 2 * m < p || (2 * m == p && f % 2 == 0) then f else f + 1)
  {
    DivIntro(x, p, f, m);
    hide IsRounded;
  }

  /** Rounding a jammed number two or more positions further up is rounding the exact one. */
  lemma JamBlock(y: int, d: int, t: int)
    requires 0 < d && (t == 4 || t == 8 || t == 16) && y % d != 0
    ensures 0 < t * d
    ensures Round(RND_CONV, Jam(y, d), t) == Round(RND_CONV, y, t * d)
  {
    var q, r := y / d, y % d;
    var f, m := q / t, q % t;
    DivBounds(y, d);
    DivBounds(q, t);
    var m' := if m % 2 == 1 then m else m + 1;
    OddRemainder(q, f, m, t);
    assert Jam(y, d) == f * t + m';
    hide Round, IsRounded, Jam;
    BlockParts(y, d, t, q, r, f, m);
    BlockHalves(d, t, r, m);
    RoundParts(f * t + m', t, f, m');
    RoundParts(y, t * d, f, m * d + r);
  }

  lemma OddRemainder(q: int, f: int, m: int, t: int)
    requires q == f * t + m && 0 <= m < t && (t == 4 || t == 8 || t == 16)
    ensures q % 2 == m % 2
    ensures var m' := if m % 2 == 1 then m else m + 1;
      m' < t && 2 * m' != t && (2 * m' < t <==> 2 * m < t)
  {
    var u := t / 4;
    assert t == 4 * u;
    EvenMultiple(f, t, u);
    ModMultiple(m, f * (2 * u), 2);
    OddCount(m, m / 2, u);
  }

  lemma EvenMultiple(f: int, t: int, u: int)
    requires t == 4 * u
    ensures f * t == (f * (2 * u)) * 2
  {
    MulAssoc(f, 2 * u, 2);
  }

  lemma OddCount(m: int, k: int, u: int)
    requires 0 <= m < 4 * u && k == m / 2
    ensures var m' := if m % 2 == 1 then m else m + 1;
      m' == 2 * k + 1 && m' < 4 * u && 2 * m' != 4 * u && (2 * m' < 4 * u <==> 2 * m < 4 * u)
  {
  }

  lemma BlockParts(y: int, d: int, t: int, q: int, r: int, f: int, m: int)
    requires y == q * d + r && q == f * t + m
    ensures y == f * (t * d) + (m * d + r)
  {
    assert (f * t + m) * d == (f * t) * d + m * d;
    MulAssoc(f, t, d);
  }

  lemma BlockHalves(d: int, t: int, r: int, m: int)
    requires 0 < t && t % 2 == 0 && 0 < r < d && 0 <= m < t
    ensures 0 < t * d && 0 <= m * d + r < t * d
    ensures 2 * m < t ==> 2 * (m * d + r) < t * d
    ensures t <= 2 * m ==> t * d < 2 * (m * d + r)
  {
    MulMono(1, t, d);
    MulMono(0, m, d);
    MulMono(m + 1, t, d);
    assert (m + 1) * d == m * d + d;
    if 2 * m < t {
      MulMono(2 * m + 2, t, d);
      HalfBlock(m, d);
    } else {
      MulMono(t, 2 * m, d);
      HalfBlock(m, d);
    }
  }

  lemma HalfBlock(m: int, d: int)
    ensures (2 * m) * d == 2 * (m * d)
    ensures (2 * m + 2) * d == 2 * (m * d) + 2 * d
  {
  }

  /** The jammed number, normalized, rounds as the exact one does. */
  lemma JamRound(y: int, d: int, ls: nat)
    requires 0 < d && (y % d == 0 || ls <= 2)
    ensures 0 < 16 * d
    ensures Round(RND_CONV, Jam(y, d) * Pow2(ls), 16) == Round(RND_CONV, y * Pow2(ls), 16 * d)
  {
    if y % d == 0 {
      JamExact(y, d);
      hide Round, IsRounded, Pow2, Jam;
      ScaleExact(Jam(y, d), d, Pow2(ls), y);
      RoundScale(Jam(y, d) * Pow2(ls), 16, d);
    } else {
      Pow2Values();
      JamShift(y, d, ls, if ls == 0 then 16 else if ls == 1 then 8 else 4);
    }
  }

  lemma JamExact(y: int, d: int)
    requires 0 < d && y % d == 0
    ensures Jam(y, d) * d == y
  {
    DivBounds(y, d);
  }

  lemma ScaleExact(j: int, d: int, l: int, y: int)
    requires j * d == y
    ensures (j * l) * d == y * l
  {
    assert (j * l) * d == (j * d) * l;
  }

  lemma JamShift(y: int, d: int, ls: nat, t: int)
    requires 0 < d && y % d != 0 && (t == 4 || t == 8 || t == 16) && t * Pow2(ls) == 16
    ensures 0 < 16 * d
    ensures Round(RND_CONV, Jam(y, d) * Pow2(ls), 16) == Round(RND_CONV, y * Pow2(ls), 16 * d)
  {
    hide Round, IsRounded, Pow2, Jam;
    JamBlock(y, d, t);
    RoundScale(Jam(y, d), t, Pow2(ls));
    RoundScale(y, t * d, Pow2(ls));
    ScaleExact(t, d, Pow2(ls), t * d);
    ScaleProduct(t, d, Pow2(ls));
  }

  lemma ScaleProduct(t: int, d: int, l: int)
    ensures (t * d) * l == (t * l) * d
  {
  }

  // ---- Normalizing and rounding the aligned sum ----

  function LeadingZeros(x: nat, n: nat): int {
    n - BitLen(x)
  }

  /** The code that normalization and rounding make of the aligned sum res at exponent field exp. */
  function Assemble(mb: nat, exp: nat, res: nat): int {
    var ls := LeadingZeros(res, mb + 5);
    if res == 0 then 0
    else if 0 <= ls <= exp then (exp - ls) * Pow2(mb) + Round(RND_CONV, res * Pow2(ls), 16)
    else (res * Pow2(exp)) / 16
  }

  /** The aligned sum jams the exact one: its code is the exact sum rounded. */
  lemma AssembleIsRoundCode(mb: nat, exp: nat, res: nat, x: nat, y: nat, d: nat)
    requires 1 <= mb && d <= exp && y % 8 == 0
    requires (16 * x) * Pow2(d) == y * Pow2(exp)
    requires res == Jam(y, Pow2(d)) && res < Pow2(mb + 5)
    requires y % Pow2(d) == 0 || Pow2(mb + 2) <= res
    ensures Assemble(mb, exp, res) == RoundCode(mb, x)
  {
    if res == 0 {
      ZeroSum(mb, exp, x, y, d);
    } else {
      SumBitLen(mb, exp, res, x, y, d);
      BitLenBounds(res);
      BitLenAtMost(res, mb + 5);
      if y % Pow2(d) != 0 {
        BitLenAtLeast(res, mb + 2);
      }
      var ls: nat := LeadingZeros(res, mb + 5);
      hide Pow2, Round, IsRounded, Jam, BitLen;
      if ls <= exp {
        JamRound(y, Pow2(d), ls);
        Pow2Add(ls, exp - ls);
        SumRatio(x, y, Pow2(d), Pow2(ls), Pow2(exp - ls));
        SameRatio(x, Pow2(exp - ls), y * Pow2(ls), 16 * Pow2(d));
        assert Excess(mb, x) == exp - ls;
      } else {
        ExactSmallSum(exp, res, x, y, d);
        assert Excess(mb, x) == 0;
        Pow2Values();
        RoundExact(x);
        MulMono(0, Excess(mb, x), Pow2(mb));
      }
    }
  }

  lemma RoundExact(x: int)
    ensures Round(RND_CONV, x, 1) == x
  {
    DivIntro(x, 1, x, 0);
  }

  lemma BitLenAtMost(x: nat, n: nat)
    requires x < Pow2(n)
    ensures BitLen(x) <= n
  {
    BitLenBounds(x);
    var l := BitLen(x);
    Pow2Mono(n, if n < l then l - 1 else n);
  }

  lemma BitLenAtLeast(x: nat, n: nat)
    requires Pow2(n) <= x
    ensures n < BitLen(x)
  {
    BitLenBounds(x);
    if BitLen(x) <= n {
      Pow2Mono(BitLen(x), n);
    }
  }

  lemma SumRatio(x: int, y: int, d: int, l: int, h: int)
    requires (16 * x) * d == y * (l * h)
    ensures x * (16 * d) == (y * l) * h
  {
    MulAssoc(y, l, h);
    assert x * (16 * d) == (16 * x) * d;
  }

  lemma ZeroSum(mb: nat, exp: nat, x: nat, y: nat, d: nat)
    requires (16 * x) * Pow2(d) == y * Pow2(exp) && Jam(y, Pow2(d)) == 0
    ensures x == 0 && RoundCode(mb, x) == 0
  {
    var p := Pow2(d);
    DivBounds(y, p);
    assert y == 0;
    assert y * Pow2(exp) == 0;
    if 0 < x {
      MulMono(1, 16 * x, p);
    }
    Pow2Values();
    RoundExact(0);
    assert 0 * Pow2(mb) == 0;
  }

  /** Jamming does not move the leading bit. */
  lemma JamKeepsLength(y: nat, d: int, l: nat)
    requires 0 < d && 0 < l && Pow2(l - 1) <= Jam(y, d) < Pow2(l)
    requires y % d == 0 || 1 < l
    ensures Pow2(l - 1) * d <= y < Pow2(l) * d
  {
    DivBounds(y, d);
    var q := y / d;
    if 1 < l {
      DoublePow2(l - 2);
    }
    hide Pow2;
    assert Pow2(l - 1) <= q;
    MulMono(Pow2(l - 1), q, d);
    MulMono(q + 1, Pow2(l), d);
  }

  /** The length of the exact sum, from the length of the aligned one. */
  lemma SumBitLen(mb: nat, exp: nat, res: nat, x: nat, y: nat, d: nat)
    requires 0 < res && res == Jam(y, Pow2(d)) && (16 * x) * Pow2(d) == y * Pow2(exp)
    requires y % Pow2(d) == 0 || Pow2(mb + 2) <= res
    ensures 0 < x && BitLen(x) == BitLen(res) + exp - 4
  {
    var l := BitLen(res);
    BitLenBounds(res);
    if y % Pow2(d) != 0 {
      BitLenAtLeast(res, mb + 2);
    }
    JamKeepsLength(y, Pow2(d), l);
    Pow2Add(l - 1, exp);
    Pow2Add(l, exp);
    hide Pow2, Jam, BitLen;
    ScaledLength(x, y, Pow2(d), Pow2(l - 1), Pow2(l), Pow2(exp));
    assert Pow2(l - 1 + exp) <= 16 * x < Pow2(l + exp);
    SixteenthLength(x, l + exp);
  }

  lemma ScaledLength(x: int, y: int, d: int, lo: int, hi: int, e: int)
    requires 0 < d && 0 < e && lo * d <= y < hi * d && (16 * x) * d == y * e
    ensures lo * e <= 16 * x < hi * e
  {
    MulMono(lo * d, y, e);
    MulStrict(y, hi * d, e);
    assert (lo * d) * e == (lo * e) * d && (hi * d) * e == (hi * e) * d;
    MulCancelLt(lo * e - 1, 16 * x, d) by {
      assert (lo * e - 1) * d == (lo * e) * d - d;
    }
    MulCancelLt(16 * x, hi * e, d);
  }

  lemma SixteenthLength(x: int, n: nat)
    requires 0 < n && Pow2(n - 1) <= 16 * x < Pow2(n)
    ensures 0 < x && 5 <= n && BitLen(x) == n - 4
  {
    Pow2Values();
    if n < 5 {
      Pow2Mono(n, 4);
    }
    Pow2Add(n - 5, 4);
    Pow2Add(n - 4, 4);
    BitLenUnique(x, n - 4);
  }

  /** With more leading zeros than the exponent allows, nothing was dropped. */
  lemma ExactSmallSum(exp: nat, res: nat, x: nat, y: nat, d: nat)
    requires d <= exp && y % 8 == 0 && res == Jam(y, Pow2(d)) && (16 * x) * Pow2(d) == y * Pow2(exp)
    requires y % Pow2(d) == 0 || exp <= 1
    ensures res * Pow2(exp) == 16 * x && (res * Pow2(exp)) / 16 == x
  {
    if y % Pow2(d) != 0 {
      Pow2Values();
      ExactByOne(y);
    }
    hide Pow2;
    JamExact(y, Pow2(d));
    hide Jam;
    CancelDivisor(res, x, Pow2(d), Pow2(exp), y);
  }

  lemma ExactByOne(y: int)
    requires y % 8 == 0
    ensures y % 1 == 0 && y % 2 == 0
  {
    DivIntro(y, 2, 4 * (y / 8), 0);
    DivIntro(y, 1, y, 0);
  }

  lemma CancelDivisor(res: int, x: int, d: int, e: int, y: int)
    requires 0 < d && (16 * x) * d == y * e && res * d == y
    ensures res * e == 16 * x
  {
    ScaleExact(res, d, e, y);
    if res * e < 16 * x {
      MulStrict(res * e, 16 * x, d);
    } else if 16 * x < res * e {
      MulStrict(16 * x, res * e, d);
    }
  }
}

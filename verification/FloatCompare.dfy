/** `ac_float::compare`: exact order of unnormalized floating-point numbers of any two formats. */
module FloatCompare {
  import opened Powers
  import opened Words

  /** w mantissa bits of which i are integer bits, the raw mantissa m, and the exponent e. */
  datatype AcFloat = AcFloat(w: nat, i: int, m: int, e: int) {
    predicate Ok() {
      1 <= w && -Pow2(w - 1) <= m < Pow2(w - 1)
    }

    /** Exponent of the last mantissa bit. */
    function Low(): int {
      i - w + e
    }
  }

  /** The exact value in units of 2^a. */
  function ValueAt(f: AcFloat, a: int): int
    requires a <= f.Low()
  {
    f.m * Pow2(f.Low() - a)
  }

  /** Moving the anchor down scales every value alike. */
  lemma MoveAnchor(f: AcFloat, a: int, b: int)
    requires b <= a <= f.Low()
    ensures ValueAt(f, b) == ValueAt(f, a) * Pow2(a - b)
  {
    Pow2Add(f.Low() - a, a - b);
    assert f.Low() - a + (a - b) == f.Low() - b;
    hide Pow2;
    MulAssoc(f.m, Pow2(f.Low() - a), Pow2(a - b));
  }

  /** f is greater than g, by exact value. */
  predicate Greater(f: AcFloat, g: AcFloat) {
    var a := if f.Low() < g.Low() then f.Low() else g.Low();
    ValueAt(f, a) > ValueAt(g, a)
  }

  predicate Equal(f: AcFloat, g: AcFloat) {
    var a := if f.Low() < g.Low() then f.Low() else g.Low();
    ValueAt(f, a) == ValueAt(g, a)
  }

  /** The order does not depend on the anchor. */
  lemma AnyAnchor(f: AcFloat, g: AcFloat, a: int)
    requires a <= f.Low() && a <= g.Low()
    ensures Greater(f, g) <==> ValueAt(f, a) > ValueAt(g, a)
    ensures Equal(f, g) <==> ValueAt(f, a) == ValueAt(g, a)
  {
    var c := if f.Low() < g.Low() then f.Low() else g.Low();
    MoveAnchor(f, c, a);
    MoveAnchor(g, c, a);
    hide Pow2, ValueAt;
    SameOrder(ValueAt(f, c), ValueAt(g, c), Pow2(c - a));
  }

  lemma SameOrder(x: int, y: int, p: int)
    requires 0 < p
    ensures (x > y <==> x * p > y * p) && (x == y <==> x * p == y * p)
  {
    if x > y {
      MulStrict(y, x, p);
    } else if x < y {
      MulStrict(x, y, p);
    }
  }

  // ---- The comparison ----

  /** What the shift of the second mantissa keeps and drops, for a right shift by d. */
  lemma RightShift(n: nat, p: int, q: int, d: nat)
    requires 1 <= n && -Pow2(n - 1) <= q < Pow2(n - 1)
    ensures
      var shifted := (Pow2(n) - 1) * Pow2(d) % Pow2(n);
      var out := q % Pow2(n) % (Pow2(n) - shifted);
      && 0 <= shifted < Pow2(n) && (q / Pow2(d) < 0 <==> q < 0)
      && (p > q / Pow2(d) <==> p * Pow2(d) > q)
      && (p == q / Pow2(d) && out == 0 <==> p * Pow2(d) == q)
  {
    RightShiftMask(n, q, d);
    hide Pow2;
    FloorOrder(p, q, Pow2(d));
  }

  lemma FloorOrder(p: int, q: int, u: int)
    requires 0 < u
    ensures q / u < 0 <==> q < 0
    ensures p > q / u <==> p * u > q
    ensures p == q / u && q % u == 0 <==> p * u == q
  {
    DivBounds(q, u);
    var f := q / u;
    if f < 0 {
      MulMono(f + 1, 0, u);
    } else {
      MulMono(0, f, u);
    }
    if p > f {
      MulMono(f + 1, p, u);
    } else {
      MulMono(p, f, u);
      if p < f {
        MulStrict(p, f, u);
      }
    }
  }

  /** The dropped bits are zero exactly when the shift is exact. */
  lemma RightShiftMask(n: nat, q: int, d: nat)
    requires 1 <= n && -Pow2(n - 1) <= q < Pow2(n - 1)
    ensures
      var shifted := (Pow2(n) - 1) * Pow2(d) % Pow2(n);
      0 <= shifted < Pow2(n) && (q % Pow2(n) % (Pow2(n) - shifted) == 0 <==> q % Pow2(d) == 0)
  {
    var top := Pow2(n);
    if d < n {
      Pow2Mono(d, n);
      Pow2Add(d, n - d);
      hide Pow2;
      ShiftedOnes(top, Pow2(d));
      NestedMod(q, Pow2(d), Pow2(n - d));
    } else {
      Pow2Add(n, d - n);
      Pow2Mono(n, d);
      hide Pow2;
      ShiftedOut(top, Pow2(d - n));
      SmallMod(n, q, Pow2(d));
    }
  }

  lemma SmallMod(n: nat, q: int, big: int)
    requires 1 <= n && -Pow2(n - 1) <= q < Pow2(n - 1) && Pow2(n) <= big
    ensures q % Pow2(n) % Pow2(n) == 0 <==> q % big == 0
  {
    var top := Pow2(n);
    if q < 0 {
      DivIntro(q, top, -1, q + top);
      DivIntro(q, big, -1, q + big);
      ModSmall(q + top, top);
    } else {
      ModSmall(q, top);
      ModSmall(q, big);
    }
  }

  /** A left shift overflows exactly when a dropped bit or the new top bit differs from the sign. */
  lemma LeftShift(n: nat, p: int, q: int, s: nat)
    requires 1 <= n && -Pow2(n - 1) <= q < Pow2(n - 1) && -Pow2(n - 1) <= p < Pow2(n - 1)
    ensures
      var y := if q < 0 then -q - 1 else q;
      var low := (Pow2(n) - 1) / Pow2(s) + 1;
      var out := y % Pow2(n) - y % Pow2(n) % low;
      var w := Wrap(q * Pow2(s), n);
      && 0 < low
      && (out != 0 || ((q < 0) != (w < 0)) <==> !(-Pow2(n - 1) <= q * Pow2(s) < Pow2(n - 1)))
      && (-Pow2(n - 1) <= q * Pow2(s) < Pow2(n - 1) ==> w == q * Pow2(s))
  {
    var h, y := Pow2(n - 1), if q < 0 then -q - 1 else q;
    LowOnes(n, s);
    DoublePow2(n - 1);
    hide Pow2, Wrap;
    var low := (Pow2(n) - 1) / Pow2(s) + 1;
    ModSmall(y, Pow2(n));
    TopBits(y, low);
    if s <= n {
      if y < low {
        WithinTwice(n, q, h, Pow2(s), low);
      } else {
        BeyondTwice(q, h, Pow2(s), low);
      }
    } else if y == 0 {
      AllShiftedOut(n, q, s);
    } else {
      BeyondTwice(q, h, Pow2(s), low);
    }
  }

  lemma LowOnes(n: nat, s: nat)
    ensures
      var low := (Pow2(n) - 1) / Pow2(s) + 1;
      if s <= n then 0 < low && low * Pow2(s) == Pow2(n) else low == 1 && 2 * Pow2(n) <= Pow2(s)
  {
    if s <= n {
      Pow2Add(n - s, s);
      hide Pow2;
      MoveDown(Pow2(n - s), Pow2(s));
      DivIntro(Pow2(n) - 1, Pow2(s), Pow2(n - s) - 1, Pow2(s) - 1);
    } else {
      Pow2Mono(n, s);
      ModSmall(Pow2(n) - 1, Pow2(s));
    }
  }

  lemma MoveDown(a: int, p: int)
    ensures (a - 1) * p == a * p - p
  {
  }

  lemma TopBits(y: int, low: int)
    requires 0 <= y && 0 < low
    ensures y - y % low == 0 <==> y < low
  {
    if y < low {
      ModSmall(y, low);
    }
  }

  lemma WithinTwice(n: nat, q: int, h: int, p: int, low: int)
    requires 1 <= n && h == Pow2(n - 1) && 2 * h == Pow2(n) && 0 < p && low * p == 2 * h && -low <= q < low
    ensures
      var w := Wrap(q * p, n);
      && ((q < 0) != (w < 0) <==> !(-h <= q * p < h))
      && (-h <= q * p < h ==> w == q * p)
  {
    MulMono(-low, q, p);
    MulStrict(q, low, p);
    assert -low * p == -(low * p);
    if q < 0 {
      MulMono(q, -1, p);
    } else {
      MulMono(0, q, p);
    }
    hide Pow2;
    if 0 <= q * p {
      ModSmall(q * p, 2 * h);
    } else {
      ModMultiple(q * p, 1, 2 * h);
      ModSmall(q * p + 2 * h, 2 * h);
    }
  }

  lemma BeyondTwice(q: int, h: int, p: int, low: int)
    requires 0 < h && 0 < p && 0 < low && 2 * h <= low * p && (low <= q || q < -low)
    ensures !(-h <= q * p < h)
  {
    if low <= q {
      MulMono(low, q, p);
    } else {
      MulMono(q, -low, p);
      assert -low * p == -(low * p);
    }
  }

  lemma AllShiftedOut(n: nat, q: int, s: nat)
    requires 1 <= n < s && (q == 0 || q == -1)
    ensures
      var w := Wrap(q * Pow2(s), n);
      && ((q < 0) != (w < 0) <==> !(-Pow2(n - 1) <= q * Pow2(s) < Pow2(n - 1)))
      && (-Pow2(n - 1) <= q * Pow2(s) < Pow2(n - 1) ==> w == q * Pow2(s))
  {
    Pow2Mono(n, s);
    Pow2Mono(n - 1, n);
    Pow2Add(s - n, n);
    MulAssoc(q, Pow2(s - n), Pow2(n));
    WrapMultiple(0, q * Pow2(s - n), n);
    WrapFits(0, n);
    hide Pow2;
    assert 0 * Pow2(s) == 0 && -1 * Pow2(s) == -Pow2(s);
  }

  lemma LeftDecides(n: nat, p: int, q: int, s: nat)
    requires 1 <= n && -Pow2(n - 1) <= q < Pow2(n - 1) && -Pow2(n - 1) <= p < Pow2(n - 1)
    ensures
      var y := (if q < 0 then -q - 1 else q) % Pow2(n);
      var out := y - y % ((Pow2(n) - 1) / Pow2(s) + 1);
      var w := Wrap(q * Pow2(s), n);
      var overflow := out != 0 || (q < 0) != (w < 0);
      && 0 < (Pow2(n) - 1) / Pow2(s) + 1
      && ((overflow && q < 0) || (!overflow && p > w) <==> p > q * Pow2(s))
      && (p == w && !overflow && out == 0 <==> p == q * Pow2(s))
  {
    LeftShift(n, p, q, s);
    SignOfProduct(q, Pow2(s));
    hide Pow2, Wrap;
  }

  lemma SignOfProduct(q: int, p: int)
    requires 0 < p
    ensures q * p < 0 <==> q < 0
  {
    if q < 0 {
      MulMono(q, -1, p);
    } else {
      MulMono(0, q, p);
    }
  }

  method Compare(op1: AcFloat, op2: AcFloat) returns (eq: bool, gt: bool)
    requires op1.Ok() && op2.Ok()
    ensures gt <==> Greater(op1, op2)
    ensures eq <==> Equal(op1, op2)
  {
    hide Pow2, Wrap, Greater, Equal;
    var n := if op1.w < op2.w then op2.w else op1.w;
    var op1M := op1.m * Pow2(n - op1.w);
    var op2M := op2.m * Pow2(n - op2.w);
    PaddedRange(op1, n);
    PaddedRange(op2, n);
    ghost var p, q := op1M, op2M;
    PaddedOrder(op1, op2, n);
    var eDif := op1.e - op2.e + op1.i - op2.i;
    var op2Neg := op2M < 0;
    var outBits := (if op2Neg && eDif < 0 then -op2M - 1 else op2M) % Pow2(n);
    if eDif < 0 {
      LeftDecides(n, p, q, -eDif);
      var ones := (Pow2(n) - 1) / Pow2(-eDif);
      outBits := outBits - outBits % (ones + 1);
      op2M := Wrap(op2M * Pow2(-eDif), n);
    } else {
      RightShift(n, p, q, eDif);
      var ones := (Pow2(n) - 1) * Pow2(eDif) % Pow2(n);
      outBits := outBits % (Pow2(n) - ones);
      op2M := op2M / Pow2(eDif);
    }
    var overflow := (eDif < 0 && outBits != 0) || op2Neg != (op2M < 0);
    gt := (overflow && op2Neg) || (!overflow && op1M > op2M);
    eq := op1M == op2M && !overflow && outBits == 0;
  }

  /** The padded mantissas, one of them shifted by the exponent difference, carry the order. */
  lemma PaddedOrder(f: AcFloat, g: AcFloat, n: nat)
    requires f.Ok() && g.Ok() && f.w <= n && g.w <= n
    ensures
      var p, q, d := f.m * Pow2(n - f.w), g.m * Pow2(n - g.w), f.e - g.e + f.i - g.i;
      && (0 <= d ==> (Greater(f, g) <==> p * Pow2(d) > q) && (Equal(f, g) <==> p * Pow2(d) == q))
      && (d < 0 ==> (Greater(f, g) <==> p > q * Pow2(-d)) && (Equal(f, g) <==> p == q * Pow2(-d)))
  {
    var d, b, c := f.e - g.e + f.i - g.i, f.i + f.e - n, g.i + g.e - n;
    var a := if b < c then b else c;
    AnyAnchor(f, g, a);
    Padded(f, n, a);
    Padded(g, n, a);
    Pow2Values();
    hide Pow2, Greater, Equal, ValueAt;
    assert b - a == (if 0 <= d then d else 0) && c - a == (if 0 <= d then 0 else -d);
  }

  lemma Padded(f: AcFloat, n: nat, a: int)
    requires f.w <= n && a <= f.i + f.e - n
    ensures ValueAt(f, a) == f.m * Pow2(n - f.w) * Pow2(f.i + f.e - n - a)
  {
    Pow2Add(n - f.w, f.i + f.e - n - a);
    assert n - f.w + (f.i + f.e - n - a) == f.Low() - a;
    hide Pow2;
    MulAssoc(f.m, Pow2(n - f.w), Pow2(f.i + f.e - n - a));
  }

  lemma PaddedRange(f: AcFloat, n: nat)
    requires f.Ok() && f.w <= n
    ensures -Pow2(n - 1) <= f.m * Pow2(n - f.w) < Pow2(n - 1)
  {
    Pow2Add(f.w - 1, n - f.w);
    hide Pow2;
    MulMono(-Pow2(f.w - 1), f.m, Pow2(n - f.w));
    MulStrict(f.m, Pow2(f.w - 1), Pow2(n - f.w));
  }

  // ---- The relational operators ----

  predicate Less(f: AcFloat, g: AcFloat) {
    !Greater(f, g) && !Equal(f, g)
  }

  lemma OrderByValue(f: AcFloat, g: AcFloat, a: int)
    requires a <= f.i - f.w + f.e && a <= g.i - g.w + g.e
    ensures
      var x, y := f.m * Pow2(f.i - f.w + f.e - a), g.m * Pow2(g.i - g.w + g.e - a);
      && (Less(f, g) <==> x < y) && (Equal(f, g) <==> x == y) && (Greater(f, g) <==> x > y)
  {
    AnyAnchor(f, g, a);
    AnyAnchor(g, f, a);
    hide Greater, Equal, ValueAt;
  }

  /** `<=` is a total preorder, `==` is its equivalence, whatever the formats of the operands. */
  lemma TotalPreorder(f: AcFloat, g: AcFloat, h: AcFloat)
    ensures !Greater(f, f) && Equal(f, f)
    ensures !Greater(f, g) || !Greater(g, f)
    ensures !Greater(f, g) && !Greater(g, f) <==> Equal(f, g)
    ensures !Greater(f, g) && !Greater(g, h) ==> !Greater(f, h)
    ensures Equal(f, g) && Equal(g, h) ==> Equal(f, h)
  {
    var a := if f.Low() < g.Low() then f.Low() else g.Low();
    var c := if a < h.Low() then a else h.Low();
    AnyAnchor(f, f, c);
    AnyAnchor(f, g, c);
    AnyAnchor(g, f, c);
    AnyAnchor(g, h, c);
    AnyAnchor(f, h, c);
    hide Greater, Equal, ValueAt;
  }
}

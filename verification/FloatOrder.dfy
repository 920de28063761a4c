/** The relational operators of `ac_std_float` on encodings. */
module FloatOrder {
  import opened Powers
  import opened FloatFormat

  predicate IsZero(x: Float) {
    x.e == 0 && x.m == 0
  }

  /** Exponent and mantissa field compared as one unsigned number. */
  predicate MagnitudeLt(fmt: Format, x: Float, y: Float) {
    Code(fmt, x) < Code(fmt, y)
  }

  function Xor(a: bool, b: bool): bool {
    a != b
  }

  predicate OpEq(fmt: Format, x: Float, y: Float) {
    (x == y && !IsNan(fmt, x)) || (IsZero(x) && IsZero(y))
  }

  predicate OpLt(fmt: Format, x: Float, y: Float) {
    && !OpEq(fmt, x, y)
    && ((x.sign && !y.sign) || (!Xor(x.sign, y.sign) && Xor(x.sign, MagnitudeLt(fmt, x, y))))
    && !IsNan(fmt, x) && !IsNan(fmt, y)
  }

  predicate OpGe(fmt: Format, x: Float, y: Float) {
    && (OpEq(fmt, x, y) || (!x.sign && y.sign) || (!Xor(x.sign, y.sign) && Xor(!x.sign, MagnitudeLt(fmt, x, y))))
    && !IsNan(fmt, x) && !IsNan(fmt, y)
  }

  predicate OpGt(fmt: Format, x: Float, y: Float) {
    && !OpEq(fmt, x, y)
    && ((!x.sign && y.sign) || (!Xor(x.sign, y.sign) && Xor(!x.sign, MagnitudeLt(fmt, x, y))))
    && !IsNan(fmt, x) && !IsNan(fmt, y)
  }

  predicate OpLe(fmt: Format, x: Float, y: Float) {
    && (OpEq(fmt, x, y) || (x.sign && !y.sign) || (Xor(!x.sign, y.sign) && Xor(x.sign, MagnitudeLt(fmt, x, y))))
    && !IsNan(fmt, x) && !IsNan(fmt, y)
  }

  /** The value of an encoding that is a number; infinities stand beyond all finite values. */
  function Extended(fmt: Format, x: Float): int
    requires Encodes(fmt, x)
  {
    if x.sign then -Magnitude(fmt.mb, x.e, x.m) else Magnitude(fmt.mb, x.e, x.m)
  }

  /** It is the value of a finite number, and an infinity is beyond every one of them. */
  lemma ExtendedIsValue(fmt: Format, x: Float, y: Float)
    requires Finite(fmt, x) && Encodes(fmt, y)
    ensures Extended(fmt, x) == Value(fmt, x)
    ensures y == Float(false, Pow2(fmt.eb) - 1, 0) ==> Value(fmt, x) < Extended(fmt, y)
    ensures y == Float(true, Pow2(fmt.eb) - 1, 0) ==> Extended(fmt, y) < Value(fmt, x)
  {
    hide Pow2, Magnitude, Code;
    MagnitudeOrder(fmt, x, y);
    MagnitudeOrder(fmt, y, x);
    ValueSigned(fmt, x);
    if x.e < y.e {
      CodeBelow(fmt, x, y);
    }
  }

  lemma ValueSigned(fmt: Format, x: Float)
    requires Finite(fmt, x)
    ensures Value(fmt, x) == if x.sign then -Magnitude(fmt.mb, x.e, x.m) else Magnitude(fmt.mb, x.e, x.m)
  {
  }

  lemma CodeBelow(fmt: Format, x: Float, y: Float)
    requires Encodes(fmt, x) && Encodes(fmt, y) && x.e < y.e
    ensures Code(fmt, x) < Code(fmt, y)
  {
    MoveUnit(x.e, Pow2(fmt.mb));
    MulMono(x.e + 1, y.e, Pow2(fmt.mb));
  }

  /** Magnitudes are ordered as codes are, and only zero has magnitude zero. */
  lemma MagnitudeOrder(fmt: Format, x: Float, y: Float)
    requires Encodes(fmt, x) && Encodes(fmt, y)
    ensures Code(fmt, x) < Code(fmt, y) <==> Magnitude(fmt.mb, x.e, x.m) < Magnitude(fmt.mb, y.e, y.m)
    ensures Code(fmt, x) == Code(fmt, y) <==> x.e == y.e && x.m == y.m
    ensures 0 <= Magnitude(fmt.mb, x.e, x.m) && (Magnitude(fmt.mb, x.e, x.m) == 0 <==> IsZero(x))
  {
    CodeMagnitude(fmt.mb, x.e, x.m);
    CodeMagnitude(fmt.mb, y.e, y.m);
    var c, d := Code(fmt, x), Code(fmt, y);
    PositiveMagnitude(fmt.mb, x);
    hide Pow2, Magnitude, MagnitudeOfCode;
    if c < d {
      MagnitudeMonotone(fmt.mb, c, d);
    } else if d < c {
      MagnitudeMonotone(fmt.mb, d, c);
    }
    DivIntro(c, Pow2(fmt.mb), x.e, x.m);
    DivIntro(d, Pow2(fmt.mb), y.e, y.m);
  }

  lemma PositiveMagnitude(mb: nat, x: Float)
    requires 0 <= x.e && 0 <= x.m
    ensures 0 <= Magnitude(mb, x.e, x.m) && (Magnitude(mb, x.e, x.m) == 0 <==> IsZero(x))
  {
    if 0 < x.e {
      MulMono(1, Pow2(mb) + x.m, Pow2(x.e - 1));
    }
  }

  /** Every relational operator is the comparison of values, and false for NaN except `!=`. */
  lemma OperatorsCompareValues(fmt: Format, x: Float, y: Float)
    requires fmt.Ok() && Encodes(fmt, x) && Encodes(fmt, y)
    ensures
      var number := !IsNan(fmt, x) && !IsNan(fmt, y);
      var v, w := Extended(fmt, x), Extended(fmt, y);
      && (OpEq(fmt, x, y) <==> number && v == w)
      && (OpLt(fmt, x, y) <==> number && v < w)
      && (OpGe(fmt, x, y) <==> number && v >= w)
      && (OpGt(fmt, x, y) <==> number && v > w)
      && (OpLe(fmt, x, y) <==> number && v <= w)
  {
    MagnitudeOrder(fmt, x, y);
    MagnitudeOrder(fmt, y, x);
    Pow2Mono(2, fmt.eb);
    Pow2Values();
    hide Pow2, Magnitude, Code;
    assert 0 < fmt.MaxExp();
  }
}

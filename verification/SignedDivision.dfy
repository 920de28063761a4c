/** Signed division and remainder (`iv_div`, `iv_rem`) through all their size dispatches, for the
    word counts and sign codes that the `ac_int` operators pass. */
module SignedDivision {
  import opened Powers
  import opened Words
  import opened AcTypes
  import opened Bits
  import opened LongDivision

  // ---- Negation and absolute value ----

  /** After k words, r holds the negated low words up to a borrow. */
  ghost predicate Negated(rs: seq<word>, op: seq<word>, k: nat, l: int)
  {
    k <= |rs| && k <= |op| && UVal(rs[..k]) + l * Weight(k) == -UVal(op[..k]) && -1 <= l <= 0
  }

  lemma NegatedStep(rs: seq<word>, op: seq<word>, k: nat, l: int, rs': seq<word>, l': int)
    requires Negated(rs, op, k, l) && k < |rs| && k < |op|
    requires rs' == rs[k := Low(l - op[k])] && l' == (l - op[k]) / WORD
    ensures Negated(rs', op, k + 1, l')
  {
    hide UVal, Weight;
    assert rs'[..k + 1] == rs[..k] + [rs'[k]];
    assert op[..k + 1] == op[..k] + [op[k]];
    UValSnoc(rs[..k], rs'[k]);
    UValSnoc(op[..k], op[k]);
    WeightNext(k);
    NegateWord(l, op[k], rs'[k], l', Weight(k));
  }

  lemma NegateWord(l: int, x: word, w: word, l': int, p: int)
    requires -1 <= l <= 0 && w == Low(l - x) && l' == (l - x) / WORD
    ensures w * p + l' * (WORD * p) == l * p - x * p
    ensures -1 <= l' <= 0
  {
    assert l - x == WORD * l' + w;
    assert (l - x) * p == l * p - x * p;
    assert (w + WORD * l') * p == w * p + l' * (WORD * p);
  }

  /** `iv_neg`: the negated number, wrapped to the words of r. */
  method Neg(op: array<word>, r: array<word>)
    requires r != op && 0 < op.Length && 0 < r.Length
    modifies r
    ensures SVal(r[..]) == Wrap(-SVal(op[..]), 32 * r.Length)
    ensures r.Length > op.Length ==> SVal(r[..]) == -SVal(op[..])
  {
    hide UVal, SVal, Weight, Wrap, Negated;
    var n := op.Length;
    var m := if n < r.Length then n else r.Length;
    var l := 0;
    ghost var s;
    NegatedStart(r[..], op[..]);
    for k := 0 to m
      invariant Negated(r[..], op[..], k, l)
    {
      s := r[..];
      ghost var l0 := l;
      l := l - op[k];
      r[k] := Low(l);
      l := l / WORD;
      NegatedStep(s, op[..], k, l0, r[..], l);
    }
    s := r[..];
    if r.Length > n {
      r[n] := Low(l - (if op[n - 1] >= SIGN then -1 else 0));
      Extend(r, n + 1, Extension(r[n] >= SIGN));
      NegatedWide(s, op[..], l, r[..]);
    } else {
      NegatedNarrow(s, op[..], l);
    }
  }

  lemma NegatedStart(rs: seq<word>, op: seq<word>)
    ensures Negated(rs, op, 0, 0)
  {
  }

  lemma NegatedWide(s: seq<word>, op: seq<word>, l: int, rs: seq<word>)
    requires 0 < |op| < |rs| == |s| && Negated(s, op, |op|, l)
    requires
      var n := |op|;
      && rs[..n] == s[..n] && rs[n] == Low(l + (if op[n - 1] >= SIGN then 1 else 0))
      && forall j :: n < j < |rs| ==> rs[j] == Extension(rs[n] >= SIGN)
    ensures SVal(rs) == -SVal(op) && SVal(rs) == Wrap(-SVal(op), 32 * |rs|)
  {
    var n := |op|;
    assert op[..n] == op;
    var head := rs[..n + 1];
    assert head[..n] == s[..n];
    hide UVal, Weight, Wrap;
    SValTop(head);
    SignExtend(head, rs);
    assert (l + 1) * Weight(n) == l * Weight(n) + Weight(n);
    SValRange(rs);
    WrapFits(SVal(rs), 32 * |rs|);
  }

  lemma NegatedNarrow(rs: seq<word>, op: seq<word>, l: int)
    requires 0 < |rs| <= |op| && Negated(rs, op, |rs|, l)
    ensures SVal(rs) == Wrap(-SVal(op), 32 * |rs|)
  {
    hide UVal, Wrap, Weight;
    var n := |rs|;
    assert rs[..n] == rs;
    var c := TruncateWords(op, n);
    assert (l - c) * Weight(n) == l * Weight(n) - c * Weight(n);
    CongruentWords(rs, -SVal(op), c - l);
  }

  /** `iv_abs`: the magnitude, cut to the words of r; as an unsigned number it fits the operand's own. */
  method Abs(op: array<word>, signed: bool, r: array<word>)
    requires r != op && 0 < op.Length && 0 < r.Length
    requires signed || SVal(op[..]) >= 0
    modifies r
    ensures UVal(r[..]) == AbsVal(SVal(op[..])) % Weight(r.Length)
    ensures op.Length <= r.Length ==> UVal(r[..]) == AbsVal(SVal(op[..]))
  {
    hide UVal, Weight, SVal, Wrap;
    SValRange(op[..]);
    if signed && op[op.Length - 1] >= SIGN {
      Neg(op, r);
      NegativeMagnitude(op[..], r[..]);
    } else {
      var m := if op.Length < r.Length then op.Length else r.Length;
      for i := 0 to m
        invariant forall j :: 0 <= j < i ==> r[j] == op[j]
      {
        r[i] := op[i];
      }
      Extend(r, op.Length, 0);
      assert r[..][..m] == op[..][..m];
      NonNegative(op[..]);
      ZeroExtended(op[..], r[..], m);
    }
  }

  /** Words copied as far as they go, zeros above them. */
  lemma ZeroExtended(op: seq<word>, rs: seq<word>, m: nat)
    requires m == (if |op| < |rs| then |op| else |rs|) && rs[..m] == op[..m]
    requires forall i :: m <= i < |rs| ==> rs[i] == 0
    ensures UVal(rs) == UVal(op) % Weight(|rs|) && (|op| <= |rs| ==> UVal(rs) == UVal(op))
  {
    hide UVal, Weight;
    if |op| <= |rs| {
      UValSplit(rs, m);
      assert op[..m] == op;
      UValZeros(rs[m..]);
      assert 0 * Weight(m) == 0;
      UValBound(rs);
      ModSmall(UVal(rs), Weight(|rs|));
    } else {
      UValSplit(op, m);
      assert rs[..m] == rs;
    }
  }

  lemma NonNegative(s: seq<word>)
    requires 0 < |s| && SVal(s) >= 0
    ensures UVal(s) == SVal(s)
  {
    SValRange(s);
  }

  lemma NegativeMagnitude(op: seq<word>, rs: seq<word>)
    requires 0 < |op| && 0 < |rs| && SVal(op) < 0 && SVal(rs) == Wrap(-SVal(op), 32 * |rs|)
    ensures UVal(rs) == -SVal(op) % Weight(|rs|) && (|op| <= |rs| ==> UVal(rs) == -SVal(op))
  {
    hide SVal, Wrap;
    SValRange(op);
    SValRange(rs);
    var k := WrapCongruent(-SVal(op), 32 * |rs|);
    if |op| <= |rs| {
      Pow2Mono(32 * |op| - 1, 32 * |rs| - 1);
      ModSmall(-SVal(op), Pow2(32 * |rs|));
    }
  }

  // ---- Truncating division ----

  /** C++ division: the quotient of the magnitudes with the sign of the exact quotient. */
  function TruncDiv(a: int, b: int): int
    requires b != 0
  {
    var q := AbsVal(a) / AbsVal(b);
    if (a < 0) != (b < 0) then -q else q
  }

  /** C++ remainder: the remainder of the magnitudes with the sign of the dividend. */
  function TruncRem(a: int, b: int): int
    requires b != 0
  {
    var r := AbsVal(a) % AbsVal(b);
    if a < 0 then -r else r
  }

  /** Quotient and remainder recompose the dividend; the remainder is smaller than the divisor
      and never has the sign opposite to the dividend. */
  lemma TruncatedDivision(a: int, b: int)
    requires b != 0
    ensures a == TruncDiv(a, b) * b + TruncRem(a, b)
    ensures AbsVal(TruncRem(a, b)) < AbsVal(b)
    ensures TruncRem(a, b) != 0 ==> (TruncRem(a, b) < 0 <==> a < 0)
    ensures AbsVal(TruncDiv(a, b)) <= AbsVal(a) && AbsVal(TruncRem(a, b)) <= AbsVal(a)
  {
    var x, y := AbsVal(a), AbsVal(b);
    DivBounds(x, y);
    QuotientNonNegative(x, y);
    MulMono(1, y, x / y);
    assert (x / y) * (-y) == -((x / y) * y) && (-(x / y)) * y == -((x / y) * y) && (-(x / y)) * (-y) == (x / y) * y;
    assert y * (x / y) == (x / y) * y;
  }

  // ---- Sign codes and result types ----

  /** What the operators pass for an operand: unsigned, signed, or signed with no room to negate. */
  function SignCode(w: nat, s: bool): (c: nat)
    requires 0 < w
    ensures c <= 2 && (c > 0 <==> s)
  {
    if !s then 0 else if WordsFor(w + 1, true) > WordsFor(w, true) then 2 else 1
  }

  function Room(w: nat, s: bool): nat
    requires 0 < w
  {
    WordsFor(w, s) + (if SignCode(w, s) == 2 then 1 else 0)
  }

  lemma MagnitudeHasRoom(x: int, w: nat, s: bool)
    requires 0 < w && InType(x, w, s)
    ensures AbsVal(x) < Pow2(32 * Room(w, s) - 1)
  {
    if s {
      Pow2Mono(w - 1, 32 * Room(w, s) - 2);
    } else {
      Pow2Mono(w, 32 * Room(w, s) - 1);
    }
  }

  function DivWidth(w1: nat, s2: bool): nat {
    w1 + (if s2 then 1 else 0)
  }

  function ModWidth(w1: nat, s1: bool, w2: nat, s2: bool): nat {
    var w := w2 + (if !s2 && s1 then 1 else 0);
    if w1 < w then w1 else w
  }

  /** The quotient fits the type of operator /, and the remainder the type of operator %. */
  lemma ResultTypes(a: int, w1: nat, s1: bool, b: int, w2: nat, s2: bool)
    requires 0 < w1 && 0 < w2 && b != 0 && InType(a, w1, s1) && InType(b, w2, s2)
    ensures InType(TruncDiv(a, b), DivWidth(w1, s2), s1 || s2)
    ensures InType(TruncRem(a, b), ModWidth(w1, s1, w2, s2), s1)
    ensures DivWidth(w1, s2) == (if s2 then w1 + 1 else w1) && ModWidth(w1, s1, w2, s2) <= w1
    ensures ModWidth(w1, s1, w2, s2) <= (if !s2 && s1 then w2 + 1 else w2)
  {
    hide TruncDiv, TruncRem;
    TruncatedDivision(a, b);
    QuotientSign(a, b);
    var m := ModWidth(w1, s1, w2, s2);
    if !s2 {
      Pow2Mono(if s1 then w1 - 1 else w1, w1);
    }
    if s1 && a == -Pow2(w1 - 1) && !s2 {
      assert AbsVal(TruncDiv(a, b)) <= Pow2(w1 - 1);
    }
  }

  lemma QuotientSign(a: int, b: int)
    requires b != 0
    ensures (a < 0) == (b < 0) ==> 0 <= TruncDiv(a, b)
    ensures (a < 0) != (b < 0) ==> TruncDiv(a, b) <= 0
    ensures 0 <= a ==> 0 <= TruncRem(a, b)
    ensures a < 0 ==> TruncRem(a, b) <= 0
  {
    QuotientNonNegative(AbsVal(a), AbsVal(b));
  }

  /** A result of 64 bits in a type that fits its words is stored exactly. */
  lemma Exact(rs: seq<word>, x: int, w: nat, s: bool)
    requires 0 < w && InType(x, w, s) && |rs| == WordsFor(w, s) && SVal(rs) == Wrap(x, 32 * |rs|)
    ensures SVal(rs) == x
  {
    hide SVal, Wrap, InType;
    TypeFitsWords(x, w, s);
  }

  /** Copies src into r, dropping words or extending it as a number that is not negative. */
  method CopyNonNegative(src: array<word>, r: array<word>, signed: bool)
    requires r != src && 0 < src.Length && 0 < r.Length && SVal(src[..]) >= 0
    modifies r
    ensures SVal(r[..]) == Wrap(SVal(src[..]), 32 * r.Length)
  {
    hide UVal, SVal, Weight, Wrap;
    var n := src.Length;
    var m := if n < r.Length then n else r.Length;
    for i := 0 to m
      invariant forall j :: 0 <= j < i ==> r[j] == src[j]
    {
      r[i] := src[i];
    }
    SValRange(src[..]);
    if n < r.Length {
      Extend(r, n, Extension(signed && r[n - 1] >= SIGN));
      assert r[..n] == src[..];
      SignExtend(src[..], r[..]);
      SValRange(r[..]);
      WrapFits(SVal(r[..]), 32 * r.Length);
    } else {
      assert r[..] == src[..r.Length];
      var c := TruncateWords(src[..], r.Length);
      MulNeg(c, Weight(r.Length));
      CongruentWords(r[..], SVal(src[..]), -c);
    }
  }

  /** A one- or two-word number as the native integer the short paths divide with. */
  function Native(op: seq<word>): (x: int)
    requires 0 < |op|
    ensures |op| <= 2 ==> x == SVal(op)
  {
    if |op| == 1 then
      OneWord(op, op[0]);
      Signed(op[0])
    else
      NativeTwo(op);
      ToSlong(op[1] * WORD + op[0])
  }

  lemma NativeTwo(op: seq<word>)
    requires 1 < |op|
    ensures |op| == 2 ==> ToSlong(op[1] * WORD + op[0]) == SVal(op)
  {
    if |op| == 2 {
      hide SVal;
      assert Low(op[1] * WORD + op[0]) == op[0];
      assert Low((op[1] * WORD + op[0]) / WORD) == op[1];
      var l := ToSlong(op[1] * WORD + op[0]);
      assert Low(l) == op[0] && Low(l / WORD) == op[1];
      TwoWords(op, l);
    }
  }

  lemma FitsNative(x: int, w: nat, s: bool)
    requires 0 < w && InType(x, w, s) && WordsFor(w, s) <= 2
    ensures -S64 <= x < S64
    ensures WordsFor(w, s) == 1 ==> -SIGN <= x < SIGN
  {
    TypeFitsWords(x, w, s);
    Pow2Values();
    Pow2Add(31, 32);
    Pow2Mono(32 * WordsFor(w, s) - 1, 63);
  }

  ghost predicate Operand(op: seq<word>, w: nat, s: bool)
  {
    0 < w && |op| == WordsFor(w, s) && InType(SVal(op), w, s)
  }

  /** An unsigned division of magnitudes whose result stays below the sign bit. */
  lemma SmallMagnitude(rs: seq<word>, x: int, m: int)
    requires 0 < |rs| && 0 <= x <= m < Pow2(32 * |rs| - 1) && UVal(rs) == x % Weight(|rs|)
    ensures UVal(rs) == x && SVal(rs) == x
  {
    hide UVal, SVal;
    SValIsWrap(rs, x);
    WrapFits(x, 32 * |rs|);
    SValRange(rs);
    ModSmall(x, Weight(|rs|));
  }

  lemma UnsignedValue(s: seq<word>, w: nat)
    requires Operand(s, w, false)
    ensures UVal(s) == SVal(s)
  {
    NonNegative(s);
  }

  /** Quotient of magnitudes in the words of the dividend. */
  method DivideMagnitudes(op1: array<word>, s1: bool, op2: array<word>, s2: bool, n1: nat, n2: nat,
                          quotient: array<word>, remainder: array<word>)
    requires quotient != remainder && quotient != op1 && quotient != op2 && remainder != op1 && remainder != op2
    requires 0 < op1.Length <= n1 && 0 < op2.Length <= n2
    requires s1 || SVal(op1[..]) >= 0
    requires s2 || SVal(op2[..]) >= 0
    requires SVal(op2[..]) != 0
    modifies quotient, remainder
    ensures UVal(quotient[..])
         == (AbsVal(SVal(op1[..])) / AbsVal(SVal(op2[..]))) % Weight(quotient.Length)
    ensures UVal(remainder[..])
         == (AbsVal(SVal(op1[..])) % AbsVal(SVal(op2[..]))) % Weight(remainder.Length)
  {
    hide UVal, SVal, Weight;
    var numerator := new word[n1];
    var denominator := new word[n2];
    Abs(op1, s1, numerator);
    Abs(op2, s2, denominator);
    UDiv(numerator, denominator, quotient, remainder);
  }

  /** `iv_div` as operator / calls it: the truncated quotient, exactly. */
  method Div(op1: array<word>, w1: nat, s1: bool, op2: array<word>, w2: nat, s2: bool, r: array<word>)
    requires r != op1 && r != op2
    requires Operand(op1[..], w1, s1) && Operand(op2[..], w2, s2) && SVal(op2[..]) != 0
    requires r.Length == WordsFor(DivWidth(w1, s2), s1 || s2)
    modifies r
    ensures SVal(r[..]) == TruncDiv(SVal(op1[..]), SVal(op2[..]))
  {
    hide UVal, SVal, Weight, Wrap, InType, TruncDiv, TruncRem;
    var numS, denS := SignCode(w1, s1), SignCode(w2, s2);
    var n1Over := op1.Length + (if denS > 0 && numS == 2 then 1 else 0);
    ghost var x, y, a, b := op1[..], op2[..], SVal(op1[..]), SVal(op2[..]);
    ghost var q := TruncDiv(a, b);
    ResultTypes(a, w1, s1, b, w2, s2);
    TypeFitsWords(q, DivWidth(w1, s2), s1 || s2);
    ResultWords(w1, s1, w2, s2);
    var none := new word[0];
    if n1Over <= 2 && op2.Length <= 2 {
      FitsNative(q, DivWidth(w1, s2), s1 || s2);
      var native := TruncDiv(Native(op1[..]), Native(op2[..]));
      if n1Over == 1 && op2.Length == 1 {
        r[0] := Low(native);
        Extend(r, 1, Extension((numS > 0 || denS > 0) && r[0] >= SIGN));
        OneWord(r[..], native);
      } else {
        AssignInt64(r, native);
      }
    } else if numS == 0 && denS == 0 {
      UnsignedValue(x, w1);
      UnsignedValue(y, w2);
      UDiv(op1, op2, r, none);
      UnsignedQuotient(a, b);
      SValIsWrap(r[..], q);
    } else {
      var n1, n2 := Room(w1, s1), Room(w2, s2);
      var quotient := new word[n1];
      TypeSign(a, w1, s1);
      TypeSign(b, w2, s2);
      DivideMagnitudes(op1, s1, op2, s2, n1, n2, quotient, none);
      MagnitudeHasRoom(a, w1, s1);
      MagnitudeQuotient(a, b);
      SmallMagnitude(quotient[..], AbsVal(a) / AbsVal(b), AbsVal(a));
      SValRange(x);
      SValRange(y);
      if (numS > 0 && op1[op1.Length - 1] >= SIGN) != (denS > 0 && op2[op2.Length - 1] >= SIGN) {
        Neg(quotient, r);
      } else {
        CopyNonNegative(quotient, r, numS > 0 || denS > 0);
      }
    }
  }

  /** The words of the results, in terms of those of the dividend. */
  lemma ResultWords(w1: nat, s1: bool, w2: nat, s2: bool)
    requires 0 < w1 && 0 < w2
    ensures WordsFor(DivWidth(w1, s2), s1 || s2)
         == WordsFor(w1, s1) + (if s2 && SignCode(w1, s1) == 2 then 1 else 0)
    ensures WordsFor(ModWidth(w1, s1, w2, s2), s1) <= WordsFor(w1, s1)
  {
  }

  lemma TypeSign(x: int, w: nat, s: bool)
    requires 0 < w && InType(x, w, s)
    ensures s || x >= 0
  {
  }

  lemma UnsignedQuotient(a: int, b: int)
    requires 0 <= a && 0 < b
    ensures TruncDiv(a, b) == a / b && TruncRem(a, b) == a % b
  {
  }

  /** The truncated quotient and remainder from those of the magnitudes. */
  lemma MagnitudeQuotient(a: int, b: int)
    requires b != 0
    ensures TruncDiv(a, b) == (if (a < 0) != (b < 0) then -(AbsVal(a) / AbsVal(b)) else AbsVal(a) / AbsVal(b))
    ensures TruncRem(a, b) == (if a < 0 then -(AbsVal(a) % AbsVal(b)) else AbsVal(a) % AbsVal(b))
    ensures 0 <= AbsVal(a) / AbsVal(b) <= AbsVal(a)
    ensures 0 <= AbsVal(a) % AbsVal(b) < AbsVal(b)
  {
    TruncatedDivision(a, b);
    QuotientNonNegative(AbsVal(a), AbsVal(b));
  }

  /** `iv_rem` as operator % calls it: the truncated remainder, exactly. */
  method Rem(op1: array<word>, w1: nat, s1: bool, op2: array<word>, w2: nat, s2: bool, r: array<word>)
    requires r != op1 && r != op2
    requires Operand(op1[..], w1, s1) && Operand(op2[..], w2, s2) && SVal(op2[..]) != 0
    requires r.Length == WordsFor(ModWidth(w1, s1, w2, s2), s1)
    modifies r
    ensures SVal(r[..]) == TruncRem(SVal(op1[..]), SVal(op2[..]))
  {
    hide UVal, SVal, Weight, Wrap, InType, TruncDiv, TruncRem;
    var numS, denS := SignCode(w1, s1), SignCode(w2, s2);
    var n1Over := op1.Length + (if denS > 0 && numS == 2 then 1 else 0);
    ghost var x, y, a, b := op1[..], op2[..], SVal(op1[..]), SVal(op2[..]);
    ghost var m := TruncRem(a, b);
    ResultTypes(a, w1, s1, b, w2, s2);
    TypeFitsWords(m, ModWidth(w1, s1, w2, s2), s1);
    ResultWords(w1, s1, w2, s2);
    var none := new word[0];
    if n1Over <= 2 && op2.Length <= 2 {
      FitsNative(m, ModWidth(w1, s1, w2, s2), s1);
      var native := TruncRem(Native(op1[..]), Native(op2[..]));
      if n1Over == 1 && op2.Length == 1 {
        r[0] := Low(native);
        Extend(r, 1, Extension(numS > 0 && r[0] >= SIGN));
        OneWord(r[..], native);
      } else {
        AssignInt64(r, native);
      }
    } else if numS == 0 && denS == 0 {
      UnsignedValue(x, w1);
      UnsignedValue(y, w2);
      UDiv(op1, op2, none, r);
      UnsignedQuotient(a, b);
      SValIsWrap(r[..], m);
    } else {
      var n1, n2 := Room(w1, s1), Room(w2, s2);
      var remainder := new word[op2.Length];
      TypeSign(a, w1, s1);
      TypeSign(b, w2, s2);
      DivideMagnitudes(op1, s1, op2, s2, n1, n2, none, remainder);
      MagnitudeQuotient(a, b);
      SValRange(x);
      SValRange(y);
      SmallMagnitude(remainder[..], AbsVal(a) % AbsVal(b), AbsVal(b) - 1);
      if numS > 0 && op1[op1.Length - 1] >= SIGN {
        Neg(remainder, r);
      } else {
        CopyNonNegative(remainder, r, numS > 0);
      }
    }
  }
}

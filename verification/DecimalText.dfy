/** Decimal text of a fraction and of an integer (`to_str<AC_DEC>`). */
module DecimalText {
  import opened Powers
  import opened Words
  import opened Bits

  function Pow10(n: nat): (p: int)
    ensures 0 < p
  {
    if n == 0 then 1 else 10 * Pow10(n - 1)
  }

  predicate IsDigit(c: char) {
    '0' <= c <= '9'
  }

  predicate Digits(s: seq<char>) {
    forall i :: 0 <= i < |s| ==> IsDigit(s[i])
  }

  function DigitChar(d: int): (c: char)
    requires 0 <= d <= 9
    ensures IsDigit(c) && c as int == '0' as int + d
  {
    '0' + d as char
  }

  /** The number written by s, most significant digit first. */
  function Number(s: seq<char>): int
    requires Digits(s)
  {
    if |s| == 0 then 0 else 10 * Number(s[..|s| - 1]) + (s[|s| - 1] as int - '0' as int)
  }

  /** The number written by s, least significant digit first. */
  function Reversed(s: seq<char>): int
    requires Digits(s)
  {
    if |s| == 0 then 0 else Reversed(s[..|s| - 1]) + (s[|s| - 1] as int - '0' as int) * Pow10(|s| - 1)
  }

  lemma {:induction false} NumberSnoc(s: seq<char>, c: char)
    requires Digits(s) && IsDigit(c)
    ensures Number(s + [c]) == 10 * Number(s) + (c as int - '0' as int)
  {
    assert (s + [c])[..|s|] == s;
  }

  lemma {:induction false} ReversedSnoc(s: seq<char>, c: char)
    requires Digits(s) && IsDigit(c)
    ensures Reversed(s + [c]) == Reversed(s) + (c as int - '0' as int) * Pow10(|s|)
  {
    assert (s + [c])[..|s|] == s;
  }

  /** Digit k from the right is (n / 10^k) % 10. */
  lemma {:induction false} DigitAt(s: seq<char>, k: nat)
    requires Digits(s) && k < |s|
    ensures 0 <= Number(s) && s[|s| - 1 - k] as int - '0' as int == Number(s) / Pow10(k) % 10
  {
    var n := |s| - 1;
    var d, rest := s[n] as int - '0' as int, Number(s[..n]);
    NumberFloor(s[..n]);
    if k == 0 {
      DivIntro(10 * rest + d, 10, rest, d);
    } else {
      DigitAt(s[..n], k - 1);
      DivIntro(10 * rest + d, 10, rest, d);
      hide Number, Digits;
      DivDiv(10 * rest + d, 10, Pow10(k - 1));
    }
  }

  lemma {:induction false} NumberFloor(s: seq<char>)
    requires Digits(s)
    ensures 0 <= Number(s)
  {
    if |s| != 0 {
      NumberFloor(s[..|s| - 1]);
    }
  }

  lemma NumberIsDigits(s: seq<char>)
    requires Digits(s)
    ensures forall i :: 0 <= i < |s| ==> '0' <= s[i] <= '9'
    ensures forall k: nat :: k < |s| ==> s[|s| - 1 - k] as int - '0' as int == Number(s) / Pow10(k) % 10
  {
    forall k: nat | k < |s|
      ensures s[|s| - 1 - k] as int - '0' as int == Number(s) / Pow10(k) % 10
    {
      DigitAt(s, k);
    }
  }

  lemma {:induction false} Pow10Add(a: nat, b: nat)
    ensures Pow10(a + b) == Pow10(a) * Pow10(b)
  {
    if a != 0 {
      Pow10Add(a - 1, b);
      assert Pow10(a + b) == 10 * Pow10(a - 1 + b);
      MulAssoc(10, Pow10(a - 1), Pow10(b));
    }
  }

  /** Digit i after the point of u / p, whose digits are all of s, is (u * 10^(i + 1) / p) % 10. */
  lemma FractionDigitAt(s: seq<char>, u: int, p: int, i: nat)
    requires Digits(s) && i < |s| && 0 < p && Number(s) * p == u * Pow10(|s|)
    ensures s[i] as int - '0' as int == u * Pow10(i + 1) / p % 10
  {
    hide Number, Pow10, Digits;
    var k := |s| - 1 - i;
    DigitAt(s, k);
    Pow10Add(i + 1, k);
    ScaledDiv(Number(s), Pow10(k), p);
    ScaledDiv(u * Pow10(i + 1), p, Pow10(k));
    MulAssoc(u, Pow10(i + 1), Pow10(k));
    assert Pow10(k) * p == p * Pow10(k);
  }

  lemma FractionIsDigits(s: seq<char>, u: int, p: int)
    requires Digits(s) && 0 < p && Number(s) * p == u * Pow10(|s|)
    ensures forall i :: 0 <= i < |s| ==> '0' <= s[i] <= '9'
    ensures forall i :: 0 <= i < |s| ==> s[i] as int - '0' as int == u * Pow10(i + 1) / p % 10
  {
    forall i | 0 <= i < |s|
      ensures s[i] as int - '0' as int == u * Pow10(i + 1) / p % 10
    {
      FractionDigitAt(s, u, p, i);
    }
  }

  lemma Pow10Values()
    ensures Pow10(0) == 1 && Pow10(1) == 10 && Pow10(2) == 100 && Pow10(9) == BILLION
  {
    NineMore(0);
  }

  /** A first digit counts with the highest weight. */
  lemma {:induction false} NumberCons(c: char, s: seq<char>)
    requires IsDigit(c) && Digits(s)
    ensures Number([c] + s) == (c as int - '0' as int) * Pow10(|s|) + Number(s)
  {
    if |s| == 0 {
      assert [c] + s == [c] && [c][..0] == [];
    } else {
      var n := |s| - 1;
      NumberCons(c, s[..n]);
      assert ([c] + s)[..|s|] == [c] + s[..n];
      assert (c as int - '0' as int) * Pow10(|s|) == 10 * ((c as int - '0' as int) * Pow10(n));
    }
  }

  /** Turning the digits around turns one reading into the other. */
  lemma {:induction false} TurnedAround(s: seq<char>, t: seq<char>)
    requires Digits(s) && |t| == |s| && forall i :: 0 <= i < |s| ==> t[i] == s[|s| - 1 - i]
    ensures Digits(t) && Number(t) == Reversed(s)
  {
    if |s| != 0 {
      var n := |s| - 1;
      TurnedAround(s[..n], t[1..]);
      assert t == [s[n]] + t[1..];
      NumberCons(s[n], t[1..]);
    }
  }

  // ---- Fractions ----

  /** One pass of the inner loop: the words so far, times ten, with the carry above them. */
  ghost predicate TimesTen(s: seq<word>, v: seq<word>, i: nat, l: int) {
    && |v| == |s| && i <= |s| && 0 <= l < 10
    && UVal(v[..i]) + l * Weight(i) == 10 * UVal(s[..i])
    && forall j :: i <= j < |s| ==> v[j] == s[j]
  }

  lemma TimesTenStep(s: seq<word>, v: seq<word>, i: nat, l: int, v': seq<word>, l': int)
    requires TimesTen(s, v, i, l) && i < |s|
    requires v' == v[i := Low(l + (s[i] as int) * 10)] && l' == (l + (s[i] as int) * 10) / WORD
    ensures TimesTen(s, v', i + 1, l')
  {
    hide UVal, Weight;
    var x := l + (s[i] as int) * 10;
    DivBounds(x, WORD);
    WeightNext(i);
    assert v'[..i] == v[..i] && v'[..i + 1] == v[..i] + [v'[i]] && s[..i + 1] == s[..i] + [s[i]];
    UValSnoc(v[..i], v'[i]);
    UValSnoc(s[..i], s[i]);
    CarryTen(l, s[i], v'[i], l', Weight(i));
  }

  lemma CarryTen(l: int, x: int, w: int, l': int, p: int)
    requires l + x * 10 == l' * WORD + w
    ensures w * p + l' * (WORD * p) == l * p + 10 * (x * p)
  {
    assert (l + x * 10) * p == l * p + 10 * (x * p);
    assert (l' * WORD + w) * p == l' * (WORD * p) + w * p;
  }

  /** Nothing below lsw, and the word at lsw is set once it has been passed. */
  ghost predicate LowEnd(v: seq<word>, lsw: nat, i: nat) {
    && lsw <= i <= |v|
    && (forall j :: 0 <= j < lsw ==> v[j] == 0)
    && (lsw < i ==> v[lsw] != 0)
  }

  /** The words below lsw are already zero, so starting there loses nothing. */
  lemma StartAt(s: seq<word>, lsw: nat)
    requires lsw <= |s| && forall j :: 0 <= j < lsw ==> s[j] == 0
    ensures TimesTen(s, s, lsw, 0)
  {
    UValZeros(s[..lsw]);
  }

  method TenTimes(v: array<word>, lsw0: nat) returns (l: int, lsw: nat)
    requires lsw0 <= v.Length && forall j :: 0 <= j < lsw0 ==> v[j] == 0
    modifies v
    ensures 0 <= l <= 9 && UVal(v[..]) + l * Weight(v.Length) == 10 * UVal(old(v[..]))
    ensures LowEnd(v[..], lsw, v.Length)
  {
    hide UVal, Weight, TimesTen;
    ghost var s := v[..];
    l := 0;
    lsw := lsw0;
    StartAt(s, lsw0);
    for i := lsw0 to v.Length
      invariant TimesTen(s, v[..], i, l) && LowEnd(v[..], lsw, i)
    {
      TenStart(s, v[..], i, l);
      ghost var before := v[..];
      var x: int := v[i];
      TimesTenStep(s, before, i, l, before[i := Low(l + x * 10)], (l + x * 10) / WORD);
      l := l + x * 10;
      v[i] := Low(l);
      assert v[..] == before[i := Low(l)];
      l := l / WORD;
      if i == lsw && v[i] == 0 {
        lsw := lsw + 1;
      }
    }
    TenDone(s, v[..], l);
  }

  lemma TenStart(s: seq<word>, v: seq<word>, i: nat, l: int)
    requires TimesTen(s, v, i, l) && i < |s|
    ensures v[i] == s[i] && |v| == |s|
  {
  }

  lemma TenDone(s: seq<word>, v: seq<word>, l: int)
    requires TimesTen(s, v, |s|, l)
    ensures 0 <= l <= 9 && |v| == |s| && UVal(v) + l * Weight(|v|) == 10 * UVal(s)
  {
    assert v[..|v|] == v && s[..|s|] == s;
  }

  /** The digits so far and the fraction that is left: nothing is lost, and after k digits k low bits are zero. */
  ghost predicate FractionSoFar(v0: int, t: nat, v: int, r: seq<char>) {
    && 0 <= v < Pow2(t) && Digits(r)
    && Number(r) * Pow2(t) + v == v0 * Pow10(|r|)
    && v % Pow2(|r|) == 0
  }

  lemma FractionStep(v0: int, t: nat, v: int, r: seq<char>, l: int, v': int)
    requires FractionSoFar(v0, t, v, r) && 0 <= l <= 9 && 0 <= v' < Pow2(t) && v' + l * Pow2(t) == 10 * v
    requires |r| < t
    ensures FractionSoFar(v0, t, v', r + [DigitChar(l)])
  {
    NumberSnoc(r, DigitChar(l));
    var k := |r|;
    hide Number, Digits;
    DivBounds(v, Pow2(k));
    DoublePow2(k);
    TenDigits(Number(r), l, Pow2(t), v, v', v0, Pow10(k));
    Pow2Add(k + 1, t - (k + 1));
    hide Pow2, Pow10;
    LowBitsGrow(v, v', l, Pow2(k), Pow2(t - (k + 1)), v / Pow2(k), Pow2(t));
  }

  lemma TenDigits(d: int, l: int, p: int, v: int, v': int, v0: int, q: int)
    requires d * p + v == v0 * q && v' + l * p == 10 * v
    ensures (10 * d + l) * p + v' == v0 * (10 * q)
  {
    assert (10 * d + l) * p == 10 * (d * p) + l * p;
    assert v0 * (10 * q) == 10 * (v0 * q);
  }

  lemma LowBitsGrow(v: int, v': int, l: int, a: int, h: int, q: int, p: int)
    requires 0 < a && p == 2 * a * h && v == q * a && v' + l * p == 10 * v
    ensures v' % (2 * a) == 0
  {
    assert l * (2 * a * h) == (l * h) * (2 * a);
    assert 10 * (q * a) == (5 * q) * (2 * a);
    assert v' == (5 * q - l * h) * (2 * a);
    DivIntro(v', 2 * a, 5 * q - l * h, 0);
  }

  /** While something is left there are fewer digits than fraction bits. */
  lemma DigitsLeft(v0: int, t: nat, v: int, r: seq<char>)
    requires FractionSoFar(v0, t, v, r) && 0 < v
    ensures |r| < t
  {
    hide Number, Digits;
    DivBounds(v, Pow2(|r|));
    if t <= |r| {
      Pow2Mono(t, |r|);
      ModSmall(v, Pow2(|r|));
    }
  }

  /** Moves the w bits of a fraction to the top of its words. */
  method AlignFraction(v: array<word>, w: nat)
    requires 0 < w && v.Length == (w - 1) / 32 + 1
    modifies v
    ensures UVal(v[..]) * Pow2(w) == (UVal(old(v[..])) % Pow2(w)) * Pow2(32 * v.Length)
  {
    hide UVal, Pow2, Weight, Funnel;
    var bitsMsw := w % 32;
    ghost var s := v[..];
    if bitsMsw != 0 {
      for i := v.Length - 1 downto 0
        invariant forall j :: 0 <= j <= i ==> v[j] == s[j]
        invariant forall j :: i < j < v.Length ==> v[j] == Funnel(s[j], s[j - 1], bitsMsw)
      {
        var hi, lo := v[i + 1], v[i];
        v[i + 1] := Funnel(hi, lo, bitsMsw);
      }
      v[0] := Funnel(v[0], 0, bitsMsw);
      MovedToTop(s, v[..], w, 32 - bitsMsw);
    } else {
      WholeWords(s, w);
    }
  }

  lemma MovedToTop(s: seq<word>, v: seq<word>, w: nat, ls: nat)
    requires |s| == |v| && 0 < |s| && 0 < ls < 32 && w + ls == 32 * |s|
    requires forall i :: 0 <= i < |v| ==> v[i] == Funnel(s[i], if i > 0 then s[i - 1] else 0, 32 - ls)
    ensures UVal(v) * Pow2(w) == (UVal(s) % Pow2(w)) * Pow2(32 * |s|)
  {
    hide UVal, Pow2, Weight, Funnel;
    SpreadRow(s, v, ls, |v|);
    assert v[..|v|] == v && s[..|v|] == s;
    AlignedValue(s, v, w, ls);
  }

  lemma AlignedValue(s: seq<word>, v: seq<word>, w: nat, ls: nat)
    requires |s| == |v| && 0 < |s| && 0 < ls < 32 && w + ls == 32 * |s|
    requires UVal(v) + (s[|s| - 1] / Pow2(32 - ls)) * Weight(|s|) == UVal(s) * Pow2(ls)
    ensures UVal(v) * Pow2(w) == (UVal(s) % Pow2(w)) * Pow2(32 * |s|)
  {
    UValBound(v);
    WeightIsPow2(|s|);
    Pow2Add(w, ls);
    hide UVal, Pow2, Weight;
    TopOfProduct(UVal(v), UVal(s), s[|s| - 1] / Pow2(32 - ls), Pow2(w), Pow2(ls));
  }

  lemma TopOfProduct(v: int, u: int, c: int, a: int, b: int)
    requires 0 < a && 0 < b && 0 <= v < a * b && v + c * (a * b) == u * b
    ensures v * a == (u % a) * (a * b)
  {
    var q, r := u / a, u % a;
    DivBounds(u, a);
    assert u * b == q * (a * b) + r * b by {
      assert (q * a + r) * b == q * (a * b) + r * b;
    }
    MulMono(0, r, b);
    MulStrict(r, a, b);
    CongruentEqual(v, r * b, q - c, a * b) by {
      assert (q - c) * (a * b) == q * (a * b) - c * (a * b);
    }
    assert (r * b) * a == r * (a * b);
  }

  lemma WholeWords(s: seq<word>, w: nat)
    requires w == 32 * |s|
    ensures UVal(s) * Pow2(w) == (UVal(s) % Pow2(w)) * Pow2(32 * |s|)
  {
    UValBound(s);
    ModSmall(UVal(s), Weight(|s|));
  }

  lemma ZeroFraction(v0: int, t: nat, r: seq<char>)
    requires 0 <= v0 < Pow2(t) && r == []
    ensures FractionSoFar(v0, t, v0, r)
  {
    DivIntro(v0, 1, v0, 0);
  }

  /** The digits after the point, least first to go: exact, with no trailing zero. */
  method FractionDigits(v: array<word>, w: nat) returns (r: seq<char>)
    requires 0 < w && v.Length == (w - 1) / 32 + 1
    modifies v
    ensures Digits(r) && |r| <= w
    ensures Number(r) * Pow2(w) == (UVal(old(v[..])) % Pow2(w)) * Pow10(|r|)
    ensures forall i :: 0 <= i < |r| ==> '0' <= r[i] <= '9'
    ensures forall i :: 0 <= i < |r| ==>
      r[i] as int - '0' as int == UVal(old(v[..])) % Pow2(w) * Pow10(i + 1) / Pow2(w) % 10
    ensures UVal(old(v[..])) % Pow2(w) != 0 ==> 0 < |r| && r[|r| - 1] != '0'
    ensures UVal(old(v[..])) % Pow2(w) == 0 ==> r == (if v.Length == 1 then [] else ['0'])
  {
    hide UVal, Pow2, Weight, Pow10, FractionSoFar, Number;
    var msw := (w - 1) / 32;
    var n, t := v.Length, 32 * v.Length;
    AlignFraction(v, w);
    ghost var v0 := UVal(v[..]);
    r := [];
    var lsw: nat := 0;
    UValBound(v[..]);
    WeightIsPow2(n);
    ZeroFraction(v0, t, r);
    while lsw < msw || v[msw] != 0
      invariant lsw <= n && forall j :: 0 <= j < lsw ==> v[j] == 0
      invariant FractionSoFar(v0, t, UVal(v[..]), r) && |r| <= t
      invariant UVal(v[..]) == 0 && 0 < |r| ==> lsw == n
      invariant v0 == 0 ==> UVal(v[..]) == 0 && (r == [] || (r == ['0'] && 1 < n))
      invariant v0 != 0 ==> UVal(v[..]) != 0 || (0 < |r| && r[|r| - 1] != '0')
      invariant |r| == 0 ==> lsw == 0 && UVal(v[..]) == v0
      decreases t - |r|
    {
      ghost var before := UVal(v[..]);
      if before != 0 {
        DigitsLeft(v0, t, before, r);
      } else {
        UValZeroWords(v[..]);
      }
      var l: int;
      l, lsw := TenTimes(v, lsw);
      UValBound(v[..]);
      FractionStep(v0, t, before, r, l, UVal(v[..]));
      FractionFacts(v[..], lsw, before, l, n);
      r := r + [DigitChar(l)];
    }
    UValZeros(v[..]);
    FractionDone(v0, UVal(old(v[..])) % Pow2(w), w, t, r);
    if 0 < |r| && r[|r| - 1] != '0' {
      AtMostOnePerBit(r, UVal(old(v[..])) % Pow2(w), w);
    }
    FractionIsDigits(r, UVal(old(v[..])) % Pow2(w), Pow2(w));
  }

  /** Digits without a trailing zero are at most as many as the bits of the fraction. */
  lemma AtMostOnePerBit(r: seq<char>, u: int, w: nat)
    requires Digits(r) && 0 < |r| && r[|r| - 1] != '0' && Number(r) * Pow2(w) == u * Pow10(|r|)
    ensures |r| <= w
  {
    hide Pow2, Pow10, Number, Digits;
    if w < |r| {
      var c := PowTenSplit(w, |r|);
      MultipleOfTen(Number(r), u, c, Pow2(w));
      LastDigit(r, u * c);
    }
  }

  lemma MultipleOfTen(d: int, u: int, c: int, p: int)
    requires 0 < p && d * p == u * (p * (10 * c))
    ensures d == 10 * (u * c)
  {
    assert u * (p * (10 * c)) == (10 * (u * c)) * p;
    EqualFactors(d, 10 * (u * c), p);
  }

  lemma LastDigit(r: seq<char>, n: int)
    requires Digits(r) && 0 < |r| && r[|r| - 1] != '0'
    ensures Number(r) != 10 * n
  {
    assert 0 < (r[|r| - 1] as int - '0' as int) < 10;
  }

  lemma {:induction false} PowTenSplit(w: nat, n: nat) returns (c: int)
    requires w < n
    ensures Pow10(n) == Pow2(w) * (10 * c)
  {
    if w == 0 {
      c := Pow10(n - 1);
    } else {
      var b := PowTenSplit(w - 1, n - 1);
      c := 5 * b;
      assert 10 * (Pow2(w - 1) * (10 * b)) == (2 * Pow2(w - 1)) * (10 * (5 * b));
    }
  }

  /** Nothing left: the digits are the whole fraction. */
  lemma FractionDone(v0: int, u: int, w: nat, t: nat, r: seq<char>)
    requires FractionSoFar(v0, t, 0, r) && v0 * Pow2(w) == u * Pow2(t)
    ensures Digits(r) && Number(r) * Pow2(w) == u * Pow10(|r|)
    ensures u == 0 <==> v0 == 0
  {
    hide Pow2, Pow10, Number, Digits;
    CancelScale(Number(r), Pow2(w), Pow2(t), v0, u, Pow10(|r|));
  }

  lemma CancelScale(d: int, a: int, p: int, v0: int, u: int, q: int)
    requires 0 < a && 0 < p && d * p == v0 * q && v0 * a == u * p
    ensures d * a == u * q
    ensures u == 0 <==> v0 == 0
  {
    assert (d * a) * p == (d * p) * a && (u * q) * p == (u * p) * q && (v0 * q) * a == (v0 * a) * q;
    EqualFactors(d * a, u * q, p);
    EqualFactors(v0, 0, a);
    EqualFactors(u, 0, p);
  }

  lemma EqualFactors(x: int, y: int, p: int)
    requires 0 < p
    ensures x * p == y * p <==> x == y
  {
    if x < y {
      MulStrict(x, y, p);
    } else if y < x {
      MulStrict(y, x, p);
    }
  }

  /** What one digit tells about the words left. */
  lemma FractionFacts(v: seq<word>, lsw: nat, before: int, l: int, n: nat)
    requires |v| == n && LowEnd(v, lsw, n) && 0 <= l <= 9
    requires UVal(v) + l * Weight(n) == 10 * before && UVal(v) < Weight(n) && 0 <= before
    ensures UVal(v) == 0 ==> lsw == n
    ensures before == 0 ==> UVal(v) == 0 && l == 0
    ensures before != 0 && UVal(v) == 0 ==> l != 0
  {
    if lsw < n && UVal(v) == 0 {
      UValZeroWords(v);
    }
    hide UVal, Weight;
    if 0 < l {
      MulMono(1, l, Weight(n));
    }
    assert 0 * Weight(n) == 0;
  }

  // ---- Integers ----

  const BILLION: int := 1000000000

  /** Words i.. of s divided by 10^9: the quotient so far and the remainder carried down. */
  ghost predicate DividedTo(s: seq<word>, v: seq<word>, i: nat, nl: int) {
    && |v| == |s| && i <= |s| && 0 <= nl < BILLION
    && UVal(s[i..]) == BILLION * UVal(v[i..]) + nl
    && forall j :: 0 <= j < i ==> v[j] == s[j]
  }

  lemma DivideStep(s: seq<word>, v: seq<word>, i: nat, nl: int, q: int)
    requires DividedTo(s, v, i + 1, nl) && q == (nl * WORD + s[i]) / BILLION
    ensures 0 <= q < WORD
    ensures DividedTo(s, v[i := q as word], i, nl * WORD + s[i] - q * BILLION)
  {
    var x := nl * WORD + s[i];
    DivBounds(x, BILLION);
    assert 0 <= q < WORD;
    var v' := v[i := q as word];
    assert s[i..] == [s[i]] + s[i + 1..] && v'[i..] == [v'[i]] + v[i + 1..];
    hide UVal, Weight;
    UValCons(s[i], s[i + 1..]);
    UValCons(v'[i], v[i + 1..]);
  }

  /** One pass of the inner loop: the number divided by 10^9 in place. */
  method DivideByBillion(v: array<word>, msw: nat) returns (rem: int)
    requires msw < v.Length && forall j :: msw < j < v.Length ==> v[j] == 0
    modifies v
    ensures UVal(v[..]) == UVal(old(v[..])) / BILLION && rem == UVal(old(v[..])) % BILLION
    ensures forall j :: msw < j < v.Length ==> v[j] == 0
  {
    hide UVal, Weight, DividedTo;
    ghost var s := v[..];
    var nl := 0;
    DivideStart(s, msw + 1);
    for i := msw + 1 downto 0
      invariant DividedTo(s, v[..], i, nl)
      invariant forall j :: msw < j < v.Length ==> v[j] == 0
    {
      ghost var before := v[..];
      DivideUnchanged(s, before, i + 1, nl);
      ghost var carried := nl;
      nl := nl * WORD + v[i];
      var q := nl / BILLION;
      DivideStep(s, before, i, carried, q);
      nl := nl - q * BILLION;
      v[i] := q;
      assert v[..] == before[i := q as word];
    }
    DivideEnd(s, v[..], nl);
    rem := nl;
  }

  lemma DivideStart(s: seq<word>, i: nat)
    requires i <= |s| && forall j :: i <= j < |s| ==> s[j] == 0
    ensures DividedTo(s, s, i, 0)
  {
    UValZeros(s[i..]);
  }

  lemma DivideUnchanged(s: seq<word>, v: seq<word>, i: nat, nl: int)
    requires DividedTo(s, v, i, nl)
    ensures |v| == |s| && i <= |s| && 0 <= nl && forall j :: 0 <= j < i ==> v[j] == s[j]
  {
  }

  lemma DivideEnd(s: seq<word>, v: seq<word>, nl: int)
    requires DividedTo(s, v, 0, nl)
    ensures UVal(v) == UVal(s) / BILLION && nl == UVal(s) % BILLION
  {
    assert s[0..] == s && v[0..] == v;
    hide UVal;
    DivIntro(UVal(s), BILLION, UVal(v), nl);
  }

  /** Nine digits of a remainder, least significant first; of the last remainder only as many as it has. */
  method EmitDigits(r0: seq<char>, rem0: int, last: bool) returns (r: seq<char>)
    requires Digits(r0) && 0 <= rem0 < BILLION
    ensures Digits(r) && Reversed(r) == Reversed(r0) + rem0 * Pow10(|r0|)
    ensures !last ==> |r| == |r0| + 9
    ensures last && rem0 == 0 ==> r == r0
    ensures last && rem0 != 0 ==> 0 < |r| && r[|r| - 1] != '0'
  {
    hide Reversed, Pow10;
    r := r0;
    var rem := rem0;
    var i := 0;
    while (i < 9 && !last) || rem != 0
      invariant Digits(r) && 0 <= i <= 9 && |r| == |r0| + i
      invariant 0 <= rem < Bound(9 - i)
      invariant Reversed(r) + rem * Pow10(|r|) == Reversed(r0) + rem0 * Pow10(|r0|)
      invariant i == 0 ==> rem == rem0 && r == r0
      invariant last && rem0 == 0 ==> i == 0
      invariant last && 0 < i && rem == 0 ==> r[|r| - 1] != '0'
      decreases 9 - i
    {
      EmitStep(r, rem, i);
      r := r + [DigitChar(rem % 10)];
      rem := rem / 10;
      i := i + 1;
    }
    assert 0 * Pow10(|r|) == 0;
  }

  /** 10^k for the digits of one remainder. */
  function Bound(k: int): int
    requires 0 <= k <= 9
  {
    if k == 0 then 1 else if k == 1 then 10 else if k == 2 then 100 else if k == 3 then 1000
    else if k == 4 then 10000 else if k == 5 then 100000 else if k == 6 then 1000000
    else if k == 7 then 10000000 else if k == 8 then 100000000 else BILLION
  }

  lemma EmitStep(r: seq<char>, rem: int, i: nat)
    requires Digits(r) && i <= 9 && 0 <= rem < Bound(9 - i) && (i < 9 || rem != 0)
    ensures i < 9 && 0 <= rem / 10 < Bound(9 - (i + 1)) && 0 <= rem % 10 <= 9
    ensures
      var r' := r + [DigitChar(rem % 10)];
      Digits(r') && Reversed(r') + (rem / 10) * Pow10(|r'|) == Reversed(r) + rem * Pow10(|r|)
    ensures rem != 0 && rem / 10 == 0 ==> DigitChar(rem % 10) != '0'
  {
    DivBounds(rem, 10);
    ReversedSnoc(r, DigitChar(rem % 10));
    hide Reversed;
    TensAndOnes(rem / 10, rem % 10, Pow10(|r|));
  }

  lemma TensAndOnes(q: int, m: int, p: int)
    ensures m * p + q * (10 * p) == (q * 10 + m) * p
  {
  }

  /** After division the word below the old top is the new top. */
  lemma TopMovesDown(s: seq<word>, v: seq<word>, msw: nat)
    requires msw < |s| == |v| && s[msw] != 0 && (forall j :: msw < j < |s| ==> s[j] == 0 && v[j] == 0)
    requires UVal(v) == UVal(s) / BILLION
    ensures msw == 0 && v[0] == 0 ==> UVal(v) == 0
    ensures 0 < msw && v[msw] == 0 ==> v[msw - 1] != 0
  {
    if v[msw] == 0 {
      assert forall j :: msw <= j < |v| ==> v[j] == 0;
      if msw == 0 {
        UValZeros(v);
      } else {
        AtLeastWeight(s, msw);
        WeightNext(msw - 1);
        hide UVal, Weight;
        QuotientFloor(UVal(s), Weight(msw - 1));
        ZeroAbove(v, msw - 1);
      }
    }
  }

  lemma ZeroAbove(v: seq<word>, i: nat)
    requires i <= |v|
    ensures (forall j :: i <= j < |v| ==> v[j] == 0) ==> UVal(v) < Weight(i)
  {
    if forall j :: i <= j < |v| ==> v[j] == 0 {
      UValSplit(v, i);
      UValZeros(v[i..]);
      UValBound(v[..i]);
      assert 0 * Weight(i) == 0;
    }
  }

  lemma QuotientFloor(u: int, p: int)
    requires 0 < p && WORD * p <= u
    ensures p <= u / BILLION
  {
    DivBounds(u, BILLION);
  }

  lemma AtLeastWeight(s: seq<word>, i: nat)
    requires i < |s| && s[i] != 0
    ensures Weight(i) <= UVal(s)
  {
    hide UVal, Weight;
    UValSplit(s, i);
    assert s[i..] == [s[i]] + s[i + 1..];
    UValCons(s[i], s[i + 1..]);
    MulMono(1, UVal(s[i..]), Weight(i));
  }

  /** The digits of an unsigned integer: no leading zero, and none at all for zero. */
  method IntegerDigits(v: array<word>, w: nat) returns (r: seq<char>)
    requires 0 < w && v.Length == (w - 1) / 32 + 1
    modifies v
    ensures Digits(r) && Number(r) == UVal(old(v[..]))
    ensures forall i :: 0 <= i < |r| ==> '0' <= r[i] <= '9'
    ensures forall k: nat :: k < |r| ==>
      r[|r| - 1 - k] as int - '0' as int == UVal(old(v[..])) / Pow10(k) % 10
    ensures r == [] <==> UVal(old(v[..])) == 0
    ensures r != [] ==> r[0] != '0'
  {
    hide UVal, Weight, Pow10, Reversed, Number;
    var msw := (w - 1) / 32;
    ghost var v0 := UVal(v[..]);
    r := [];
    while msw > 0 && v[msw] == 0
      invariant 0 <= msw < v.Length && forall j :: msw < j < v.Length ==> v[j] == 0
    {
      msw := msw - 1;
    }
    NoDigits(v0);
    if v[msw] == 0 {
      UValZeros(v[..]);
    } else {
      AtLeastWeight(v[..], msw);
    }
    while msw >= 0
      invariant -1 <= msw < v.Length && forall j :: msw < j < v.Length ==> v[j] == 0
      invariant Digits(r) && v0 == UVal(v[..]) * Pow10(|r|) + Reversed(r)
      invariant 0 <= msw ==> v[msw] != 0 || (msw == 0 && r == [] && v0 == 0)
      invariant msw == -1 ==> UVal(v[..]) == 0 && (v0 == 0 <==> r == []) && (r != [] ==> r[|r| - 1] != '0')
      invariant v0 == 0 ==> r == []
      decreases UVal(v[..]), msw
    {
      ghost var before := v[..];
      ghost var top: nat, r0 := msw, r;
      var rem := DivideByBillion(v, msw);
      if v[msw] == 0 {
        msw := msw - 1;
      }
      var last := msw == -1;
      r := EmitDigits(r, rem, last);
      BlockOfDigits(before, v[..], top, v0, r0, r, rem, last);
    }
    assert 0 * Pow10(|r|) == 0;
    ghost var backwards := r;
    var k := |r|;
    for i := 0 to k / 2
      invariant |r| == k
      invariant forall j :: 0 <= j < i ==> r[j] == backwards[k - 1 - j] && r[k - 1 - j] == backwards[j]
      invariant forall j :: i <= j < k - i ==> r[j] == backwards[j]
    {
      var c := r[i];
      r := r[i := r[k - 1 - i]];
      r := r[k - 1 - i := c];
    }
    TurnedAround(backwards, r);
    NumberIsDigits(r);
  }

  /** One pass: nine more digits, or the rest of them, and a smaller number. */
  lemma BlockOfDigits(s: seq<word>, v: seq<word>, top: nat, v0: int, r0: seq<char>, r: seq<char>, rem: int, last: bool)
    requires top < |s| == |v| && forall j :: top < j < |s| ==> s[j] == 0 && v[j] == 0
    requires s[top] != 0 || (top == 0 && UVal(s) == 0)
    requires UVal(v) == UVal(s) / BILLION && rem == UVal(s) % BILLION
    requires Digits(r0) && Digits(r) && v0 == UVal(s) * Pow10(|r0|) + Reversed(r0)
    requires Reversed(r) == Reversed(r0) + rem * Pow10(|r0|) && (!last ==> |r| == |r0| + 9)
    requires last <==> top == 0 && v[0] == 0
    ensures v0 == UVal(v) * Pow10(|r|) + Reversed(r)
    ensures last ==> UVal(v) == 0 && (UVal(s) != 0 ==> rem != 0)
    ensures 0 < top && v[top] == 0 ==> v[top - 1] != 0
    ensures UVal(v) < UVal(s) || (UVal(s) == 0 && last)
    ensures s[top] != 0 ==> UVal(s) != 0
  {
    TopAfter(s, v, top);
    SmallerQuotient(UVal(s));
    hide UVal, Weight, Pow10, Reversed, Digits;
    ValueAfter(UVal(s), UVal(v), rem, v0, Reversed(r0), Reversed(r), |r0|, |r|);
  }

  lemma TopAfter(s: seq<word>, v: seq<word>, top: nat)
    requires top < |s| == |v| && forall j :: top < j < |s| ==> s[j] == 0 && v[j] == 0
    requires s[top] != 0 || (top == 0 && UVal(s) == 0)
    requires UVal(v) == UVal(s) / BILLION
    ensures top == 0 && v[0] == 0 ==> UVal(v) == 0
    ensures 0 < top && v[top] == 0 ==> v[top - 1] != 0
    ensures s[top] != 0 ==> UVal(s) != 0
    ensures top == 0 && v[0] != 0 ==> UVal(v) != 0
  {
    if s[top] != 0 {
      TopMovesDown(s, v, top);
      AtLeastWeight(s, top);
    }
    if top == 0 {
      if v[0] == 0 {
        UValZeros(v);
      } else {
        AtLeastWeight(v, 0);
      }
    }
  }

  lemma ValueAfter(x: nat, q: int, m: int, v0: int, e0: int, e: int, k0: nat, k: nat)
    requires q == x / BILLION && m == x % BILLION && v0 == x * Pow10(k0) + e0 && e == e0 + m * Pow10(k0)
    requires q == 0 || k == k0 + 9
    ensures v0 == q * Pow10(k) + e
    ensures q == 0 && x != 0 ==> m != 0
  {
    NineMore(k0);
    DivBounds(x, BILLION);
    hide Pow10;
    Regrouped(q, m, Pow10(k0), x);
    assert 0 * Pow10(k) == 0 && 0 * (BILLION * Pow10(k0)) == 0;
  }

  lemma SmallerQuotient(x: nat)
    ensures x / BILLION < x || x == 0
    ensures x == 0 ==> x / BILLION == 0
  {
  }

  lemma Regrouped(q: int, m: int, p: int, x: int)
    requires x == q * BILLION + m
    ensures x * p == q * (BILLION * p) + m * p
  {
  }

  lemma NineMore(k: nat)
    ensures Pow10(k + 9) == BILLION * Pow10(k)
  {
    assert Pow10(k + 2) == 100 * Pow10(k);
    assert Pow10(k + 4) == 100 * Pow10(k + 2);
    assert Pow10(k + 6) == 100 * Pow10(k + 4);
    assert Pow10(k + 8) == 100 * Pow10(k + 6);
  }

  lemma NoDigits(v0: int)
    ensures v0 * Pow10(0) + Reversed([]) == v0
  {
  }
}

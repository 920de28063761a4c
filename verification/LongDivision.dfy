/** Multi-word unsigned division (`iv_udiv`): schoolbook long division that works on
    16-bit half-digits, estimates each from a 48-bit divisor prefix, and repairs the
    overflow of a 64-bit signed accumulator by hand. */
module LongDivision {
  import opened Powers
  import opened Words

  /** Weight of half-digit k. */
  function HalfWeight(k: nat): (p: int)
    ensures p > 0
  {
    Pow2(16 * k)
  }

  lemma HalfWeightFacts(k: nat)
    ensures HalfWeight(2 * k) == Weight(k)
    ensures HalfWeight(2 * k + 1) == HALF * Weight(k)
    ensures HalfWeight(k + 1) == HALF * HalfWeight(k)
    ensures HalfWeight(0) == 1
  {
    Pow2Values();
    Pow2Add(16, 16 * k);
    Pow2Add(16, 32 * k);
  }

  lemma HalfWeightAdd(a: nat, b: nat)
    ensures HalfWeight(a + b) == HalfWeight(a) * HalfWeight(b)
  {
    Pow2Add(16 * a, 16 * b);
  }

  /** One step of the multiply-subtract loop.  c is the incoming borrow, x the word of the
      running remainder and p the exact product; the 64-bit code sees only wrapped values. */
  lemma BorrowRepair(c: int, x: word, p: int)
    requires -(WORD - HALF) <= c <= 0
    requires 0 <= p <= (WORD - 1) * (WORD - HALF)
    ensures
      var exact := c + x - p;
      var l0 := ToSlong(c + x);
      var prod := ToSlong(p);
      var l := ToSlong(l0 - prod);
      var ov1 := l >= 0 && (prod < 0 || l0 < 0);
      && l0 == c + x
      && !(l < 0 && prod < 0 && l0 < 0)
      && Low(l) == Low(exact)
      && (if ov1 then l / WORD - WORD else l / WORD) == exact / WORD
      && (ov1 ==> 0 <= l / WORD < WORD)
      && -(WORD - HALF) <= exact / WORD <= 0
  {
  }

  /** Extends the value of a window by the next word. */
  lemma WindowNext(s: seq<word>, base: nat, j: nat)
    requires base + j < |s|
    ensures UVal(s[base..base + j + 1]) == UVal(s[base..base + j]) + s[base + j] * Weight(j)
  {
    assert s[base..base + j + 1] == s[base..base + j] + [s[base + j]];
    UValSnoc(s[base..base + j], s[base + j]);
  }

  /** j words of the window have had q times the low words of d subtracted, with l carried out. */
  ghost predicate Partial(now: seq<word>, was: seq<word>, d: seq<word>, base: nat, j: nat, l: int, q: int)
  {
    && |now| == |was| && base + j <= |was| && j <= |d|
    && UVal(now[base..base + j]) + l * Weight(j) == UVal(was[base..base + j]) - q * UVal(d[..j])
    && (forall i :: 0 <= i < |was| && !(base <= i < base + j) ==> now[i] == was[i])
  }

  lemma PartialArithmetic(l: int, x: int, q: int, d: int, dSum: int, w': int, l': int, p: int)
    requires w' + WORD * l' == l + x - q * d
    ensures w' * p + l' * (WORD * p) == l * p + x * p - q * (dSum + d * p) + q * dSum
  {
    assert l' * (WORD * p) == (WORD * l') * p;
    assert w' * p + (WORD * l') * p == (l + x - q * d) * p;
    assert (l + x - q * d) * p == l * p + x * p - (q * d) * p;
    assert (q * d) * p == q * (d * p);
    assert q * (dSum + d * p) == q * dSum + q * (d * p);
  }

  lemma PartialStep(now: seq<word>, was: seq<word>, d: seq<word>, base: nat, j: nat, l: int, q: int,
                    p: int, now': seq<word>, l': int)
    requires Partial(now, was, d, base, j, l, q) && base + j < |was| && j < |d|
    requires p == q * d[j]
    requires now' == now[base + j := Low(l + now[base + j] - p)]
    requires l' == (l + now[base + j] - p) / WORD
    ensures Partial(now', was, d, base, j + 1, l', q)
  {
    var x := now[base + j];
    WindowNext(now', base, j);
    assert now'[base..base + j] == now[base..base + j];
    WindowNext(was, base, j);
    WindowNext(d, 0, j);
    assert d[0..j] == d[..j] && d[0..j + 1] == d[..j + 1];
    WeightNext(j);
    PartialArithmetic(l, x, q, d[j], UVal(d[..j]), now'[base + j], l', Weight(j));
  }

  lemma PartialStart(s: seq<word>, d: seq<word>, base: nat, q: int)
    requires base <= |s|
    ensures Partial(s, s, d, base, 0, 0, q)
  {
  }

  /** Subtracts q2 * d from the window of r1 that starts at base, leaving the borrow. */
  method MultiplySubtract(r1: array<word>, d: array<word>, base: nat, m: nat, q2: word) returns (l: int)
    requires r1 != d && m <= d.Length && base + m <= r1.Length
    requires q2 <= WORD - HALF
    modifies r1
    ensures -(WORD - HALF) <= l <= 0
    ensures Partial(r1[..], old(r1[..]), d[..], base, m, l, q2)
  {
    hide UVal, Weight, Partial, ToSlong;
    l := 0;
    ghost var was := r1[..];
    PartialStart(was, d[..], base, q2);
    for j := 0 to m
      invariant -(WORD - HALF) <= l <= 0
      invariant Partial(r1[..], was, d[..], base, j, l, q2)
    {
      ghost var now, c := r1[..], l;
      var product := q2 * d[j];
      ProductBound(q2, d[j], product);
      BorrowRepair(c, now[base + j], product);
      l := ToSlong(l + r1[base + j]);
      var lSign := l < 0;
      var prod := ToSlong(product);
      l := ToSlong(l - prod);
      var ov1 := l >= 0 && (prod < 0 || lSign);
      var ov2 := l < 0 && prod < 0 && lSign;
      r1[base + j] := Low(l);
      l := l / WORD;
      if ov1 {
        l := l - WORD;  // or-ing ones into the high half
      }
      if ov2 {
        assert false;
      }
      assert r1[..] == now[base + j := r1[base + j]];
      PartialStep(now, was, d[..], base, j, c, q2, product, r1[..], l);
    }
  }

  lemma ProductBound(q2: int, d: int, p: int)
    requires 0 <= q2 <= WORD - HALF && 0 <= d < WORD && p == q2 * d
    ensures 0 <= p <= (WORD - 1) * (WORD - HALF)
  {
    MulMono(q2, WORD - HALF, d);
  }

  /** Adds scale * d (d shifted by half a word, or not at all) back to the window, leaving the carry. */
  method AddBack(r1: array<word>, d: array<word>, base: nat, m: nat, odd: bool) returns (l: int)
    requires r1 != d && m <= d.Length && base + m <= r1.Length
    modifies r1
    ensures 0 <= l <= HALF
    ensures Partial(r1[..], old(r1[..]), d[..], base, m, l, -Scale(odd))
  {
    hide UVal, Weight, Partial;
    l := 0;
    ghost var was := r1[..];
    PartialStart(was, d[..], base, -Scale(odd));
    for j := 0 to m
      invariant 0 <= l <= HALF
      invariant Partial(r1[..], was, d[..], base, j, l, -Scale(odd))
    {
      ghost var now, c := r1[..], l;
      var shifted := if odd then d[j] * HALF else d[j];
      CarryNoOverflow(l, shifted, r1[base + j]);
      l := ToSlong(l + shifted);
      l := ToSlong(l + r1[base + j]);
      r1[base + j] := Low(l);
      l := l / WORD;
      assert r1[..] == now[base + j := r1[base + j]];
      PartialStep(now, was, d[..], base, j, c, -Scale(odd), -shifted, r1[..], l);
    }
  }

  function Scale(odd: bool): int {
    if odd then HALF else 1
  }

  lemma CarryNoOverflow(c: int, s: int, x: word)
    requires 0 <= c <= HALF && 0 <= s <= (WORD - 1) * HALF
    ensures ToSlong(c + s) == c + s && ToSlong(c + s + x) == c + s + x
    ensures 0 <= (c + s + x) / WORD <= HALF
  {
  }

  // ---- Estimating one quotient half-digit ----

  /** With a prefix d1 of at least three half-digits of the divisor and the matching prefix n1
      of the remainder, n1 / d1 is the true digit or one more.  x and y are the remainder and
      the shifted divisor, both scaled by the two fraction half-digits of the prefixes. */
  lemma EstimateIsDigitOrOneMore(n1: int, d1: int, x: int, y: int, p: int, q: int)
    requires 0 < p && 0 < y && WORD <= d1 && 0 <= n1
    requires n1 * p <= x < (n1 + 1) * p
    requires d1 * p <= y < (d1 + 1) * p
    requires q * y <= x < (q + 1) * y && 0 <= q < HALF
    ensures q <= n1 / d1 <= q + 1
  {
    EstimateLower(n1, d1, x, y, p, q);
    EstimateUpper(n1, d1, x, y, p, q);
    EstimateBounds(n1, d1, q);
  }

  lemma EstimateLower(n1: int, d1: int, x: int, y: int, p: int, q: int)
    requires 0 < p && 0 <= q && x < (n1 + 1) * p && d1 * p <= y && q * y <= x
    ensures q * d1 <= n1
  {
    MulMono(d1 * p, y, q);
    assert (d1 * p) * q == (q * d1) * p;
    assert y * q == q * y;
    MulCancelLt(q * d1, n1 + 1, p);
  }

  lemma EstimateUpper(n1: int, d1: int, x: int, y: int, p: int, q: int)
    requires 0 < p && 0 <= q < HALF && WORD <= d1 && n1 * p <= x && y < (d1 + 1) * p && x < (q + 1) * y
    ensures n1 < (q + 2) * d1
  {
    MulMono(y, (d1 + 1) * p, q + 1);
    assert ((d1 + 1) * p) * (q + 1) == ((d1 + 1) * (q + 1)) * p;
    assert y * (q + 1) == (q + 1) * y;
    MulCancelLt(n1, (d1 + 1) * (q + 1), p);
    assert (d1 + 1) * (q + 1) == (q + 1) * d1 + q + 1;
    assert (q + 2) * d1 == (q + 1) * d1 + d1;
  }

  lemma EstimateBounds(n1: int, d1: int, q: int)
    requires 0 < d1 && q * d1 <= n1 < (q + 2) * d1
    ensures q <= n1 / d1 <= q + 1
  {
    DivBounds(n1, d1);
    MulCancelLt(q, n1 / d1 + 1, d1);
    MulCancelLt(n1 / d1, q + 2, d1);
  }

  /** A prefix taken by dropping a half word: t counts units of p, t / HALF units of HALF * p. */
  lemma PrefixOfWords(t: int, low: int, p: int)
    requires 0 <= low < p
    ensures t * p <= t * p + low < (t + 1) * p
    ensures (t / HALF) * (HALF * p) <= t * p + low < (t / HALF + 1) * (HALF * p)
  {
    assert (t + 1) * p == t * p + p;
    var h := t / HALF;
    MulMono(h * HALF, t, p);
    MulMono(t + 1, (h + 1) * HALF, p);
    assert (h * HALF) * p == h * (HALF * p);
    assert ((h + 1) * HALF) * p == (h + 1) * (HALF * p);
  }

  /** The two top words of a number, with everything below them as a remainder. */
  lemma TopTwoWords(s: seq<word>, i: nat) returns (low: int)
    requires i < |s|
    ensures
      var below := if i > 0 then s[i - 1] else 0;
      && UVal(s[..i + 1]) * WORD == (s[i] * WORD + below) * Weight(i) + low
      && 0 <= low < Weight(i)
  {
    WindowNext(s, 0, i);
    assert s[0..i] == s[..i] && s[0..i + 1] == s[..i + 1];
    if i == 0 {
      WeightNext(0);
      low := 0;
    } else {
      WindowNext(s, 0, i - 1);
      assert s[0..i - 1] == s[..i - 1];
      UValBound(s[..i - 1]);
      WeightNext(i - 1);
      low := UVal(s[..i - 1]) * WORD;
      TopTwoArithmetic(UVal(s[..i - 1]), s[i - 1], s[i], Weight(i - 1), Weight(i));
    }
  }

  lemma TopTwoArithmetic(u: int, b: int, a: int, p: int, wp: int)
    requires wp == WORD * p
    ensures (u + b * p + a * wp) * WORD == (a * WORD + b) * wp + u * WORD
  {
    assert (a * WORD + b) * wp == WORD * (a * wp) + b * wp;
    assert b * wp == WORD * (b * p);
  }

  /** The three most significant half-digits of a nonzero divisor. */
  method DivisorPrefix(d: array<word>, dMsi: nat) returns (odd: bool, d1: int)
    requires dMsi < d.Length && d[dMsi] != 0
    ensures odd <==> d[dMsi] >= HALF
    ensures WORD <= d1 < WORD * HALF
    ensures
      var p := HalfWeight(2 * dMsi + (if odd then 1 else 0));
      d1 * p <= UVal(d[..dMsi + 1]) * WORD < (d1 + 1) * p
  {
    odd := d[dMsi] / HALF != 0;
    d1 := if odd then d[dMsi] * HALF else d[dMsi] * WORD;
    if dMsi > 0 {
      d1 := d1 + (if odd then d[dMsi - 1] / HALF else d[dMsi - 1]);
    }
    ghost var low := TopTwoWords(d[..], dMsi);
    ghost var below := if dMsi > 0 then d[dMsi - 1] else 0;
    assert d[..][..dMsi + 1] == d[..dMsi + 1];
    PrefixOfWords(d[dMsi] * WORD + below, low, Weight(dMsi));
    HalfWeightFacts(dMsi);
  }

  /** The four half-digits of the running remainder that face the divisor prefix at position k. */
  method RemainderPrefix(r1: array<word>, k: nat) returns (n1: int)
    requires k / 2 + 1 < r1.Length
    requires k % 2 == 0 ==> r1[k / 2 + 1] == 0
    requires k % 2 == 1 ==> r1[k / 2 + 1] < HALF
    ensures 0 <= n1 < W64
    ensures n1 * HalfWeight(k) <= UVal(r1[..k / 2 + 2]) * WORD < (n1 + 1) * HalfWeight(k)
  {
    var kMsi := k / 2;
    var below := if kMsi > 0 then r1[kMsi - 1] else 0;
    if k % 2 == 1 {
      var hi := Low(r1[kMsi + 1] * HALF) + r1[kMsi] / HALF;
      var lo := Low(r1[kMsi] * HALF) + below / HALF;
      n1 := hi * WORD + lo;
      FourHalves(r1[kMsi + 1], r1[kMsi], below);
    } else {
      n1 := r1[kMsi] * WORD + below;
    }
    RemainderPrefixBounds(r1[..], kMsi);
    HalfWeightFacts(kMsi);
    assert r1[..][..kMsi + 2] == r1[..kMsi + 2];
  }

  lemma FourHalves(a: word, b: word, c: word)
    requires a < HALF
    ensures (Low(a * HALF) + b / HALF) * WORD + Low(b * HALF) + c / HALF
         == ((a * WORD + b) * WORD + c) / HALF
  {
  }

  lemma RemainderPrefixBounds(s: seq<word>, i: nat)
    requires i + 1 < |s|
    ensures
      var t := (s[i + 1] * WORD + s[i]) * WORD + (if i > 0 then s[i - 1] else 0);
      var p := Weight(i);
      && t * p <= UVal(s[..i + 2]) * WORD < (t + 1) * p
      && (t / HALF) * (HALF * p) <= UVal(s[..i + 2]) * WORD < (t / HALF + 1) * (HALF * p)
  {
    var low := TopTwoWords(s, i);
    var below := if i > 0 then s[i - 1] else 0;
    WindowNext(s, 0, i + 1);
    assert s[0..i + 1] == s[..i + 1] && s[0..i + 2] == s[..i + 2];
    WeightNext(i);
    RemainderArithmetic(UVal(s[..i + 1]), s[i + 1], s[i] * WORD + below, Weight(i), low);
    PrefixOfWords((s[i + 1] * WORD + s[i]) * WORD + below, low, Weight(i));
  }

  lemma RemainderArithmetic(u: int, a: int, t: int, p: int, low: int)
    requires u * WORD == t * p + low
    ensures (u + a * (WORD * p)) * WORD == (a * WORD * WORD + t) * p + low
  {
    assert a * (WORD * p) == (a * WORD) * p;
    assert (a * WORD * WORD + t) * p == (a * WORD * WORD) * p + t * p;
    assert (a * WORD * WORD) * p == WORD * ((a * WORD) * p);
  }

  // ---- Subtracting the estimated digit and repairing it ----

  /** Words in the window: one more than the divisor when the shift can spill into it. */
  function Span(m: nat, top: bool): nat {
    if top then m + 1 else m
  }

  /** Value of the window. */
  ghost function Window(s: seq<word>, base: nat, n: nat): int
    requires base + n <= |s|
  {
    UVal(s[base..base + n])
  }

  ghost predicate SameOutside(a: seq<word>, b: seq<word>, base: nat, n: nat)
    requires |a| == |b|
  {
    forall i :: 0 <= i < |a| && !(base <= i < base + n) ==> a[i] == b[i]
  }

  /** The sign of the last accumulator is the sign of the exact difference, and the window
      holds that difference modulo its own size. */
  lemma AfterSubtract(was: seq<word>, mid: seq<word>, now: seq<word>, d: seq<word>, base: nat, m: nat,
                      top: bool, l: int, l': int, q2: int)
    requires |now| == |was| && base + Span(m, top) <= |was| && m <= |d|
    requires Partial(mid, was, d, base, m, l, q2) && -(WORD - HALF) <= l <= 0
    requires top ==> l' == l + was[base + m] && now == mid[base + m := Low(l')]
    requires !top ==> l' == l && now == mid
    requires -Weight(m) < Window(was, base, m) - q2 * UVal(d[..m]) || top
    ensures
      var y := Window(was, base, Span(m, top)) - q2 * UVal(d[..m]);
      && (l' < 0 <==> y < 0)
      && Window(now, base, Span(m, top)) == y + (if l' < 0 then Weight(Span(m, top)) else 0)
  {
    hide UVal, Weight;
    UValBound(mid[base..base + m]);
    var u, p := Window(mid, base, m), Weight(m);
    if top {
      WindowNext(was, base, m);
      WindowNext(now, base, m);
      assert now[base..base + m] == mid[base..base + m];
      WeightNext(m);
      SubtractTop(u, l, was[base + m], l', Window(was, base, m) - q2 * UVal(d[..m]), p);
    } else {
      SubtractNoTop(u, l, p);
    }
  }

  lemma SubtractTop(u: int, l: int, x: word, l': int, z: int, p: int)
    requires 0 <= u < p && -(WORD - HALF) <= l <= 0 && l' == l + x
    requires u + l * p == z
    ensures z + x * p < 0 <==> l' < 0
    ensures u + Low(l') * p == z + x * p + (if l' < 0 then WORD * p else 0)
  {
    SignOfTop(u, l', p);
    assert (l + x) * p == l * p + x * p;
  }

  lemma SubtractNoTop(u: int, l: int, p: int)
    requires 0 <= u < p && -(WORD - HALF) <= l <= 0
    requires -p < u + l * p
    ensures u + l * p < 0 <==> l < 0
    ensures u == u + l * p + (if l < 0 then p else 0)
  {
    if l < -1 {
      MulMono(l, -2, p);
    } else if l == 0 {
      assert l * p == 0;
    }
  }

  lemma SignOfTop(u: int, l: int, p: int)
    requires 0 <= u < p && -WORD <= l < WORD
    ensures u + l * p < 0 <==> l < 0
    ensures u + Low(l) * p == u + l * p + (if l < 0 then WORD * p else 0)
  {
    if l < 0 {
      MulMono(l, -1, p);
      assert Low(l) == l + WORD;
      assert (l + WORD) * p == l * p + WORD * p;
    } else {
      MulMono(0, l, p);
    }
  }

  /** Adding the divisor back once brings the window to the exact difference. */
  lemma AfterAddBack(was: seq<word>, mid: seq<word>, now: seq<word>, d: seq<word>, base: nat, m: nat,
                     top: bool, l: int, scale: int, y: int)
    requires |now| == |was| && base + Span(m, top) <= |was| && m <= |d| && 0 <= l <= HALF
    requires Partial(mid, was, d, base, m, l, -scale)
    requires top ==> now == mid[base + m := Low(was[base + m] + l)]
    requires !top ==> now == mid
    requires Window(was, base, Span(m, top)) == y + Weight(Span(m, top))
    requires 0 <= y + scale * UVal(d[..m]) < Weight(Span(m, top))
    ensures Window(now, base, Span(m, top)) == y + scale * UVal(d[..m])
  {
    hide UVal, Weight;
    var n := Span(m, top);
    var target := y + scale * UVal(d[..m]);
    UValBound(now[base..base + n]);
    if top {
      WindowNext(was, base, m);
      WindowNext(now, base, m);
      assert now[base..base + m] == mid[base..base + m];
      WeightNext(m);
      var carry := (was[base + m] + l) / WORD;
      CarryOut(was[base + m], l, carry, Weight(m));
      assert Window(now, base, n) == target + (1 - carry) * Weight(n) by {
        assert (1 - carry) * Weight(n) == Weight(n) - carry * Weight(n);
      }
      CongruentEqual(Window(now, base, n), target, 1 - carry, Weight(n));
    } else {
      assert (1 - l) * Weight(n) == Weight(n) - l * Weight(n);
      CongruentEqual(Window(now, base, n), target, 1 - l, Weight(n));
    }
  }

  lemma CarryOut(x: word, l: int, carry: int, p: int)
    requires carry == (x + l) / WORD
    ensures Low(x + l) * p == x * p + l * p - carry * (WORD * p)
  {
    assert Low(x + l) == x + l - carry * WORD;
    assert (x + l - carry * WORD) * p == x * p + l * p - (carry * WORD) * p;
    assert (carry * WORD) * p == carry * (WORD * p);
  }

  /** Subtracts the estimate q2 times d; the sign of the result tells whether it was one too many. */
  method SubtractEstimate(r1: array<word>, d: array<word>, base: nat, m: nat, top: bool, q2: word, ghost prod: int)
    returns (l: int)
    requires r1 != d && m <= d.Length && base + Span(m, top) <= r1.Length
    requires q2 <= WORD - HALF && prod == q2 * UVal(d[..m])
    requires -Weight(m) < Window(r1[..], base, m) - prod || top
    modifies r1
    ensures
      var y := Window(old(r1[..]), base, Span(m, top)) - prod;
      && (l < 0 <==> y < 0)
      && Window(r1[..], base, Span(m, top)) == y + (if l < 0 then Weight(Span(m, top)) else 0)
    ensures SameOutside(r1[..], old(r1[..]), base, Span(m, top))
  {
    hide UVal, Weight;
    ghost var was := r1[..];
    assert d[..][..m] == d[..m];
    l := MultiplySubtract(r1, d, base, m, q2);
    ghost var mid, l0 := r1[..], l;
    if top {
      l := ToSlong(l + r1[base + m]);
      r1[base + m] := Low(l);
    }
    AfterSubtract(was, mid, r1[..], d[..], base, m, top, l0, l, q2);
  }

  /** Adds the divisor back, dropping the carry out of the window. */
  method RestoreDivisor(r1: array<word>, d: array<word>, base: nat, m: nat, odd: bool, top: bool,
                        ghost y: int, ghost sd: int)
    requires r1 != d && m <= d.Length && base + Span(m, top) <= r1.Length
    requires sd == Scale(odd) * UVal(d[..m])
    requires Window(r1[..], base, Span(m, top)) == y + Weight(Span(m, top))
    requires 0 <= y + sd < Weight(Span(m, top))
    modifies r1
    ensures Window(r1[..], base, Span(m, top)) == y + sd
    ensures SameOutside(r1[..], old(r1[..]), base, Span(m, top))
  {
    hide UVal, Weight;
    ghost var was := r1[..];
    assert d[..][..m] == d[..m];
    var c := AddBack(r1, d, base, m, odd);
    ghost var mid := r1[..];
    if top {
      r1[base + m] := Low(r1[base + m] + Low(c));
    }
    AfterAddBack(was, mid, r1[..], d[..], base, m, top, c, Scale(odd), y);
  }

  /** One quotient half-digit: subtract the estimate, and add the divisor back if it was one too many. */
  method SubtractDigit(r1: array<word>, d: array<word>, base: nat, m: nat, odd: bool, top: bool, q1: int,
                       ghost sd: int)
    returns (q: int)
    requires r1 != d && m <= d.Length && base + Span(m, top) <= r1.Length
    requires 0 <= q1 < HALF && (odd ==> top)
    requires 0 < sd == Scale(odd) * UVal(d[..m])
    requires (q1 - 1) * sd <= Window(r1[..], base, Span(m, top)) < (q1 + 1) * sd
    modifies r1
    ensures 0 <= q < HALF
    ensures Window(r1[..], base, Span(m, top)) == Window(old(r1[..]), base, Span(m, top)) - q * sd
    ensures 0 <= Window(r1[..], base, Span(m, top)) < sd
    ensures SameOutside(r1[..], old(r1[..]), base, Span(m, top))
  {
    UValBound(d[..m]);
    ScaledDivisor(UVal(d[..m]), q1, odd, top, m, sd);
    ghost var x, prod := Window(r1[..], base, Span(m, top)), q1 * sd;
    DigitRange(x, q1, sd, prod);
    var l := SubtractEstimate(r1, d, base, m, top, if odd then q1 * HALF else q1, prod);
    q := q1;
    if l < 0 {
      RestoreDivisor(r1, d, base, m, odd, top, x - prod, sd);
      q := q - 1;
    }
  }

  lemma ScaledDivisor(dv: int, q1: int, odd: bool, top: bool, m: nat, sd: int)
    requires 0 <= dv < Weight(m) && sd == Scale(odd) * dv && (odd ==> top)
    ensures (if odd then q1 * HALF else q1) * dv == q1 * sd
    ensures sd < Weight(Span(m, top)) && (!top ==> sd < Weight(m))
  {
    WeightNext(m);
    assert (q1 * HALF) * dv == q1 * (HALF * dv);
  }

  lemma DigitRange(x: int, q1: int, sd: int, prod: int)
    requires 0 < sd && (q1 - 1) * sd <= x < (q1 + 1) * sd && prod == q1 * sd
    ensures -sd <= x - prod < sd && (q1 - 1) * sd == prod - sd
    ensures q1 == 0 ==> prod == 0
  {
  }

  // ---- One pass of the division loop ----

  /** A remainder below half-digit k + 2 leaves the words above it zero. */
  lemma TopDigits(s: seq<word>, k: nat)
    requires k / 2 + 2 <= |s| && UVal(s) < HalfWeight(k + 2)
    ensures UVal(s[..k / 2 + 2]) == UVal(s)
    ensures forall i :: (k + 1) / 2 + 1 <= i < |s| ==> s[i] == 0
    ensures k % 2 == 1 ==> s[k / 2 + 1] < HALF
  {
    var i := k / 2;
    HalfWeightFacts(i + 1);
    WeightNext(i + 1);
    if k % 2 == 0 {
      assert k + 2 == 2 * (i + 1);
      UValHighZero(s, i + 1);
      UValHighZero(s, i + 2);
    } else {
      assert k + 2 == 2 * (i + 1) + 1;
      UValHighZero(s, i + 2);
      WindowNext(s, 0, i + 1);
      assert s[0..i + 1] == s[..i + 1] && s[0..i + 2] == s[..i + 2];
      assert UVal(s[..i + 2]) == UVal(s[..i + 1]) + s[i + 1] * Weight(i + 1);
      MulCancelLt(s[i + 1], HALF, Weight(i + 1));
    }
  }

  /** The running remainder seen as a low part and a window. */
  lemma SplitAtWindow(s: seq<word>, base: nat, n: nat)
    requires base + n <= |s|
    requires forall i :: base + n <= i < |s| ==> s[i] == 0
    ensures UVal(s) == UVal(s[..base]) + Window(s, base, n) * Weight(base)
    ensures UVal(s[..base]) < Weight(base)
  {
    hide UVal, Weight;
    UValSplit(s, base + n);
    UValZeros(s[base + n..]);
    UValSplit(s[..base + n], base);
    assert s[..base + n][..base] == s[..base];
    assert s[..base + n][base..] == s[base..base + n];
    UValBound(s[..base]);
  }

  /** A divisor with top half-digit at dMss is below the weight of the next half-digit. */
  lemma DivisorBound(d: seq<word>, dMsi: nat, odd: bool)
    requires dMsi < |d| && (odd <==> d[dMsi] >= HALF)
    ensures UVal(d[..dMsi + 1]) < HalfWeight(2 * dMsi + (if odd then 2 else 1))
  {
    UValBound(d[..dMsi + 1]);
    HalfWeightFacts(dMsi);
    HalfWeightFacts(dMsi + 1);
    if !odd {
      WindowNext(d, 0, dMsi);
      assert d[0..dMsi] == d[..dMsi] && d[0..dMsi + 1] == d[..dMsi + 1];
      UValBound(d[..dMsi]);
      MulMono(d[dMsi], HALF - 1, Weight(dMsi));
      assert (HALF - 1) * Weight(dMsi) == HALF * Weight(dMsi) - Weight(dMsi);
    }
  }

  /** The estimate computed from the prefixes brackets the exact quotient; a and h are the
      weights of the divisor's top half-digit and of the quotient digit. */
  lemma EstimateBrackets(n1: int, d1: int, rem: int, dv: int, a: int, h: int, dp: int)
    requires WORD <= d1 && 0 <= n1 && 0 < dv && 0 < a && 0 < h && dp == dv * h
    requires 0 <= rem < HALF * dp
    requires n1 * (a * h) <= rem * WORD < (n1 + 1) * (a * h)
    requires d1 * a <= dv * WORD < (d1 + 1) * a
    ensures
      var q := n1 / d1;
      && 0 < dp && 0 <= q <= HALF
      && (q - 1) * dp <= rem < (q + 1) * dp
  {
    assert 0 < dp;
    var q := rem / dp;
    DivBounds(rem, dp);
    QuotientNonNegative(rem, dp);
    MulCancelLt(q, HALF, dp);
    PrefixTimes(d1, a, dv * WORD, h);
    ScaleByWord(dv, h, dp, q, rem);
    EstimateIsDigitOrOneMore(n1, d1, rem * WORD, WORD * dp, a * h, q);
    MulMono(n1 / d1 - 1, q, dp);
    MulMono(q + 1, n1 / d1 + 1, dp);
  }

  lemma ScaleByWord(dv: int, h: int, dp: int, q: int, rem: int)
    requires dp == dv * h && q * dp <= rem < (q + 1) * dp
    ensures (dv * WORD) * h == WORD * dp
    ensures q * (WORD * dp) <= rem * WORD < (q + 1) * (WORD * dp)
  {
    assert (dv * WORD) * h == WORD * (dv * h);
    assert q * (WORD * dp) == WORD * (q * dp);
    assert (q + 1) * (WORD * dp) == WORD * ((q + 1) * dp);
  }

  lemma PrefixTimes(d1: int, a: int, y: int, h: int)
    requires 0 < h && d1 * a <= y < (d1 + 1) * a
    ensures d1 * (a * h) <= y * h < (d1 + 1) * (a * h)
  {
    MulMono(d1 * a, y, h);
    MulStrict(y, (d1 + 1) * a, h);
    assert (d1 * a) * h == d1 * (a * h);
    assert ((d1 + 1) * a) * h == (d1 + 1) * (a * h);
  }

  lemma RemainderBound(d: seq<word>, dMsi: nat, odd: bool, dv: int, k2: nat, rem: int)
    requires dMsi < |d| && (odd <==> d[dMsi] >= HALF)
    requires 0 < dv == UVal(d[..dMsi + 1]) && rem < HALF * (dv * HalfWeight(k2))
    ensures rem < HalfWeight(2 * dMsi + (if odd then 1 else 0) + k2 + 2)
  {
    hide UVal;
    var t: nat := 2 * dMsi + (if odd then 2 else 1);
    DivisorBound(d, dMsi, odd);
    HalfWeightAdd(t, k2);
    HalfWeightFacts(t + k2);
    MulMono(dv, HalfWeight(t), HalfWeight(k2));
  }

  /** The weight of the digit position is the weight of the window times the in-word shift. */
  lemma ShiftedDivisor(dv: int, k2: nat)
    requires 0 < dv
    ensures 0 < Scale(k2 % 2 == 1) * dv
    ensures (Scale(k2 % 2 == 1) * dv) * Weight(k2 / 2) == dv * HalfWeight(k2)
  {
    HalfWeightFacts(k2 / 2);
    assert (HALF * dv) * Weight(k2 / 2) == dv * (HALF * Weight(k2 / 2));
  }

  /** An estimate of a full half-digit too many is capped. */
  lemma CapEstimate(q: int, rem: int, dp: int)
    requires 0 < dp && q == HALF && (q - 1) * dp <= rem < HALF * dp
    ensures (q - 2) * dp <= rem < q * dp
  {
    MulMono(q - 2, q - 1, dp);
  }

  lemma WindowBrackets(rem: int, win: int, low: int, w: int, sd: int, dp: int, q1: int)
    requires 0 < w && rem == low + win * w && 0 <= low < w && sd * w == dp
    requires (q1 - 1) * dp <= rem < (q1 + 1) * dp
    ensures (q1 - 1) * sd <= win < (q1 + 1) * sd
  {
    assert (q1 - 1) * dp == ((q1 - 1) * sd) * w;
    assert (q1 + 1) * dp == ((q1 + 1) * sd) * w;
    assert (win + 1) * w == win * w + w;
    MulCancelLt((q1 - 1) * sd, win + 1, w);
    MulCancelLt(win, (q1 + 1) * sd, w);
  }

  lemma AfterDigit(was: seq<word>, now: seq<word>, base: nat, n: nat, sd: int, dp: int, q: int)
    requires |was| == |now| && base + n <= |was| && SameOutside(now, was, base, n)
    requires forall i :: base + n <= i < |was| ==> was[i] == 0
    requires sd * Weight(base) == dp
    requires Window(now, base, n) == Window(was, base, n) - q * sd && 0 <= Window(now, base, n) < sd
    ensures UVal(now) == UVal(was) - q * dp && 0 <= UVal(now) < dp
  {
    hide UVal, Weight;
    assert forall i :: base + n <= i < |now| ==> now[i] == was[i];
    SplitAtWindow(was, base, n);
    SplitAtWindow(now, base, n);
    assert now[..base] == was[..base];
    AfterDigitArithmetic(Window(was, base, n), Window(now, base, n), q, sd, Weight(base));
  }

  lemma AfterDigitArithmetic(x: int, y: int, q: int, sd: int, w: int)
    requires 0 < w && y == x - q * sd && y < sd
    ensures y * w == x * w - q * (sd * w)
    ensures y * w + w <= sd * w
  {
    assert y * w == x * w - (q * sd) * w;
    assert (q * sd) * w == q * (sd * w);
    MulMono(y + 1, sd, w);
    assert (y + 1) * w == y * w + w;
  }

  /** Estimates the half-digit at position k: the true digit or one more, and always one half-digit. */
  method EstimateDigit(r1: array<word>, ghost d: seq<word>, ghost dMsi: nat, ghost dOdd: bool, d1: int, k: nat,
                       ghost top: nat, ghost dv: int)
    returns (q1: int)
    requires dMsi < |d| && 0 < dv == UVal(d[..dMsi + 1]) && (dOdd <==> d[dMsi] >= HALF)
    requires k / 2 + 2 <= top <= r1.Length && WORD <= d1
    requires 2 * dMsi + (if dOdd then 1 else 0) <= k
    requires
      var dMss := 2 * dMsi + (if dOdd then 1 else 0);
      && d1 * HalfWeight(dMss) <= dv * WORD < (d1 + 1) * HalfWeight(dMss)
      && UVal(r1[..top]) < HALF * (dv * HalfWeight(k - dMss))
    ensures 0 <= q1 < HALF
    ensures
      var dp := dv * HalfWeight(k - 2 * dMsi - (if dOdd then 1 else 0));
      (q1 - 1) * dp <= UVal(r1[..top]) < (q1 + 1) * dp
    ensures forall i :: (k + 1) / 2 + 1 <= i < top ==> r1[i] == 0
  {
    hide UVal, Weight, HalfWeight;
    ghost var dMss: nat := 2 * dMsi + (if dOdd then 1 else 0);
    ghost var k2: nat := k - 2 * dMsi - (if dOdd then 1 else 0);
    ghost var was, rem, dp := r1[..top], UVal(r1[..top]), dv * HalfWeight(k2);
    RemainderBound(d, dMsi, dOdd, dv, k2, rem);
    TopDigits(was, k);
    assert was[..k / 2 + 2] == r1[..k / 2 + 2];
    assert forall i :: (k + 1) / 2 + 1 <= i < top ==> r1[i] == was[i];
    var n1 := RemainderPrefix(r1, k);
    HalfWeightAdd(dMss, k2);
    EstimateBrackets(n1, d1, rem, dv, HalfWeight(dMss), HalfWeight(k2), dp);
    q1 := Low(n1 / d1);
    if q1 / HALF != 0 {
      CapEstimate(q1, rem, dp);
      q1 := q1 - 1;
    }
    assert q1 / HALF == 0;  // the source's own check
  }

  /** The estimate, seen in the window of the remainder that it is subtracted from. */
  lemma WindowOfDigit(was: seq<word>, k: nat, k2: nat, dMsi: nat, dOdd: bool, dv: int, q1: int)
    requires k == k2 + 2 * dMsi + (if dOdd then 1 else 0) && k / 2 + 2 <= |was| && 0 < dv
    requires (q1 - 1) * (dv * HalfWeight(k2)) <= UVal(was) < (q1 + 1) * (dv * HalfWeight(k2))
    requires forall i :: (k + 1) / 2 + 1 <= i < |was| ==> was[i] == 0
    ensures
      var base, n := k2 / 2, Span(dMsi + 1, k2 % 2 == 1 || dOdd);
      var sd := Scale(k2 % 2 == 1) * dv;
      && 0 < sd && sd * Weight(base) == dv * HalfWeight(k2)
      && base + n <= |was| && (forall i :: base + n <= i < |was| ==> was[i] == 0)
      && (q1 - 1) * sd <= Window(was, base, n) < (q1 + 1) * sd
  {
    hide UVal, Weight, HalfWeight, Pow2;
    var base, n := k2 / 2, Span(dMsi + 1, k2 % 2 == 1 || dOdd);
    ShiftedDivisor(dv, k2);
    assert base + n == (k + 1) / 2 + 1;
    SplitAtWindow(was, base, n);
    WindowBrackets(UVal(was), Window(was, base, n), UVal(was[..base]), Weight(base),
                   Scale(k2 % 2 == 1) * dv, dv * HalfWeight(k2), q1);
  }

  lemma SliceOfSlice(s: seq<word>, top: nat, lo: nat, hi: nat)
    requires lo <= hi <= top <= |s|
    ensures s[..top][lo..hi] == s[lo..hi]
  {
  }

  /** One pass of the division loop: the next quotient half-digit is taken out of the remainder. */
  method QuotientDigit(r1: array<word>, d: array<word>, dMsi: nat, dOdd: bool, d1: int, k: nat,
                       ghost top: nat, ghost dv: int)
    returns (q: int)
    requires r1 != d && dMsi < d.Length && dv == UVal(d[..dMsi + 1]) && 0 < dv
    requires dOdd <==> d[dMsi] >= HALF
    requires k / 2 + 2 <= top <= r1.Length && 2 * dMsi + (if dOdd then 1 else 0) <= k
    requires WORD <= d1
    requires
      var dMss := 2 * dMsi + (if dOdd then 1 else 0);
      && d1 * HalfWeight(dMss) <= dv * WORD < (d1 + 1) * HalfWeight(dMss)
      && UVal(r1[..top]) < HALF * (dv * HalfWeight(k - dMss))
    modifies r1
    ensures 0 <= q < HALF
    ensures
      var dp := dv * HalfWeight(k - 2 * dMsi - (if dOdd then 1 else 0));
      && UVal(r1[..top]) == UVal(old(r1[..top])) - q * dp
      && 0 <= UVal(r1[..top]) < dp
  {
    hide UVal, Weight, HalfWeight, Pow2, Scale, Span;
    var k2: nat := k - 2 * dMsi - (if dOdd then 1 else 0);
    var base := k2 / 2;
    var odd2 := k2 % 2 == 1;
    ghost var was, dp := r1[..top], dv * HalfWeight(k2);
    assert d[..][..dMsi + 1] == d[..dMsi + 1];
    var q1 := EstimateDigit(r1, d[..], dMsi, dOdd, d1, k, top, dv);
    ghost var sd, n := Scale(odd2) * dv, Span(dMsi + 1, odd2 || dOdd);
    WindowOfDigit(was, k, k2, dMsi, dOdd, dv, q1);
    assert r1[..][..top] == was;
    SliceOfSlice(r1[..], top, base, base + n);
    q := SubtractDigit(r1, d, base, dMsi + 1, odd2, odd2 || dOdd, q1, sd);
    SliceOfSlice(r1[..], top, base, base + n);
    assert r1[..][..top] == r1[..top];
    AfterDigit(was, r1[..top], base, n, sd, dp, q);
  }

  // ---- The whole division ----

  method MostSignificant(a: array<word>) returns (i: nat)
    requires 0 < a.Length
    ensures i < a.Length && (i > 0 ==> a[i] != 0)
    ensures forall j :: i < j < a.Length ==> a[j] == 0
    ensures UVal(a[..i + 1]) == UVal(a[..])
  {
    i := a.Length - 1;
    while i > 0 && a[i] == 0
      invariant i < a.Length
      invariant forall j :: i < j < a.Length ==> a[j] == 0
    {
      i := i - 1;
    }
    UValSplit(a[..], i + 1);
    assert a[..][..i + 1] == a[..i + 1];
    UValZeros(a[..][i + 1..]);
  }

  /** Copying the low words of a value that fits c words, zero-filled above them. */
  lemma LowWords(r: seq<word>, s: seq<word>, c: nat)
    requires c <= |s| && UVal(s) < Weight(c)
    requires forall j :: 0 <= j < |r| ==> r[j] == (if j < c then s[j] else 0)
    ensures UVal(r) == UVal(s) % Weight(|r|)
  {
    hide UVal, Weight;
    if |r| <= c {
      assert r == s[..|r|];
      UValSplit(s, |r|);
    } else {
      UValHighZero(s, c);
      assert r[..c] == s[..c];
      UValSplit(r, c);
      UValZeros(r[c..]);
      UValBound(r);
      ModSmall(UVal(r), Weight(|r|));
    }
  }

  /** q[i] |= x, for a word whose low half is still clear. */
  function OrLow(w: word, x: int): word
    requires w % HALF == 0 && 0 <= x < HALF
  {
    w + x
  }

  /** The quotient words hold the digits found so far, and nothing below them. */
  ghost predicate QuotientSoFar(qs: seq<word>, digits: int, t: nat)
  {
    && UVal(qs) == (digits * HalfWeight(t)) % Weight(|qs|)
    && forall i :: 0 <= i < |qs| ==>
         (2 * i + 1 < t ==> qs[i] == 0) && (2 * i + 1 == t ==> qs[i] % HALF == 0)
  }

  lemma StoreDigit(qs: seq<word>, qs': seq<word>, digits: int, q: int, t: nat)
    requires 0 < t && QuotientSoFar(qs, digits, t) && 0 <= q < HALF
    requires
      var i := (t - 1) / 2;
      qs' == if i >= |qs| then qs
             else if (t - 1) % 2 == 1 then qs[i := q * HALF]
             else qs[i := OrLow(qs[i], q)]
    ensures QuotientSoFar(qs', digits * HALF + q, t - 1)
  {
    hide UVal, Weight, HalfWeight;
    var k2: nat := t - 1;
    var i := k2 / 2;
    HalfWeightFacts(k2);
    HalfWeightFacts(i);
    assert (digits * HALF + q) * HalfWeight(k2) == digits * HalfWeight(t) + q * HalfWeight(k2) by {
      DigitsArithmetic(digits, q, HalfWeight(k2));
    }
    StoreDigitValue(qs, qs', digits * HalfWeight(t), q, k2);
    assert UVal(qs') == ((digits * HALF + q) * HalfWeight(k2)) % Weight(|qs'|);
  }

  lemma DigitsArithmetic(digits: int, q: int, h: int)
    ensures (digits * HALF + q) * h == digits * (HALF * h) + q * h
  {
  }

  lemma StoreDigitValue(qs: seq<word>, qs': seq<word>, x: int, q: int, k2: nat)
    requires UVal(qs) == x % Weight(|qs|) && 0 <= q < HALF
    requires k2 / 2 < |qs| ==> qs[k2 / 2] % HALF == 0 && (k2 % 2 == 1 ==> qs[k2 / 2] == 0)
    requires
      var i := k2 / 2;
      qs' == if i >= |qs| then qs
             else if k2 % 2 == 1 then qs[i := q * HALF]
             else qs[i := OrLow(qs[i], q)]
    ensures UVal(qs') == (x + q * HalfWeight(k2)) % Weight(|qs|)
  {
    hide UVal, Weight, HalfWeight;
    var i := k2 / 2;
    var w := Weight(|qs|);
    if i < |qs| {
      var e: word := if k2 % 2 == 1 then q * HALF else OrLow(qs[i], q);
      assert qs' == qs[i := e];
      UValUpdate(qs, i, e);
      HalfWeightFacts(i);
      MulAssoc(q, HALF, Weight(i));
      UValBound(qs');
      AddedBelow(x, w, UVal(qs'), q * HalfWeight(k2));
    } else {
      HalfWeightFacts(|qs|);
      HalfWeightAdd(2 * |qs|, k2 - 2 * |qs|);
      AddedAbove(x, w, q, HalfWeight(k2 - 2 * |qs|));
    }
  }

  lemma AddedBelow(x: int, w: int, y: int, d: int)
    requires 0 <= y < w && y == x % w + d
    ensures y == (x + d) % w
  {
    DivBounds(x, w);
    DivIntro(x + d, w, x / w, y);
  }

  lemma AddedAbove(x: int, w: int, q: int, h: int)
    requires 0 < w
    ensures (x + q * (w * h)) % w == x % w
  {
    assert q * (w * h) == (q * h) * w;
    ModMultiple(x, q * h, w);
  }

  /** Taking one more digit out of the remainder keeps the division equation. */
  lemma DivisionStep(n: int, dv: int, digits: int, q: int, rem: int, rem': int, t: nat)
    requires 0 < t && n == digits * (dv * HalfWeight(t)) + rem
    requires rem' == rem - q * (dv * HalfWeight(t - 1))
    ensures n == (digits * HALF + q) * (dv * HalfWeight(t - 1)) + rem'
    ensures dv * HalfWeight(t) == HALF * (dv * HalfWeight(t - 1))
  {
    HalfWeightFacts(t - 1);
    var h := HalfWeight(t - 1);
    assert dv * (HALF * h) == HALF * (dv * h);
    DigitsArithmetic(digits, q, dv * h);
  }

  /** A dividend with no half-digit as high as the divisor's top one is smaller than the divisor. */
  lemma DividendBound(n: seq<word>, nMsi: nat, nMss: nat, d1: int, dv: int, dMss: nat)
    requires nMsi < |n| && nMss == 2 * nMsi + (if n[nMsi] >= HALF then 1 else 0)
    requires WORD <= d1 && d1 * HalfWeight(dMss) <= dv * WORD
    ensures HalfWeight(dMss) <= dv
    ensures nMss < dMss ==> UVal(n[..nMsi + 1]) < dv
    ensures dMss <= nMss ==> UVal(n[..nMsi + 1]) < dv * HalfWeight(nMss + 1 - dMss)
  {
    hide UVal;
    DivisorBound(n, nMsi, n[nMsi] >= HALF);
    MulMono(WORD, d1, HalfWeight(dMss));
    if nMss < dMss {
      Pow2Mono(16 * (nMss + 1), 16 * dMss);
    } else {
      var t: nat := nMss + 1 - dMss;
      HalfWeightAdd(dMss, t);
      MulMono(HalfWeight(dMss), dv, HalfWeight(t));
    }
  }

  lemma TopNonzero(d: seq<word>, i: nat)
    requires i < |d| && UVal(d) != 0 && UVal(d[..i + 1]) == UVal(d)
    requires i > 0 ==> d[i] != 0
    ensures d[i] != 0
  {
    WindowNext(d, 0, i);
    assert d[0..i] == d[..i] && d[0..i + 1] == d[..i + 1];
  }

  /** The common tail of both branches: the low words of src up to index msi, zeros above. */
  method CopyLow(r: array<word>, src: array<word>, msi: nat)
    requires r != src && msi < src.Length
    modifies r
    ensures forall j :: 0 <= j < r.Length ==> r[j] == (if j <= msi then src[j] else 0)
  {
    var rMsi := if r.Length - 1 < msi then r.Length - 1 else msi;
    for j := 0 to rMsi + 1
      invariant forall i :: 0 <= i < j ==> r[i] == src[i]
    {
      r[j] := src[j];
    }
    for j := rMsi + 1 to r.Length
      invariant forall i :: 0 <= i <= rMsi ==> r[i] == src[i]
      invariant forall i :: rMsi < i < j ==> r[i] == 0
    {
      r[j] := 0;
    }
  }

  /** The digit loop: from the top half-digit of the dividend down to that of the divisor. */
  method DivideLoop(n: array<word>, d: array<word>, q: array<word>, r1: array<word>,
                    nMsi: nat, nMss: nat, dMsi: nat, dOdd: bool, d1: int, ghost dv: int)
    returns (ghost digits: int)
    requires r1 != n && r1 != d && r1 != q && q != n && q != d
    requires nMsi < n.Length && r1.Length == n.Length + 1 && nMss / 2 == nMsi
    requires dMsi < d.Length && (dOdd <==> d[dMsi] >= HALF)
    requires dv == UVal(d[..dMsi + 1]) && 0 < dv && WORD <= d1
    requires
      var dMss := 2 * dMsi + (if dOdd then 1 else 0);
      && dMss <= nMss
      && d1 * HalfWeight(dMss) <= dv * WORD < (d1 + 1) * HalfWeight(dMss)
      && UVal(n[..nMsi + 1]) < dv * HalfWeight(nMss + 1 - dMss)
    requires forall j :: 0 <= j < q.Length ==> q[j] == 0
    modifies q, r1
    ensures UVal(n[..nMsi + 1]) == digits * dv + UVal(r1[..nMsi + 2])
    ensures UVal(r1[..nMsi + 2]) < dv
    ensures UVal(q[..]) == digits % Weight(q.Length)
  {
    hide UVal, Weight, HalfWeight;
    ghost var nv, top := UVal(n[..nMsi + 1]), nMsi + 2;
    r1[nMsi + 1] := 0;
    for k := nMsi + 1 downto 0
      invariant r1[nMsi + 1] == 0 && forall j :: 0 <= j < q.Length ==> q[j] == 0
      invariant forall j :: k <= j <= nMsi ==> r1[j] == n[j]
    {
      r1[k] := n[k];
    }
    ZeroAbove(r1[..top], n[..nMsi + 1]);
    var dMss: nat := 2 * dMsi + (if dOdd then 1 else 0);
    var k: int := nMss;
    digits := 0;
    UValZeros(q[..]);
    ModSmall(0, Weight(q.Length));
    while k >= dMss
      invariant dMss - 1 <= k <= nMss
      invariant 0 <= UVal(r1[..top]) < dv * HalfWeight(k + 1 - dMss)
      invariant nv == digits * (dv * HalfWeight(k + 1 - dMss)) + UVal(r1[..top])
      invariant QuotientSoFar(q[..], digits, k + 1 - dMss)
    {
      ghost var t: nat := k + 1 - dMss;
      ghost var rem, qs := UVal(r1[..top]), q[..];
      DivisionStep(nv, dv, digits, 0, rem, rem, t);
      var q1 := QuotientDigit(r1, d, dMsi, dOdd, d1, k, top, dv);
      var k2 := k - dMss;
      assert q[..] == qs;
      if k2 / 2 < q.Length {
        if k2 % 2 == 1 {
          q[k2 / 2] := q1 * HALF;
        } else {
          q[k2 / 2] := OrLow(q[k2 / 2], q1);
        }
      }
      StoreDigit(qs, q[..], digits, q1, t);
      DivisionStep(nv, dv, digits, q1, rem, UVal(r1[..top]), t);
      digits := digits * HALF + q1;
      k := k - 1;
    }
    HalfWeightFacts(0);
  }

  lemma ZeroAbove(s: seq<word>, n: seq<word>)
    requires |s| == |n| + 1 && s[|n|] == 0
    requires forall j :: 0 <= j < |n| ==> s[j] == n[j]
    ensures UVal(s) == UVal(n)
  {
    assert s == n + [0];
    UValSnoc(n, 0);
  }

  /** The outputs as they stand before the digits are found.  A remainder longer than the dividend
      is filled from whatever lies behind the dividend. */
  method InitializeOutputs(n: array<word>, q: array<word>, r: array<word>)
    requires q != n && r != n && q != r
    modifies q, r
    ensures forall j :: 0 <= j < q.Length ==> q[j] == 0
  {
    for i := 0 to q.Length
      invariant forall j :: 0 <= j < i ==> q[j] == 0
    {
      q[i] := 0;
    }
    for i := 0 to r.Length
      invariant forall j :: 0 <= j < q.Length ==> q[j] == 0
    {
      if i < n.Length {
        r[i] := n[i];
      } else {
        var stray: word := *;
        r[i] := stray;
      }
    }
  }

  /** The digit loop on a copy of the dividend, and the remainder taken from what is left of it. */
  method DivideDigits(n: array<word>, d: array<word>, q: array<word>, r: array<word>,
                      nMsi: nat, nMss: nat, dMsi: nat, dOdd: bool, d1: int, ghost dv: int)
    requires q != n && q != d && r != n && r != d && q != r
    requires nMsi < n.Length && nMss / 2 == nMsi
    requires dMsi < d.Length && (dOdd <==> d[dMsi] >= HALF)
    requires dv == UVal(d[..dMsi + 1]) == UVal(d[..]) && 0 < dv && WORD <= d1
    requires UVal(n[..nMsi + 1]) == UVal(n[..])
    requires
      var dMss := 2 * dMsi + (if dOdd then 1 else 0);
      && dMss <= nMss
      && d1 * HalfWeight(dMss) <= dv * WORD < (d1 + 1) * HalfWeight(dMss)
      && UVal(n[..nMsi + 1]) < dv * HalfWeight(nMss + 1 - dMss)
    requires forall j :: 0 <= j < q.Length ==> q[j] == 0
    modifies q, r
    ensures UVal(q[..]) == (UVal(n[..]) / UVal(d[..])) % Weight(q.Length)
    ensures UVal(r[..]) == (UVal(n[..]) % UVal(d[..])) % Weight(r.Length)
  {
    hide UVal, Weight, HalfWeight;
    ghost var ns, ds := n[..], d[..];
    var r1 := new word[n.Length + 1];
    ghost var digits := DivideLoop(n, d, q, r1, nMsi, nMss, dMsi, dOdd, d1, dv);
    CopyLow(r, r1, nMsi);
    UValBound(d[..dMsi + 1]);
    Pow2Mono(32 * (dMsi + 1), 32 * (nMsi + 1));
    WeightIsPow2(dMsi + 1);
    WeightIsPow2(nMsi + 1);
    DivisionResult(ns, ds, q[..], r[..], r1[..nMsi + 2], nMsi + 1, digits);
  }

  /** `iv_udiv`: quotient and remainder of word arrays of any lengths, each truncated to the
      words it is given.  A zero divisor traps in the source, so callers must exclude it. */
  method UDiv(n: array<word>, d: array<word>, q: array<word>, r: array<word>)
    requires 0 < n.Length && 0 < d.Length
    requires q != n && q != d && r != n && r != d && q != r
    requires UVal(d[..]) != 0
    modifies q, r
    ensures UVal(q[..]) == (UVal(n[..]) / UVal(d[..])) % Weight(q.Length)
    ensures UVal(r[..]) == (UVal(n[..]) % UVal(d[..])) % Weight(r.Length)
  {
    hide UVal, Weight, HalfWeight;
    ghost var ns, ds := n[..], d[..];
    var dMsi := MostSignificant(d);
    TopNonzero(ds, dMsi);
    var nMsi := MostSignificant(n);
    InitializeOutputs(n, q, r);
    var dOdd, d1 := DivisorPrefix(d, dMsi);
    var dMss: nat := 2 * dMsi + (if dOdd then 1 else 0);
    var nMss: nat := 2 * nMsi + (if n[nMsi] / HALF != 0 then 1 else 0);
    assert ns[..nMsi + 1] == n[..nMsi + 1] && ds[..dMsi + 1] == d[..dMsi + 1];
    DividendBound(ns, nMsi, nMss, d1, UVal(ds), dMss);
    if nMss < dMss {
      CopyLow(r, n, nMsi);
      UValZeros(q[..]);
      ModSmall(0, Weight(q.Length));
      UValBound(n[..nMsi + 1]);
      DivisionResult(ns, ds, q[..], r[..], ns, nMsi + 1, 0);
    } else {
      DivideDigits(n, d, q, r, nMsi, nMss, dMsi, dOdd, d1, UVal(ds));
    }
  }

  /** The division equation, with the remainder copied out of src, gives both truncated results. */
  lemma DivisionResult(ns: seq<word>, ds: seq<word>, qs: seq<word>, rs: seq<word>, src: seq<word>, c: nat,
                       digits: int)
    requires UVal(ns) == digits * UVal(ds) + UVal(src) && UVal(src) < UVal(ds)
    requires UVal(qs) == digits % Weight(|qs|)
    requires c <= |src| && UVal(src) < Weight(c)
    requires forall j :: 0 <= j < |rs| ==> rs[j] == (if j < c then src[j] else 0)
    ensures UVal(qs) == (UVal(ns) / UVal(ds)) % Weight(|qs|)
    ensures UVal(rs) == (UVal(ns) % UVal(ds)) % Weight(|rs|)
  {
    hide UVal, Weight;
    DivIntro(UVal(ns), UVal(ds), digits, UVal(src));
    LowWords(rs, src, c);
  }
}

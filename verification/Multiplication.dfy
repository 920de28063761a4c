/** Signed multiplication of word arrays (`iv_mult`): products are accumulated column by column
    in a pair of 64-bit integers, l1 + 2^32 * l2, with the top word of each operand signed. */
module Multiplication {
  import opened Powers
  import opened Words

  // ---- Sums of digits and columns ----

  /** Value of the first k digits, which may be negative. */
  function DigitSum(a: seq<int>, k: nat): int
    requires k <= |a|
  {
    if k == 0 then 0 else DigitSum(a, k - 1) + a[k - 1] * Weight(k - 1)
  }

  /** The words of a number with the top one read as signed. */
  function Digits(s: seq<word>): (a: seq<int>)
    requires 0 < |s|
    ensures |a| == |s|
  {
    s[..|s| - 1] + [Signed(s[|s| - 1])]
  }

  lemma {:induction false} DigitSumOfWords(s: seq<word>, a: seq<int>, k: nat)
    requires k <= |s| && k <= |a| && forall i :: 0 <= i < k ==> a[i] == s[i]
    ensures DigitSum(a, k) == UVal(s[..k])
  {
    if k != 0 {
      DigitSumOfWords(s, a, k - 1);
      assert s[..k][..k - 1] == s[..k - 1];
    }
  }

  lemma DigitsValue(s: seq<word>)
    requires 0 < |s|
    ensures DigitSum(Digits(s), |s|) == SVal(s)
  {
    DigitSumOfWords(s, Digits(s), |s| - 1);
    SValTop(s);
  }

  /** Column k of the product of a and the digits lo..hi of b. */
  function Column(a: seq<int>, b: seq<int>, lo: nat, hi: nat, k: nat): int
    requires lo <= hi <= |b|
    decreases hi
  {
    if lo == hi then 0
    else
      var i := hi - 1;
      Column(a, b, lo, i, k) + (if 0 <= k - i < |a| then a[k - i] * b[i] else 0)
  }

  /** Digits of b that do not meet a in column k contribute nothing. */
  lemma {:induction false} ColumnRange(a: seq<int>, b: seq<int>, lo: nat, hi: nat, k: nat)
    requires lo <= hi <= |b|
    requires lo == 0 || lo + |a| <= k + 1
    requires hi == |b| || k < hi
    ensures Column(a, b, 0, |b|, k) == Column(a, b, lo, hi, k)
  {
    ColumnTail(a, b, 0, hi, |b|, k);
    ColumnJoin(a, b, 0, lo, hi, k);
    ColumnTail(a, b, 0, 0, lo, k);
  }

  lemma {:induction false} ColumnTail(a: seq<int>, b: seq<int>, lo: nat, mid: nat, hi: nat, k: nat)
    requires lo <= mid <= hi <= |b|
    requires mid == hi || k < mid || hi + |a| <= k + 1
    ensures Column(a, b, lo, hi, k) == Column(a, b, lo, mid, k)
  {
    if mid < hi {
      ColumnTail(a, b, lo, mid, hi - 1, k);
    }
  }

  lemma {:induction false} ColumnJoin(a: seq<int>, b: seq<int>, lo: nat, mid: nat, hi: nat, k: nat)
    requires lo <= mid <= hi <= |b|
    ensures Column(a, b, lo, hi, k) == Column(a, b, lo, mid, k) + Column(a, b, mid, hi, k)
    decreases hi
  {
    if mid < hi {
      ColumnJoin(a, b, lo, mid, hi - 1, k);
    }
  }

  /** The first K columns of the product of a and the first m digits of b. */
  function ColumnSum(a: seq<int>, b: seq<int>, m: nat, K: nat): int
    requires m <= |b|
  {
    if K == 0 then 0
    else ColumnSum(a, b, m, K - 1) + Column(a, b, 0, m, K - 1) * Weight(K - 1)
  }

  /** a shifted up by m digits, cut at K digits. */
  function Shifted(a: seq<int>, m: nat, K: nat): int
  {
    if K == 0 then 0
    else Shifted(a, m, K - 1) + (if 0 <= K - 1 - m < |a| then a[K - 1 - m] else 0) * Weight(K - 1)
  }

  lemma {:induction false} ShiftedValue(a: seq<int>, m: nat, K: nat)
    ensures K <= m ==> Shifted(a, m, K) == 0
    ensures m <= K <= m + |a| ==> Shifted(a, m, K) == DigitSum(a, K - m) * Weight(m)
    ensures m + |a| <= K ==> Shifted(a, m, K) == DigitSum(a, |a|) * Weight(m)
  {
    if K != 0 {
      ShiftedValue(a, m, K - 1);
      var i := K - 1 - m;
      if 0 <= i < |a| {
        WeightAdd(i, m);
        MulSum(DigitSum(a, i), a[i], Weight(i), Weight(m));
      }
    }
  }

  lemma {:induction false} ColumnSumStep(a: seq<int>, b: seq<int>, m: nat, K: nat)
    requires m < |b|
    ensures ColumnSum(a, b, m + 1, K) == ColumnSum(a, b, m, K) + b[m] * Shifted(a, m, K)
  {
    if K != 0 {
      var k := K - 1;
      ColumnSumStep(a, b, m, k);
      var d := if 0 <= k - m < |a| then a[k - m] else 0;
      assert Column(a, b, 0, m + 1, k) == Column(a, b, 0, m, k) + d * b[m];
      ColumnArithmetic(Column(a, b, 0, m, k), d, b[m], Weight(k), Shifted(a, m, k));
    }
  }

  lemma ColumnArithmetic(c: int, d: int, e: int, w: int, s: int)
    ensures (c + d * e) * w + e * s == c * w + e * (s + d * w)
  {
    assert (c + d * e) * w == c * w + (d * e) * w;
    assert (d * e) * w == e * (d * w);
    assert e * (s + d * w) == e * s + e * (d * w);
  }

  /** Schoolbook multiplication: enough columns add up to the product. */
  lemma {:induction false} ColumnsAreProduct(a: seq<int>, b: seq<int>, m: nat, K: nat)
    requires m <= |b| && (m > 0 ==> |a| + m - 1 <= K)
    ensures ColumnSum(a, b, m, K) == DigitSum(a, |a|) * DigitSum(b, m)
  {
    if m == 0 {
      NoColumns(a, b, K);
    } else {
      ColumnsAreProduct(a, b, m - 1, K);
      ColumnSumStep(a, b, m - 1, K);
      ShiftedValue(a, m - 1, K);
      ProductArithmetic(DigitSum(a, |a|), DigitSum(b, m - 1), b[m - 1], Weight(m - 1));
    }
  }

  lemma ProductArithmetic(a: int, s: int, d: int, w: int)
    ensures a * s + d * (a * w) == a * (s + d * w)
  {
    assert a * (s + d * w) == a * s + a * (d * w);
    assert d * (a * w) == a * (d * w);
  }

  lemma {:induction false} NoColumns(a: seq<int>, b: seq<int>, K: nat)
    ensures ColumnSum(a, b, 0, K) == 0
  {
    if K != 0 {
      NoColumns(a, b, K - 1);
    }
  }

  /** Columns above the result only add multiples of its size. */
  lemma {:induction false} ColumnsCongruent(a: seq<int>, b: seq<int>, m: nat, k: nat, K: nat) returns (c: int)
    requires m <= |b| && k <= K
    ensures ColumnSum(a, b, m, K) == ColumnSum(a, b, m, k) + c * Weight(k)
    decreases K
  {
    if k == K {
      c := 0;
    } else {
      var c0 := ColumnsCongruent(a, b, m, k, K - 1);
      var x := Column(a, b, 0, m, K - 1);
      c := c0 + x * Weight(K - 1 - k);
      WeightAdd(K - 1 - k, k);
      MulSum(c0, x, Weight(K - 1 - k), Weight(k));
    }
  }

  // ---- The split accumulator ----

  /** Widths are `int`s, so no number has more words than this. */
  const MAX_WORDS: int := 0x400_0000

  /** Both accumulators stay far from overflow after c products in one column. */
  predicate Room(l1: int, l2: int, c: int) {
    && 0 <= c <= MAX_WORDS
    && 0 <= l1 < WORD + c * WORD
    && -0x1000_0000 - c * WORD <= l2 <= 0x1000_0000 + c * WORD
  }

  /** Adds a 64-bit product, given by its exact value, to the pair. */
  method Accumulate(p: int, l1: int, l2: int, ghost c: int) returns (h1: int, h2: int)
    requires -S64 <= p < W64 && Room(l1, l2, c) && c < MAX_WORDS
    ensures h1 + WORD * h2 == l1 + WORD * l2 + p
    ensures Room(h1, h2, c + 1)
  {
    h1 := (l1 + p % WORD) % W64;
    h2 := ToSlong(l2 + p / WORD);
  }

  function MultUU(a: word, b: word): (p: int)
    ensures p == a * b && 0 <= p < W64
  {
    ProductRange(a, b, WORD - 1, WORD - 1);
    ModSmall(a * b, W64);
    (a * b) % W64
  }

  function MultUS(a: word, b: word): (p: int)
    ensures p == a * Signed(b) && -S64 <= p < S64
  {
    SignedProductRange(a, Signed(b), WORD - 1);
    ToSlong(a * Signed(b))
  }

  function MultSS(a: word, b: word): (p: int)
    ensures p == Signed(a) * Signed(b) && -S64 <= p < S64
  {
    SignedProductRange(if Signed(a) < 0 then -Signed(a) else Signed(a), Signed(b), SIGN);
    MulNeg(Signed(a), Signed(b));
    ToSlong(Signed(a) * Signed(b))
  }

  lemma ProductRange(a: int, b: int, m: int, n: int)
    requires 0 <= a <= m && 0 <= b <= n
    ensures 0 <= a * b <= m * n
  {
    MulMono(a, m, b);
    MulMono(b, n, m);
    assert m * b == b * m && n * m == m * n;
  }

  lemma SignedProductRange(a: int, b: int, m: int)
    requires 0 <= a <= m < WORD && -SIGN <= b < SIGN
    ensures -(m * SIGN) <= a * b <= m * SIGN
    ensures b >= 0 ==> a * b <= m * (SIGN - 1)
  {
    if b >= 0 {
      ProductRange(a, b, m, SIGN - 1);
    } else {
      ProductRange(a, -b, m, SIGN);
      assert a * (-b) == -(a * b);
    }
  }

  lemma CarryStep(l1: int, l2: int, c: int)
    requires Room(l1, l2, c)
    ensures ToSlong(l2 + Low(l1 / WORD)) == l2 + l1 / WORD
    ensures l1 + WORD * l2 == Low(l1) + WORD * (l2 + l1 / WORD)
  {
  }

  /** Stores the low word of the column and carries the rest into the next one. */
  method CloseColumn(l1: int, l2: int, ghost c: int) returns (w: word, h1: int, h2: int)
    requires Room(l1, l2, c)
    ensures l1 + WORD * l2 == w + WORD * (h1 + WORD * h2)
    ensures Room(h1, h2, 0)
  {
    var t := ToSlong(l2 + Low(l1 / WORD));
    CarryStep(l1, l2, c);
    w := Low(l1);
    h1 := Low(t);
    h2 := t / WORD;
    assert t == WORD * h2 + h1;
  }

  /** After k columns the result words and the accumulator hold the exact sum of those columns. */
  ghost predicate Running(rs: seq<word>, a: seq<int>, b: seq<int>, k: nat, l1: int, l2: int)
  {
    && k <= |rs|
    && UVal(rs[..k]) + (l1 + WORD * l2) * Weight(k) == ColumnSum(a, b, |b|, k)
    && Room(l1, l2, 0)
  }

  lemma RunningStep(rs: seq<word>, a: seq<int>, b: seq<int>, k: nat, l1: int, l2: int,
                    rs': seq<word>, w: word, h1: int, h2: int)
    requires Running(rs, a, b, k, l1, l2) && k < |rs| && rs' == rs[k := w] && Room(h1, h2, 0)
    requires l1 + WORD * l2 + Column(a, b, 0, |b|, k) == w + WORD * (h1 + WORD * h2)
    ensures Running(rs', a, b, k + 1, h1, h2)
  {
    hide UVal, Column;
    assert rs'[..k + 1] == rs[..k] + [w];
    UValSnoc(rs[..k], w);
    WeightNext(k);
    hide Weight, ColumnSum;
    CarryColumn(l1 + WORD * l2, Column(a, b, 0, |b|, k), w, h1 + WORD * h2, Weight(k));
    assert ColumnSum(a, b, |b|, k + 1) == ColumnSum(a, b, |b|, k) + Column(a, b, 0, |b|, k) * Weight(k);
  }

  lemma CarryColumn(x: int, c: int, w: int, h: int, p: int)
    requires x + c == w + WORD * h
    ensures x * p + c * p == w * p + h * (WORD * p)
  {
    assert (x + c) * p == x * p + c * p;
    assert (w + WORD * h) * p == w * p + (WORD * h) * p;
    assert (WORD * h) * p == h * (WORD * p);
  }

  // ---- The multiplication itself ----

  /** One inner loop: the products of unsigned words lo..hi of b that meet a in column k. */
  method AccumulateUnsigned(a: array<word>, b: array<word>, k: nat, lo: nat, hi: nat, l1: int, l2: int, ghost c: nat)
    returns (h1: int, h2: int)
    requires 0 < a.Length && 0 < b.Length && lo <= hi < b.Length
    requires hi <= k + 1 && k < lo + a.Length - 1
    requires Room(l1, l2, c) && c + hi - lo <= MAX_WORDS
    ensures h1 + WORD * h2 == l1 + WORD * l2 + Column(Digits(a[..]), Digits(b[..]), lo, hi, k)
    ensures Room(h1, h2, c + hi - lo)
  {
    h1, h2 := l1, l2;
    for i := lo to hi
      invariant h1 + WORD * h2 == l1 + WORD * l2 + Column(Digits(a[..]), Digits(b[..]), lo, i, k)
      invariant Room(h1, h2, c + i - lo)
    {
      h1, h2 := Accumulate(MultUU(a[k - i], b[i]), h1, h2, c + i - lo);
    }
  }

  /** A column below both top words. */
  method LowColumn(a: array<word>, b: array<word>, r: array<word>, k: nat, l1: int, l2: int)
    returns (h1: int, h2: int)
    requires r != a && r != b && k < r.Length
    requires 0 < b.Length <= a.Length && b.Length <= MAX_WORDS && k < b.Length - 1
    requires Running(r[..], Digits(a[..]), Digits(b[..]), k, l1, l2)
    modifies r
    ensures Running(r[..], Digits(a[..]), Digits(b[..]), k + 1, h1, h2)
  {
    hide UVal, Weight, ColumnSum, Column, ToSlong;
    ghost var va, vb, s := Digits(a[..]), Digits(b[..]), r[..];
    h1, h2 := AccumulateUnsigned(a, b, k, 0, k + 1, l1, l2, 0);
    ColumnRange(va, vb, 0, k + 1, k);
    r[k], h1, h2 := CloseColumn(h1, h2, k + 1);
    RunningStep(s, va, vb, k, l1, l2, r[..], r[k], h1, h2);
  }

  /** A column that meets the top word of the shorter operand. */
  method MiddleColumn(a: array<word>, b: array<word>, r: array<word>, k: nat, l1: int, l2: int)
    returns (h1: int, h2: int)
    requires r != a && r != b && k < r.Length
    requires 0 < b.Length <= a.Length && b.Length <= MAX_WORDS && b.Length - 1 <= k < a.Length - 1
    requires Running(r[..], Digits(a[..]), Digits(b[..]), k, l1, l2)
    modifies r
    ensures Running(r[..], Digits(a[..]), Digits(b[..]), k + 1, h1, h2)
  {
    hide UVal, Weight, ColumnSum, Column, ToSlong;
    var m2 := b.Length;
    ghost var va, vb, s := Digits(a[..]), Digits(b[..]), r[..];
    h1, h2 := Accumulate(MultUS(a[k - m2 + 1], b[m2 - 1]), l1, l2, 0);
    h1, h2 := AccumulateUnsigned(a, b, k, 0, m2 - 1, h1, h2, 1);
    ColumnLast(va, vb, 0, k);
    r[k], h1, h2 := CloseColumn(h1, h2, m2);
    RunningStep(s, va, vb, k, l1, l2, r[..], r[k], h1, h2);
  }

  /** The products of a column that meets both top words. */
  method HighProducts(a: array<word>, b: array<word>, k: nat, l1: int, l2: int)
    returns (h1: int, h2: int, ghost c: int)
    requires 0 < b.Length <= a.Length && b.Length <= MAX_WORDS && a.Length - 1 <= k < a.Length + b.Length - 2
    requires Room(l1, l2, 0)
    ensures h1 + WORD * h2 == l1 + WORD * l2 + Column(Digits(a[..]), Digits(b[..]), 0, b.Length, k)
    ensures Room(h1, h2, c)
  {
    hide Column, ToSlong, Room;
    var m1, m2 := a.Length, b.Length;
    c := m2 - (k - (m1 - 1));
    h1, h2 := Accumulate(MultUS(a[k - m2 + 1], b[m2 - 1]), l1, l2, 0);
    h1, h2 := AccumulateUnsigned(a, b, k, k - (m1 - 1) + 1, m2 - 1, h1, h2, 1);
    h1, h2 := Accumulate(MultUS(b[k - m1 + 1], a[m1 - 1]), h1, h2, c - 1);
    HighColumnSum(Digits(a[..]), Digits(b[..]), k);
  }

  /** A column that meets both top words. */
  method HighColumn(a: array<word>, b: array<word>, r: array<word>, k: nat, l1: int, l2: int)
    returns (h1: int, h2: int)
    requires r != a && r != b && k < r.Length
    requires 0 < b.Length <= a.Length && b.Length <= MAX_WORDS && a.Length - 1 <= k < a.Length + b.Length - 2
    requires Running(r[..], Digits(a[..]), Digits(b[..]), k, l1, l2)
    modifies r
    ensures Running(r[..], Digits(a[..]), Digits(b[..]), k + 1, h1, h2)
  {
    hide UVal, Weight, ColumnSum, Column, Digits;
    ghost var va, vb, s := Digits(a[..]), Digits(b[..]), r[..];
    ghost var c;
    h1, h2, c := HighProducts(a, b, k, l1, l2);
    r[k], h1, h2 := CloseColumn(h1, h2, c);
    RunningStep(s, va, vb, k, l1, l2, r[..], r[k], h1, h2);
  }

  /** The columns below the last one.  a is the operand with at least as many words. */
  method LowColumns(a: array<word>, b: array<word>, r: array<word>) returns (l1: int, l2: int)
    requires r != a && r != b && 1 < r.Length
    requires 0 < b.Length <= a.Length && b.Length <= MAX_WORDS
    modifies r
    ensures Running(r[..], Digits(a[..]), Digits(b[..]),
                    if a.Length + b.Length - 2 < r.Length then a.Length + b.Length - 2 else r.Length, l1, l2)
  {
    hide Running;
    var m1, m2 := a.Length, b.Length;
    var t1 := if m2 - 1 < r.Length then m2 - 1 else r.Length;
    var t2 := if m1 - 1 < r.Length then m1 - 1 else r.Length;
    var t3 := if m1 + m2 - 2 < r.Length then m1 + m2 - 2 else r.Length;
    l1, l2 := 0, 0;
    RunningStart(r[..], Digits(a[..]), Digits(b[..]));
    for k := 0 to t1
      invariant Running(r[..], Digits(a[..]), Digits(b[..]), k, l1, l2)
    {
      l1, l2 := LowColumn(a, b, r, k, l1, l2);
    }
    for k := t1 to t2
      invariant Running(r[..], Digits(a[..]), Digits(b[..]), k, l1, l2)
    {
      l1, l2 := MiddleColumn(a, b, r, k, l1, l2);
    }
    for k := t2 to t3
      invariant Running(r[..], Digits(a[..]), Digits(b[..]), k, l1, l2)
    {
      l1, l2 := HighColumn(a, b, r, k, l1, l2);
    }
  }

  lemma RunningStart(rs: seq<word>, a: seq<int>, b: seq<int>)
    ensures Running(rs, a, b, 0, 0, 0)
  {
  }

  lemma ColumnLast(a: seq<int>, b: seq<int>, lo: nat, k: nat)
    requires lo < |b| && |b| - 1 <= k < |b| - 1 + |a|
    ensures Column(a, b, lo, |b|, k) == a[k - |b| + 1] * b[|b| - 1] + Column(a, b, lo, |b| - 1, k)
  {
  }

  /** A column where both top words take part. */
  lemma HighColumnSum(a: seq<int>, b: seq<int>, k: nat)
    requires 0 < |b| <= |a| && |a| - 1 <= k < |a| + |b| - 2
    ensures Column(a, b, 0, |b|, k)
         == a[k - |b| + 1] * b[|b| - 1] + Column(a, b, k - |a| + 2, |b| - 1, k) + b[k - |a| + 1] * a[|a| - 1]
  {
    var lo := k - |a| + 1;
    ColumnRange(a, b, lo, |b|, k);
    ColumnLast(a, b, lo, k);
    ColumnJoin(a, b, lo, lo + 1, |b| - 1, k);
    assert Column(a, b, lo, lo + 1, k) == a[|a| - 1] * b[lo];
  }

  lemma DigitsTop(s: seq<word>)
    requires 0 < |s|
    ensures Digits(s)[|s| - 1] == Signed(s[|s| - 1])
  {
  }

  lemma TopColumn(a: seq<int>, b: seq<int>)
    requires 0 < |a| && 0 < |b|
    ensures Column(a, b, 0, |b|, |a| + |b| - 2) == a[|a| - 1] * b[|b| - 1]
  {
    ColumnRange(a, b, |b| - 1, |b|, |a| + |b| - 2);
    ColumnLast(a, b, |b| - 1, |a| + |b| - 2);
  }

  /** All columns have been added: result words and carry hold the product. */
  lemma LastColumn(s: seq<word>, a: seq<word>, b: seq<word>, k: nat, l1: int, l2: int, s': seq<word>, carry: int)
    requires 0 < |a| && 0 < |b| && k == |a| + |b| - 2 && k < |s| == |s'| && s' == s[k := s'[k]]
    requires Running(s, Digits(a), Digits(b), k, l1, l2)
    requires l1 + WORD * l2 + Column(Digits(a), Digits(b), 0, |b|, k) == s'[k] + WORD * carry
    ensures UVal(s'[..k + 1]) + carry * Weight(k + 1) == SVal(a) * SVal(b)
  {
    hide UVal, Column, SVal, Digits;
    var va, vb := Digits(a), Digits(b);
    assert s'[..k + 1] == s[..k] + [s'[k]];
    UValSnoc(s[..k], s'[k]);
    WeightNext(k);
    hide Weight, ColumnSum;
    CarryColumn(l1 + WORD * l2, Column(va, vb, 0, |b|, k), s'[k], carry, Weight(k));
    NextColumn(va, vb, k);
    ColumnsAreProduct(va, vb, |b|, k + 1);
    DigitsValue(a);
    DigitsValue(b);
  }

  lemma NextColumn(a: seq<int>, b: seq<int>, k: nat)
    ensures ColumnSum(a, b, |b|, k + 1) == ColumnSum(a, b, |b|, k) + Column(a, b, 0, |b|, k) * Weight(k)
  {
  }

  /** A product of two's-complement numbers needs no more than both widths together. */
  lemma CarryFits(a: seq<word>, b: seq<word>, k: nat, u: int, carry: int)
    requires 0 < |a| && 0 < |b| && k == |a| + |b| - 2
    requires 0 <= u < Weight(k + 1) && u + carry * Weight(k + 1) == SVal(a) * SVal(b)
    ensures -SIGN <= carry < SIGN
  {
    hide SVal, Weight;
    SValRange(a);
    SValRange(b);
    var p, q, w := Pow2(32 * |a| - 1), Pow2(32 * |b| - 1), Weight(k + 1);
    WeightAdd(|a|, |b|);
    WeightNext(k + 1);
    DoubleBoth(p, q);
    ProductMagnitude(SVal(a), SVal(b), p, q);
    CarryMagnitude(u, carry, w);
  }

  lemma DoubleBoth(p: int, q: int)
    ensures (2 * p) * (2 * q) == 4 * (p * q)
  {
  }

  lemma ProductMagnitude(x: int, y: int, p: int, q: int)
    requires -p <= x <= p && -q <= y <= q
    ensures -(p * q) <= x * y <= p * q
  {
    var ax, ay := if x < 0 then -x else x, if y < 0 then -y else y;
    ProductRange(ax, ay, p, q);
    assert x * y == ax * ay || x * y == -(ax * ay) by {
      assert (-x) * y == -(x * y) && x * (-y) == -(x * y) && (-x) * (-y) == x * y;
    }
  }

  lemma CarryMagnitude(u: int, carry: int, w: int)
    requires 0 <= u < w && -(0x4000_0000 * w) <= u + carry * w <= 0x4000_0000 * w
    ensures -SIGN <= carry < SIGN
  {
    if carry < -SIGN {
      MulMono(carry, -SIGN, w);
    } else if SIGN <= carry {
      MulMono(SIGN, carry, w);
    }
  }

  lemma FullProduct(rs: seq<word>, t: seq<word>, a: seq<word>, b: seq<word>, k: nat, carry: int)
    requires 0 < |a| && 0 < |b| && k == |a| + |b| - 2 && k + 2 <= |rs| && |t| == |rs|
    requires UVal(t[..k + 1]) + carry * Weight(k + 1) == SVal(a) * SVal(b)
    requires rs[..k + 1] == t[..k + 1] && rs[k + 1] == Low(carry)
    requires forall j :: k + 2 <= j < |rs| ==> rs[j] == Extension(rs[k + 1] >= SIGN)
    ensures SVal(rs) == SVal(a) * SVal(b)
    ensures SVal(rs) == Wrap(SVal(a) * SVal(b), 32 * |rs|)
  {
    hide SVal, UVal, Weight, Pow2, Wrap;
    UValBound(t[..k + 1]);
    CarryFits(a, b, k, UVal(t[..k + 1]), carry);
    var head := rs[..k + 2];
    assert head[..k + 1] == t[..k + 1];
    SValTop(head);
    SignExtend(head, rs);
    SValRange(rs);
    WrapFits(SVal(rs), 32 * |rs|);
  }

  lemma TruncatedProduct(rs: seq<word>, product: int, carry: int)
    requires 0 < |rs| && UVal(rs) + carry * Weight(|rs|) == product
    ensures SVal(rs) == Wrap(product, 32 * |rs|)
  {
    hide SVal, UVal, Weight;
    UValBound(rs);
    ModMultiple(UVal(rs), carry, Weight(|rs|));
    ModSmall(UVal(rs), Weight(|rs|));
    SValIsWrap(rs, product);
  }

  /** Cutting the product off below its last column. */
  lemma FewColumns(rs: seq<word>, a: seq<word>, b: seq<word>, l1: int, l2: int)
    requires 0 < |a| && 0 < |b| && 0 < |rs| <= |a| + |b| - 2
    requires Running(rs, Digits(a), Digits(b), |rs|, l1, l2)
    ensures SVal(rs) == Wrap(SVal(a) * SVal(b), 32 * |rs|)
  {
    hide SVal, UVal, Weight, ColumnSum, Digits;
    var va, vb, n := Digits(a), Digits(b), |rs|;
    var c := ColumnsCongruent(va, vb, |b|, n, |a| + |b| - 1);
    ColumnsAreProduct(va, vb, |b|, |a| + |b| - 1);
    DigitsValue(a);
    DigitsValue(b);
    assert rs[..n] == rs;
    assert (l1 + WORD * l2 + c) * Weight(n) == (l1 + WORD * l2) * Weight(n) + c * Weight(n);
    TruncatedProduct(rs, SVal(a) * SVal(b), l1 + WORD * l2 + c);
  }

  /** The two words above the columns: the product of the top words and what was carried. */
  method TopWords(a: array<word>, b: array<word>, r: array<word>, l1: int, l2: int)
    requires r != a && r != b && a.Length + b.Length - 1 <= r.Length
    requires 0 < b.Length <= a.Length && b.Length <= MAX_WORDS
    requires Running(r[..], Digits(a[..]), Digits(b[..]), a.Length + b.Length - 2, l1, l2)
    modifies r
    ensures SVal(r[..]) == Wrap(SVal(a[..]) * SVal(b[..]), 32 * r.Length)
    ensures a.Length + b.Length <= r.Length ==> SVal(r[..]) == SVal(a[..]) * SVal(b[..])
  {
    hide UVal, Weight, ColumnSum, Column, SVal, Digits, Wrap, ToSlong, Room;
    var m1, m2 := a.Length, b.Length;
    var k: nat := m1 + m2 - 2;
    ghost var s := r[..];
    DigitsTop(a[..]);
    DigitsTop(b[..]);
    TopColumn(Digits(a[..]), Digits(b[..]));
    var h1, h2 := Accumulate(MultSS(a[m1 - 1], b[m2 - 1]), l1, l2, 0);
    r[k] := Low(h1);
    ghost var t, carry := r[..], h2 + h1 / WORD;
    CarryStep(h1, h2, 1);
    LastColumn(s, a[..], b[..], k, l1, l2, t, carry);
    if m1 + m2 <= r.Length {
      h2 := ToSlong(h2 + Low(h1 / WORD));
      r[k + 1] := Low(h2);
      Extend(r, k + 2, Extension(r[k + 1] >= SIGN));
      FullProduct(r[..], t, a[..], b[..], k, carry);
    } else {
      assert t[..k + 1] == t;
      TruncatedProduct(t, SVal(a[..]) * SVal(b[..]), carry);
    }
  }

  /** `iv_mult`: the signed product of operands of any lengths, wrapped to the words of r.
      Nothing is lost when r has as many words as both operands together. */
  method Multiply(op1: array<word>, op2: array<word>, r: array<word>)
    requires r != op1 && r != op2 && 0 < r.Length
    requires 0 < op1.Length <= MAX_WORDS && 0 < op2.Length <= MAX_WORDS
    modifies r
    ensures SVal(r[..]) == Wrap(SVal(op1[..]) * SVal(op2[..]), 32 * r.Length)
    ensures op1.Length + op2.Length <= r.Length ==> SVal(r[..]) == SVal(op1[..]) * SVal(op2[..])
  {
    hide UVal, Weight, ColumnSum, Column, SVal, Digits, Wrap;
    ghost var x, y := op1[..], op2[..];
    if r.Length == 1 {
      r[0] := Low(Signed(op1[0]) * Signed(op2[0]));
      OneWordProduct(x, y, r[..]);
    } else if op1.Length == 1 && op2.Length == 1 {
      OneWordValue(x);
      OneWordValue(y);
      ProductMagnitude(SVal(x), SVal(y), SIGN, SIGN);
      AssignInt64(r, Signed(op1[0]) * Signed(op2[0]));
      TwoWordsHold(SVal(x) * SVal(y), r.Length);
    } else {
      var a := if op1.Length >= op2.Length then op1 else op2;
      var b := if op1.Length >= op2.Length then op2 else op1;
      var l1, l2 := LowColumns(a, b, r);
      if a.Length + b.Length - 1 <= r.Length {
        TopWords(a, b, r, l1, l2);
      } else {
        FewColumns(r[..], a[..], b[..], l1, l2);
      }
    }
  }

  lemma OneWordValue(s: seq<word>)
    requires |s| == 1
    ensures SVal(s) == Signed(s[0])
  {
    OneWord(s, s[0]);
  }

  lemma TwoWordsHold(x: int, n: nat)
    requires -(SIGN * SIGN) <= x <= SIGN * SIGN && 2 <= n
    ensures Wrap(x, 32 * n) == x
  {
    Pow2Add(31, 32);
    Pow2Values();
    Pow2Mono(63, 32 * n - 1);
    WrapFits(x, 32 * n);
  }

  /** The low word of a product depends only on the low words of the operands. */
  lemma OneWordProduct(a: seq<word>, b: seq<word>, rs: seq<word>)
    requires 0 < |a| && 0 < |b| && |rs| == 1 && rs[0] == Low(Signed(a[0]) * Signed(b[0]))
    ensures SVal(rs) == Wrap(SVal(a) * SVal(b), 32)
  {
    hide SVal, Wrap;
    var j := LowWordOf(a);
    var k := LowWordOf(b);
    var x, y := Signed(a[0]), Signed(b[0]);
    var m := x * k + y * j + WORD * (j * k);
    LowProduct(x, y, j, k, m);
    Pow2Values();
    WrapMultiple(x * y, m, 32);
    OneWord(rs, x * y);
  }

  lemma LowProduct(x: int, y: int, j: int, k: int, m: int)
    requires m == x * k + y * j + WORD * (j * k)
    ensures (x + j * WORD) * (y + k * WORD) == x * y + m * WORD
  {
    assert (x + j * WORD) * (y + k * WORD) == x * y + x * (k * WORD) + (j * WORD) * y + (j * WORD) * (k * WORD);
    assert x * (k * WORD) == (x * k) * WORD && (j * WORD) * y == (y * j) * WORD;
    assert (j * WORD) * (k * WORD) == (WORD * (j * k)) * WORD;
  }

  lemma LowWordOf(s: seq<word>) returns (j: int)
    requires 0 < |s|
    ensures SVal(s) == Signed(s[0]) + j * WORD
  {
    UValSplit(s, 1);
    OneWord(s[..1], s[0]);
    WeightNext(0);
    Pow2Add(32, 32 * (|s| - 1));
    Pow2Values();
    assert Weight(|s|) == WORD * Pow2(32 * (|s| - 1));
    j := UVal(s[1..]) - (if s[|s| - 1] < SIGN then 0 else Pow2(32 * (|s| - 1))) + (if s[0] < SIGN then 0 else 1);
  }
}

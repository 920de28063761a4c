/** Shifts, bit tests and carries over word arrays: the helpers the fixed-point conversion calls. */
module Bits {
  import opened Powers
  import opened Words

  // ---- The infinite sign extension of a number ----

  function IsNegative(s: seq<word>): bool
    requires 0 < |s|
  {
    s[|s| - 1] >= SIGN
  }

  function ExtWord(s: seq<word>, i: nat): word
    requires 0 < |s|
  {
    if i < |s| then s[i] else Extension(IsNegative(s))
  }

  function ExtSlice(s: seq<word>, i: nat, n: nat): (t: seq<word>)
    requires 0 < |s|
    ensures |t| == n && forall j :: 0 <= j < n ==> t[j] == ExtWord(s, i + j)
  {
    if n == 0 then [] else ExtSlice(s, i, n - 1) + [ExtWord(s, i + n - 1)]
  }

  lemma SignExtended(s: seq<word>, n: nat)
    requires 0 < |s| <= n
    ensures UVal(ExtSlice(s, 0, n)) == SVal(s) + (if IsNegative(s) then Weight(n) else 0)
  {
    hide UVal, Weight, SVal, ExtSlice;
    var e := ExtSlice(s, 0, n);
    assert e[..|s|] == s;
    SignExtend(s, e);
    SValOf(e);
  }

  /** Words i.. of a sign-extended number are those of the number divided by their weight. */
  lemma WordsFrom(s: seq<word>, i: nat, t: seq<word>)
    requires 0 < |s| && forall j :: 0 <= j < |t| ==> t[j] == ExtWord(s, i + j)
    ensures UVal(t) == (SVal(s) / Weight(i)) % Weight(|t|)
  {
    hide UVal, Weight, SVal, ExtSlice, IsNegative;
    var n := i + |t| + |s|;
    var e := ExtSlice(s, 0, n);
    SignExtended(s, n);
    assert e[i..][..|t|] == t;
    hide ExtWord;
    UValSplit(e, i);
    UValSplit(e[i..], |t|);
    WeightAdd(i, n - i);
    WeightAdd(|t|, |s|);
    var k := if IsNegative(s) then 1 else 0;
    DropHigh(SVal(s), k, Weight(i), Weight(n - i), Weight(|t|), Weight(|s|));
  }

  lemma SValOf(s: seq<word>)
    requires 0 < |s|
    ensures UVal(s) == SVal(s) + (if IsNegative(s) then Weight(|s|) else 0)
  {
  }

  /** A multiple of a*b*c is invisible after dividing by a and reducing modulo b. */
  lemma DropHigh(x: int, k: int, a: int, bc: int, b: int, c: int)
    requires 0 < a && 0 < b && 0 < c && bc == b * c
    ensures ((x + k * (a * bc)) / a) % b == (x / a) % b
  {
    assert k * (a * bc) == (k * bc) * a;
    ModMultiple(x, k * bc, a);
    assert k * bc == (k * c) * b;
    ModMultiple(x / a, k * c, b);
  }

  // ---- Shifting right ----

  /** The low bits of hi over the high bits of lo: what `lo >> s | hi << (32 - s)` makes of two words. */
  function Funnel(hi: word, lo: word, s: nat): (w: word)
    requires 0 < s < 32
  {
    FunnelFits(hi, lo, s);
    lo / Pow2(s) + (hi % Pow2(s)) * Pow2(32 - s)
  }

  /** The two halves of a funnel do not overlap, so adding them is or-ing them. */
  lemma FunnelFits(hi: word, lo: word, s: nat)
    requires 0 < s < 32
    ensures 0 <= lo / Pow2(s) < Pow2(32 - s)
    ensures (hi * Pow2(32 - s)) % WORD == (hi % Pow2(s)) * Pow2(32 - s)
    ensures 0 <= lo / Pow2(s) + (hi % Pow2(s)) * Pow2(32 - s) < WORD
  {
    hide Pow2;
    Pow2Add(s, 32 - s);
    Pow2Values();
    HighPart(lo, Pow2(s), Pow2(32 - s));
    LowPart(hi, Pow2(s), Pow2(32 - s));
  }

  lemma HighPart(lo: int, p: int, q: int)
    requires 0 < p && 0 < q && 0 <= lo < p * q
    ensures 0 <= lo / p < q
  {
    DivBounds(lo, p);
    assert q * p == p * q;
    MulCancelLt(lo / p, q, p);
    if lo / p < 0 {
      MulMono(lo / p + 1, 0, p);
    }
  }

  lemma LowPart(hi: int, p: int, q: int)
    requires 0 < p && 0 < q && p * q == WORD
    ensures (hi * q) % WORD == (hi % p) * q
    ensures 0 <= (hi % p) * q <= WORD - q
  {
    var h, l := hi / p, hi % p;
    DivBounds(hi, p);
    LowPartProducts(h, l, p, q);
    MulMono(l + 1, p, q);
    assert (l + 1) * q == l * q + q;
    MulMono(0, l, q);
    DivIntro(hi * q, WORD, h, l * q);
  }

  lemma LowPartProducts(h: int, l: int, p: int, q: int)
    ensures (h * p + l) * q == h * (p * q) + l * q
  {
    MulAssoc(h, p, q);
  }

  /** A row of funnels over n + 1 words divides them by 2^s. */
  lemma {:induction false} FunnelRow(x: seq<word>, w: seq<word>, s: nat, k: nat)
    requires 0 < s < 32 && |x| == |w| + 1 && k <= |w|
    requires forall i :: 0 <= i < |w| ==> w[i] == Funnel(x[i + 1], x[i], s)
    ensures UVal(w[..k]) * Pow2(s) + x[0] % Pow2(s) == UVal(x[..k]) + (x[k] % Pow2(s)) * Weight(k)
  {
    hide UVal, Weight, Pow2;
    if k == 0 {
      EmptyRow(x, w);
    } else {
      var j := k - 1;
      FunnelRow(x, w, s, j);
      assert w[..k] == w[..j] + [w[j]] && x[..k] == x[..j] + [x[j]];
      UValSnoc(w[..j], w[j]);
      UValSnoc(x[..j], x[j]);
      WeightNext(j);
      Pow2Add(s, 32 - s);
      Pow2Values();
      DivBounds(x[j], Pow2(s));
      FunnelStep(UVal(w[..j]), w[j], x[j] / Pow2(s), x[j] % Pow2(s), x[k] % Pow2(s),
                 Pow2(s), Pow2(32 - s), Weight(j));
    }
  }

  lemma EmptyRow(x: seq<word>, w: seq<word>)
    ensures UVal(w[..0]) == 0 && UVal(x[..0]) == 0 && Weight(0) == 1
  {
    WeightNext(0);
  }

  lemma FunnelStep(u: int, w: int, hi: int, lo: int, next: int, p: int, q: int, wt: int)
    requires p * q == WORD && w == hi + next * q
    ensures (u + w * wt) * p == u * p + (hi * p) * wt + next * (WORD * wt)
    ensures (hi * p + lo) * wt == (hi * p) * wt + lo * wt
  {
    assert (u + w * wt) * p == u * p + (w * wt) * p;
    assert (w * wt) * p == (w * p) * wt;
    assert w * p == hi * p + (next * q) * p;
    assert (next * q) * p == next * (p * q);
    assert (hi * p + next * WORD) * wt == (hi * p) * wt + (next * WORD) * wt;
    assert (next * WORD) * wt == next * (WORD * wt);
  }

  lemma ShiftBits(x: seq<word>, w: seq<word>, s: nat)
    requires 0 < s < 32 && |x| == |w| + 1
    requires forall i :: 0 <= i < |w| ==> w[i] == Funnel(x[i + 1], x[i], s)
    ensures UVal(w) == (UVal(x) / Pow2(s)) % Weight(|w|)
  {
    hide UVal, Weight, Pow2, Funnel;
    var n, p := |w|, Pow2(s);
    FunnelRow(x, w, s, n);
    assert w[..n] == w;
    assert x == x[..n] + [x[n]];
    UValSnoc(x[..n], x[n]);
    DivBounds(x[n], p);
    DivBounds(x[0], p);
    var top := x[n] / p;
    ShiftTop(UVal(w), top, x[n] % p, p, Weight(n));
    DivIntro(UVal(x), p, UVal(w) + top * Weight(n), x[0] % p);
    UValBound(w);
    ModMultiple(UVal(w), top, Weight(n));
    ModSmall(UVal(w), Weight(n));
  }

  lemma ShiftTop(u: int, top: int, lo: int, p: int, wt: int)
    ensures (u + top * wt) * p == u * p + (top * p) * wt
    ensures (top * p + lo) * wt == (top * p) * wt + lo * wt
  {
    assert (u + top * wt) * p == u * p + (top * wt) * p;
    assert (top * wt) * p == (top * p) * wt;
  }

  /** The number divided by a power of two that is not a whole number of words. */
  lemma ShiftedRight(op: seq<word>, sh: nat, s: nat, w: seq<word>)
    requires 0 < |op| && 0 < |w| && 0 < s < 32
    requires forall i :: 0 <= i < |w| ==> w[i] == Funnel(ExtWord(op, i + sh + 1), ExtWord(op, i + sh), s)
    ensures SVal(w) == Wrap(SVal(op) / Pow2(32 * sh + s), 32 * |w|)
  {
    var n, v := |w|, SVal(op);
    var x := ExtSlice(op, sh, n + 1);
    hide UVal, SVal, Wrap, ExtWord, Pow2, Funnel;
    WordsFrom(op, sh, x);
    ShiftBits(x, w, s);
    var q := v / Weight(sh);
    WeightNext(n);
    Pow2Add(s, 32 - s);
    Pow2Values();
    DivBounds(q, Weight(n + 1));
    var k := q / Weight(n + 1);
    WordIsPower(s, Weight(n));
    assert UVal(x) == q + (-k) * (Pow2(s) * (Weight(n) * Pow2(32 - s))) by {
      MulNeg(k, Weight(n + 1));
    }
    DropHigh(q, -k, Pow2(s), Weight(n) * Pow2(32 - s), Weight(n), Pow2(32 - s));
    DivDiv(v, Weight(sh), Pow2(s));
    Pow2Add(32 * sh, s);
    SValIsWrap(w, v / Pow2(32 * sh + s));
  }

  lemma WordIsPower(s: nat, w: int)
    requires s < 32
    ensures WORD * w == Pow2(s) * (w * Pow2(32 - s))
  {
    hide Pow2;
    Pow2Add(s, 32 - s);
    Pow2Values();
    Regroup(Pow2(s), w, Pow2(32 - s));
  }

  lemma Regroup(p: int, w: int, q: int)
    ensures p * (w * q) == (p * q) * w
  {
  }

  /** Whole words, or everything shifted out. */
  lemma ShiftedWords(op: seq<word>, b: nat, sh: nat, w: seq<word>)
    requires 0 < |op| && 0 < |w|
    requires b == 32 * sh || (sh == |op| && 32 * sh <= b)
    requires forall i :: 0 <= i < |w| ==> w[i] == ExtWord(op, i + sh)
    ensures SVal(w) == Wrap(SVal(op) / Pow2(b), 32 * |w|)
  {
    hide UVal, SVal, Wrap, ExtWord;
    WordsFrom(op, sh, w);
    if b != 32 * sh {
      SValRange(op);
      Pow2Mono(32 * |op|, b);
      AllShiftedOut(SVal(op), Weight(sh));
      AllShiftedOut(SVal(op), Pow2(b));
    }
    SValIsWrap(w, SVal(op) / Pow2(b));
  }

  lemma AllShiftedOut(x: int, p: int)
    requires 0 < p && -p <= x < p
    ensures x / p == (if x < 0 then -1 else 0)
  {
    if x < 0 {
      DivUnique(x, p, -1);
    } else {
      DivUnique(x, p, 0);
    }
  }

  /** `iv_const_shift_r`: the number divided by 2^b towards minus infinity, wrapped to the words of r. */
  method ShiftRight(op: array<word>, b: nat, r: array<word>)
    requires r != op && 0 < op.Length && 0 < r.Length
    modifies r
    ensures SVal(r[..]) == Wrap(SVal(op[..]) / Pow2(b), 32 * r.Length)
  {
    hide SVal, UVal, Wrap, Weight, Pow2;
    var n := op.Length;
    if b == 0 {
      CopySigned(op, r);
      ShiftedWords(op[..], 0, 0, r[..]);
    } else {
      var s31 := b % 32;
      var ishift := if b / 32 > n then n else b / 32;
      var ext := Extension(op[n - 1] >= SIGN);
      if s31 != 0 && ishift != n {
        var lw := if ishift < n then op[ishift] else ext;
        for i := 0 to r.Length
          invariant lw == ExtWord(op[..], i + ishift)
          invariant forall j :: 0 <= j < i ==>
            r[j] == Funnel(ExtWord(op[..], j + ishift + 1), ExtWord(op[..], j + ishift), s31)
        {
          var hw := if i + ishift + 1 < n then op[i + ishift + 1] else ext;
          r[i] := Funnel(hw, lw, s31);
          lw := hw;
        }
        ShiftedRight(op[..], ishift, s31, r[..]);
      } else {
        for i := 0 to r.Length
          invariant forall j :: 0 <= j < i ==> r[j] == ExtWord(op[..], j + ishift)
        {
          r[i] := if i + ishift < n then op[i + ishift] else ext;
        }
        ShiftedWords(op[..], b, ishift, r[..]);
      }
    }
  }

  /** Copies the words that fit and sign-extends the rest. */
  method CopySigned(op: array<word>, r: array<word>)
    requires r != op && 0 < op.Length && 0 < r.Length
    modifies r
    ensures forall i :: 0 <= i < r.Length ==> r[i] == ExtWord(op[..], i)
  {
    var m := if op.Length < r.Length then op.Length else r.Length;
    for i := 0 to m
      invariant forall j :: 0 <= j < i ==> r[j] == op[j]
    {
      r[i] := op[i];
    }
    Extend(r, m, Extension(r[m - 1] >= SIGN));
  }

  /** Assignment between word counts keeps the number modulo the target's size. */
  method Assign(op: array<word>, r: array<word>)
    requires r != op && 0 < op.Length && 0 < r.Length
    modifies r
    ensures SVal(r[..]) == Wrap(SVal(op[..]), 32 * r.Length)
  {
    hide SVal, UVal, Wrap, Weight;
    CopySigned(op, r);
    ShiftedWords(op[..], 0, 0, r[..]);
    assert SVal(op[..]) / Pow2(0) == SVal(op[..]);
  }

  // ---- Shifting left ----

  /** A row of funnels taken from below multiplies the first k words by 2^s. */
  lemma {:induction false} SpreadRow(x: seq<word>, w: seq<word>, s: nat, k: nat)
    requires 0 < s < 32 && k <= |w| <= |x|
    requires forall i :: 0 <= i < |w| ==> w[i] == Funnel(x[i], if i > 0 then x[i - 1] else 0, 32 - s)
    ensures UVal(w[..k]) + (if k > 0 then x[k - 1] / Pow2(32 - s) else 0) * Weight(k) == UVal(x[..k]) * Pow2(s)
  {
    hide UVal, Weight, Pow2, Funnel;
    if k == 0 {
      EmptyRow(x, w);
    } else {
      var j := k - 1;
      SpreadRow(x, w, s, j);
      assert w[..k] == w[..j] + [w[j]] && x[..k] == x[..j] + [x[j]];
      UValSnoc(w[..j], w[j]);
      UValSnoc(x[..j], x[j]);
      WeightNext(j);
      Pow2Add(s, 32 - s);
      Pow2Values();
      var below := if j > 0 then x[j - 1] else 0;
      var hi, lo, prev := SpreadWord(x[j], below, s);
      assert w[j] == Funnel(x[j], below, 32 - s);
      SpreadStep(w[j], hi, lo, prev, UVal(x[..j]), Pow2(s), Pow2(32 - s), Weight(j));
    }
  }

  /** A funnelled word is the spill of the word below plus the low bits of its own, moved up. */
  lemma SpreadWord(x: word, below: word, s: nat) returns (hi: int, lo: int, prev: int)
    requires 0 < s < 32
    ensures x == hi * Pow2(32 - s) + lo && Funnel(x, below, 32 - s) == prev + lo * Pow2(s)
    ensures hi == x / Pow2(32 - s) && prev == below / Pow2(32 - s) && (below == 0 ==> prev == 0)
  {
    hide Pow2;
    assert 32 - (32 - s) == s;
    var q := Pow2(32 - s);
    hi, lo, prev := x / q, x % q, below / q;
    DivBounds(x, q);
    if below == 0 {
      DivIntro(0, q, 0, 0);
    }
  }

  lemma SpreadStep(w: int, hi: int, lo: int, prev: int, u: int, p: int, q: int, wt: int)
    requires p * q == WORD && w == prev + lo * p
    ensures w * wt + hi * (WORD * wt) == prev * wt + ((hi * q + lo) * wt) * p
    ensures (u + (hi * q + lo) * wt) * p == u * p + ((hi * q + lo) * wt) * p
  {
    assert (prev + lo * p) * wt == prev * wt + (lo * p) * wt;
    assert ((hi * q + lo) * wt) * p == ((hi * q + lo) * p) * wt;
    assert (hi * q + lo) * p == hi * (p * q) + lo * p;
    assert (hi * WORD + lo * p) * wt == (hi * WORD) * wt + (lo * p) * wt;
    assert (hi * WORD) * wt == hi * (WORD * wt);
  }

  /** The words written for a left shift: zeros below, funnels of the consumed words above. */
  ghost predicate ShiftedUp(op: seq<word>, ish: nat, s: nat, rs: seq<word>, m1: nat)
    requires s < 32
  {
    && ish <= m1 <= |rs| && m1 - ish <= |op|
    && (forall i :: 0 <= i < ish ==> rs[i] == 0)
    && forall i :: ish <= i < m1 ==>
         rs[i] == if s == 0 then op[i - ish]
                  else Funnel(op[i - ish], if i > ish then op[i - ish - 1] else 0, 32 - s)
  }

  /** Bits of the last consumed word that the next result word still needs. */
  function Spill(op: seq<word>, p: nat, s: nat): int
    requires s < 32 && p <= |op|
  {
    if p == 0 || s == 0 then 0 else op[p - 1] / Pow2(32 - s)
  }

  lemma ShiftedUpValue(op: seq<word>, ish: nat, s: nat, rs: seq<word>, m1: nat)
    requires s < 32 && ShiftedUp(op, ish, s, rs, m1)
    ensures
      var p := m1 - ish;
      UVal(rs[..m1]) + Spill(op, p, s) * Weight(m1) == UVal(op[..p]) * Pow2(32 * ish + s)
  {
    hide UVal, Weight, Funnel;
    var p := m1 - ish;
    var w := rs[ish..m1];
    assert rs[..m1] == rs[..ish] + w;
    UValConcat(rs[..ish], w);
    UValZeros(rs[..ish]);
    if s == 0 {
      assert w == op[..p];
      assert Pow2(0) == 1;
    } else {
      assert forall i :: 0 <= i < |w| ==> w[i] == rs[i + ish];
      SpreadRow(op, w, s, p);
      assert w[..p] == w;
    }
    hide Pow2;
    WeightAdd(p, ish);
    Pow2Add(s, 32 * ish);
    WeightIsPow2(ish);
    SpreadShift(UVal(w), Spill(op, p, s), Weight(p), Weight(ish), UVal(op[..p]), Pow2(s));
  }

  lemma SpreadShift(u: int, sp: int, wp: int, wi: int, x: int, p: int)
    requires u + sp * wp == x * p
    ensures u * wi + sp * (wp * wi) == x * (p * wi)
  {
    assert (u + sp * wp) * wi == u * wi + (sp * wp) * wi;
    assert (sp * wp) * wi == sp * (wp * wi);
    assert (x * p) * wi == x * (p * wi);
  }

  /** All words of r came from words of op: the result is cut off. */
  lemma ShiftedLeftCut(op: seq<word>, ish: nat, s: nat, rs: seq<word>)
    requires 0 < |op| && 0 < |rs| && s < 32 && ShiftedUp(op, ish, s, rs, |rs|)
    ensures SVal(rs) == Wrap(SVal(op) * Pow2(32 * ish + s), 32 * |rs|)
  {
    hide UVal, Weight, SVal, Wrap, Pow2;
    var m1 := |rs|;
    var p := m1 - ish;
    ShiftedUpValue(op, ish, s, rs, m1);
    assert rs[..m1] == rs;
    var c := TruncateWords(op, p);
    Pow2Add(s, 32 * ish);
    WeightAdd(p, ish);
    WeightIsPow2(ish);
    CutProduct(UVal(op[..p]), c, Weight(p), Pow2(s), Weight(ish));
    var k := Spill(op, p, s) + c * Pow2(s);
    assert (-k) * Weight(m1) == -(Spill(op, p, s) * Weight(m1)) - (c * Pow2(s)) * Weight(m1) by {
      assert k * Weight(m1) == Spill(op, p, s) * Weight(m1) + (c * Pow2(s)) * Weight(m1);
    }
    CongruentWords(rs, SVal(op) * Pow2(32 * ish + s), -k);
  }

  lemma CutProduct(u: int, c: int, wp: int, p: int, wi: int)
    ensures (u + c * wp) * (p * wi) == u * (p * wi) + (c * p) * (wp * wi)
  {
    assert (u + c * wp) * (p * wi) == u * (p * wi) + (c * wp) * (p * wi);
    assert (c * wp) * (p * wi) == (c * p) * (wp * wi);
  }

  /** Truncating a number to n words changes it by a multiple of their weight. */
  lemma TruncateWords(op: seq<word>, n: nat) returns (c: int)
    requires 0 < |op| && n <= |op|
    ensures SVal(op) == UVal(op[..n]) + c * Weight(n)
  {
    hide UVal, Weight;
    UValSplit(op, n);
    WeightAdd(|op| - n, n);
    c := UVal(op[n..]) - (if op[|op| - 1] < SIGN then 0 else Weight(|op| - n));
    MulMinus(UVal(op[n..]), Weight(|op| - n), Weight(n));
  }

  lemma CongruentWords(rs: seq<word>, x: int, c: int)
    requires 0 < |rs| && UVal(rs) == x + c * Weight(|rs|)
    ensures SVal(rs) == Wrap(x, 32 * |rs|)
  {
    hide UVal, SVal, Wrap, Weight;
    UValBound(rs);
    ModMultiple(x, c, Weight(|rs|));
    ModSmall(UVal(rs), Weight(|rs|));
    SValIsWrap(rs, x);
  }

  /** Every word of op fits: the result is exact. */
  lemma ShiftedLeftWhole(op: seq<word>, ish: nat, s: nat, rs: seq<word>)
    requires 0 < |op| && s < 32 && |op| + ish < |rs| && ShiftedUp(op, ish, s, rs, |op| + ish)
    requires
      var m1 := |op| + ish;
      && rs[m1] == (if s == 0 then Extension(IsNegative(op)) else Low(Signed(op[|op| - 1]) / Pow2(32 - s)))
      && forall i :: m1 < i < |rs| ==> rs[i] == Extension(rs[m1] >= SIGN)
    ensures SVal(rs) == SVal(op) * Pow2(32 * ish + s)
    ensures SVal(rs) == Wrap(SVal(op) * Pow2(32 * ish + s), 32 * |rs|)
  {
    hide UVal, SVal, Weight, Wrap, Pow2;
    var n, m1 := |op|, |op| + ish;
    ShiftedUpValue(op, ish, s, rs, m1);
    assert op[..n] == op;
    var head := rs[..m1 + 1];
    SValTop(head);
    assert head[..m1] == rs[..m1];
    SignExtend(head, rs);
    var neg := if IsNegative(op) then 1 else 0;
    SpillSign(op[n - 1], s);
    SValOf(op);
    WeightAdd(n, ish);
    Pow2Add(s, 32 * ish);
    WeightIsPow2(ish);
    WholeValue(UVal(rs[..m1]), UVal(op), Spill(op, n, s), neg, Weight(n), Pow2(s), Weight(ish));
    SValRange(rs);
    WrapFits(SVal(rs), 32 * |rs|);
  }

  /** The words and the sign-extended spill make up the whole signed product. */
  lemma WholeValue(low: int, u: int, spill: int, neg: int, wn: int, p: int, wi: int)
    requires low + spill * (wn * wi) == u * (p * wi)
    ensures low + (spill - neg * p) * (wn * wi) == (u - neg * wn) * (p * wi)
  {
    CutProduct(u, -neg, wn, p, wi);
    MulNeg(neg, p);
    MulNeg(neg, wn);
    assert (spill + (-neg) * p) * (wn * wi) == spill * (wn * wi) + ((-neg) * p) * (wn * wi);
  }

  /** The arithmetic shift of the top word keeps the sign that the logical one loses. */
  lemma SpillSign(w: word, s: nat)
    requires s < 32
    ensures
      var neg := if w >= SIGN then 1 else 0;
      && (s == 0 ==> Signed(Extension(w >= SIGN)) == -neg && Pow2(s) == 1)
      && (s > 0 ==> Signed(w) / Pow2(32 - s) == w / Pow2(32 - s) - neg * Pow2(s))
      && (s > 0 ==> Signed(Low(Signed(w) / Pow2(32 - s))) == Signed(w) / Pow2(32 - s))
  {
    if s > 0 {
      Pow2Add(s, 32 - s);
      Pow2Values();
      Pow2Mono(1, 32 - s);
      hide Pow2;
      SpillQuotient(w, if w >= SIGN then 1 else 0, Pow2(s), Pow2(32 - s));
    } else {
      Pow2Values();
    }
  }

  lemma SpillQuotient(w: word, neg: int, p: int, q: int)
    requires p * q == WORD && 2 <= q && neg == if w >= SIGN then 1 else 0
    ensures Signed(w) / q == w / q - neg * p
    ensures Signed(Low(Signed(w) / q)) == Signed(w) / q
  {
    MulNeg(neg, p);
    ModMultiple(w, -neg * p, q);
    assert (-neg * p) * q == -neg * WORD by {
      MulAssoc(-neg, p, q);
    }
    QuotientOfWord(Signed(w), q);
    SignedLow(Signed(w) / q);
  }

  lemma SignedLow(x: int)
    requires -SIGN <= x < SIGN
    ensures Signed(Low(x)) == x
  {
  }

  lemma QuotientOfWord(x: int, q: int)
    requires -SIGN <= x < SIGN && 2 <= q
    ensures -SIGN <= x / q < SIGN
  {
    DivMono(-SIGN * q, x, q);
    DivMono(x, (SIGN - 1) * q, q);
    DivIntro(-SIGN * q, q, -SIGN, 0);
    DivIntro((SIGN - 1) * q, q, SIGN - 1, 0);
  }

  /** The loop over the words when bits move between them; the last word it read. */
  method MoveBitsUp(op: array<word>, ishift: nat, s31: nat, r: array<word>, m1: nat) returns (lw: word)
    requires r != op && 0 < s31 < 32 && ishift <= m1 <= r.Length && m1 - ishift <= op.Length
    requires forall j :: 0 <= j < ishift ==> r[j] == 0
    modifies r
    ensures lw == if m1 > ishift then op[m1 - ishift - 1] else 0
    ensures ShiftedUp(op[..], ishift, s31, r[..], m1)
  {
    hide Funnel;
    lw := 0;
    for i := ishift to m1
      invariant lw == if i > ishift then op[i - ishift - 1] else 0
      invariant ShiftedUp(op[..], ishift, s31, r[..], i)
    {
      var hw := op[i - ishift];
      r[i] := Funnel(hw, lw, 32 - s31);
      lw := hw;
    }
  }

  /** The loop over the words when they move whole. */
  method MoveWordsUp(op: array<word>, ishift: nat, r: array<word>, m1: nat)
    requires r != op && ishift <= m1 <= r.Length && m1 - ishift <= op.Length
    requires forall j :: 0 <= j < ishift ==> r[j] == 0
    modifies r
    ensures ShiftedUp(op[..], ishift, 0, r[..], m1)
  {
    for i := ishift to m1
      invariant ShiftedUp(op[..], ishift, 0, r[..], i)
    {
      r[i] := op[i - ishift];
    }
  }

  /** `iv_const_shift_l`: the number multiplied by 2^b, wrapped to the words of r. */
  method ShiftLeft(op: array<word>, b: nat, r: array<word>)
    requires r != op && 0 < op.Length && 0 < r.Length
    modifies r
    ensures SVal(r[..]) == Wrap(SVal(op[..]) * Pow2(b), 32 * r.Length)
  {
    hide SVal, UVal, Wrap, Weight, Pow2, Funnel;
    var n := op.Length;
    if b == 0 {
      Assign(op, r);
      Pow2Values();
    } else {
      var s31 := b % 32;
      var ishift := if b / 32 > r.Length then r.Length else b / 32;
      for i := 0 to ishift
        invariant forall j :: 0 <= j < i ==> r[j] == 0
      {
        r[i] := 0;
      }
      var m1 := if n + ishift < r.Length then n + ishift else r.Length;
      if s31 != 0 {
        var lw := MoveBitsUp(op, ishift, s31, r, m1);
        if r.Length > m1 {
          r[m1] := Low(Signed(lw) / Pow2(32 - s31));
          Extend(r, m1 + 1, Extension(r[m1] >= SIGN));
          ShiftedLeftWhole(op[..], ishift, s31, r[..]);
        }
      } else {
        MoveWordsUp(op, ishift, r, m1);
        Extend(r, m1, Extension(r[m1 - 1] >= SIGN));
        if r.Length > m1 {
          ShiftedLeftWhole(op[..], ishift, 0, r[..]);
        }
      }
      if r.Length == m1 {
        if b / 32 > r.Length {
          AllShiftedAbove(r[..], SVal(op[..]), b);
        } else {
          ShiftedLeftCut(op[..], ishift, s31, r[..]);
        }
      }
    }
  }

  lemma AllShiftedAbove(rs: seq<word>, x: int, b: nat)
    requires 0 < |rs| && 32 * |rs| <= b && forall i :: 0 <= i < |rs| ==> rs[i] == 0
    ensures SVal(rs) == Wrap(x * Pow2(b), 32 * |rs|)
  {
    hide SVal, UVal, Wrap;
    UValZeros(rs);
    Pow2Add(b - 32 * |rs|, 32 * |rs|);
    var k := x * Pow2(b - 32 * |rs|);
    assert k * Weight(|rs|) == x * Pow2(b) by {
      MulAssoc(x, Pow2(b - 32 * |rs|), Pow2(32 * |rs|));
    }
    MulNeg(k, Weight(|rs|));
    CongruentWords(rs, x * Pow2(b), -k);
  }

  // ---- Testing ranges of bits ----

  lemma ModZero(u: int, y: int, w: int, p: int)
    requires 0 < w && 0 < p && 0 <= u < w
    ensures (u + y * w) % (w * p) == 0 <==> u == 0 && y % p == 0
  {
    DivBounds(y, p);
    var q, m := y / p, y % p;
    assert y * w == q * (w * p) + m * w by {
      assert (q * p + m) * w == (q * p) * w + m * w;
      assert (q * p) * w == q * (w * p);
    }
    MulMono(m + 1, p, w);
    assert (m + 1) * w == m * w + w;
    assert p * w == w * p;
    MulMono(0, m, w);
    DivIntro(u + y * w, w * p, q, u + m * w);
    if m != 0 {
      MulMono(1, m, w);
    }
  }

  /** The signed and the unsigned value agree on every bit they have. */
  lemma SameLowBits(s: seq<word>, b: nat)
    requires 0 < |s| && b <= 32 * |s|
    ensures SVal(s) % Pow2(b) == UVal(s) % Pow2(b)
    ensures b < 32 * |s| ==> (SVal(s) / Pow2(b)) % 2 == (UVal(s) / Pow2(b)) % 2
  {
    SValOf(s);
    WeightIsPow2(|s|);
    hide UVal, SVal, IsNegative, Weight;
    TopCongruent(SVal(s), UVal(s), if IsNegative(s) then 1 else 0, 32 * |s|, b);
  }

  lemma TopCongruent(x: int, u: int, k: int, n: nat, b: nat)
    requires b <= n && u == x + k * Pow2(n)
    ensures x % Pow2(b) == u % Pow2(b)
    ensures b < n ==> (x / Pow2(b)) % 2 == (u / Pow2(b)) % 2
  {
    Pow2Add(n - b, b);
    if b < n {
      DoublePow2(n - b - 1);
    }
    hide Pow2;
    AddedTop(x, u, k, Pow2(n - b), Pow2(b));
    if b < n {
      AddedTwice(x, u, k, Pow2(n - b - 1), Pow2(n - b), Pow2(b));
    }
  }

  /** Adding a multiple of p does not change the residue modulo p. */
  lemma AddedTop(x: int, u: int, k: int, h: int, p: int)
    requires 0 < p && u == x + k * (h * p)
    ensures x % p == u % p
    ensures u / p == x / p + k * h
  {
    MulAssoc(k, h, p);
    ModMultiple(x, k * h, p);
  }

  /** Adding an even multiple of p does not change the bit of weight p. */
  lemma AddedTwice(x: int, u: int, k: int, g: int, h: int, p: int)
    requires 0 < p && h == g * 2 && u == x + k * (h * p)
    ensures (x / p) % 2 == (u / p) % 2
  {
    AddedTop(x, u, k, h, p);
    MulAssoc(k, g, 2);
    ModMultiple(x / p, k * g, 2);
  }

  /** The low word of a tail, and the rest of it. */
  lemma TailWord(s: seq<word>, j: nat)
    requires j < |s|
    ensures UVal(s[j..]) == s[j] + WORD * UVal(s[j + 1..])
  {
    assert s[j..] == [s[j]] + s[j + 1..];
    UValConcat([s[j]], s[j + 1..]);
    WeightNext(0);
    assert UVal([s[j]]) == s[j];
  }

  /** Bits k.. of a tail of words, in terms of its first word. */
  lemma TailBits(x: word, t: int, k: nat)
    requires k < 32
    ensures (x + WORD * t) % Pow2(k) == x % Pow2(k)
    ensures ((x + WORD * t) / Pow2(k)) % 2 == (x / Pow2(k)) % 2
  {
    hide Pow2;
    Pow2Add(32 - k, k);
    Pow2Values();
    DoublePow2(31 - k);
    MultipleOfWord(t, Pow2(31 - k), Pow2(k));
    ModMultiple(x, t * (Pow2(31 - k) * 2), Pow2(k));
    MulAssoc(t, Pow2(31 - k), 2);
    ModMultiple(x / Pow2(k), t * Pow2(31 - k), 2);
  }

  lemma MultipleOfWord(t: int, h: int, p: int)
    requires (h * 2) * p == WORD
    ensures WORD * t == (t * (h * 2)) * p
  {
    MulAssoc(t, h * 2, p);
  }

  method AllZero(op: array<word>, lo: nat, hi: nat) returns (z: bool)
    requires lo <= hi <= op.Length
    ensures z <==> forall i :: lo <= i < hi ==> op[i] == 0
  {
    for i := lo to hi
      invariant forall j :: lo <= j < i ==> op[j] == 0
    {
      if op[i] != 0 {
        return false;
      }
    }
    return true;
  }

  /** `iv_equal_zeros_to`: are the low b bits all zero? */
  method EqualZerosTo(op: array<word>, b: nat) returns (z: bool)
    requires 0 < op.Length && (b <= 32 * op.Length || SVal(op[..]) < 0)
    ensures z <==> if b == 0 && op.Length <= 2 then SVal(op[..]) == 0 else SVal(op[..]) % Pow2(b) == 0
    ensures (z <==> SVal(op[..]) % Pow2(b) == 0) <==> !(b == 0 && op.Length <= 2 && SVal(op[..]) != 0)
  {
    hide SVal, UVal, Pow2, Weight;
    ghost var s := op[..];
    if 32 * op.Length < b {
      BelowPower(s, b);
    } else {
      ZerosTo(s, b);
    }
    if b == 0 && op.Length <= 2 {
      z := AllZero(op, 0, op.Length);
      ZeroWords(s);
      return;
    }
    if (b >= 32 * op.Length && op[op.Length - 1] >= SIGN) || (b % 32 != 0 && op[b / 32] % Pow2(b % 32) != 0) {
      return false;
    }
    z := AllZero(op, 0, b / 32);
  }

  /** A negative number is no multiple of a power beyond its words. */
  lemma BelowPower(s: seq<word>, b: nat)
    requires 0 < |s| && 32 * |s| < b && SVal(s) < 0
    ensures s[|s| - 1] >= SIGN && SVal(s) % Pow2(b) != 0
  {
    hide SVal;
    SValRange(s);
    Pow2Mono(32 * |s| - 1, b);
    ModMultiple(SVal(s), 1, Pow2(b));
    ModSmall(SVal(s) + Pow2(b), Pow2(b));
  }

  lemma ZeroWords(s: seq<word>)
    requires 0 < |s|
    ensures SVal(s) == 0 <==> forall i :: 0 <= i < |s| ==> s[i] == 0
  {
    SValRange(s);
    if SVal(s) == 0 {
      UValZeroWords(s);
    }
    if forall i :: 0 <= i < |s| ==> s[i] == 0 {
      UValZeros(s);
    }
  }

  lemma ZerosTo(s: seq<word>, b: nat)
    requires 0 < |s| && b <= 32 * |s|
    ensures
      SVal(s) % Pow2(b) == 0
      <==> (forall i :: 0 <= i < b / 32 ==> s[i] == 0) && (b % 32 != 0 ==> s[b / 32] % Pow2(b % 32) == 0)
  {
    hide SVal, UVal, Pow2;
    var j, k := b / 32, b % 32;
    SameLowBits(s, b);
    UValSplit(s, j);
    UValBound(s[..j]);
    Pow2Add(32 * j, k);
    ModZero(UVal(s[..j]), UVal(s[j..]), Weight(j), Pow2(k));
    LowWordsZero(s, j);
    Pow2Values();
    if k == 0 {
      assert UVal(s[j..]) % 1 == 0;
    } else {
      TailWord(s, j);
      TailBits(s[j], UVal(s[j + 1..]), k);
    }
  }

  lemma LowWordsZero(s: seq<word>, j: nat)
    requires j <= |s|
    ensures UVal(s[..j]) == 0 <==> forall i :: 0 <= i < j ==> s[i] == 0
  {
    if UVal(s[..j]) == 0 {
      UValZeroWords(s[..j]);
      assert forall i :: 0 <= i < j ==> s[i] == s[..j][i];
    } else if forall i :: 0 <= i < j ==> s[i] == 0 {
      UValZeros(s[..j]);
    }
  }

  /** Bit i of the number, as `operator[]` reads it. */
  function BitOf(s: seq<word>, i: nat): (bit: bool)
    requires 0 < |s| && i < 32 * |s|
    ensures bit <==> (SVal(s) / Pow2(i)) % 2 == 1
  {
    BitIs(s, i);
    (s[i / 32] / Pow2(i % 32)) % 2 == 1
  }

  lemma BitIs(s: seq<word>, i: nat)
    requires 0 < |s| && i < 32 * |s|
    ensures (SVal(s) / Pow2(i)) % 2 == (s[i / 32] / Pow2(i % 32)) % 2
  {
    hide SVal, UVal, Pow2, Weight;
    var j, k := i / 32, i % 32;
    SameLowBits(s, i);
    UValSplit(s, j);
    WeightIsPow2(j);
    Pow2Add(32 * j, k);
    DivDiv(UVal(s), Weight(j), Pow2(k));
    TailWord(s, j);
    TailBits(s[j], UVal(s[j + 1..]), k);
  }

  /** A place below the number, which the source's division rounds to zero. */
  function FromZero(b: int): (c: nat)
    ensures c == if b < 0 then 0 else b
  {
    if b < 0 then 0 else b
  }

  /** A word of all ones or all zeros, shifted right, stays what it is. */
  lemma AllOnesWord(k: nat)
    ensures -1 / Pow2(k) == -1 && 0 / Pow2(k) == 0
    ensures Pow2(0) == 1
  {
    DivIntro(-1, Pow2(k), -1, Pow2(k) - 1);
    DivIntro(0, Pow2(k), 0, 0);
  }

  /** `iv_equal_zeros_from`: are all bits from b upwards zero, the sign included? */
  method EqualZerosFrom(op: array<word>, b: int) returns (z: bool)
    requires 0 < op.Length && -32 <= b <= 32 * op.Length
    ensures z <==> SVal(op[..]) / Pow2(FromZero(b)) == 0
  {
    hide SVal, UVal, Pow2, Weight;
    ghost var s := op[..];
    ZerosFrom(s, FromZero(b));
    if b < 0 {
      AllOnesWord(b % 32);
    }
    if (b >= 32 * op.Length && op[op.Length - 1] >= SIGN)
      || (b % 32 != 0 && Signed(op[FromZero(b) / 32]) / Pow2(b % 32) != 0) {
      return false;
    }
    z := AllZero(op, FromZero(b + 31) / 32, op.Length);
  }

  lemma SignedHigh(w: word, k: nat)
    requires 0 < k < 32
    ensures Signed(w) / Pow2(k) == 0 <==> w < Pow2(k)
    ensures w < Pow2(k) ==> w < SIGN
  {
    Pow2Mono(k, 31);
    Pow2Values();
    hide Pow2;
    ZeroQuotient(Signed(w), Pow2(k));
  }

  /** The bits from b up are zero exactly when the number is below 2^b. */
  lemma ZerosFrom(s: seq<word>, b: nat)
    requires 0 < |s| && b <= 32 * |s|
    ensures
      SVal(s) / Pow2(b) == 0
      <==> && (b == 32 * |s| ==> s[|s| - 1] < SIGN)
           && (b % 32 != 0 ==> Signed(s[b / 32]) / Pow2(b % 32) == 0)
           && forall i :: (b + 31) / 32 <= i < |s| ==> s[i] == 0
  {
    hide SVal, UVal, Pow2;
    var j, k := b / 32, b % 32;
    SValRange(s);
    ZeroQuotient(SVal(s), Pow2(b));
    if k != 0 {
      SignedHigh(s[j], k);
    }
    if 0 <= SVal(s) < Pow2(b) {
      SValOf(s);
      SmallHasZeros(s, b);
    }
    if && (b == 32 * |s| ==> s[|s| - 1] < SIGN)
       && (k != 0 ==> Signed(s[j]) / Pow2(k) == 0)
       && forall i :: (b + 31) / 32 <= i < |s| ==> s[i] == 0 {
      SValOf(s);
      ZerosBound(s, b);
    }
  }

  lemma ZeroQuotient(x: int, p: int)
    requires 0 < p
    ensures x / p == 0 <==> 0 <= x < p
    ensures x / p == -1 <==> -p <= x < 0
  {
    DivBounds(x, p);
    if 0 <= x < p {
      DivIntro(x, p, 0, x);
    } else if -p <= x < 0 {
      DivIntro(x, p, -1, x + p);
    }
  }

  lemma SmallHasZeros(s: seq<word>, b: nat)
    requires b <= 32 * |s| && UVal(s) < Pow2(b)
    ensures forall i :: (b + 31) / 32 <= i < |s| ==> s[i] == 0
    ensures b % 32 != 0 ==> s[b / 32] < Pow2(b % 32)
  {
    hide UVal, Pow2;
    var j, k, i := b / 32, b % 32, (b + 31) / 32;
    Pow2Mono(b, 32 * i);
    UValHighZero(s, i);
    if k != 0 {
      UValSplit(s, j);
      TailWord(s, j);
      UValBound(s[..j]);
      UValNonNegative(s[..j], s[j + 1..]);
      Pow2Add(k, 32 * j);
      hide Weight;
      WeightIsPow2(j);
      MulMono(s[j], s[j] + WORD * UVal(s[j + 1..]), Weight(j));
      MulCancelLt(s[j], Pow2(k), Weight(j));
    }
  }

  lemma UValNonNegative(s: seq<word>, t: seq<word>)
    ensures 0 <= UVal(s) && 0 <= UVal(t)
  {
  }

  lemma ZerosBound(s: seq<word>, b: nat)
    requires b <= 32 * |s|
    requires forall i :: (b + 31) / 32 <= i < |s| ==> s[i] == 0
    requires b % 32 != 0 ==> s[b / 32] < Pow2(b % 32)
    ensures UVal(s) < Pow2(b)
  {
    hide UVal, Pow2, Weight;
    var j, k, i := b / 32, b % 32, (b + 31) / 32;
    UValSplit(s, i);
    UValZeros(s[i..]);
    WeightIsPow2(i);
    UValBound(s[..i]);
    if k != 0 {
      PartialBound(s[..i], j, k);
    }
  }

  /** A last word of k bits. */
  lemma PartialBound(s: seq<word>, j: nat, k: nat)
    requires |s| == j + 1 && s[j] < Pow2(k)
    ensures UVal(s) < Pow2(32 * j + k)
  {
    hide UVal, Pow2, Weight;
    assert s == s[..j] + [s[j]];
    UValSnoc(s[..j], s[j]);
    UValBound(s[..j]);
    WeightIsPow2(j);
    Pow2Add(k, 32 * j);
    assert k + 32 * j == 32 * j + k;
    var x: int := s[j];
    MulMono(x + 1, Pow2(k), Weight(j));
    assert (x + 1) * Weight(j) == x * Weight(j) + Weight(j);
  }

  /** `iv_equal_ones_from`: are all bits from b upwards one, the sign included? */
  method EqualOnesFrom(op: array<word>, b: int) returns (z: bool)
    requires 0 < op.Length && -32 <= b <= 32 * op.Length
    ensures z <==> SVal(op[..]) / Pow2(FromZero(b)) == -1
  {
    hide SVal, UVal, Pow2, Weight;
    ghost var s := op[..];
    OnesFrom(s, FromZero(b));
    if b < 0 {
      AllOnesWord(b % 32);
    }
    if (b >= 32 * op.Length && op[op.Length - 1] < SIGN)
      || (b % 32 != 0 && Signed(op[FromZero(b) / 32]) / Pow2(b % 32) != -1) {
      return false;
    }
    var first := FromZero(b + 31) / 32;
    for i := first to op.Length
      invariant forall j :: first <= j < i ==> op[j] == WORD - 1
    {
      if op[i] != WORD - 1 {
        return false;
      }
    }
    return true;
  }

  function Complement(s: seq<word>): (t: seq<word>)
    ensures |t| == |s| && forall i :: 0 <= i < |s| ==> t[i] == WORD - 1 - s[i]
  {
    if |s| == 0 then [] else Complement(s[..|s| - 1]) + [WORD - 1 - s[|s| - 1]]
  }

  lemma {:induction false} ComplementValue(s: seq<word>)
    ensures UVal(Complement(s)) == Weight(|s|) - 1 - UVal(s)
    ensures 0 < |s| ==> SVal(Complement(s)) == -1 - SVal(s)
  {
    WeightNext(0);
    if 0 < |s| {
      var n := |s| - 1;
      ComplementValue(s[..n]);
      WeightNext(n);
      assert Complement(s) == Complement(s[..n]) + [WORD - 1 - s[n]];
      UValSnoc(Complement(s[..n]), WORD - 1 - s[n]);
      assert s == s[..n] + [s[n]];
      UValSnoc(s[..n], s[n]);
      ComplementWord(s[n], Weight(n));
    }
  }

  lemma ComplementWord(w: word, p: int)
    ensures (WORD - 1 - w) * p == WORD * p - p - w * p
  {
  }

  lemma OnesFrom(s: seq<word>, b: nat)
    requires 0 < |s| && b <= 32 * |s|
    ensures
      SVal(s) / Pow2(b) == -1
      <==> && (b == 32 * |s| ==> s[|s| - 1] >= SIGN)
           && (b % 32 != 0 ==> Signed(s[b / 32]) / Pow2(b % 32) == -1)
           && forall i :: (b + 31) / 32 <= i < |s| ==> s[i] == WORD - 1
  {
    hide SVal, UVal, Pow2, Complement;
    var c, k := Complement(s), b % 32;
    ComplementValue(s);
    ZerosFrom(c, b);
    ZeroQuotient(SVal(s), Pow2(b));
    ZeroQuotient(-1 - SVal(s), Pow2(b));
    if k != 0 {
      var x := Signed(s[b / 32]);
      assert Signed(c[b / 32]) == -1 - x;
      ZeroQuotient(x, Pow2(k));
      ZeroQuotient(-1 - x, Pow2(k));
    }
    assert forall i :: 0 <= i < |s| ==> (s[i] == WORD - 1 <==> c[i] == 0);
  }

  /** `iv_uadd_carry` in place: adds the carry bit to the unsigned number and returns the carry out. */
  method AddCarry(v: array<word>, carry: bool) returns (out: bool)
    modifies v
    ensures UVal(v[..]) + (if out then Weight(v.Length) else 0)
         == UVal(old(v[..])) + (if carry then 1 else 0)
  {
    hide UVal, Weight;
    var l := if carry then 1 else 0;
    ghost var was := v[..];
    AddCarryStart(was);
    for i := 0 to v.Length
      invariant 0 <= l <= 1
      invariant UVal(v[..i]) + l * Weight(i) == UVal(was[..i]) + (if carry then 1 else 0)
      invariant forall j :: i <= j < v.Length ==> v[j] == was[j]
    {
      ghost var l0, low := l, v[..i];
      l := l + v[i];
      v[i] := Low(l);
      l := l / WORD;
      assert v[..i + 1] == low + [v[i]] && was[..i + 1] == was[..i] + [was[i]];
      UValSnoc(low, v[i]);
      UValSnoc(was[..i], was[i]);
      WeightNext(i);
      CarryWord(l0, was[i], v[i], l, Weight(i));
    }
    assert v[..] == v[..v.Length] && was == was[..v.Length];
    out := l != 0;
  }

  lemma AddCarryStart(s: seq<word>)
    ensures UVal(s[..0]) == 0 && Weight(0) == 1
  {
    WeightNext(0);
  }

  lemma CarryWord(l: int, x: word, w: word, l': int, p: int)
    requires 0 <= l <= 1 && w == Low(l + x) && l' == (l + x) / WORD
    ensures w * p + l' * (WORD * p) == l * p + x * p && 0 <= l' <= 1
  {
    assert l + x == WORD * l' + w;
    assert (l + x) * p == l * p + x * p;
    assert (w + WORD * l') * p == w * p + l' * (WORD * p);
  }
}

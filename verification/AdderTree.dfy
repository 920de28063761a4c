/** Truncating adder trees over signed floating-point numbers (`ac_float_add_tree.h`). */
module AdderTree {
  import opened Powers
  import opened Words
  import opened FloatFormat

  /** A mantissa, held as its raw integer, and an exponent. */
  datatype Elem = Elem(m: int, e: int)

  /** Mantissas of w bits, exponents of ee bits, `extra` fraction bits added in the tree. */
  datatype Shape = Shape(w: nat, extra: nat, ee: nat) {
    predicate Ok() {
      1 <= w && 2 <= ee
    }

    function MinExp(): int
      requires Ok()
    {
      -Pow2(ee - 1)
    }
  }

  predicate Fits(x: int, w: nat)
    requires 1 <= w
  {
    -Pow2(w - 1) <= x < Pow2(w - 1)
  }

  predicate Holds(t: Shape, x: Elem)
    requires t.Ok()
  {
    Fits(x.m, t.w) && Fits(x.e, t.ee)
  }

  /** `ac::log2_ceil`. */
  function Log2Ceil(n: nat): nat
    requires 1 <= n
  {
    BitLenBounds(n);
    var f := BitLen(n) - 1;
    if n == Pow2(f) then f else f + 1
  }

  lemma Log2CeilLeast(n: nat)
    requires 1 <= n
    ensures n <= Pow2(Log2Ceil(n))
    ensures 0 < Log2Ceil(n) ==> Pow2(Log2Ceil(n) - 1) < n
  {
    BitLenBounds(n);
  }

  /** Each half of a split tree needs one growth bit less. */
  lemma HalfGrowth(n: nat)
    requires 2 <= n
    ensures Log2Ceil(n / 2) <= Log2Ceil(n) - 1 && Log2Ceil(n - n / 2) <= Log2Ceil(n) - 1
  {
    Pow2Values();
    Log2CeilLeast(n);
    Log2CeilLeast(n / 2);
    Log2CeilLeast(n - n / 2);
    hide Log2Ceil;
    GrowthBelow(n / 2, Log2Ceil(n / 2), Log2Ceil(n), n);
    GrowthBelow(n - n / 2, Log2Ceil(n - n / 2), Log2Ceil(n), n);
  }

  lemma GrowthBelow(h: nat, a: nat, g: nat, n: nat)
    requires 2 <= n <= Pow2(g) && 2 * h <= n + 1 && (0 < a ==> Pow2(a - 1) < h)
    ensures a <= g - 1
  {
    Pow2Values();
    DoublePow2(g - 1);
    Pow2Mono(g - 1, if g <= a then a - 1 else g);
  }

  // ---- One node ----

  /** `sum2`: the operand with the smaller exponent is shifted right and truncated. */
  function Sum2(a: Elem, b: Elem, wr: nat): Elem
    requires 1 <= wr
  {
    var aLtB := a.e - b.e < 0;
    var dif: nat := if a.m == 0 || b.m == 0 then 0 else if aLtB then b.e - a.e else a.e - b.e;
    var shifted := Wrap(if aLtB then a.m else b.m, wr);
    var kept := Wrap(if aLtB then b.m else a.m, wr);
    Elem(Wrap(kept + shifted / Pow2(dif), wr), if b.m != 0 && (a.m == 0 || aLtB) then b.e else a.e)
  }

  /** The exact value of a mantissa at exponent e, in units of the smallest exponent's weight. */
  function Weighted(t: Shape, m: int, e: int): int
    requires t.Ok() && t.MinExp() <= e
  {
    m * Pow2(e - t.MinExp())
  }

  /** Truncation loses less than one unit at the larger exponent. */
  lemma ShiftLoss(t: Shape, m: int, lo: int, hi: int)
    requires t.Ok() && t.MinExp() <= lo <= hi
    ensures 0 <= Weighted(t, m, lo) - Weighted(t, m / Pow2(hi - lo), hi) <= Pow2(hi - t.MinExp()) - Pow2(lo - t.MinExp())
  {
    var u, p := Pow2(lo - t.MinExp()), Pow2(hi - lo);
    Pow2Add(lo - t.MinExp(), hi - lo);
    assert lo - t.MinExp() + (hi - lo) == hi - t.MinExp();
    hide Pow2;
    DivBounds(m, p);
    Truncated(m, m / p, m % p, u, p);
  }

  lemma Truncated(m: int, q: int, r: int, u: int, p: int)
    requires 0 < u && m == q * p + r && 0 <= r <= p - 1
    ensures m * u - q * (u * p) == r * u && 0 <= r * u <= u * p - u
  {
    ScaledParts(q, p, r, u);
    MulMono(0, r, u);
    MulMono(r, p - 1, u);
  }

  lemma ScaledParts(q: int, p: int, r: int, u: int)
    ensures (q * p + r) * u == q * (u * p) + r * u && (p - 1) * u == u * p - u
  {
  }

  lemma ShiftFits(m: int, p: int, bound: int)
    requires 1 <= p && -bound <= m < bound
    ensures -bound <= m / p < bound
  {
    DivBounds(m, p);
    MulMono(1, p, bound);
    assert -bound * p == -(p * bound) && bound * p == p * bound;
    MulCancelLt(m / p, bound, p);
    MulCancelLt(-bound, m / p + 1, p);
  }

  /** With one bit of headroom a node never wraps. */
  lemma NodeNeverWraps(a: Elem, b: Elem, g: nat)
    requires 1 <= g && Fits(a.m, g) && Fits(b.m, g)
    ensures
      var aLtB := a.e < b.e;
      var dif: nat := if a.m == 0 || b.m == 0 then 0 else if aLtB then b.e - a.e else a.e - b.e;
      && Sum2(a, b, g + 1).m == (if aLtB then b.m + a.m / Pow2(dif) else a.m + b.m / Pow2(dif))
      && Fits(Sum2(a, b, g + 1).m, g + 1)
  {
    hide Pow2, Wrap;
    var aLtB := a.e < b.e;
    var dif: nat := if a.m == 0 || b.m == 0 then 0 else if aLtB then b.e - a.e else a.e - b.e;
    DoublePow2(g - 1);
    WrapFits(a.m, g + 1);
    WrapFits(b.m, g + 1);
    ShiftFits(a.m, Pow2(dif), Pow2(g - 1));
    ShiftFits(b.m, Pow2(dif), Pow2(g - 1));
    WrapFits(if aLtB then b.m + a.m / Pow2(dif) else a.m + b.m / Pow2(dif), g + 1);
  }

  // ---- The recursive tree ----

  /** `add_r<N>::sum`: the two halves, each in its own width, then one node. */
  function AddR(t: Shape, x: seq<Elem>): Elem
    requires t.Ok() && 1 <= |x|
    decreases |x|
  {
    if |x| == 1 then Elem(x[0].m * Pow2(t.extra), x[0].e)
    else
      var l := |x| / 2;
      Sum2(AddR(t, x[..l]), AddR(t, x[l..]), t.w + t.extra + Log2Ceil(|x|))
  }

  ghost predicate AllHold(t: Shape, x: seq<Elem>)
    requires t.Ok()
  {
    forall k :: 0 <= k < |x| ==> Holds(t, x[k])
  }

  /** No exponent of a non-zero element exceeds max. */
  ghost predicate ExponentsUpTo(x: seq<Elem>, max: int) {
    forall k :: 0 <= k < |x| && x[k].m != 0 ==> x[k].e <= max
  }

  /** The exact sum, in units of the weight of the last fraction bit at the smallest exponent. */
  function Exact(t: Shape, x: seq<Elem>): int
    requires t.Ok() && AllHold(t, x)
  {
    if |x| == 0 then 0
    else
      var n := |x| - 1;
      assert Holds(t, x[n]);
      Exact(t, x[..n]) + Weighted(t, x[n].m * Pow2(t.extra), x[n].e)
  }

  lemma {:induction false} ExactConcat(t: Shape, x: seq<Elem>, y: seq<Elem>)
    requires t.Ok() && AllHold(t, x) && AllHold(t, y)
    ensures AllHold(t, x + y) && Exact(t, x + y) == Exact(t, x) + Exact(t, y)
    decreases |y|
  {
    if |y| == 0 {
      assert x + y == x;
    } else {
      var n := |y| - 1;
      assert (x + y)[..|x| + n] == x + y[..n];
      ExactConcat(t, x, y[..n]);
    }
  }

  /** The exact sum by its parts: one element's mantissa at the weight of its exponent, with the extra
      fraction bits, and sums of sequences. */
  lemma ExactMeans(t: Shape, a: Elem, x: seq<Elem>, y: seq<Elem>)
    requires t.Ok() && Holds(t, a) && AllHold(t, x) && AllHold(t, y)
    ensures AllHold(t, [a]) && 0 <= a.e + Pow2(t.ee - 1)
    ensures Exact(t, [a]) == a.m * Pow2(t.extra) * Pow2(a.e + Pow2(t.ee - 1))
    ensures AllHold(t, x + y) && Exact(t, x + y) == Exact(t, x) + Exact(t, y)
  {
    ExactConcat(t, x, y);
    assert [a][..0] == [];
    assert Exact(t, [a][..0]) == 0;
  }

  /** How many non-zero elements lie below exponent max. */
  function Below(x: seq<Elem>, max: int): nat {
    if |x| == 0 then 0
    else
      var n := |x| - 1;
      Below(x[..n], max) + (if x[n].m != 0 && x[n].e < max then 1 else 0)
  }

  lemma {:induction false} BelowCounts(x: seq<Elem>, max: int)
    ensures Below(x, max) == |set k | 0 <= k < |x| && x[k].m != 0 && x[k].e < max|
  {
    var below := set k | 0 <= k < |x| && x[k].m != 0 && x[k].e < max;
    if |x| == 0 {
      assert below == {};
    } else {
      var n := |x| - 1;
      BelowCounts(x[..n], max);
      var rest := set k | 0 <= k < n && x[..n][k].m != 0 && x[..n][k].e < max;
      assert n !in rest;
      assert below == if x[n].m != 0 && x[n].e < max then rest + {n} else rest;
    }
  }

  lemma {:induction false} BelowConcat(x: seq<Elem>, y: seq<Elem>, max: int)
    ensures Below(x + y, max) == Below(x, max) + Below(y, max)
    decreases |y|
  {
    if |y| == 0 {
      assert x + y == x;
    } else {
      var n := |y| - 1;
      assert (x + y)[..|x| + n] == x + y[..n];
      BelowConcat(x, y[..n], max);
    }
  }

  lemma {:induction false} NoneBelow(x: seq<Elem>, max: int)
    requires forall k :: 0 <= k < |x| && x[k].m != 0 ==> x[k].e == max
    ensures Below(x, max) == 0
  {
    if |x| != 0 {
      NoneBelow(x[..|x| - 1], max);
    }
  }

  /** What a subtree of n elements, none above exponent max and b of them below it, promises about its
      result. */
  predicate NodeOk(t: Shape, n: nat, b: nat, exact: int, max: int, r: Elem)
    requires t.Ok() && 1 <= n && t.MinExp() <= max
  {
    var loss, u := if t.MinExp() <= r.e then exact - Weighted(t, r.m, r.e) else 0, Pow2(max - t.MinExp()) - 1;
    && t.MinExp() <= r.e && (r.m != 0 ==> r.e <= max)
    && Fits(r.m, t.w + t.extra + Log2Ceil(n))
    && 0 <= loss <= (n - 1) * u && loss <= b * u
    && (r.m != 0 && r.e < max ==> 1 <= b && loss <= (b - 1) * u)
  }

  lemma LeafOk(t: Shape, x: Elem, max: int)
    requires t.Ok() && Holds(t, x) && t.MinExp() <= max && (x.m != 0 ==> x.e <= max)
    ensures
      NodeOk(t, 1, if x.m != 0 && x.e < max then 1 else 0, Weighted(t, x.m * Pow2(t.extra), x.e), max,
             Elem(x.m * Pow2(t.extra), x.e))
  {
    BitLenUnique(1, 1) by { Pow2Values(); }
    Pow2Values();
    LeafFits(x.m, t.w, t.extra);
    hide Pow2, BitLen, Fits, Weighted;
    assert 0 * (Pow2(max - t.MinExp()) - 1) == 0;
    if x.m == 0 {
      assert 0 * Pow2(t.extra) == 0;
    }
  }

  lemma LeafFits(m: int, w: nat, e: nat)
    requires 1 <= w && Fits(m, w)
    ensures Fits(m * Pow2(e), w + e)
  {
    Pow2Add(w - 1, e);
    ScaledWithin(m, Pow2(w - 1), Pow2(e));
    hide Pow2;
  }

  lemma ScaledWithin(m: int, p: int, q: int)
    requires -p <= m < p && 0 < q
    ensures -(p * q) <= m * q < p * q
  {
    MulMono(-p, m, q);
    MulStrict(m, p, q);
  }

  /** The errors of the halves add up, and the node itself loses at most one unit at max. */
  lemma NodeCombines(t: Shape, nl: nat, nh: nat, bl: nat, bh: nat, el: int, eh: int, max: int, l: Elem, h: Elem)
    requires t.Ok() && 1 <= nl && 1 <= nh && t.MinExp() <= max
    requires NodeOk(t, nl, bl, el, max, l) && NodeOk(t, nh, bh, eh, max, h)
    requires 1 <= Log2Ceil(nl + nh)
    requires Log2Ceil(nl) <= Log2Ceil(nl + nh) - 1 && Log2Ceil(nh) <= Log2Ceil(nl + nh) - 1
    ensures NodeOk(t, nl + nh, bl + bh, el + eh, max, Sum2(l, h, t.w + t.extra + Log2Ceil(nl + nh)))
  {
    var g := t.w + t.extra + Log2Ceil(nl + nh) - 1;
    WiderFits(l.m, t.w + t.extra + Log2Ceil(nl), g);
    WiderFits(h.m, t.w + t.extra + Log2Ceil(nh), g);
    NodeNeverWraps(l, h, g);
    NodeLoss(t, l, h, max, g);
    NodeExponent(l, h, g);
    hide Pow2, Sum2, Log2Ceil, Fits, Weighted;
    SumOfErrors(nl, nh, Pow2(max - t.MinExp()) - 1);
    SumOfErrors(bl, bh, Pow2(max - t.MinExp()) - 1);
  }

  /** The exponent of a non-zero sum is that of a non-zero operand, and the larger one of two. */
  lemma NodeExponent(l: Elem, h: Elem, g: nat)
    requires 1 <= g && Fits(l.m, g) && Fits(h.m, g)
    ensures
      var r := Sum2(l, h, g + 1);
      r.m != 0 ==>
        && ((l.m != 0 && r.e == l.e) || (h.m != 0 && r.e == h.e))
        && (l.m != 0 && h.m != 0 ==> r.e == if l.e < h.e then h.e else l.e)
  {
    hide Wrap, Fits;
    NodeNeverWraps(l, h, g);
    Pow2Values();
    hide Pow2;
    if l.m == 0 && h.m == 0 {
      ModSmall(0, 1);
    }
  }

  lemma WiderFits(x: int, a: nat, b: nat)
    requires 1 <= a <= b && Fits(x, a)
    ensures Fits(x, b)
  {
    Pow2Mono(a - 1, b - 1);
  }

  lemma SumOfErrors(nl: int, nh: int, u: int)
    ensures (nl - 1) * u + (nh - 1) * u + u == (nl + nh - 1) * u && nl * u + nh * u == (nl + nh) * u
    ensures (nl - 1) * u == nl * u - u && (nh - 1) * u == nh * u - u && (nl + nh - 1) * u == (nl + nh) * u - u
  {
  }

  lemma NodeLoss(t: Shape, l: Elem, h: Elem, max: int, g: nat)
    requires t.Ok() && t.MinExp() <= max && 1 <= g && Fits(l.m, g) && Fits(h.m, g)
    requires t.MinExp() <= l.e && t.MinExp() <= h.e
    requires (l.m != 0 ==> l.e <= max) && (h.m != 0 ==> h.e <= max)
    ensures
      var r := Sum2(l, h, g + 1);
      && t.MinExp() <= r.e && (r.m != 0 ==> r.e <= max)
      && 0 <= Weighted(t, l.m, l.e) + Weighted(t, h.m, h.e) - Weighted(t, r.m, r.e) <= Pow2(max - t.MinExp()) - 1
      && (l.m == 0 || h.m == 0 || l.e == h.e ==>
            Weighted(t, l.m, l.e) + Weighted(t, h.m, h.e) == Weighted(t, r.m, r.e))
  {
    hide Pow2, Wrap, Weighted, Fits;
    NodeNeverWraps(l, h, g);
    Pow2Mono(0, max - t.MinExp());
    Pow2Values();
    var lo, hi := if l.e < h.e then l else h, if l.e < h.e then h else l;
    if l.m == 0 || h.m == 0 {
      DivIntro(lo.m, 1, lo.m, 0);
      ZeroWeight(t, l.e);
      ZeroWeight(t, h.e);
    } else {
      AlignedLoss(t, lo, hi, max);
    }
  }

  lemma AlignedLoss(t: Shape, lo: Elem, hi: Elem, max: int)
    requires t.Ok() && t.MinExp() <= lo.e <= hi.e <= max
    ensures
      var m := hi.m + lo.m / Pow2(hi.e - lo.e);
      && 0 <= Weighted(t, lo.m, lo.e) + Weighted(t, hi.m, hi.e) - Weighted(t, m, hi.e) <= Pow2(max - t.MinExp()) - 1
      && (lo.e == hi.e ==> Weighted(t, lo.m, lo.e) + Weighted(t, hi.m, hi.e) == Weighted(t, m, hi.e))
  {
    hide Pow2, Weighted;
    ShiftLoss(t, lo.m, lo.e, hi.e);
    Pow2Mono(hi.e - t.MinExp(), max - t.MinExp());
    WeightedSum(t, hi.m, lo.m / Pow2(hi.e - lo.e), hi.e);
  }

  lemma ZeroWeight(t: Shape, e: int)
    requires t.Ok() && t.MinExp() <= e
    ensures Weighted(t, 0, e) == 0
  {
  }

  lemma WeightedSum(t: Shape, a: int, b: int, e: int)
    requires t.Ok() && t.MinExp() <= e
    ensures Weighted(t, a + b, e) == Weighted(t, a, e) + Weighted(t, b, e)
  {
  }

  /** By induction over the halves. */
  lemma {:induction false} TreeOk(t: Shape, x: seq<Elem>, max: int)
    requires t.Ok() && 1 <= |x| && AllHold(t, x) && ExponentsUpTo(x, max) && t.MinExp() <= max
    ensures NodeOk(t, |x|, Below(x, max), Exact(t, x), max, AddR(t, x))
    decreases |x|
  {
    hide Pow2, Log2Ceil, NodeOk, Sum2, Holds;
    if |x| == 1 {
      LeafTree(t, x, max);
    } else {
      var l := |x| / 2;
      SplitTree(t, x, l, max);
      TreeOk(t, x[..l], max);
      TreeOk(t, x[l..], max);
      HalfGrowth(|x|);
      hide Exact, AllHold, ExponentsUpTo, Below;
      NodeCombines(t, l, |x| - l, Below(x[..l], max), Below(x[l..], max), Exact(t, x[..l]), Exact(t, x[l..]), max,
                   AddR(t, x[..l]), AddR(t, x[l..]));
    }
  }

  lemma LeafTree(t: Shape, x: seq<Elem>, max: int)
    requires t.Ok() && |x| == 1 && AllHold(t, x) && ExponentsUpTo(x, max) && t.MinExp() <= max
    ensures NodeOk(t, 1, Below(x, max), Exact(t, x), max, AddR(t, x))
  {
    assert Holds(t, x[0]);
    assert Below(x[..0], max) == 0;
    assert Exact(t, x[..0]) == 0;
    hide Pow2, Log2Ceil, NodeOk, Sum2, Weighted;
    LeafOk(t, x[0], max);
  }

  lemma SplitTree(t: Shape, x: seq<Elem>, l: nat, max: int)
    requires t.Ok() && l <= |x| && AllHold(t, x) && ExponentsUpTo(x, max)
    ensures AllHold(t, x[..l]) && AllHold(t, x[l..]) && ExponentsUpTo(x[..l], max) && ExponentsUpTo(x[l..], max)
    ensures Exact(t, x) == Exact(t, x[..l]) + Exact(t, x[l..])
    ensures Below(x, max) == Below(x[..l], max) + Below(x[l..], max)
  {
    hide Exact, Holds, Below;
    assert x == x[..l] + x[l..];
    ExactConcat(t, x[..l], x[l..]);
    BelowConcat(x[..l], x[l..], max);
  }

  /** The tree of any size never overflows, never exceeds the exact sum, and falls short of it by
      less than one unit at the largest exponent max for each of its N - 1 additions, and for each
      non-zero element below max.  So elements at one exponent add exactly. */
  lemma TreeErrorBound(t: Shape, x: seq<Elem>, max: int)
    requires t.Ok() && 1 <= |x| && AllHold(t, x) && ExponentsUpTo(x, max) && t.MinExp() <= max
    ensures
      var r, loss := AddR(t, x), Exact(t, x) - AddR(t, x).m * Scale(t, AddR(t, x).e);
      && -Pow2(t.ee - 1) <= r.e && (r.m != 0 ==> r.e <= max)
      && -Pow2(t.w + t.extra + Log2Ceil(|x|) - 1) <= r.m < Pow2(t.w + t.extra + Log2Ceil(|x|) - 1)
      && 0 <= loss <= (|x| - 1) * (Scale(t, max) - 1) && loss <= Below(x, max) * (Scale(t, max) - 1)
      && ((forall k :: 0 <= k < |x| && x[k].m != 0 ==> x[k].e == max) ==> loss == 0)
  {
    hide Exact, AllHold, AddR, Log2Ceil, Pow2, Weighted, Scale, Below;
    TreeOk(t, x, max);
    WeightedScale(t, AddR(t, x).m, AddR(t, x).e);
    WeightedScale(t, 0, max);
    if forall k :: 0 <= k < |x| && x[k].m != 0 ==> x[k].e == max {
      NoneBelow(x, max);
      assert 0 * (Pow2(max - t.MinExp()) - 1) == 0;
    }
  }

  lemma WeightedScale(t: Shape, m: int, e: int)
    requires t.Ok() && t.MinExp() <= e
    ensures Weighted(t, m, e) == m * Scale(t, e) && Scale(t, e) == Pow2(e - t.MinExp())
  {
  }

  /** The weight of exponent e, in units at the smallest exponent. */
  function Scale(t: Shape, e: int): (p: int)
    requires t.Ok()
    ensures -Pow2(t.ee - 1) <= e ==> p == Pow2(e + Pow2(t.ee - 1))
  {
    if e < t.MinExp() then 0 else Pow2(e - t.MinExp())
  }

  /** A tree of zeros is exactly zero, whatever their exponents. */
  lemma {:induction false} ZeroTree(t: Shape, x: seq<Elem>)
    requires t.Ok() && 1 <= |x| && AllHold(t, x) && forall k :: 0 <= k < |x| ==> x[k].m == 0
    ensures AddR(t, x).m == 0
    decreases |x|
  {
    if |x| == 1 {
      assert 0 * Pow2(t.extra) == 0;
    } else {
      var l := |x| / 2;
      ZeroTree(t, x[..l]);
      ZeroTree(t, x[l..]);
      Log2CeilLeast(|x|);
      hide Pow2, Log2Ceil, Holds;
      ZeroNode(AddR(t, x[..l]), AddR(t, x[l..]), t.w + t.extra + Log2Ceil(|x|));
    }
  }

  lemma ZeroNode(a: Elem, b: Elem, w: nat)
    requires 1 <= w && a.m == 0 && b.m == 0
    ensures Sum2(a, b, w).m == 0
  {
    Pow2Values();
    Pow2Mono(0, w - 1);
    WrapFits(0, w);
    ModSmall(0, 1);
  }

  // ---- The block form: one common exponent ----

  /** `zero_handle_exp`: the low bits are masked and the sign bit is forced for a zero mantissa. */
  function ZeroHandleExp(zeroHandling: bool, ee: nat, exp: int, mant: int): int
    requires 2 <= ee
  {
    if !zeroHandling then exp
    else
      var low := exp % Pow2(ee - 1);
      var masked := if mant == 0 then 0 else low;
      if mant == 0 || exp < 0 then masked - Pow2(ee - 1) else masked
  }

  /** A zero mantissa takes the smallest exponent; any other keeps its own. */
  lemma ZeroHandleExpIs(zeroHandling: bool, ee: nat, exp: int, mant: int)
    requires 2 <= ee && Fits(exp, ee)
    ensures ZeroHandleExp(zeroHandling, ee, exp, mant) == (if zeroHandling && mant == 0 then -Pow2(ee - 1) else exp)
  {
    if exp < 0 {
      DivIntro(exp, Pow2(ee - 1), -1, exp + Pow2(ee - 1));
    } else {
      ModSmall(exp, Pow2(ee - 1));
    }
  }

  /** `max_r<N>::max`. */
  function MaxR(x: seq<int>): int
    requires 1 <= |x|
    decreases |x|
  {
    if |x| == 1 then x[0]
    else
      var l, h := MaxR(x[..|x| / 2]), MaxR(x[|x| / 2..]);
      if h > l then h else l
  }

  lemma {:induction false} MaxRIsLargest(x: seq<int>) returns (k: nat)
    requires 1 <= |x|
    ensures k < |x| && x[k] == MaxR(x)
    ensures forall j :: 0 <= j < |x| ==> x[j] <= MaxR(x)
    decreases |x|
  {
    if |x| == 1 {
      k := 0;
    } else {
      var n := |x| / 2;
      var l := MaxRIsLargest(x[..n]);
      var h := MaxRIsLargest(x[n..]);
      k := if MaxR(x[n..]) > MaxR(x[..n]) then n + h else l;
      forall j | 0 <= j < |x|
        ensures x[j] <= MaxR(x)
      {
        assert j < n ==> x[j] == x[..n][j];
        assert n <= j ==> x[j] == x[n..][j - n];
      }
    }
  }

  /** The exponents that compete for the maximum. */
  function Handled(t: Shape, zeroHandling: bool, x: seq<Elem>): (r: seq<int>)
    requires t.Ok()
    ensures |r| == |x|
    ensures forall k :: 0 <= k < |x| ==> r[k] == ZeroHandleExp(zeroHandling, t.ee, x[k].e, x[k].m)
  {
    seq(|x|, k requires 0 <= k < |x| => ZeroHandleExp(zeroHandling, t.ee, x[k].e, x[k].m))
  }

  /** What alignment to a common exponent loses of one element. */
  function Loss(t: Shape, x: Elem, y: int, exp: int): int
    requires t.Ok() && Holds(t, x) && t.MinExp() <= exp
  {
    Weighted(t, x.m * Pow2(t.extra), x.e) - Weighted(t, y, exp)
  }

  /** A mantissa shifted by the distance, as the ee-bit subtraction yields it: a zero with a larger
      exponent gets a wrong distance and stays zero. */
  lemma AlignedElement(t: Shape, x: Elem, exp: int)
    requires t.Ok() && Holds(t, x) && Fits(exp, t.ee) && (x.m != 0 ==> x.e <= exp)
    ensures
      var d := (exp - x.e) % Pow2(t.ee);
      var y := x.m * Pow2(t.extra) / Pow2(d);
      && 0 <= d && Fits(y, t.w + t.extra) && 0 <= Loss(t, x, y, exp) <= Pow2(exp - t.MinExp()) - 1
      && (x.m == 0 || x.e == exp ==> Loss(t, x, y, exp) == 0)
  {
    var d := (exp - x.e) % Pow2(t.ee);
    var m := x.m * Pow2(t.extra);
    DoublePow2(t.ee - 1);
    ScaledFits(t, x.m);
    ShiftFits(m, Pow2(d), Pow2(t.w + t.extra - 1));
    Pow2Mono(0, exp - t.MinExp());
    Pow2Mono(0, x.e - t.MinExp());
    Pow2Values();
    if x.m == 0 {
      ZeroElement(t, x.e, exp, Pow2(d));
    } else {
      hide Pow2, Fits;
      ModSmall(exp - x.e, Pow2(t.ee));
      ShiftLoss(t, m, x.e, exp);
    }
  }

  lemma ScaledFits(t: Shape, m: int)
    requires t.Ok() && Fits(m, t.w)
    ensures Fits(m * Pow2(t.extra), t.w + t.extra)
  {
    Pow2Add(t.w - 1, t.extra);
    hide Pow2;
    MulMono(-Pow2(t.w - 1), m, Pow2(t.extra));
    MulStrict(m, Pow2(t.w - 1), Pow2(t.extra));
  }

  lemma ZeroElement(t: Shape, e: int, exp: int, p: int)
    requires t.Ok() && 0 < p && t.MinExp() <= e && t.MinExp() <= exp
    ensures 0 * Pow2(t.extra) == 0 && 0 / p == 0 && Weighted(t, 0, e) == 0 && Weighted(t, 0, exp) == 0
  {
    ModSmall(0, p);
  }

  method ExpEqualizer(t: Shape, zeroHandling: bool, x: seq<Elem>, yMant: array<int>) returns (yExp: int)
    requires t.Ok() && 1 <= |x| == yMant.Length && AllHold(t, x)
    modifies yMant
    ensures Fits(yExp, t.ee) && ExponentsUpTo(x, yExp)
    ensures yExp == t.MinExp() || exists k :: 0 <= k < |x| && x[k].e == yExp && (zeroHandling ==> x[k].m != 0)
    ensures forall k :: 0 <= k < |x| ==>
      && Fits(yMant[k], t.w + t.extra)
      && 0 <= Loss(t, x[k], yMant[k], yExp) <= Pow2(yExp - t.MinExp()) - 1
      && (x[k].m == 0 || x[k].e == yExp ==> Loss(t, x[k], yMant[k], yExp) == 0)
  {
    var yExpAry := new int[|x|];
    for k := 0 to |x|
      invariant yExpAry[..k] == Handled(t, zeroHandling, x)[..k]
    {
      yExpAry[k] := ZeroHandleExp(zeroHandling, t.ee, x[k].e, x[k].m);
    }
    assert yExpAry[..] == Handled(t, zeroHandling, x);
    yExp := MaxR(yExpAry[..]);
    CommonExponent(t, zeroHandling, x);
    for k := 0 to |x|
      invariant forall j :: 0 <= j < k ==>
        && Fits(yMant[j], t.w + t.extra)
        && 0 <= Loss(t, x[j], yMant[j], yExp) <= Pow2(yExp - t.MinExp()) - 1
        && (x[j].m == 0 || x[j].e == yExp ==> Loss(t, x[j], yMant[j], yExp) == 0)
    {
      var mant := x[k].m * Pow2(t.extra);
      var expDif := (yExp - x[k].e) % Pow2(t.ee);
      assert Holds(t, x[k]);
      AlignedElement(t, x[k], yExp);
      mant := mant / Pow2(expDif);
      yMant[k] := mant;
    }
  }

  lemma CommonExponent(t: Shape, zeroHandling: bool, x: seq<Elem>)
    requires t.Ok() && 1 <= |x| && AllHold(t, x)
    ensures
      var max := MaxR(Handled(t, zeroHandling, x));
      && Fits(max, t.ee) && ExponentsUpTo(x, max)
      && (max == t.MinExp() || exists k :: 0 <= k < |x| && x[k].e == max && (zeroHandling ==> x[k].m != 0))
  {
    var h := Handled(t, zeroHandling, x);
    var k := MaxRIsLargest(h);
    forall j | 0 <= j < |x|
      ensures h[j] == (if zeroHandling && x[j].m == 0 then t.MinExp() else x[j].e)
    {
      assert Holds(t, x[j]);
      ZeroHandleExpIs(zeroHandling, t.ee, x[j].e, x[j].m);
    }
    assert Holds(t, x[k]);
  }

  /** Partial sums of k aligned mantissas. */
  ghost predicate PartialSum(t: Shape, x: seq<Elem>, exp: int, exactOne: nat, k: nat, acc: int)
    requires t.Ok() && AllHold(t, x) && k <= |x| && t.MinExp() <= exp
  {
    && -(k * Pow2(t.w + t.extra - 1)) <= acc <= k * (Pow2(t.w + t.extra - 1) - 1)
    && 0 <= Exact(t, x[..k]) - Weighted(t, acc, exp)
         <= (if exactOne < k then k - 1 else k) * (Pow2(exp - t.MinExp()) - 1)
    && Exact(t, x[..k]) - Weighted(t, acc, exp) <= Below(x[..k], exp) * (Pow2(exp - t.MinExp()) - 1)
  }

  lemma BlockStep(t: Shape, x: seq<Elem>, exp: int, exactOne: nat, k: nat, acc: int, y: int)
    requires t.Ok() && AllHold(t, x) && k < |x| && t.MinExp() <= exp && exactOne < |x|
    requires PartialSum(t, x, exp, exactOne, k, acc)
    requires Fits(y, t.w + t.extra)
    requires Holds(t, x[k]) && 0 <= Loss(t, x[k], y, exp) <= Pow2(exp - t.MinExp()) - 1
    requires k == exactOne || x[k].m == 0 || x[k].e == exp ==> Loss(t, x[k], y, exp) == 0
    requires x[k].m != 0 ==> x[k].e <= exp
    ensures Wrap(acc + y, t.w + t.extra + Log2Ceil(|x|)) == acc + y
    ensures PartialSum(t, x, exp, exactOne, k + 1, acc + y)
  {
    var b, u := Pow2(t.w + t.extra - 1), Pow2(exp - t.MinExp()) - 1;
    assert x[..k + 1][..k] == x[..k];
    MoveUnit(k, b - 1);
    MoveUnit(k, u);
    MoveUnit(k - 1, u);
    MoveUnit(k, b);
    MoveUnit(Below(x[..k], exp), u);
    WeightedSum(t, acc, y, exp);
    hide Pow2, Log2Ceil, Weighted;
    GrowthSuffices(t.w + t.extra, |x|, k + 1, acc + y);
  }

  lemma GrowthBounds(b: int, g: int, k: int, acc: int)
    requires 1 <= b && 1 <= k <= g && -(k * b) <= acc <= k * (b - 1)
    ensures -(b * g) <= acc < b * g
  {
    MulMono(k, g, b);
    MulMono(k, g, b - 1);
    assert g * (b - 1) == g * b - g && g * b == b * g;
  }

  lemma GrowthSuffices(w: nat, n: nat, k: nat, acc: int)
    requires 1 <= w && 1 <= k <= n && -(k * Pow2(w - 1)) <= acc <= k * (Pow2(w - 1) - 1)
    ensures Fits(acc, w + Log2Ceil(n)) && Wrap(acc, w + Log2Ceil(n)) == acc
  {
    var b, g := Pow2(w - 1), Pow2(Log2Ceil(n));
    Log2CeilLeast(n);
    Pow2Add(w - 1, Log2Ceil(n));
    GrowthBounds(b, g, k, acc);
    WrapFits(acc, w + Log2Ceil(n));
    hide Pow2, Log2Ceil, Wrap;
  }

  lemma EmptySum(t: Shape, x: seq<Elem>, exp: int, exactOne: nat)
    requires t.Ok() && AllHold(t, x) && t.MinExp() <= exp
    ensures PartialSum(t, x, exp, exactOne, 0, 0)
  {
  }

  /** Some element is aligned without loss: one at the common exponent, or else every one. */
  lemma SomeExact(t: Shape, x: seq<Elem>, y: seq<int>, exp: int) returns (k: nat)
    requires t.Ok() && 1 <= |x| == |y| && AllHold(t, x) && t.MinExp() <= exp && ExponentsUpTo(x, exp)
    requires exp == t.MinExp() || exists k :: 0 <= k < |x| && x[k].e == exp
    requires forall k :: 0 <= k < |x| ==> (x[k].m == 0 || x[k].e == exp ==> Loss(t, x[k], y[k], exp) == 0)
    ensures k < |x| && Loss(t, x[k], y[k], exp) == 0
  {
    if j :| 0 <= j < |x| && x[j].e == exp {
      k := j;
    } else {
      k := 0;
      assert Holds(t, x[0]);
    }
  }

  /** `block_add_tree_core`: align all mantissas to the largest exponent, then add them up. */
  method BlockAddTreeCore(t: Shape, zeroHandling: bool, x: seq<Elem>) returns (acc: int, maxExp: int)
    requires t.Ok() && 1 <= |x| && AllHold(t, x)
    ensures Fits(maxExp, t.ee) && ExponentsUpTo(x, maxExp)
    ensures maxExp == t.MinExp() || exists k :: 0 <= k < |x| && x[k].e == maxExp && (zeroHandling ==> x[k].m != 0)
    ensures Fits(acc, t.w + t.extra + Log2Ceil(|x|))
    ensures
      var loss := Exact(t, x) - acc * Scale(t, maxExp);
      && 0 <= loss <= (|x| - 1) * (Scale(t, maxExp) - 1) && loss <= Below(x, maxExp) * (Scale(t, maxExp) - 1)
      && ((forall k :: 0 <= k < |x| && x[k].m != 0 ==> x[k].e == maxExp) ==> loss == 0)
  {
    hide Pow2, Exact, Log2Ceil, Weighted, Wrap, Loss, PartialSum, Below, Scale;
    var mants := new int[|x|];
    maxExp := ExpEqualizer(t, zeroHandling, x, mants);
    ghost var aligned := mants[..];
    ghost var exactOne := SomeExact(t, x, aligned, maxExp);
    acc := 0;
    EmptySum(t, x, maxExp, exactOne);
    for k := 0 to |x|
      invariant mants[..] == aligned && PartialSum(t, x, maxExp, exactOne, k, acc)
    {
      assert Holds(t, x[k]);
      BlockStep(t, x, maxExp, exactOne, k, acc, aligned[k]);
      acc := Wrap(acc + mants[k], t.w + t.extra + Log2Ceil(|x|));
    }
    BlockDone(t, x, maxExp, exactOne, acc);
  }

  lemma BlockDone(t: Shape, x: seq<Elem>, exp: int, exactOne: nat, acc: int)
    requires t.Ok() && 1 <= |x| && AllHold(t, x) && t.MinExp() <= exp && exactOne < |x|
    requires PartialSum(t, x, exp, exactOne, |x|, acc)
    ensures Fits(acc, t.w + t.extra + Log2Ceil(|x|))
    ensures
      var loss := Exact(t, x) - acc * Scale(t, exp);
      && 0 <= loss <= (|x| - 1) * (Scale(t, exp) - 1) && loss <= Below(x, exp) * (Scale(t, exp) - 1)
      && ((forall k :: 0 <= k < |x| && x[k].m != 0 ==> x[k].e == exp) ==> loss == 0)
  {
    hide Pow2, Log2Ceil, Exact, Below, Weighted, Scale;
    assert x[..|x|] == x;
    WeightedScale(t, acc, exp);
    if forall k :: 0 <= k < |x| && x[k].m != 0 ==> x[k].e == exp {
      NoneBelow(x, exp);
      assert 0 * (Pow2(exp - t.MinExp()) - 1) == 0;
    }
    GrowthSuffices(t.w + t.extra, |x|, |x|, acc);
  }
}

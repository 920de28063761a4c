/** The digit-by-digit square root `fx_sqrt`. */
module FloatRoot {
  import opened Powers

  // ---- The integer root ----

  function Square(x: int): int {
    x * x
  }

  ghost predicate IsRoot(r: int, x: int) {
    0 <= r && r * r <= x < (r + 1) * (r + 1)
  }

  /** After some digits: r is the root of the leading part p of the input, d what is left of p. */
  ghost predicate RootSoFar(p: int, r: int, d: int) {
    IsRoot(r, p) && d == p - r * r
  }

  lemma ZeroRoot()
    ensures RootSoFar(0, 0, 0)
  {
  }

  lemma RootFound(p: int, r: int, d: int)
    requires RootSoFar(p, r, d)
    ensures IsRoot(r, p) && d == p - r * r
  {
  }

  /** The input scaled to 2 * wr bits: its leading digit pairs, padded with zeros. */
  function Scaled(w: nat, wr: nat, x: nat): int {
    x * Pow2(w % 2) * Pow2(2 * wr) / Pow2(w + w % 2)
  }

  /** Leading digit pairs of z, out of zw bits. */
  function Leading(z: nat, zw: nat, k: nat): int {
    z * Pow2(2 * k) / Pow2(zw)
  }

  /** The digit pairs that follow, at the top of zw bits. */
  function Rest(z: nat, zw: nat, k: nat): int {
    z * Pow2(2 * k) % Pow2(zw)
  }

  /** Moving one more digit pair from the rest of z to the leading part. */
  lemma NextPair(z: nat, zw: nat, k: nat)
    requires 2 <= zw
    ensures
      var pair := Rest(z, zw, k) / Pow2(zw - 2);
      && 0 <= pair < 4 && Leading(z, zw, k + 1) == 4 * Leading(z, zw, k) + pair
      && Rest(z, zw, k + 1) == Rest(z, zw, k) * 4 % Pow2(zw)
  {
    Pow2Add(2, 2 * k);
    Pow2Add(2, zw - 2);
    Pow2Values();
    hide Pow2;
    assert z * Pow2(2 * (k + 1)) == 4 * (z * Pow2(2 * k)) by {
      assert 2 * (k + 1) == 2 + 2 * k;
      MulAssoc(z, 4, Pow2(2 * k));
      assert z * 4 * Pow2(2 * k) == 4 * (z * Pow2(2 * k));
    }
    ShiftPair(z * Pow2(2 * k), Pow2(zw - 2));
  }

  lemma ShiftPair(y: int, h: int)
    requires 0 < h
    ensures
      var rest := y % (4 * h);
      var pair := rest / h;
      0 <= pair < 4 && (4 * y) / (4 * h) == 4 * (y / (4 * h)) + pair && (4 * y) % (4 * h) == rest * 4 % (4 * h)
  {
    var q, rest := y / (4 * h), y % (4 * h);
    DivBounds(y, 4 * h);
    var pair, low := rest / h, rest % h;
    DivBounds(rest, h);
    if pair < 0 {
      MulMono(pair + 1, 0, h);
    } else if 4 <= pair {
      MulMono(4, pair, h);
    }
    assert (4 * q + pair) * (4 * h) == 4 * (q * (4 * h)) + 4 * (pair * h);
    DivIntro(4 * y, 4 * h, 4 * q + pair, 4 * low);
    assert pair * (4 * h) == 4 * (pair * h);
    DivIntro(rest * 4, 4 * h, pair, 4 * low);
  }

  /** One digit of the root: trial subtraction of 4 r + 1 decides it. */
  lemma RootDigit(r: int, p: int, pair: int)
    requires IsRoot(r, p) && 0 <= pair < 4
    ensures
      var t := 4 * (p - r * r) + pair - (4 * r + 1);
      && (0 <= t ==> IsRoot(2 * r + 1, 4 * p + pair) && t == 4 * p + pair - (2 * r + 1) * (2 * r + 1))
      && (t < 0 ==> IsRoot(2 * r, 4 * p + pair) && 4 * (p - r * r) + pair == 4 * p + pair - (2 * r) * (2 * r))
      && -(4 * r + 1) <= t <= 4 * r + 2
      && 0 <= 4 * (p - r * r) + pair <= 8 * r + 3
  {
    assert (r + 1) * (r + 1) == r * r + 2 * r + 1;
    assert (2 * r) * (2 * r) == 4 * (r * r);
    assert (2 * r + 1) * (2 * r + 1) == 4 * (r * r) + 4 * r + 1;
    assert (2 * r + 2) * (2 * r + 2) == 4 * (r * r) + 8 * r + 4;
  }

  /** Low ones of the mask after k steps, in wr + 2 bits. */
  function Mask(k: nat, wr: nat): int {
    if 2 * k <= wr + 2 then Pow2(2 * k) - 1 else Pow2(wr + 2) - 1
  }

  lemma MaskStep(k: nat, wr: nat)
    ensures (Mask(k, wr) * 4 + 3) % Pow2(wr + 2) == Mask(k + 1, wr)
  {
    hide Pow2;
    var p, top := Pow2(wr + 2), Mask(k, wr) + 1;
    Pow2Values();
    Pow2Add(2, 2 * k);
    assert 2 + 2 * k == 2 * (k + 1);
    if 2 * (k + 1) <= wr + 2 {
      Pow2Mono(2 * (k + 1), wr + 2);
    } else if 2 * k == wr + 1 {
      DoublePow2(2 * k);
    }
    NextMask(top, p);
  }

  lemma NextMask(top: int, p: int)
    requires 0 < top && (4 * top <= p || 2 * top == p || top == p)
    ensures ((top - 1) * 4 + 3) % p == if 4 * top <= p then 4 * top - 1 else p - 1
  {
    if 4 * top <= p {
      ModSmall((top - 1) * 4 + 3, p);
    } else {
      DivIntro((top - 1) * 4 + 3, p, if 2 * top == p then 1 else 3, p - 1);
    }
  }

  /** Neither the masks nor the wr + 2 bits of d and t lose anything, and bit wr + 1 is the sign of t. */
  lemma WidthsSuffice(k: nat, wr: nat, r: int, dOld: int, pair: int)
    requires k < wr && 0 <= r < Pow2(k) && 0 <= dOld <= 2 * r && 0 <= pair < 4
    requires 4 * dOld + pair < Pow2(2 * (k + 1))
    ensures
      var d := 4 * dOld + pair;
      var t := d - (4 * r + 1);
      && (4 * dOld % Pow2(wr + 2)) % (Mask(k + 1, wr) + 1) + pair == d
      && 4 * r < Pow2(wr + 1)
      && ((t % Pow2(wr + 2)) / Pow2(wr + 1) == 0 <==> 0 <= t)
      && (0 <= t ==> (t % Pow2(wr + 2)) % (Mask(k + 1, wr) + 1) == t)
  {
    hide Pow2, Mask;
    var d := 4 * dOld + pair;
    var t := d - (4 * r + 1);
    Pow2Mono(k + 1, wr);
    DoublePow2(wr);
    DoublePow2(wr + 1);
    DoublePow2(k);
    MaskIs(k + 1, wr);
    var h := Pow2(wr + 1);
    assert Pow2(wr + 2) == 2 * h && d < 2 * h && 4 * r + 2 < h;
    ModSmall(4 * dOld, 2 * h);
    ModSmall(4 * dOld, Mask(k + 1, wr) + 1);
    TrialBits(t, h, Mask(k + 1, wr) + 1);
  }

  lemma MaskIs(k: nat, wr: nat)
    ensures Mask(k, wr) + 1 == Pow2(2 * k) || Mask(k, wr) + 1 == Pow2(wr + 2)
  {
  }

  /** Bit wr + 1 of the wrapped difference is its sign, and the mask keeps it. */
  lemma TrialBits(t: int, h: int, mask: int)
    requires -h < t < h && t < mask && 0 < mask
    ensures 0 < h
    ensures (t % (2 * h)) / h == 0 <==> 0 <= t
    ensures 0 <= t ==> t % (2 * h) % mask == t
  {
    if 0 <= t {
      ModSmall(t, 2 * h);
      ModSmall(t, h);
      ModSmall(t, mask);
    } else {
      ModMultiple(t, 1, 2 * h);
      ModSmall(t + 2 * h, 2 * h);
      DivIntro(t + 2 * h, h, 1, t + h);
    }
  }

  lemma RootBelow(r: int, p: int, k: nat)
    requires IsRoot(r, p) && p < Pow2(2 * k)
    ensures r < Pow2(k)
  {
    Pow2Add(k, k);
    assert k + k == 2 * k;
    hide Pow2;
    if Pow2(k) <= r {
      MulMono(Pow2(k), r, Pow2(k));
      MulMono(Pow2(k), r, r);
    }
  }

  lemma LeadingBound(z: nat, zw: nat, k: nat)
    requires z < Pow2(zw)
    ensures 0 <= Leading(z, zw, k) < Pow2(2 * k)
  {
    hide Pow2;
    var y, m, p := z * Pow2(2 * k), Pow2(zw), Pow2(2 * k);
    MulStrict(z, m, p);
    MulMono(0, z, p);
    DivBounds(y, m);
    if y / m < 0 {
      MulMono(y / m + 1, 0, m);
    }
    assert m * p == p * m;
    MulCancelLt(y / m, p, m);
  }

  lemma NothingLeading(z: nat, zw: nat)
    requires z < Pow2(zw)
    ensures Leading(z, zw, 0) == 0 && Rest(z, zw, 0) == z
  {
    Pow2Values();
    hide Pow2;
    assert z * 1 == z;
    ModSmall(z, Pow2(zw));
  }

  /** One pass of the loop, with every intermediate value in its width. */
  lemma RootStep(k: nat, wr: nat, z0: nat, zw: nat, r: int, d: int, z: int)
    requires k < wr && 2 <= zw && z0 < Pow2(zw)
    requires 0 <= r < Pow2(k) && RootSoFar(Leading(z0, zw, k), r, d)
    requires z == Rest(z0, zw, k)
    ensures
      var r1 := r * 2 % Pow2(wr);
      var d1 := (d * 4 % Pow2(wr + 2)) % (Mask(k + 1, wr) + 1) + z / Pow2(zw - 2) % 4;
      var t := (d1 - (2 * r1 + 1)) % Pow2(wr + 2);
      var r2, d2 := if t / Pow2(wr + 1) == 0 then r1 + 1 else r1, if t / Pow2(wr + 1) == 0 then t % (Mask(k + 1, wr) + 1) else d1;
      && 0 <= r2 < Pow2(k + 1) && RootSoFar(Leading(z0, zw, k + 1), r2, d2)
      && z * 4 % Pow2(zw) == Rest(z0, zw, k + 1)
  {
    hide Pow2, Mask, Leading, Rest, RootSoFar;
    var p, pair := Leading(z0, zw, k), z / Pow2(zw - 2);
    NextPair(z0, zw, k);
    LeadingBound(z0, zw, k + 1);
    NextDigit(r, p, d, pair, k);
    WidthsSuffice(k, wr, r, d, pair);
    Doubled(k, wr, r);
    ModSmall(pair, 4);
  }

  /** The trial difference decides the next digit. */
  lemma NextDigit(r: int, p: int, d: int, pair: int, k: nat)
    requires RootSoFar(p, r, d) && 0 <= pair < 4 && 4 * p + pair < Pow2(2 * (k + 1))
    ensures
      var t := 4 * d + pair - (4 * r + 1);
      && 0 <= d <= 2 * r && 4 * d + pair < Pow2(2 * (k + 1))
      && (0 <= t ==> RootSoFar(4 * p + pair, 2 * r + 1, t) && 2 * r + 1 < Pow2(k + 1))
      && (t < 0 ==> RootSoFar(4 * p + pair, 2 * r, 4 * d + pair) && 2 * r < Pow2(k + 1))
  {
    hide Pow2, IsRoot;
    RootDigit(r, p, pair);
    RemainderBound(r, p);
    var t := 4 * d + pair - (4 * r + 1);
    RootBelow(if 0 <= t then 2 * r + 1 else 2 * r, 4 * p + pair, k + 1);
  }

  method FxSqrt(w: nat, wr: nat, x: int) returns (root: int, inexact: bool)
    requires 1 <= w && 1 <= wr && 0 <= x < Pow2(w)
    ensures 0 <= root < Pow2(wr) && IsRoot(root, Scaled(w, wr, x))
    ensures inexact <==> root * root != Scaled(w, wr, x)
    ensures (inexact <==> !ExactRoot(w, wr, x, root)) <==> !RestIsMissed(w, wr, x)
  {
    hide *;
    var odd := w % 2;
    var zw := w + odd;
    ScaledIn(w, x);
    var z := x * Pow2(odd) % Pow2(zw);
    ghost var z0: nat := z;
    var maskD, d, r := 0, 0, 0;
    var zShift := zw - 2;
    NothingLeading(z0, zw);
    Pow2Values();
    MaskStart(wr);
    ZeroRoot();
    for i := wr downto 0
      invariant 0 <= r < Pow2(wr - i) && RootSoFar(Leading(z0, zw, wr - i), r, d)
      invariant z == Rest(z0, zw, wr - i)
      invariant maskD == Mask(wr - i, wr)
    {
      RootStep(wr - i - 1, wr, z0, zw, r, d, z);
      MaskStep(wr - i - 1, wr);
      r := r * 2 % Pow2(wr);
      maskD := (maskD * 4 + 3) % Pow2(wr + 2);
      d := (d * 4 % Pow2(wr + 2)) % (maskD + 1) + z / Pow2(zShift) % 4;
      var t := (d - (2 * r + 1)) % Pow2(wr + 2);
      if t / Pow2(wr + 1) == 0 {
        r := r + 1;
        d := t % (maskD + 1);
      }
      z := z * 4 % Pow2(zw);
    }
    RestIsSmall(w, z0, wr);
    RootFound(Leading(z0, zw, wr), r, d);
    inexact := d != 0 || z / Pow2(2 * w) != 0;
    root := r;
    LeadingIsScaled(w, wr, x);
    NarrowRootFlag(w, wr, x, root);
  }

  lemma RestIsSmall(w: nat, z0: nat, k: nat)
    requires 1 <= w
    ensures Rest(z0, w + w % 2, k) / Pow2(2 * w) == 0
  {
    var z := Rest(z0, w + w % 2, k);
    Pow2Mono(w + w % 2, 2 * w);
    ModSmall(z, Pow2(2 * w));
  }

  lemma LeadingIsScaled(w: nat, wr: nat, x: nat)
    ensures 0 <= x * Pow2(w % 2) && Leading(x * Pow2(w % 2), w + w % 2, wr) == Scaled(w, wr, x)
  {
    hide Pow2;
    MulMono(0, x, Pow2(w % 2));
  }

  /** With room for every input bit the scaling is exact, and so is the flag. */
  lemma ScalingIsExact(w: nat, wr: nat, x: nat)
    requires w + w % 2 <= 2 * wr
    ensures Scaled(w, wr, x) == x * Pow2(2 * wr - w)
  {
    Pow2Add(w % 2, 2 * wr);
    Pow2Add(w + w % 2, 2 * wr - w);
    assert w % 2 + 2 * wr == w + w % 2 + (2 * wr - w);
    hide Pow2;
    ScaleBack(x, Pow2(w % 2), Pow2(2 * wr), Pow2(w + w % 2), Pow2(2 * wr - w));
  }

  lemma ScaleBack(x: int, a: int, b: int, c: int, e: int)
    requires 0 < c && a * b == c * e
    ensures x * a * b / c == x * e
  {
    assert x * a * b == x * (a * b);
    assert x * (c * e) == (x * e) * c;
    DivIntro(x * a * b, c, x * e, 0);
  }

  /** Whether the root is the exact root of the whole input, as a fraction of wr bits. */
  predicate ExactRoot(w: nat, wr: nat, x: nat, root: int) {
    Square(root) * Pow2(w + w % 2) == x * Pow2(w % 2) * Pow2(2 * wr)
  }

  ghost predicate IsSquare(n: int) {
    exists s: nat :: Square(s) == n
  }

  /** A root narrower than half the input looks at its leading bits only.  The flag misses a remainder
      in the other bits when the leading ones are a square. */
  ghost predicate RestIsMissed(w: nat, wr: nat, x: nat) {
    && 2 * wr < w + w % 2
    && var y, dropped := x * Pow2(w % 2), Pow2(w + w % 2 - 2 * wr);
       y % dropped != 0 && IsSquare(y / dropped)
  }

  /** The flag tells whether the root of the whole input is exact, except where it misses the rest. */
  lemma NarrowRootFlag(w: nat, wr: nat, x: nat, root: int)
    requires IsRoot(root, Scaled(w, wr, x))
    ensures (root * root == Scaled(w, wr, x) <==> ExactRoot(w, wr, x, root)) <==> !RestIsMissed(w, wr, x)
  {
    hide Pow2, IsRoot, Scaled, IsSquare;
    var y, zw := x * Pow2(w % 2), w + w % 2;
    RootOfSquare(root, Scaled(w, wr, x));
    if zw <= 2 * wr {
      WideRoot(w, wr, x, root);
    } else {
      Pow2Add(zw - 2 * wr, 2 * wr);
      ScaledIs(w, wr, x);
      ScaledDiv(y, Pow2(zw - 2 * wr), Pow2(2 * wr));
      NarrowExact(root * root, y, Pow2(zw - 2 * wr), Pow2(2 * wr));
    }
  }

  lemma ScaledIs(w: nat, wr: nat, x: nat)
    ensures Scaled(w, wr, x) == x * Pow2(w % 2) * Pow2(2 * wr) / Pow2(w + w % 2)
  {
  }

  /** The root of a square, and of nothing else, is exact. */
  lemma RootOfSquare(r: int, n: int)
    requires IsRoot(r, n)
    ensures r * r == n <==> IsSquare(n)
  {
    if r * r == n {
      assert Square(r) == n;
    } else if IsSquare(n) {
      var s: nat :| Square(s) == n;
      if s <= r {
        MulMono(s, r, s);
        MulMono(s, r, r);
      } else {
        MulMono(r + 1, s, r + 1);
        MulMono(r + 1, s, s);
      }
    }
  }

  lemma WideRoot(w: nat, wr: nat, x: nat, root: int)
    requires w + w % 2 <= 2 * wr
    ensures root * root == Scaled(w, wr, x) <==> ExactRoot(w, wr, x, root)
  {
    ScalingIsExact(w, wr, x);
    Pow2Add(w % 2, 2 * wr);
    Pow2Add(2 * wr - w, w + w % 2);
    assert 2 * wr - w + (w + w % 2) == w % 2 + 2 * wr;
    hide Pow2, Scaled;
    SameProduct(x, Pow2(w % 2), Pow2(2 * wr), Pow2(2 * wr - w), Pow2(w + w % 2), root * root);
  }

  lemma SameProduct(x: int, a: int, b: int, c: int, d: int, s: int)
    requires a * b == c * d && 0 < d
    ensures s == x * c <==> s * d == x * a * b
  {
    MulAssoc(x, a, b);
    MulAssoc(x, c, d);
    if s < x * c {
      MulStrict(s, x * c, d);
    } else if x * c < s {
      MulStrict(x * c, s, d);
    }
  }

  lemma NarrowExact(s: int, y: int, d: int, b: int)
    requires 0 < d && 0 < b
    ensures s * (d * b) == y * b <==> s == y / d && y % d == 0
  {
    DivBounds(y, d);
    MulAssoc(s, d, b);
    if s * d < y {
      MulStrict(s * d, y, b);
    } else if y < s * d {
      MulStrict(y, s * d, b);
    } else {
      DivIntro(y, d, s, 0);
    }
  }

  /** A root of one bit calls the root of 5/4 exact. */
  lemma NarrowRootExample(root: int)
    requires IsRoot(root, Scaled(4, 1, 5))
    ensures root == 1 && root * root == Scaled(4, 1, 5) && !ExactRoot(4, 1, 5, root)
  {
    Pow2Values();
    hide Pow2;
    assert Scaled(4, 1, 5) == 1;
    if root > 1 {
      MulMono(2, root, 2);
      MulMono(2, root, root);
    }
  }

  lemma ScaledIn(w: nat, x: nat)
    requires x < Pow2(w)
    ensures 0 <= x * Pow2(w % 2) < Pow2(w + w % 2)
    ensures x * Pow2(w % 2) % Pow2(w + w % 2) == x * Pow2(w % 2)
  {
    Pow2Add(w, w % 2);
    hide Pow2;
    MulStrict(x, Pow2(w), Pow2(w % 2));
    MulMono(0, x, Pow2(w % 2));
    ModSmall(x * Pow2(w % 2), Pow2(w + w % 2));
  }

  lemma MaskStart(wr: nat)
    ensures Mask(0, wr) == 0
  {
  }

  lemma RemainderBound(r: int, p: int)
    requires IsRoot(r, p)
    ensures 0 <= p - r * r <= 2 * r && p - r * r <= p
  {
    assert (r + 1) * (r + 1) == r * r + 2 * r + 1;
    MulMono(0, r, r);
  }

  lemma Doubled(k: nat, wr: nat, r: int)
    requires k < wr && 0 <= r < Pow2(k)
    ensures r * 2 % Pow2(wr) == 2 * r
  {
    Pow2Mono(k + 1, wr);
    ModSmall(2 * r, Pow2(wr));
  }
}

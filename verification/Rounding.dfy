/** What the eight quantization modes and the four overflow modes mean, on exact numbers. */
module Rounding {
  import opened Powers
  import opened Words
  import opened AcTypes

  datatype QMode = TRN | RND | TRN_ZERO | RND_ZERO | RND_INF | RND_MIN_INF | RND_CONV | RND_CONV_ODD
  datatype OMode = WRAP | SAT | SAT_ZERO | SAT_SYM

  /** z is x / p rounded in mode q.  The rounding modes take the nearest integer and differ only on ties. */
  ghost predicate IsRounded(q: QMode, x: int, p: int, z: int)
    requires 0 < p
  {
    match q
    case TRN => z * p <= x < z * p + p
    case TRN_ZERO => AbsVal(z * p) <= AbsVal(x) && AbsVal(x - z * p) < p && (x < 0 ==> z <= 0) && (0 <= x ==> 0 <= z)
    case _ =>
      && 2 * AbsVal(x - z * p) <= p
      && (2 * AbsVal(x - z * p) == p ==> TieRule(q, x, z * p, z % 2 == 1))
  }

  /** Which neighbour y of a halfway x a mode takes: up, down, toward or away from zero, or by parity. */
  predicate TieRule(q: QMode, x: int, y: int, odd: bool) {
    if q == RND then x < y
    else if q == RND_MIN_INF then y < x
    else if q == RND_ZERO then AbsVal(y) < AbsVal(x)
    else if q == RND_INF then AbsVal(x) < AbsVal(y)
    else if q == RND_CONV then !odd
    else odd
  }

  /** The rounded quotient, from the floor and the remainder. */
  function Round(q: QMode, x: int, p: int): (z: int)
    requires 0 < p
    ensures IsRounded(q, x, p, z)
    ensures z == x / p || z == x / p + 1
  {
    var f, m := x / p, x % p;
    RoundBounds(x, p, f, m);
    if q == TRN || m == 0 then f
    else if q == TRN_ZERO then (if x < 0 then f + 1 else f)
    else if 2 * m < p then f
    else if p < 2 * m then f + 1
    else if TieGoesUp(q, x < 0, f % 2 == 1) then f + 1
    else f
  }

  lemma RoundNearFloor(x: int, p: int)
    requires 0 < p
    ensures x / p <= Round(RND_CONV, x, p) <= x / p + 1
  {
  }

  predicate TieGoesUp(q: QMode, neg: bool, odd: bool) {
    if q == RND then true
    else if q == RND_MIN_INF then false
    else if q == RND_ZERO then neg
    else if q == RND_INF then !neg
    else if q == RND_CONV then odd
    else !odd
  }

  /** Halfway between two numbers: RND takes the upper and RND_MIN_INF the lower one, RND_INF the one
      away from zero and RND_ZERO the other, RND_CONV the even and RND_CONV_ODD the odd one. */
  lemma RoundTies(x: int, p: int)
    requires 0 < p && 2 * (x % p) == p
    ensures Round(RND, x, p) == x / p + 1 && Round(RND_MIN_INF, x, p) == x / p
    ensures Round(RND_INF, x, p) == (if 0 <= x then x / p + 1 else x / p)
    ensures Round(RND_ZERO, x, p) == (if 0 <= x then x / p else x / p + 1)
    ensures Round(RND_CONV, x, p) % 2 == 0 && Round(RND_CONV_ODD, x, p) % 2 == 1
    ensures Round(TRN, x, p) == x / p && Round(TRN_ZERO, x, p) == (if 0 <= x then x / p else x / p + 1)
  {
    hide IsRounded;
  }

  /** Elsewhere all rounding modes take the nearest number. */
  lemma RoundNearest(q: QMode, x: int, p: int)
    requires 0 < p && 2 * (x % p) != p && q != TRN && q != TRN_ZERO
    ensures Round(q, x, p) == (if 2 * (x % p) < p then x / p else x / p + 1)
  {
    hide IsRounded;
  }

  /** Rounding a negated number. */
  lemma RoundNegated(x: int, p: int)
    requires 0 < p
    ensures Round(RND_ZERO, -x, p) == -Round(RND_ZERO, x, p) && Round(RND_INF, -x, p) == -Round(RND_INF, x, p)
    ensures Round(RND_CONV, -x, p) == -Round(RND_CONV, x, p) && Round(TRN_ZERO, -x, p) == -Round(TRN_ZERO, x, p)
    ensures Round(RND_CONV_ODD, -x, p) == -Round(RND_CONV_ODD, x, p)
    ensures Round(RND_MIN_INF, -x, p) == -Round(RND, x, p)
  {
    hide IsRounded;
    NegatedQuotient(x, p);
    NegatedQuotient(-x, p);
  }

  lemma RoundBounds(x: int, p: int, f: int, m: int)
    requires 0 < p && f == x / p && m == x % p
    ensures x == f * p + m && 0 <= m < p && (f + 1) * p == f * p + p
    ensures 0 <= x ==> 0 <= f && 0 <= f * p
    ensures x < 0 ==> f < 0 && f * p <= -p
  {
    DivBounds(x, p);
    assert (f + 1) * p == f * p + p;
    if f < 0 {
      MulMono(f, -1, p);
    } else {
      MulMono(0, f, p);
    }
  }

  /** A rounding mode determines its result. */
  lemma RoundedUnique(q: QMode, x: int, p: int, z: int, z': int)
    requires 0 < p && IsRounded(q, x, p, z) && IsRounded(q, x, p, z')
    ensures z == z'
  {
    if z < z' {
      CloseMultiples(z, z', p);
    } else if z' < z {
      CloseMultiples(z', z, p);
    }
  }

  lemma CloseMultiples(z: int, z': int, p: int)
    requires 0 < p && z < z'
    ensures z' == z + 1 ==> z' * p == z * p + p
    ensures z' != z + 1 ==> z * p + 2 * p <= z' * p
    ensures 0 < z' ==> p <= z' * p
    ensures z < 0 ==> z * p <= -p
  {
    assert (z + 1) * p == z * p + p;
    MulMono(z + 1, z', p);
    if z' != z + 1 {
      MulMono(z + 2, z', p);
      assert (z + 2) * p == z * p + 2 * p;
    }
    if 0 < z' {
      MulMono(1, z', p);
    }
    if z < 0 {
      MulMono(z, -1, p);
    }
  }

  /** x scaled by 2^-s, rounded when that loses bits. */
  function Quantize(q: QMode, x: int, s: int): int {
    if 0 < s then Round(q, x, Pow2(s)) else x * Pow2(-s)
  }

  function Largest(w: nat, s: bool): int
    requires 0 < w
  {
    if s then Pow2(w - 1) - 1 else Pow2(w) - 1
  }

  function Smallest(w: nat, s: bool, sym: bool): int
    requires 0 < w
  {
    if !s then 0 else if sym then -(Pow2(w - 1) - 1) else -Pow2(w - 1)
  }

  /** z fitted into w bits: wrapped, clamped, zeroed, or clamped to a range symmetric around zero. */
  function Fit(o: OMode, z: int, w: nat, s: bool): (r: int)
    requires 0 < w
    ensures InType(r, w, s)
    ensures o != WRAP && Smallest(w, s, o == SAT_SYM) <= z <= Largest(w, s) ==> r == z
  {
    match o
    case WRAP => if s then Wrap(z, w) else z % Pow2(w)
    case SAT_ZERO => if InType(z, w, s) then z else 0
    case _ =>
      if z < Smallest(w, s, o == SAT_SYM) then Smallest(w, s, o == SAT_SYM)
      else if Largest(w, s) < z then Largest(w, s)
      else z
  }

  /** Saturation takes the nearest number of the type. */
  lemma SaturationIsNearest(z: int, w: nat, s: bool, y: int)
    requires 0 < w && (if s then -Pow2(w - 1) <= y < Pow2(w - 1) else 0 <= y < Pow2(w))
    ensures
      var r := Fit(SAT, z, w, s);
      && (if s then -Pow2(w - 1) <= r < Pow2(w - 1) else 0 <= r < Pow2(w))
      && AbsVal(r - z) <= AbsVal(y - z)
  {
    hide Pow2;
  }

  /** Symmetric saturation takes the nearest number whose negation is in the type too. */
  lemma SymmetricIsNearest(z: int, w: nat, s: bool, y: int)
    requires 0 < w && (if s then -Pow2(w - 1) < y < Pow2(w - 1) else 0 <= y < Pow2(w))
    ensures
      var r := Fit(SAT_SYM, z, w, s);
      && (if s then -Pow2(w - 1) < r < Pow2(w - 1) else 0 <= r < Pow2(w))
      && AbsVal(r - z) <= AbsVal(y - z)
  {
    hide Pow2;
  }

  /** Zeroing keeps what is in the type and nothing else; wrapping keeps the low bits. */
  lemma ZeroedOrWrapped(z: int, w: nat, s: bool)
    requires 0 < w
    ensures
      Fit(SAT_ZERO, z, w, s) == if (if s then -Pow2(w - 1) <= z < Pow2(w - 1) else 0 <= z < Pow2(w)) then z else 0
    ensures
      var r := Fit(WRAP, z, w, s);
      && (if s then -Pow2(w - 1) <= r < Pow2(w - 1) else 0 <= r < Pow2(w))
      && r % Pow2(w) == z % Pow2(w)
  {
    var k := WrapCongruent(z, w);
    hide Pow2, Wrap;
    DivBounds(z, Pow2(w));
    ModSmall(z % Pow2(w), Pow2(w));
  }

  /** The carry into the quotient that the source computes from the first dropped bit, the bits
      below it, the sign, and the parity of the truncated value. */
  function RoundUp(q: QMode, qb: bool, r: bool, neg: bool, odd: bool): bool {
    match q
    case TRN => false
    case RND => qb
    case TRN_ZERO => neg && (qb || r)
    case RND_ZERO => qb && (neg || r)
    case RND_INF => qb && (!neg || r)
    case RND_MIN_INF => qb && r
    case RND_CONV => qb && (odd || r)
    case RND_CONV_ODD => qb && (!odd || r)
  }

  /** One bit and one sticky flag are enough to round correctly in every mode; h is half of 2^s. */
  lemma RoundUpIsRounding(q: QMode, x: int, h: int)
    requires 0 < h
    ensures
      var qb, r := (x / h) % 2 == 1, x % h != 0;
      Round(q, x, 2 * h) == x / (2 * h) + (if RoundUp(q, qb, r, x < 0, (x / (2 * h)) % 2 == 1) then 1 else 0)
  {
    DivDiv(x, h, 2);
    assert h * 2 == 2 * h;
    var a := x / h;
    DivBounds(x, h);
    DivBounds(x, 2 * h);
    var f := x / (2 * h);
    assert a == 2 * f + a % 2;
    assert a * h == f * (2 * h) + (a % 2) * h by {
      assert (2 * f + a % 2) * h == (2 * f) * h + (a % 2) * h;
    }
    assert x % (2 * h) == (if a % 2 == 1 then h else 0) + x % h;
  }
}

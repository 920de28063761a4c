/** Powers of two and the few facts about products, floors and remainders that
    every other module needs.  Nonlinear steps are kept in lemmas of their own. */
module Powers {

  function Pow2(n: nat): (p: int)
    ensures p > 0
  {
    if n == 0 then 1 else 2 * Pow2(n - 1)
  }

  lemma DoublePow2(n: nat)
    ensures Pow2(n + 1) == 2 * Pow2(n)
  {
  }

  lemma {:induction false} Pow2Add(a: nat, b: nat)
    ensures Pow2(a + b) == Pow2(a) * Pow2(b)
  {
    if a != 0 {
      Pow2Add(a - 1, b);
      assert Pow2(a + b) == 2 * Pow2(a - 1 + b);
      MulAssoc(2, Pow2(a - 1), Pow2(b));
    }
  }

  lemma {:induction false} Pow2Mono(a: nat, b: nat)
    requires a <= b
    ensures Pow2(a) <= Pow2(b)
    ensures a < b ==> 2 * Pow2(a) <= Pow2(b)
    decreases b
  {
    if a < b {
      Pow2Mono(a, b - 1);
    }
  }

  lemma {:induction false} Pow2Exceeds(n: nat)
    ensures n < Pow2(n)
  {
    if n != 0 {
      Pow2Exceeds(n - 1);
    }
  }

  lemma Pow2Values()
    ensures Pow2(0) == 1 && Pow2(1) == 2 && Pow2(2) == 4 && Pow2(3) == 8 && Pow2(4) == 16
    ensures Pow2(5) == 32 && Pow2(8) == 0x100
    ensures Pow2(16) == 0x1_0000
    ensures Pow2(31) == 0x8000_0000
    ensures Pow2(32) == 0x1_0000_0000
  {
    assert Pow2(8) == 0x100;
    Pow2Add(8, 8);
    Pow2Add(8, 16);
    assert Pow2(24) == 0x100_0000;
    assert Pow2(31) == 0x8000_0000;
  }

  lemma MulAssoc(a: int, b: int, c: int)
    ensures a * (b * c) == (a * b) * c
  {
  }

  lemma MulNeg(k: int, p: int)
    ensures (-k) * p == -(k * p)
  {
  }

  lemma MoveUnit(n: int, p: int)
    ensures (n + 1) * p == n * p + p
  {
  }

  lemma MulMinus(u: int, v: int, p: int)
    ensures (u - v) * p == u * p - v * p
  {
  }

  lemma MulSum(u: int, d: int, w: int, p: int)
    ensures (u + d * w) * p == u * p + d * (w * p)
  {
    assert (u + d * w) * p == u * p + (d * w) * p;
    MulAssoc(d, w, p);
  }

  lemma MulMono(a: int, b: int, c: int)
    requires a <= b && 0 <= c
    ensures a * c <= b * c
  {
  }

  lemma MulStrict(a: int, b: int, c: int)
    requires a < b && 0 < c
    ensures a * c < b * c
  {
  }

  /** Cancelling a positive factor from a comparison. */
  lemma MulCancelLt(a: int, b: int, c: int)
    requires 0 < c && a * c < b * c
    ensures a < b
  {
    if b <= a {
      MulMono(b, a, c);
    }
  }

  /** The quotient is the only multiple of m that leaves a remainder in range. */
  lemma DivUnique(x: int, m: int, q: int)
    requires 0 < m && q * m <= x < (q + 1) * m
    ensures x / m == q && x % m == x - q * m
  {
    var q', r := x / m, x % m;
    assert x == m * q' + r;
    assert q' * m == m * q';
    assert (q' + 1) * m == q' * m + m;
    if q' < q {
      MulMono(q' + 1, q, m);
    } else if q < q' {
      MulMono(q + 1, q', m);
    }
  }

  lemma DivIntro(x: int, m: int, q: int, r: int)
    requires 0 <= r < m && x == q * m + r
    ensures x / m == q && x % m == r
  {
    assert (q + 1) * m == q * m + m;
    DivUnique(x, m, q);
  }

  lemma DivBounds(x: int, m: int)
    requires 0 < m
    ensures (x / m) * m <= x < (x / m + 1) * m
    ensures x == (x / m) * m + x % m
  {
    assert x == m * (x / m) + x % m;
    assert (x / m) * m == m * (x / m);
    assert (x / m + 1) * m == (x / m) * m + m;
  }

  /** Adding a multiple of the modulus changes nothing. */
  lemma ModMultiple(x: int, k: int, m: int)
    requires 0 < m
    ensures (x + k * m) % m == x % m
    ensures (x + k * m) / m == x / m + k
  {
    DivBounds(x, m);
    assert (x / m + k) * m == (x / m) * m + k * m;
    assert (x / m + k + 1) * m == (x / m + 1) * m + k * m;
    DivUnique(x + k * m, m, x / m + k);
  }

  lemma ModSmall(x: int, m: int)
    requires 0 <= x < m
    ensures x % m == x && x / m == 0
  {
    DivUnique(x, m, 0);
  }

  /** Two values in one residue system agree when they differ by a multiple. */
  lemma CongruentEqual(x: int, y: int, k: int, m: int)
    requires 0 < m && 0 <= x < m && 0 <= y < m && x == y + k * m
    ensures x == y
  {
    ModMultiple(y, k, m);
    ModSmall(x, m);
    ModSmall(y, m);
  }

  lemma DivMono(a: int, b: int, m: int)
    requires a <= b && 0 < m
    ensures a / m <= b / m
  {
    DivBounds(a, m);
    DivBounds(b, m);
    if b / m < a / m {
      MulMono(b / m + 1, a / m, m);
    }
  }

  /** Dividing twice is dividing by the product. */
  lemma DivDiv(x: int, a: int, b: int)
    requires 0 < a && 0 < b
    ensures 0 < a * b
    ensures x / a / b == x / (a * b)
  {
    var q := x / a / b;
    DivBounds(x, a);
    DivBounds(x / a, b);
    assert a * b > 0;
    // q*b <= x/a <= (q+1)*b - 1
    MulMono(q * b, x / a, a);
    MulMono(x / a + 1, (q + 1) * b, a);
    assert q * (a * b) == q * b * a;
    assert (q + 1) * (a * b) == (q + 1) * b * a;
    DivUnique(x, a * b, q);
  }

  lemma QuotientNonNegative(x: int, m: int)
    requires 0 <= x && 0 < m
    ensures 0 <= x / m
  {
    DivBounds(x, m);
    if x / m < 0 {
      MulMono(x / m + 1, 0, m);
    }
  }

  /** Reducing by a multiple of a modulus first changes nothing. */
  lemma NestedMod(x: int, a: int, b: int)
    requires 0 < a && 0 < b
    ensures 0 < a * b && x % (a * b) % a == x % a
  {
    MulMono(1, a, b);
    DivBounds(x, a * b);
    var k, r := x / (a * b), x % (a * b);
    assert k * (a * b) == (k * b) * a;
    ModMultiple(r, k * b, a);
  }

  /** Quotient and remainder of a negated number. */
  lemma NegatedQuotient(v: int, u: int)
    requires 0 < u
    ensures
      var n, r := v / u, v % u;
      && (-v) / u == (if r == 0 then -n else -n - 1) && (-v) % u == (if r == 0 then 0 else u - r)
      && -n * u == -(n * u) && (-n - 1) * u == -(n * u) - u && v == n * u + r && 0 <= r < u
  {
    var n, r := v / u, v % u;
    DivBounds(v, u);
    assert -n * u == -(n * u) && (-n - 1) * u == -(n * u) - u;
    if r == 0 {
      DivIntro(-v, u, -n, 0);
    } else {
      DivIntro(-v, u, -n - 1, u - r);
    }
  }

  /** A common positive factor leaves the quotient alone and scales the remainder. */
  lemma ScaledDiv(x: int, p: int, q: int)
    requires 0 < p && 0 < q
    ensures 0 < p * q
    ensures x * q / (p * q) == x / p && x * q % (p * q) == (x % p) * q
  {
    var d, r := x / p, x % p;
    DivBounds(x, p);
    MulMono(1, p, q);
    MulSum(r, d, p, q);
    MulMono(0, r, q);
    MulStrict(r, p, q);
    DivIntro(x * q, p * q, d, r * q);
  }

  /** All ones shifted up by a power p below the top, and beyond it. */
  lemma ShiftedOnes(top: int, p: int)
    requires 0 < p <= top
    ensures (top - 1) * p % top == top - p
  {
    assert (top - 1) * p == (p - 1) * top + (top - p);
    DivIntro((top - 1) * p, top, p - 1, top - p);
  }

  lemma ShiftedOut(top: int, p: int)
    requires 0 < top
    ensures (top - 1) * (top * p) % top == 0
  {
    assert (top - 1) * (top * p) == ((top - 1) * p) * top;
    DivIntro((top - 1) * (top * p), top, (top - 1) * p, 0);
  }

  function AbsVal(x: int): int {
    if x < 0 then -x else x
  }
}

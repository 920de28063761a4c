/** The restoring divider `fx_div` and its simulation model `fx_div_sim`. */
module FloatDivision {
  import opened Powers
  import opened Words

  /** The simulation model: one wide division, its quotient cut to w + 2 bits. */
  function FxDivSim(w: nat, op1: int, op2: int): (r: (int, bool))
    requires 0 < op2
  {
    var wide := op1 * Pow2(w + 1) % Pow2(2 * w + 1);
    (wide / op2 % Pow2(w + 2), wide % op2 == 0)
  }

  /** Bit w of a number of w + 2 bits in two's complement. */
  function SignBit(w: nat, x: int): int {
    (x / Pow2(w)) % 2
  }

  /** One trial subtraction: the remainder stays below twice the divisor, so bit w is its sign. */
  lemma RestoringStep(w: nat, r: int, d: int, q: int, n: int)
    requires 0 < d < Pow2(w) && 0 <= r < 2 * d && n == 2 * d * q + r
    ensures
      var next := r - d;
      && Wrap(next, w + 2) == next && (SignBit(w, next) == 0 <==> d <= r)
      && (if d <= r then Wrap(2 * next, w + 2) == 2 * next && 0 <= 2 * next < 2 * d && 2 * n == 2 * d * (2 * q + 1) + 2 * next
          else Wrap(2 * r, w + 2) == 2 * r && 0 <= 2 * r < 2 * d && 2 * n == 2 * d * (2 * q) + 2 * r)
  {
    Pow2Add(1, w);
    Pow2Values();
    hide Pow2, Wrap, SignBit;
    var next := r - d;
    WrapFits(next, w + 2);
    TrialSign(w, next);
    StepIdentity(2 * d, q);
    if d <= r {
      WrapFits(2 * next, w + 2);
    } else {
      WrapFits(2 * r, w + 2);
    }
  }

  lemma TrialSign(w: nat, next: int)
    requires -Pow2(w) < next < Pow2(w)
    ensures SignBit(w, next) == 0 <==> 0 <= next
  {
    if 0 <= next {
      ModSmall(next, Pow2(w));
    } else {
      DivIntro(next, Pow2(w), -1, next + Pow2(w));
    }
  }

  lemma StepIdentity(d: int, q: int)
    ensures d * (2 * q) == 2 * (d * q) && d * (2 * q + 1) == 2 * (d * q) + d
  {
  }

  /** The quotient so far has as many bits as passes were made. */
  lemma QuotientBits(w: nat, j: nat, op1: int, op2: int, q: int, r: int)
    requires 0 <= op1 < 2 * op2 && op1 * Pow2(j) == 2 * op2 * q + r && 0 <= r
    ensures q < Pow2(j)
  {
    MulStrict(op1, 2 * op2, Pow2(j));
    assert 2 * op2 * Pow2(j) == Pow2(j) * (2 * op2) && 2 * op2 * q == q * (2 * op2);
    MulCancelLt(q, Pow2(j), 2 * op2);
  }

  method FxDiv(w: nat, op1: int, op2: int) returns (quotient: int, exact: bool)
    requires 0 <= op1 < Pow2(w) && 0 <= op2 < Pow2(w)
    ensures 0 <= quotient < Pow2(w + 2)
    ensures op1 < 2 * op2 ==> (quotient, exact) == FxDivSim(w, op1, op2)
    ensures op1 < 2 * op2 ==> quotient == op1 * Pow2(w + 1) / op2 && (exact <==> op1 * Pow2(w + 1) % op2 == 0)
    ensures 0 < op2 ==> (quotient == op1 * Pow2(w + 1) / op2 <==> op1 < 2 * op2)
  {
    hide Pow2, Wrap, SignBit, FxDivSim;
    var r, d, q := op1, op2, 0;
    Pow2Values();
    ghost var regular := op1 < 2 * op2;
    for i := w + 2 downto 0
      invariant 0 <= q < Pow2(w + 2)
      invariant regular ==> 0 <= r < 2 * d && 0 <= q && op1 * Pow2(w + 2 - i) == 2 * d * q + r
      invariant regular && i < w + 2 ==> r % 2 == 0
    {
      ghost var j := w + 1 - i;
      if regular {
        RestoringStep(w, r, d, q, op1 * Pow2(j));
        NextQuotient(w, j, op1, op2, q, r);
      }
      var nextR := Wrap(r - d, w + 2);
      EvenRoom(q, w);
      q := q * 2 % Pow2(w + 2);
      if SignBit(w, nextR) == 0 {
        q := q + 1;
      } else {
        nextR := r;
      }
      r := Wrap(nextR * 2, w + 2);
    }
    quotient := q;
    exact := r == 0;
    if 0 < op2 {
      Finished(w, op1, op2, quotient, r);
    }
  }

  lemma EvenRoom(q: nat, w: nat)
    ensures 0 <= q * 2 % Pow2(w + 2) <= Pow2(w + 2) - 2
  {
    DoublePow2(w + 1);
    hide Pow2;
    var h := Pow2(w + 1);
    DivBounds(q, h);
    DivIntro(q * 2, 2 * h, q / h, 2 * (q % h)) by {
      assert (q / h) * (2 * h) == 2 * ((q / h) * h);
    }
  }

  lemma FinalQuotient(op1: int, d: int, q: int, r: int, p: int, p2: int)
    requires p2 == 2 * p && op1 * p2 == 2 * d * q + r && 0 <= r < 2 * d && r % 2 == 0
    ensures q == op1 * p / d && (r == 0 <==> op1 * p % d == 0)
  {
    assert op1 * (2 * p) == 2 * (op1 * p) && 2 * d * q == 2 * (q * d);
    DivIntro(op1 * p, d, q, r / 2);
  }

  lemma SimQuotient(w: nat, op1: int, op2: int, q: int)
    requires 0 <= op1 < Pow2(w) && 0 < op2 && q == op1 * Pow2(w + 1) / op2 && 0 <= q < Pow2(w + 2)
    ensures FxDivSim(w, op1, op2) == (q, op1 * Pow2(w + 1) % op2 == 0)
  {
    Pow2Add(w, w + 1);
    assert w + (w + 1) == 2 * w + 1;
    hide Pow2;
    MulStrict(op1, Pow2(w), Pow2(w + 1));
    MulMono(0, op1, Pow2(w + 1));
    ModSmall(op1 * Pow2(w + 1), Pow2(2 * w + 1));
    ModSmall(q, Pow2(w + 2));
  }

  /** What the loop leaves is the quotient, or the true quotient has too many bits. */
  lemma Finished(w: nat, op1: int, op2: int, q: int, r: int)
    requires 0 <= op1 < Pow2(w) && 0 < op2 && 0 <= q < Pow2(w + 2)
    requires op1 < 2 * op2 ==> 0 <= r < 2 * op2 && op1 * Pow2(w + 2) == 2 * op2 * q + r && r % 2 == 0
    ensures op1 < 2 * op2 ==> (q, r == 0) == FxDivSim(w, op1, op2)
    ensures op1 < 2 * op2 ==> (r == 0 <==> op1 * Pow2(w + 1) % op2 == 0)
    ensures q == op1 * Pow2(w + 1) / op2 <==> op1 < 2 * op2
  {
    hide Pow2, FxDivSim;
    if op1 < 2 * op2 {
      DoublePow2(w + 1);
      FinalQuotient(op1, op2, q, r, Pow2(w + 1), Pow2(w + 2));
      SimQuotient(w, op1, op2, q);
    } else {
      TooWide(w, op1, op2);
    }
  }

  /** With op1 at least twice op2 the true quotient does not fit w + 2 bits. */
  lemma TooWide(w: nat, op1: int, op2: int)
    requires 0 < op2 && 2 * op2 <= op1
    ensures Pow2(w + 2) <= op1 * Pow2(w + 1) / op2
  {
    DoublePow2(w + 1);
    hide Pow2;
    MulMono(2 * op2, op1, Pow2(w + 1));
    assert (2 * op2) * Pow2(w + 1) == Pow2(w + 2) * op2;
    DivBounds(op1 * Pow2(w + 1), op2);
    MulCancelLt(Pow2(w + 2), op1 * Pow2(w + 1) / op2 + 1, op2);
  }

  lemma NextQuotient(w: nat, j: nat, op1: int, op2: int, q: int, r: int)
    requires j <= w + 1 && 0 <= q && 0 <= op1 < 2 * op2 && op1 * Pow2(j) == 2 * op2 * q + r && 0 <= r
    ensures q * 2 % Pow2(w + 2) == 2 * q
    ensures op1 * Pow2(j + 1) == 2 * (op1 * Pow2(j))
  {
    QuotientBits(w, j, op1, op2, q, r);
    Pow2Mono(j + 1, w + 2);
    ModSmall(2 * q, Pow2(w + 2));
  }
}

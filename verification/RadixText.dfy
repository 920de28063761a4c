/** Binary, octal and hexadecimal text (`to_str<AC_BIN|AC_OCT|AC_HEX>`) and its reader `bit_fill_hex`. */
module RadixText {
  import opened Powers
  import opened Words

  /** The number with digits s of b bits each, most significant first. */
  function Positional(s: seq<int>, b: nat): int {
    if |s| == 0 then 0 else Positional(s[..|s| - 1], b) * Pow2(b) + s[|s| - 1]
  }

  lemma PositionalSnoc(s: seq<int>, d: int, b: nat)
    ensures Positional(s + [d], b) == Positional(s, b) * Pow2(b) + d
  {
    assert (s + [d])[..|s|] == s;
  }

  /** A first digit counts with the highest weight. */
  lemma {:induction false} PositionalCons(d: int, s: seq<int>, b: nat)
    ensures Positional([d] + s, b) == d * Pow2(b * |s|) + Positional(s, b)
    decreases |s|
  {
    hide Pow2;
    if |s| == 0 {
      OneDigit(d, b);
      assert [d] + s == [d];
    } else {
      var n := |s| - 1;
      PositionalCons(d, s[..n], b);
      hide Positional;
      assert [d] + s == ([d] + s[..n]) + [s[n]];
      PositionalSnoc([d] + s[..n], s[n], b);
      assert s == s[..n] + [s[n]];
      PositionalSnoc(s[..n], s[n], b);
      NextWeight(b, n);
      Distribute(d, Pow2(b * n), Positional(s[..n], b), Pow2(b));
    }
  }

  lemma OneDigit(d: int, b: nat)
    ensures Positional([d], b) == d && Positional([], b) == 0 && Pow2(b * 0) == 1
  {
    Pow2Values();
    assert [d][..0] == [];
    assert b * 0 == 0 && 0 * Pow2(b) == 0;
  }

  lemma NextWeight(b: nat, n: nat)
    ensures Pow2(b * (n + 1)) == Pow2(b * n) * Pow2(b)
  {
    assert b * (n + 1) == b * n + b;
    Pow2Add(b * n, b);
  }

  lemma Distribute(d: int, p: int, x: int, q: int)
    ensures (d * p + x) * q == d * (p * q) + x * q
  {
    MulAssoc(d, p, q);
  }

  /** Digits of b bits that hold the number u cut to their width. */
  ghost predicate Holds(s: seq<int>, b: nat, u: int) {
    Positional(s, b) == u % Pow2(b * |s|) && forall i :: 0 <= i < |s| ==> 0 <= s[i] < Pow2(b)
  }

  /** One more digit in front, taken from what is left above the digits so far. */
  lemma DigitInFront(s: seq<int>, b: nat, u: nat, m: int, d: int)
    requires Holds(s, b, u) && m == u / Pow2(b * |s|) && d == m % Pow2(b)
    ensures Holds([d] + s, b, u)
    ensures m / Pow2(b) == u / Pow2(b * (|s| + 1))
  {
    PositionalCons(d, s, b);
    assert b * (|s| + 1) == b * |s| + b;
    Pow2Add(b * |s|, b);
    hide Pow2, Positional;
    var p, q := Pow2(b * |s|), Pow2(b);
    DivDiv(u, p, q);
    DivBounds(u, p);
    DivBounds(m, q);
    SplitDigit(u, m / q, d, u % p, p, q);
  }

  lemma SplitDigit(u: int, h: int, d: int, low: int, p: int, q: int)
    requires 0 < p && 0 < q && u == (h * q + d) * p + low && 0 <= d < q && 0 <= low < p
    ensures 0 < p * q && u % (p * q) == d * p + low
  {
    MulMono(1, p, q);
    assert (h * q + d) * p == h * (p * q) + d * p;
    MulMono(0, d, p);
    MulMono(d + 1, q, p);
    assert (d + 1) * p == d * p + p && q * p == p * q;
    DivIntro(u, p * q, h, d * p + low);
  }

  /** A digit that straddles two words gets its upper bits from the next word. */
  lemma StraddlingDigit(s: seq<int>, b: nat, u: nat, x: word, i: nat, miss: nat, d: int)
    requires 0 < |s| && miss < b && b * |s| == 32 * i + miss && u < Pow2(32 * i) && Holds(s, b, u)
    requires d == s[0] + x * Pow2(b - miss) % Pow2(b)
    ensures Holds(s[0 := d], b, u + x * Pow2(32 * i))
  {
    hide Pow2, Positional;
    var rest := s[1..];
    assert s == [s[0]] + rest && s[0 := d] == [d] + rest;
    PositionalCons(s[0], rest, b);
    PositionalCons(d, rest, b);
    StraddleWeights(b, |rest|, miss, 32 * i);
    var p0 := Positional(rest, b);
    PositionalFloor(rest, b);
    JoinDigit(s[0], p0, u, x, Pow2(b * |rest|), Pow2(b - miss), Pow2(miss), Pow2(32 * i), d);
  }

  lemma StraddleWeights(b: nat, n: nat, miss: nat, c: nat)
    requires miss < b && b * (n + 1) == c + miss
    ensures Pow2(b) == Pow2(b - miss) * Pow2(miss)
    ensures Pow2(c) == Pow2(b * n) * Pow2(b - miss)
    ensures Pow2(b * (n + 1)) == Pow2(c) * Pow2(miss)
  {
    hide Pow2;
    DigitCount(b, n + 1);
    Pow2Add(b - miss, miss);
    Pow2Add(b * n, b - miss);
    Pow2Add(c, miss);
  }

  lemma DigitCount(b: nat, n: nat)
    requires 0 < n
    ensures b * (n - 1) + b == b * n
  {
  }

  lemma {:induction false} PositionalFloor(s: seq<int>, b: nat)
    requires forall i :: 0 <= i < |s| ==> 0 <= s[i]
    ensures 0 <= Positional(s, b)
  {
    if |s| != 0 {
      PositionalFloor(s[..|s| - 1], b);
      MulMono(0, Positional(s[..|s| - 1], b), Pow2(b));
    }
  }

  /** s0 holds the low bits of its digit; the low bits of x fill it up. */
  lemma JoinDigit(s0: int, p0: int, u: int, x: int, pt: int, g: int, h: int, w: int, d: int)
    requires 0 < pt && 0 < g && 0 < h && w == pt * g && 0 <= u < w && 0 <= s0 && 0 <= p0
    requires s0 * pt + p0 == u % (w * h) && d == s0 + x * g % (g * h)
    ensures 0 < w * h && 0 <= d < g * h && d * pt + p0 == (u + x * w) % (w * h)
  {
    assert g * h == h * g;
    ScaledDiv(x, h, g);
    SmallMod(u, w, h);
    JoinBound(s0, p0, u, x % h, pt, g, h, w);
    JoinValue(s0, x / h, x % h, pt, g, h, w, u, p0, x);
  }

  lemma SmallMod(u: int, w: int, h: int)
    requires 0 <= u < w && 0 < h
    ensures 0 < w * h && u % (w * h) == u
  {
    MulMono(1, h, w);
    assert h * w == w * h;
    ModSmall(u, w * h);
  }

  lemma JoinBound(s0: int, p0: int, u: int, r: int, pt: int, g: int, h: int, w: int)
    requires 0 < pt && 0 < g && w == pt * g && 0 <= u < w && 0 <= s0 && 0 <= p0 && 0 <= r < h
    requires s0 * pt + p0 == u
    ensures 0 <= s0 + r * g < g * h
  {
    assert g * pt == pt * g;
    MulCancelLt(s0, g, pt);
    MulMono(0, r, g);
    MulMono(r + 1, h, g);
    assert (r + 1) * g == r * g + g && h * g == g * h;
  }

  lemma JoinValue(s0: int, q: int, r: int, pt: int, g: int, h: int, w: int, u: int, p0: int, x: int)
    requires 0 < w && w == pt * g && 0 <= u < w && 0 < h && q == x / h && r == x % h
    requires s0 * pt + p0 == u
    ensures 0 < w * h && (s0 + r * g) * pt + p0 == (u + x * w) % (w * h)
  {
    DivBounds(x, h);
    MulMono(1, w, h);
    assert (s0 + r * g) * pt == s0 * pt + r * (pt * g);
    assert (q * h + r) * w == q * (w * h) + r * w;
    MulMono(0, r, w);
    MulMono(r + 1, h, w);
    assert (r + 1) * w == r * w + w && h * w == w * h;
    DivIntro(u + x * w, w * h, q, u + r * w);
  }

  datatype Base = BIN | OCT | HEX {
    /** Bits of one digit. */
    function Bits(): (b: nat)
      ensures b == 1 || b == 3 || b == 4
    {
      match this
      case BIN => 1
      case OCT => 3
      case HEX => 4
    }
  }

  predicate IsHex(c: char) {
    '0' <= c <= '9' || 'A' <= c <= 'F' || 'a' <= c <= 'f'
  }

  function HexValue(c: char): (h: int)
    requires IsHex(c)
    ensures 0 <= h < 16
  {
    if '0' <= c <= '9' then (c - '0') as int
    else if 'A' <= c <= 'F' then (c - 'A') as int + 10
    else (c - 'a') as int + 10
  }

  /** The table of the source's digit characters. */
  function DigitChar(d: int): (c: char)
    requires 0 <= d < 16
    ensures IsHex(c) && HexValue(c) == d
    ensures c as int == if d < 10 then '0' as int + d else 'A' as int + d - 10
  {
    "0123456789ABCDEF"[d]
  }

  /** Every hexadecimal digit, letters in either case. */
  lemma HexCharacters(c: char)
    ensures IsHex(c) <==> c in "0123456789ABCDEFabcdef"
    ensures HexValue('0') == 0 && HexValue('1') == 1 && HexValue('2') == 2 && HexValue('3') == 3
    ensures HexValue('4') == 4 && HexValue('5') == 5 && HexValue('6') == 6 && HexValue('7') == 7
    ensures HexValue('8') == 8 && HexValue('9') == 9
    ensures HexValue('A') == HexValue('a') == 10 && HexValue('B') == HexValue('b') == 11
    ensures HexValue('C') == HexValue('c') == 12 && HexValue('D') == HexValue('d') == 13
    ensures HexValue('E') == HexValue('e') == 14 && HexValue('F') == HexValue('f') == 15
  {
    var s := "0123456789ABCDEFabcdef";
    if IsHex(c) {
      var i := if '0' <= c <= '9' then (c - '0') as int else if 'A' <= c <= 'F' then (c - 'A') as int + 10 else (c - 'a') as int + 16;
      assert s[i] == c;
    }
  }

  /** The number that a text of digits and capital letters stands for. */
  function TextValue(s: string, radix: int): int {
    if |s| == 0 then 0
    else
      var c := s[|s| - 1];
      TextValue(s[..|s| - 1], radix) * radix + (if c <= '9' then c as int - '0' as int else c as int - 'A' as int + 10)
  }

  lemma {:induction false} TextIsPositional(s: string, b: nat)
    requires forall i :: 0 <= i < |s| ==> '0' <= s[i] <= '9' || 'A' <= s[i] <= 'F'
    ensures TextValue(s, Pow2(b)) == Positional(HexValues(s), b)
  {
    if |s| != 0 {
      var n := |s| - 1;
      TextIsPositional(s[..n], b);
      assert HexValues(s)[..n] == HexValues(s[..n]);
    }
  }

  function HexValues(s: string): (r: seq<int>)
    requires forall i :: 0 <= i < |s| ==> IsHex(s[i])
    ensures |r| == |s| && forall i :: 0 <= i < |s| ==> r[i] == HexValue(s[i])
  {
    seq(|s|, i requires 0 <= i < |s| => HexValue(s[i]))
  }

  /** The digits written for the first i words stop inside word i, unless those were all. */
  predicate Aligned(i: nat, n: nat, b: int, count: nat, bits: int) {
    i < n ==> -b < bits <= 0 && b * count == 32 * i - bits
  }

  /** The next word: what is left of it after the straddling digit is the number above the digits so far. */
  lemma NextWord(v: seq<word>, i: nat, s: seq<int>, b: nat, miss: nat, d: int)
    requires i < |v| && miss < b && b * |s| == 32 * i + miss && Holds(s, b, UVal(v[..i]))
    requires 0 < miss ==> 0 < |s| && d == s[0] + v[i] * Pow2(b - miss) % Pow2(b)
    ensures v[i] / Pow2(miss) == UVal(v[..i + 1]) / Pow2(b * |s|)
    ensures Holds(if 0 < miss then s[0 := d] else s, b, UVal(v[..i + 1]))
  {
    var u := UVal(v[..i]);
    assert v[..i + 1] == v[..i] + [v[i]];
    UValSnoc(v[..i], v[i]);
    UValBound(v[..i]);
    WeightIsPow2(i);
    Pow2Add(32 * i, miss);
    Pow2Values();
    hide Pow2, UVal, Weight, Positional;
    DivIntro(UVal(v[..i + 1]), Weight(i), v[i], u);
    DivDiv(UVal(v[..i + 1]), Weight(i), Pow2(miss));
    if 0 < miss {
      StraddlingDigit(s, b, u, v[i], i, miss, d);
    } else {
      ModSmall(u, Weight(i));
    }
  }

  lemma NoDigits(b: nat)
    ensures Holds([], b, 0)
  {
    Pow2Values();
    assert b * 0 == 0;
  }

  /** The digits of one word: k digits from the top are still free, bits of the word still unread. */
  method WordDigits(d: array<int>, b: int, m0: int, k0: nat, bits0: int, ghost c: int, ghost u: nat) returns (k: nat, bits: int)
    requires 0 < b && k0 <= d.Length && -b < bits0 && b * (d.Length - k0) == c - bits0
    requires bits0 <= c && Holds(d[k0..], b, u) && m0 == u / Pow2(b * (d.Length - k0))
    modifies d
    ensures k <= k0 && -b < bits && b * (d.Length - k) == c - bits && (bits <= 0 || k == 0)
    ensures Holds(d[k..], b, u)
  {
    hide Pow2, Holds;
    var m := m0;
    k, bits := k0, bits0;
    while bits > 0 && k > 0
      invariant k <= k0 && -b < bits && b * (d.Length - k) == c - bits
      invariant bits <= c && Holds(d[k..], b, u) && m == u / Pow2(b * (d.Length - k))
    {
      DigitInFront(d[k..], b, u, m, m % Pow2(b));
      ghost var above := d[k..];
      k := k - 1;
      d[k] := m % Pow2(b);
      assert d[k..] == [d[k]] + above;
      m := m / Pow2(b);
      bits := bits - b;
      DigitCount(b, d.Length - k);
    }
  }

  /** `to_str` for a power-of-two base, not left-justified: (w + b - 1) / b digits, each b bits of the number. */
  method RawDigits(base: Base, v: array<word>, w: nat) returns (d: array<int>)
    requires 0 < w && v.Length == (w + 31) / 32
    ensures fresh(d) && d.Length == (w + base.Bits() - 1) / base.Bits()
    ensures Holds(d[..], base.Bits(), UVal(v[..]))
  {
    hide Pow2, UVal, Holds;
    var b: int := base.Bits();
    var size := (w + b - 1) / b;
    SizeBounds(w, b, size);
    var k := size;
    var n := (w + 31) / 32;
    var bits := 0;
    d := new int[size];
    NoDigits(b);
    assert UVal(v[..0]) == 0 by { UValZeros(v[..0]); }
    assert d[size..] == [] && b * 0 == 0;
    for i := 0 to n
      invariant 0 <= k <= size && Holds(d[k..], b, UVal(v[..i])) && Aligned(i, n, b, size - k, bits)
      invariant i == n ==> k == 0
    {
      ghost var s, miss: nat := d[k..], -bits;
      if base != BIN && bits < 0 {
        d[k] := d[k] + v[i] * Pow2(b + bits) % Pow2(b);
      }
      NextWord(v[..], i, s, b, miss, if 0 < miss then d[k] else 0);
      var m := v[i] / Pow2(-bits);
      k, bits := WordDigits(d, b, m, k, bits + 32, 32 * (i + 1), UVal(v[..i + 1]));
      AfterWord(w, b, size, k, bits, i, n);
    }
    assert v[..n] == v[..] && d[0..] == d[..];
  }

  /** The digits run out in the last word and not before. */
  lemma AfterWord(w: nat, b: int, size: nat, k: nat, bits: int, i: nat, n: nat)
    requires 0 < b && k <= size && n == (w + 31) / 32 && i < n && w <= b * size < w + b
    requires -b < bits && b * (size - k) == 32 * (i + 1) - bits && (bits <= 0 || k == 0)
    ensures Aligned(i + 1, n, b, size - k, bits) && (i + 1 == n ==> k == 0)
  {
    MulMono(if 0 < k then 1 else 0, k, b);
    assert b * (size - k) == b * size - k * b;
  }

  lemma SizeBounds(w: nat, b: int, size: int)
    requires 0 < w && (b == 1 || b == 3 || b == 4) && size == (w + b - 1) / b
    ensures 0 < size && w <= b * size < w + b
  {
  }

  /** The digit characters. */
  method ToStr(base: Base, v: array<word>, w: nat) returns (r: string)
    requires 0 < w && v.Length == (w + 31) / 32
    ensures |r| == (w + base.Bits() - 1) / base.Bits() && forall i :: 0 <= i < |r| ==> IsHex(r[i])
    ensures Holds(HexValues(r), base.Bits(), UVal(v[..]))
    ensures base == BIN ==>
      |r| == w && (forall i :: 0 <= i < |r| ==> r[i] in "01") && TextValue(r, 2) == UVal(v[..]) % Pow2(w)
    ensures base == OCT ==>
      |r| == (w + 2) / 3 && (forall i :: 0 <= i < |r| ==> r[i] in "01234567") && TextValue(r, 8) == UVal(v[..]) % Pow2(3 * |r|)
    ensures base == HEX ==>
      && |r| == (w + 3) / 4 && (forall i :: 0 <= i < |r| ==> r[i] in "0123456789ABCDEF")
      && TextValue(r, 16) == UVal(v[..]) % Pow2(4 * |r|)
  {
    hide UVal, Pow2, Positional, TextValue;
    var d := RawDigits(base, v, w);
    DigitsFit(d[..], base, UVal(v[..]));
    r := "";
    for i := 0 to d.Length
      invariant |r| == i && forall j :: 0 <= j < i ==> r[j] == DigitChar(d[j])
    {
      r := r + [DigitChar(d[i])];
    }
    assert HexValues(r) == d[..];
    Characters(r, d[..]);
    TextOfBase(base, r, UVal(v[..]), w);
  }

  /** What the digits mean in each radix. */
  lemma TextOfBase(base: Base, r: string, u: int, w: nat)
    requires forall i :: 0 <= i < |r| ==> r[i] in "0123456789ABCDEF"
    requires 0 < w && |r| == (w + base.Bits() - 1) / base.Bits() && Holds(HexValues(r), base.Bits(), u)
    ensures base == BIN ==> |r| == w && TextValue(r, 2) == u % Pow2(w)
    ensures base == OCT ==> |r| == (w + 2) / 3 && TextValue(r, 8) == u % Pow2(3 * |r|)
    ensures base == HEX ==> |r| == (w + 3) / 4 && TextValue(r, 16) == u % Pow2(4 * |r|)
  {
    hide Pow2, Positional, TextValue;
    TextIsPositional(r, base.Bits());
    Pow2Values();
  }

  /** Digits below the radix are written with its first characters. */
  lemma Characters(r: string, d: seq<int>)
    requires |r| == |d| && forall i :: 0 <= i < |d| ==> 0 <= d[i] < 16 && r[i] == DigitChar(d[i])
    ensures (forall i :: 0 <= i < |d| ==> d[i] < 2) ==> forall i :: 0 <= i < |r| ==> r[i] in "01"
    ensures (forall i :: 0 <= i < |d| ==> d[i] < 8) ==> forall i :: 0 <= i < |r| ==> r[i] in "01234567"
    ensures forall i :: 0 <= i < |r| ==> r[i] in "0123456789ABCDEF"
  {
    forall i | 0 <= i < |r|
      ensures (d[i] < 2 ==> r[i] in "01") && (d[i] < 8 ==> r[i] in "01234567") && r[i] in "0123456789ABCDEF"
    {
      OneCharacter(d[i]);
    }
  }

  lemma OneCharacter(d: int)
    requires 0 <= d < 16
    ensures (d < 2 ==> DigitChar(d) in "01") && (d < 8 ==> DigitChar(d) in "01234567")
    ensures DigitChar(d) in "0123456789ABCDEF"
  {
    if d < 2 {
      assert "01"[d] == DigitChar(d);
    }
    if d < 8 {
      assert "01234567"[d] == DigitChar(d);
    }
  }

  lemma DigitsFit(s: seq<int>, base: Base, u: int)
    requires Holds(s, base.Bits(), u)
    ensures forall i :: 0 <= i < |s| ==> 0 <= s[i] < 16
    ensures base == BIN ==> forall i :: 0 <= i < |s| ==> s[i] < 2
    ensures base == OCT ==> forall i :: 0 <= i < |s| ==> s[i] < 8
  {
    Pow2Values();
    Pow2Mono(base.Bits(), 4);
  }

  /** Any unsigned number of w bits is what its digits say. */
  lemma TextIsValue(base: Base, r: string, w: nat, u: nat)
    requires forall i :: 0 <= i < |r| ==> IsHex(r[i])
    requires 0 < w && |r| == (w + base.Bits() - 1) / base.Bits() && Holds(HexValues(r), base.Bits(), u) && u < Pow2(w)
    ensures Positional(HexValues(r), base.Bits()) == u
  {
    var b := base.Bits();
    SizeBounds(w, b, |r|);
    Pow2Mono(w, b * |r|);
    hide Pow2, Positional;
    ModSmall(u, Pow2(b * |r|));
  }

  // ---- Reading hexadecimal ----

  /** How many characters the reader takes: those before the first that is no digit. */
  function HexPrefix(s: string): (n: nat)
    ensures n <= |s| && forall i :: 0 <= i < n ==> IsHex(s[i])
    ensures n < |s| ==> !IsHex(s[n])
  {
    if |s| == 0 || !IsHex(s[0]) then 0 else 1 + HexPrefix(s[1..])
  }

  /** `bit_fill_hex`: four bits a digit, cut to w bits. */
  method BitFillHex(str: string, w: nat) returns (res: int)
    requires 0 < w
    ensures res == Positional(HexValues(str[..HexPrefix(str)]), 4) % Pow2(w)
  {
    hide Pow2, Positional;
    res := 0;
    var i := 0;
    ghost var n := HexPrefix(str);
    NoDigits(4);
    EmptyText(w);
    while i < |str|
      invariant 0 <= i <= n && res == Positional(HexValues(str[..i]), 4) % Pow2(w)
      decreases |str| - i
    {
      var c := str[i];
      var h := 0;
      if '0' <= c <= '9' {
        h := (c - '0') as int;
      } else if 'A' <= c <= 'F' {
        h := (c - 'A') as int + 10;
      } else if 'a' <= c <= 'f' {
        h := (c - 'a') as int + 10;
      } else {
        break;
      }
      assert HexValues(str[..i + 1]) == HexValues(str[..i]) + [h];
      HexStep(HexValues(str[..i]), h, w);
      res := res * 16 % Pow2(w);
      res := (res + h) % Pow2(w);
      i := i + 1;
    }
  }

  lemma EmptyText(w: nat)
    ensures HexValues("") == [] && Positional([], 4) % Pow2(w) == 0
  {
    ModSmall(0, Pow2(w));
  }

  lemma HexStep(s: seq<int>, h: int, w: nat)
    ensures (Positional(s, 4) % Pow2(w) * 16 % Pow2(w) + h) % Pow2(w) == Positional(s + [h], 4) % Pow2(w)
  {
    PositionalSnoc(s, h, 4);
    Pow2Values();
    hide Pow2, Positional;
    ShiftedResidue(Positional(s, 4), h, Pow2(w));
  }

  lemma ShiftedResidue(x: int, h: int, p: int)
    requires 0 < p
    ensures (x % p * 16 % p + h) % p == (x * 16 + h) % p
  {
    var a, r := x / p, x % p;
    var c, t := r * 16 / p, r * 16 % p;
    DivBounds(x, p);
    DivBounds(r * 16, p);
    CollectMultiples(x, a, r, c, t, h, p);
    ModMultiple(t + h, a * 16 + c, p);
  }

  lemma CollectMultiples(x: int, a: int, r: int, c: int, t: int, h: int, p: int)
    requires x == a * p + r && r * 16 == c * p + t
    ensures x * 16 + h == t + h + (a * 16 + c) * p
  {
    assert (a * 16 + c) * p == 16 * (a * p) + c * p;
  }

  /** Letters read the same in either case. */
  lemma CaseDoesNotMatter(s: string, t: string)
    requires |s| == |t|
    requires forall i :: 0 <= i < |s| ==>
      s[i] == t[i] || ('a' <= s[i] <= 'f' && t[i] as int == s[i] as int - 'a' as int + 'A' as int)
    ensures HexPrefix(s) == HexPrefix(t) && HexValues(s[..HexPrefix(s)]) == HexValues(t[..HexPrefix(t)])
  {
    hide HexPrefix;
    SamePrefix(s, t);
    assert HexValues(s[..HexPrefix(s)]) == HexValues(t[..HexPrefix(t)]);
  }

  lemma {:induction false} SamePrefix(s: string, t: string)
    requires |s| == |t| && forall i :: 0 <= i < |s| ==> (IsHex(s[i]) <==> IsHex(t[i]))
    ensures HexPrefix(s) == HexPrefix(t)
  {
    if |s| != 0 {
      SamePrefix(s[1..], t[1..]);
    }
  }

  /** Reading the hexadecimal text of a number gives the number back. */
  lemma HexRoundTrip(r: string, w: nat, u: nat)
    requires forall i :: 0 <= i < |r| ==> IsHex(r[i])
    requires 0 < w && |r| == (w + 3) / 4 && Holds(HexValues(r), 4, u) && u < Pow2(w)
    ensures r[..HexPrefix(r)] == r && Positional(HexValues(r[..HexPrefix(r)]), 4) % Pow2(w) == u
  {
    TextIsValue(HEX, r, w, u);
    hide Pow2, Positional;
    ModSmall(u, Pow2(w));
  }

  /** Printing in hexadecimal and reading back, for every unsigned number of w bits. */
  method PrintAndRead(v: array<word>, w: nat) returns (text: string, res: int)
    requires 0 < w && v.Length == (w + 31) / 32 && UVal(v[..]) < Pow2(w)
    ensures res == UVal(v[..])
  {
    hide UVal, Pow2, Positional, Holds;
    text := ToStr(HEX, v, w);
    HexRoundTrip(text, w, UVal(v[..]));
    res := BitFillHex(text, w);
  }
}

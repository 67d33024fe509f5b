/** The single-digit building blocks of big.c: sums and differences that detect
    carries and borrows by wrap-around, and the double-length product and quotient
    assembled from half digits.  Every machine operation is taken modulo B. */
module DigitOps {
  import opened Digits

  const HB: int := 0x1_0000_0000

  type Half = x: int | 0 <= x < 0x1_0000_0000

  function Wrap(x: int): Digit {
    x % B
  }

  /** A C int: 32-bit two's complement. */
  function Int32(x: int): int {
    (x + 0x8000_0000) % 0x1_0000_0000 - 0x8000_0000
  }

  /** Word addition and subtraction. */
  function Plus(a: Digit, b: Digit): Digit {
    (a + b) % B
  }

  function Minus(a: Digit, b: Digit): Digit {
    (a - b) % B
  }

  lemma WrapSmall(x: int)
    ensures 0 <= x < B ==> Wrap(x) == x
  {
  }

  lemma WrapWrap(x: int, y: int)
    ensures Wrap(Wrap(x) + y) == Wrap(x + y)
  {
  }

  lemma WrapSplit(x: int, t: int, lo: int)
    requires x == t * B + lo && 0 <= lo < B
    ensures Wrap(x) == lo
  {
  }

  lemma WrapDifference(x: int, y: int, z: int)
    requires 0 <= x + y - z < B
    ensures Wrap(Wrap(x) + y - Wrap(z)) == x + y - z
  {
  }

  function Carry(c: bool): Digit {
    if c then 1 else 0
  }

  /** DSUM: the carry shows as a sum below one of its operands. */
  method DSum(a: Digit, b: Digit) returns (c: Digit, s: Digit)
    ensures s + B * c == a + b
    ensures c <= 1
  {
    s := Wrap(b + a);
    c := Carry(s < b);
  }

  /** DSUMc: carry in and carry out. */
  method DSumC(a: Digit, b: Digit, ci: Digit) returns (c: Digit, s: Digit)
    ensures s + B * c == a + b + ci
    ensures c <= 2
  {
    var x := Wrap(a + ci);
    c := Carry(x < ci);
    s := Wrap(b + x);
    c := c + Carry(s < b);
  }

  /** DSUB: the borrow shows as a difference above the minuend. */
  method DSub(a: Digit, b: Digit) returns (r: Digit, d: Digit)
    ensures d - B * r == a - b
    ensures r <= 1
  {
    d := Wrap(a - b);
    r := Carry(d > a);
  }

  /** DSUBb: borrow in and borrow out. */
  method DSubB(a: Digit, b: Digit, ri: Digit) returns (r: Digit, d: Digit)
    ensures d - B * r == a - b - ri
    ensures r <= 2
  {
    var y := Wrap(b + ri);
    r := Carry(y < ri);
    d := Wrap(a - y);
    r := r + Carry(d > a);
  }

  lemma HalfProduct(a: Half, b: Half)
    ensures 0 <= a * b <= (HB - 1) * (HB - 1)
  {
    MulMono(a, b, HB - 1);
    MulMono(a, 0, b);
  }

  /** The four partial products of two digits. */
  lemma SchoolProduct(a1: int, a0: int, b1: int, b0: int)
    ensures (a1 * HB + a0) * (b1 * HB + b0)
         == a1 * b1 * B + (a0 * b1 + a1 * b0) * HB + a0 * b0
  {
  }

  /** The bookkeeping of DMULc: p1 collects everything of weight HB, p2 counts its
      overflows, and only the high half of a1b1 is still outstanding at the end. */
  lemma CollectHalves(ll: int, lh: int, hl: int, hh: int, d: int, p0: int, c0: int, p1: int, p2: int, p3: int)
    requires 0 <= ll && 0 <= lh && 0 <= hl && 0 <= hh && 0 <= d && 0 <= p0 < B && 0 <= p1 < B && 0 <= p2 <= 4
    requires hh * B + (lh + hl) * HB + ll + d < B * B
    requires ll + d == c0 * B + p0
    requires p1 + p2 * B == c0 * HB + p0 / HB + lh + hl + Wrap(hh * HB)
    requires p3 == hh + p2 * HB
    ensures p3 < B
    ensures 0 <= p3 / HB * HB + p1 / HB < B && 0 <= Wrap(p1 * HB) + p0 % HB < B
    ensures (p3 / HB * HB + p1 / HB) * B + Wrap(p1 * HB) + p0 % HB == hh * B + (lh + hl) * HB + ll + d
  {
    var w := hh / HB;
    assert hh * HB % B == hh * HB - w * B;
    assert p3 / HB == w + p2;
    assert p1 * HB % B == p1 * HB - p1 / HB * B;
    var total := hh * B + (lh + hl) * HB + ll + d;
    assert total == p0 % HB + p1 * HB + (p2 + w) * B * HB;
  }

  /** DMULc: a * b + d as a double digit, from half-digit products. */
  method DMulC(a: Digit, b: Digit, d: Digit) returns (hi: Digit, lo: Digit)
    ensures hi * B + lo == a * b + d
  {
    var a0, a1 := a % HB, a / HB;
    var b0, b1 := b % HB, b / HB;
    HalfProduct(a0, b0);
    HalfProduct(a0, b1);
    HalfProduct(a1, b0);
    HalfProduct(a1, b1);
    SchoolProduct(a1, a0, b1, b0);
    hi, lo := CombineHalves(a0 * b0, a0 * b1, a1 * b0, a1 * b1, d);
  }

  method CombineHalves(ll: Digit, lh: Digit, hl: Digit, hh: Digit, d: Digit) returns (hi: Digit, lo: Digit)
    requires ll <= (HB - 1) * (HB - 1) && lh <= (HB - 1) * (HB - 1)
    requires hl <= (HB - 1) * (HB - 1) && hh <= (HB - 1) * (HB - 1)
    ensures hi * B + lo == hh * B + (lh + hl) * HB + ll + d
  {
    hide Wrap;
    var c0, p0 := DSum(ll, d);
    var p2, p1 := DSum(c0 * HB, p0 / HB);
    var c, hs := 0, Wrap(hh * HB);
    c, p1 := DSum(p1, lh);
    p2 := p2 + c;
    c, p1 := DSum(p1, hl);
    p2 := p2 + c;
    c, p1 := DSum(p1, hs);
    p2 := p2 + c;
    CollectHalves(ll, lh, hl, hh, d, p0, c0, p1, p2, hh + p2 * HB);
    c, p2 := DSum(hh, p2 * HB);
    hi, lo := p2 / HB * HB + p1 / HB, Wrap(p1 * HB) + p0 % HB;
  }

  lemma Pow2Double(n: nat, v: int)
    requires Pow2(n) == v
    ensures Pow2(2 * n) == v * v
  {
    Pow2Add(n, n);
  }

  lemma Pow2Literals()
    ensures Pow2(1) == 2 && Pow2(2) == 4 && Pow2(4) == 16 && Pow2(8) == 0x100
    ensures Pow2(16) == 0x1_0000 && Pow2(32) == HB && Pow2(64) == B
  {
    assert Pow2(1) == 2;
    hide Pow2;
    Pow2Double(1, 2);
    Pow2Double(2, 4);
    Pow2Double(4, 16);
    Pow2Double(8, 0x100);
    Pow2Double(16, 0x1_0000);
    Pow2Double(32, HB);
  }

  lemma ShiftFacts(a: int, x: Digit, s: nat, k: nat, limit: Digit)
    requires x == a * Pow2(s) && x <= limit && (limit + 1) * Pow2(k) == B
    ensures x <= x * Pow2(k) < B
    ensures x * Pow2(k) == a * Pow2(s + k)
  {
    Pow2Add(s, k);
    hide Pow2;
    MulAssoc(a, Pow2(s), Pow2(k));
    MulMono(Pow2(k), x + 1, limit + 1);
    MulDist(x, 1, Pow2(k));
    MulMono(x, 1, Pow2(k));
  }

  /** One step of D2PF: a word below B / 2^k is shifted left by k, losing nothing. */
  method ShiftStep(ghost a: Digit, x: Digit, s: nat, k: nat, limit: Digit) returns (s': nat, x': Digit)
    requires x == a * Pow2(s)
    requires 0 < k && (limit + 1) * Pow2(k) == B
    ensures s' == s || s' == s + k
    ensures x' == a * Pow2(s') && x' >= x
    ensures x > limit ==> x' == x
    ensures x <= limit ==> x' == x * Pow2(k)
  {
    s', x' := s, x;
    if x <= limit {
      hide Pow2;
      ShiftFacts(a, x, s, k, limit);
      WrapSmall(x * Pow2(k));
      s', x' := s + k, Wrap(x * Pow2(k));
    }
  }

  /** D2PF: the shift that brings the top bit of a to the top of the word. */
  method D2PF(a: Digit) returns (s: nat)
    requires a != 0
    ensures s < D_EXP
    ensures B / 2 <= a * Pow2(s) < B
  {
    Pow2Literals();
    var x := a;
    s := 0;
    s, x := ShiftStep(a, x, s, 32, 0x0000_0000_FFFF_FFFF);
    s, x := ShiftStep(a, x, s, 16, 0x0000_FFFF_FFFF_FFFF);
    s, x := ShiftStep(a, x, s, 8, 0x00FF_FFFF_FFFF_FFFF);
    s, x := ShiftStep(a, x, s, 4, 0x0FFF_FFFF_FFFF_FFFF);
    s, x := ShiftStep(a, x, s, 2, 0x3FFF_FFFF_FFFF_FFFF);
    s, x := ShiftStep(a, x, s, 1, 0x7FFF_FFFF_FFFF_FFFF);
  }

  lemma TrueQuotient(n: int, v: int) returns (t: int)
    requires n >= 0 && v > 0
    ensures t == n / v && t >= 0 && t * v <= n < t * v + v
  {
    t := n / v;
  }

  lemma QuotientOrder(n: int, v: int, q: int, t: int)
    requires v > 0 && t * v <= n < t * v + v
    ensures q <= t <==> q * v <= n
  {
    if q <= t {
      MulMono(v, q, t);
    } else {
      MulMono(v, t + 1, q);
    }
  }

  /** Half-digit quotient estimates start no lower than the true quotient t. */
  lemma EstimateNotBelow(u: int, u1: int, v: int, v1: int, v0: int, t: int, q: int)
    requires 0 <= u1 < HB && v == v1 * HB + v0 && 0 <= v0 && v1 > 0 && t >= 0
    requires t * v <= u * HB + u1
    requires q * v1 <= u < q * v1 + v1
    ensures t <= q
  {
    assert t * v == (t * v1) * HB + t * v0;
    MulMono(t, 0, v0);
    assert t * v1 <= u;
    QuotientOrder(u, v1, t, q);
  }

  lemma QuotientStep(q: int, v: int, v1: int, v0: int, u: int, u1: int, rh: int)
    requires v == v1 * HB + v0 && q * v1 + rh == u
    ensures u * HB + u1 - q * v == rh * HB + u1 - q * v0
  {
    assert q * v == (q * v1) * HB + q * v0;
  }

  /** A guard of the correction loop that holds says the estimate is too high. */
  lemma EstimateTooHigh(u: int, u1: int, v: int, v1: int, v0: int, t: int, q: int, rh: int)
    requires 0 <= u < v && 0 <= u1 < HB && v == v1 * HB + v0 && q * v1 + rh == u
    requires t * v <= u * HB + u1 < t * v + v
    requires q >= HB || q * v0 > rh * HB + u1
    ensures t < q
  {
    QuotientStep(q, v, v1, v0, u, u1, rh);
    QuotientOrder(u * HB + u1, v, q, t);
    QuotientOrder(u * HB + u1, v, HB, t);
  }

  /** Both ways out of the correction loop leave the exact half-digit quotient. */
  lemma EstimateExact(u: int, u1: int, v: int, v1: int, v0: int, t: int, q: int, rh: int)
    requires 0 <= u < v && 0 <= u1 < HB && v == v1 * HB + v0 && 0 <= v0 < HB && v1 > 0
    requires t * v <= u * HB + u1 < t * v + v
    requires q * v1 + rh == u && t <= q && 0 <= q
    requires rh >= HB || (q < HB && q * v0 <= rh * HB + u1)
    ensures q == t < HB
  {
    if q >= HB {
      MulMono(v1, HB, q);
      assert false;
    }
    HalfProduct(q, v0);
    QuotientStep(q, v, v1, v0, u, u1, rh);
    QuotientOrder(u * HB + u1, v, q, t);
  }

  lemma DivDigit(u: Digit, v: int)
    requires v > 0
    ensures (u / v) * v <= u < (u / v) * v + v
    ensures 0 <= u / v <= u
  {
    var t := TrueQuotient(u, v);
    MulMono(t, 1, v);
  }

  method FirstEstimate(u: Digit, ghost u1: Half, v: Digit, ghost t: int) returns (q: Digit, rh: Digit)
    requires HB <= v && t >= 0 && t * v <= u * HB + u1
    ensures q * (v / HB) + rh == u && rh < v / HB
    ensures t <= q
  {
    var v1 := v / HB;
    DivDigit(u, v1);
    q := u / v1;
    rh := u - q * v1;
    EstimateNotBelow(u, u1, v, v1, v % HB, t, q);
  }

  /** The guard of the correction loop, evaluated in machine arithmetic. */
  predicate TooHigh(q: Digit, v0: Half, rh: Half, u1: Half)
    ensures TooHigh(q, v0, rh, u1) <==> q >= HB || q * v0 > rh * HB + u1
  {
    if q < HB then (HalfProduct(q, v0); Wrap(q * v0) > rh * HB + u1) else true
  }

  /** The correction loop: step the estimate down until it is the true quotient t. */
  method CorrectEstimate(u: Digit, u1: Half, v: Digit, q0: Digit, rh0: Half, ghost t: int) returns (q: Digit)
    requires HB <= v && u < v && q0 * (v / HB) + rh0 == u
    requires t <= q0 && 0 <= t && t * v <= u * HB + u1 < t * v + v
    ensures q == t < HB
  {
    var v1, v0 := v / HB, v % HB;
    var rh: Digit := rh0;
    q := q0;
    while TooHigh(q, v0, rh, u1)
      invariant q * v1 + rh == u && rh < HB
      invariant t <= q
      decreases q
    {
      EstimateTooHigh(u, u1, v, v1, v0, t, q, rh);
      MulDist(q - 1, 1, v1);
      q, rh := q - 1, rh + v1;
      if rh >= HB { break; }
    }
    EstimateExact(u, u1, v, v1, v0, t, q, rh);
  }

  /** One half of DDIVREM: estimate a half-digit quotient from the top half of the
      divisor, then correct it downwards.  The corrected value is exact. */
  method HalfQuotient(u: Digit, u1: Half, v: Digit) returns (q: Digit, rem: Digit)
    requires B / 2 <= v && u < v
    ensures u * HB + u1 == q * v + rem
    ensures q < HB && rem < v
  {
    ghost var t := TrueQuotient(u * HB + u1, v);
    var rh;
    q, rh := FirstEstimate(u, u1, v, t);
    q := CorrectEstimate(u, u1, v, q, rh, t);
    rem := Remainder(u, u1, v, q);
  }

  /** The remainder, computed modulo B although u * HB alone may exceed a word. */
  function Remainder(u: Digit, u1: Half, v: Digit, q: Digit): (rem: Digit)
    requires q * v <= u * HB + u1 < q * v + v
    ensures u * HB + u1 == q * v + rem
  {
    WrapDifference(u * HB, u1, q * v);
    Wrap(Wrap(u * HB) + u1 - Wrap(q * v))
  }

  /** The bits of a0 that the normalising shift pushes into the upper word. */
  function ShiftedOut(a0: Digit, s: nat): (top: int)
    requires s < D_EXP
  {
    if s == 0 then 0 else a0 / Pow2(D_EXP - s)
  }

  lemma SplitProduct(a: int, t: int, c: int, lo: int, p: int, b: int)
    requires a == t * c + lo && 0 <= lo < c && p > 0 && c * p == b
    ensures a * p == t * b + lo * p
    ensures 0 <= lo * p <= b - p
  {
    MulAssoc(t, c, p);
    MulDist(t * c, lo, p);
    MulMono(p, 0, lo);
    MulMono(p, lo + 1, c);
  }

  lemma SplitShift(a0: Digit, s: nat)
    requires s < D_EXP
    ensures a0 * Pow2(s) == ShiftedOut(a0, s) * B + Wrap(a0 * Pow2(s))
    ensures 0 <= ShiftedOut(a0, s) < Pow2(s)
    ensures Wrap(a0 * Pow2(s)) + Pow2(s) <= B
  {
    if s > 0 {
      var c := Pow2(D_EXP - s);
      assert c * Pow2(s) == B by {
        Pow2Literals();
        Pow2Add(D_EXP - s, s);
      }
      hide Pow2;
      var t := TrueQuotient(a0, c);
      SplitProduct(a0, t, c, a0 - t * c, Pow2(s), B);
      WrapSplit(a0 * Pow2(s), t, (a0 - t * c) * Pow2(s));
      QuotientOrder(a0, c, Pow2(s), t);
    }
  }

  /** Shifting dividend and divisor alike keeps the quotient problem in range. */
  lemma NormalisedDividend(a1: Digit, a0: Digit, b: Digit, s: nat)
    requires a1 < b && s < D_EXP && b * Pow2(s) < B
    ensures a1 * Pow2(s) + ShiftedOut(a0, s) < b * Pow2(s)
    ensures (a1 * Pow2(s) + ShiftedOut(a0, s)) * B + Wrap(a0 * Pow2(s)) == (a1 * B + a0) * Pow2(s)
  {
    SplitShift(a0, s);
    MulMono(Pow2(s), a1 + 1, b);
    MulDist(a1, 1, Pow2(s));
    MulDist(a1 * B, a0, Pow2(s));
    MulAssoc(B, a1, Pow2(s));
  }

  /** Undoing the shift on the remainder. */
  lemma Denormalise(n: int, q: int, b: int, rem: int, p: int)
    requires p > 0 && n * p == q * (b * p) + rem && 0 <= rem < b * p
    ensures n == q * b + rem / p && 0 <= rem / p < b
  {
    var k := n - q * b;
    assert rem == k * p by {
      MulAssoc(q, b, p);
      assert k * p == n * p - (q * b) * p;
    }
    var t := TrueQuotient(rem, p);
    QuotientOrder(rem, p, k, t);
    QuotientOrder(rem, p, k + 1, t);
    QuotientOrder(rem, p, b, t);
  }

  lemma NormalisedWords(a1: Digit, a0: Digit, b: Digit, s: nat)
    requires a1 < b && s < D_EXP && B / 2 <= b * Pow2(s) < B
    ensures Wrap(b * Pow2(s)) == b * Pow2(s) && Wrap(a1 * Pow2(s)) == a1 * Pow2(s)
    ensures 0 <= Wrap(a1 * Pow2(s)) + ShiftedOut(a0, s) < Wrap(b * Pow2(s))
  {
    hide Pow2, ShiftedOut;
    NormalisedDividend(a1, a0, b, s);
    SplitShift(a0, s);
    MulMono(Pow2(s), 0, a1);
  }

  /** DDIVREM: (a1*B + a0) divided by b, for a1 < b, by two half-digit quotients.
      `|` joins disjoint bit ranges and is written as a sum. */
  method DDivRem(a1: Digit, a0: Digit, b: Digit) returns (q: Digit, r: Digit)
    requires a1 < b
    ensures a1 * B + a0 == q * b + r && r < b
  {
    hide Pow2, ShiftedOut, Wrap;
    var s := D2PF(b);
    NormalisedDividend(a1, a0, b, s);
    NormalisedWords(a1, a0, b, s);
    var v := Wrap(b * Pow2(s));
    var u32 := Wrap(a1 * Pow2(s)) + ShiftedOut(a0, s);
    var u10 := Wrap(a0 * Pow2(s));
    q, r := HalvesQuotient(u32, u10, v);
    Denormalise(a1 * B + a0, q, b, r, Pow2(s));
    r := r / Pow2(s);
  }

  method HalvesQuotient(u: Digit, u10: Digit, v: Digit) returns (q: Digit, rem: Digit)
    requires B / 2 <= v && u < v
    ensures u * B + u10 == q * v + rem && rem < v
  {
    var q1, u21 := HalfQuotient(u, u10 / HB, v);
    var q0;
    q0, rem := HalfQuotient(u21, u10 % HB, v);
    q := q1 * HB + q0;
    assert q * v == (q1 * v) * HB + q0 * v;
  }
}

/** I_lshift: arithmetic shift of a sign-and-magnitude number by any bit count. */
module Shift {
  import opened Digits
  import opened DigitOps
  import opened Vectors
  import opened BigText

  /** One digit of a left shift by 0 < sw < 64 bits. */
  lemma ShiftColumn(x: Digit, sw: nat, a1: Digit)
    requires 0 < sw < D_EXP && a1 < Pow2(sw)
    ensures 0 <= Wrap(x * Pow2(sw)) + a1 < B
    ensures (Wrap(x * Pow2(sw)) + a1) + B * ShiftedOut(x, sw) == x * Pow2(sw) + a1
    ensures 0 <= ShiftedOut(x, sw) < Pow2(sw) && Pow2(sw) < B
  {
    SplitShift(x, sw);
    Pow2Literals();
    Pow2Add(sw, D_EXP - sw);
    hide Pow2, Wrap, ShiftedOut;
    MulMono(Pow2(sw), 1, Pow2(D_EXP - sw));
    assert Pow2(D_EXP - sw) >= 2 by { TwoAtLeast(D_EXP - sw); }
    MulMono(Pow2(sw), 2, Pow2(D_EXP - sw));
  }

  lemma TwoAtLeast(n: nat)
    requires n > 0
    ensures Pow2(n) >= 2
  {
    Pow2Mono(1, n);
  }

  /** The left-shift loop: r = x * 2^sw at digit offset bw, carry out in a1. */
  method ShiftUp(x: array<Digit>, xl: nat, sw: nat, r: array<Digit>, bw: nat) returns (a1: Digit)
    requires xl <= x.Length && bw + xl <= r.Length && x != r && sw < D_EXP
    modifies r
    ensures Outside(r, old(r[..]), bw, xl)
    ensures Num(r, bw, xl) + Pow(xl) * a1 == Num(x, 0, xl) * Pow2(sw)
  {
    hide Val, Pow, Pow2, Wrap, ShiftedOut;
    EmptyVector();
    ghost var xs, was, p := x[0..xl], r[..], Pow2(sw);
    assert r[bw..bw + 0] == [] && xs[..0] == [] && xs[..xl] == xs;
    a1 := 0;
    for i := 0 to xl
      invariant Outside(r, was, bw, i)
      invariant a1 < p && (sw == 0 ==> a1 == 0)
      invariant Num(r, bw, i) + Pow(i) * a1 == Val(xs[..i]) * p
    {
      var s: Digit, c: Digit := x[i], 0;
      if sw != 0 {
        ShiftColumn(x[i], sw, a1);
        s, c := Wrap(x[i] * Pow2(sw)) + a1, ShiftedOut(x[i], sw);
      } else {
        UnitShift();
      }
      ShiftStep(r[bw..bw + i], s, a1, c, xs, i, p);
      r[bw + i] := s;
      assert r[bw..bw + i + 1] == r[bw..bw + i] + [s];
      a1 := c;
    }
  }

  lemma UnitShift()
    ensures Pow2(0) == 1
  {
  }

  lemma ShiftStep(rs: seq<Digit>, s: Digit, c: int, c': int, xs: seq<Digit>, i: nat, p: int)
    requires i < |xs| && |rs| == i
    requires Val(rs) + Pow(i) * c == Val(xs[..i]) * p
    requires s + B * c' == xs[i] * p + c
    ensures Val(rs + [s]) + Pow(i + 1) * c' == Val(xs[..i + 1]) * p
  {
    hide Val, Pow;
    Column(rs, s, c, c', xs[i] * p, Val(xs[..i]) * p);
    NextDigit(xs, i);
    MulDist(Val(xs[..i]), Pow(i) * xs[i], p);
    MulAssoc(Pow(i), xs[i], p);
  }

  /** The bits of a digit pushed out by a right shift of sw bits, moved to the top. */
  lemma DownColumn(x: Digit, sw: nat, rem: int)
    requires 0 < sw < D_EXP && 0 <= rem < Pow2(sw)
    ensures 0 <= x / Pow2(sw) + rem * Pow2(D_EXP - sw) < B
    ensures Pow2(sw) * (x / Pow2(sw) + rem * Pow2(D_EXP - sw)) + x % Pow2(sw) == x + B * rem
    ensures Wrap(x * Pow2(D_EXP - sw)) == (x % Pow2(sw)) * Pow2(D_EXP - sw)
  {
    var p, c := Pow2(sw), Pow2(D_EXP - sw);
    assert p * c == B by {
      Pow2Literals();
      Pow2Add(sw, D_EXP - sw);
    }
    hide Pow2, Wrap;
    var t := TrueQuotient(x, p);
    DownProduct(x, t, x - t * p, p, c, rem);
    WrapSplit(x * c, t, (x - t * p) * c);
    RemainderFits(x, t, p);
  }

  lemma RemainderFits(x: int, t: int, p: int)
    requires p > 0 && t == x / p
    ensures x % p == x - t * p
  {
  }

  lemma DownProduct(x: Digit, t: int, lo: int, p: int, c: int, rem: int)
    requires p > 0 && c > 0 && p * c == B && x == t * p + lo && 0 <= lo < p && 0 <= t && 0 <= rem < p
    ensures 0 <= t + rem * c < B
    ensures p * (t + rem * c) + lo == x + B * rem
    ensures x * c == t * B + lo * c && 0 <= lo * c < B
  {
    assert p * (rem * c) == rem * (p * c);
    assert p * (t + rem * c) == p * t + p * (rem * c);
    assert x * c == t * (p * c) + lo * c by {
      MulDist(t * p, lo, c);
      MulAssoc(t, p, c);
    }
    MulMono(c, lo + 1, p);
    MulMono(c, rem + 1, p);
    MulMono(c, 0, lo);
    MulMono(c, 0, rem);
    if t >= c {
      MulMono(p, c, t);
    }
    MulDist(lo, 1, c);
    MulDist(rem, 1, c);
  }

  /** The right-shift loop, from the top: x[bw..] divided by 2^sw; `low` says whether bits
      were lost from the lowest digit. */
  method ShiftDown(x: array<Digit>, xl: nat, sw: nat, r: array<Digit>, bw: nat) returns (low: bool, ghost rem: int)
    requires bw < xl <= x.Length && xl - bw <= r.Length && x != r && sw < D_EXP
    modifies r
    ensures Val(x[bw..xl]) == Pow2(sw) * Num(r, 0, xl - bw) + rem && 0 <= rem < Pow2(sw)
    ensures low <==> rem != 0
  {
    hide Val, Pow2, Wrap;
    var rl := xl - bw;
    ghost var xs, p := x[bw..xl], Pow2(sw);
    EmptyDown(p);
    assert r[rl..rl] == [] && xs[rl..] == [];
    if sw == 0 { UnitShift(); }
    rem := 0;
    var a0: Digit := 0;
    var j: int := rl;
    while j > 0
      invariant 0 <= j <= rl
      invariant Val(xs[j..]) == p * Val(r[j..rl]) + rem && 0 <= rem < p
      invariant sw == 0 ==> rem == 0 && a0 == 0
      invariant sw > 0 ==> a0 == rem * Pow2(D_EXP - sw)
    {
      ghost var rs, rem0 := r[j..rl], rem;
      var a1: Digit := x[bw + j - 1];
      if sw != 0 {
        DownColumn(x[bw + j - 1], sw, rem);
        a1 := x[bw + j - 1] / Pow2(sw) + a0;
        a0 := Wrap(x[bw + j - 1] * Pow2(D_EXP - sw));
        rem := x[bw + j - 1] % Pow2(sw);
      }
      DownStep(xs, j, rs, p, rem0, a1, rem);
      r[j - 1] := a1;
      assert r[j - 1..rl] == [a1] + rs;
      j := j - 1;
    }
    assert xs[0..] == xs;
    if sw > 0 { NonZeroProduct(rem, Pow2(D_EXP - sw)); }
    low := a0 != 0;
  }

  lemma EmptyDown(p: int)
    ensures Val([]) == 0 && p * Val([]) == 0
  {
  }

  lemma NonZeroProduct(a: int, b: int)
    requires b > 0
    ensures a * b == 0 <==> a == 0
  {
  }

  lemma DownStep(xs: seq<Digit>, j: nat, rs: seq<Digit>, p: int, rem0: int, a1: Digit, rem: int)
    requires 0 < j <= |xs|
    requires Val(xs[j..]) == p * Val(rs) + rem0
    requires p * a1 + rem == xs[j - 1] + B * rem0
    ensures Val(xs[j - 1..]) == p * Val([a1] + rs) + rem
  {
    assert xs[j - 1..][1..] == xs[j..] && ([a1] + rs)[1..] == rs;
    var v := Val(rs);
    assert Val(xs[j - 1..]) == xs[j - 1] + B * Val(xs[j..]);
    assert Val([a1] + rs) == a1 + B * v;
    hide Val;
    assert p * (a1 + B * v) == p * a1 + B * (p * v);
  }

  /** Magnitude of a right shift by a divisor p, rounding a negative number toward minus infinity. */
  function DownMag(x: int, p: int, sign: bool): int
    requires p > 0
  {
    x / p + if sign && x % p != 0 then 1 else 0
  }

  /** The magnitude I_lshift leaves for a right shift by ay bits: the digit count is kept
      in an int. */
  function ShiftedMag(x: int, xl: nat, ay: nat, sign: bool): int {
    var bw := Int32(ay / D_EXP);
    if bw < 0 || xl <= bw then
      if sign then 1 else 0
    else
      DownMag(x, EffectiveDivisor(ay), sign)
  }

  /** 2^ay with the digit part of ay truncated to an int. */
  function EffectiveDivisor(ay: nat): (p: int)
    requires Int32(ay / D_EXP) >= 0
    ensures p > 0
  {
    PowerProduct(Pow(Int32(ay / D_EXP)), Pow2(ay % D_EXP));
    Pow(Int32(ay / D_EXP)) * Pow2(ay % D_EXP)
  }

  lemma PowerProduct(p: int, q: int)
    requires p > 0 && q > 0
    ensures p * q > 0
  {
  }

  /** Splitting off the low digits and the low bits gives quotient and remainder. */
  lemma ShiftedQuotient(x: int, low: int, pd: int, p: int, r: int, rem: int)
    requires 0 <= low < pd && 0 <= rem < p && x == low + pd * (p * r + rem)
    ensures pd * p > 0
    ensures x / (pd * p) == r && x % (pd * p) == low + pd * rem
    ensures x % (pd * p) != 0 <==> low != 0 || rem != 0
  {
    PowerProduct(pd, p);
    var m := low + pd * rem;
    assert x == r * (pd * p) + m by {
      assert pd * (p * r + rem) == pd * (p * r) + pd * rem;
      assert pd * (p * r) == r * (pd * p);
    }
    MulMono(pd, rem + 1, p);
    MulDist(rem, 1, pd);
    MulMono(pd, 0, rem);
    UniqueQuotient(x, pd * p, r, m);
    NonZeroProduct(rem, pd);
  }

  /** Whether any of the dropped low digits is non-zero. */
  method AnyNonZero(x: array<Digit>, n: nat) returns (any: bool)
    requires n <= x.Length
    ensures any <==> Num(x, 0, n) != 0
  {
    ValZeros(x[0..n]);
    for i := 0 to n
      invariant forall k :: 0 <= k < i ==> x[k] == 0
    {
      if x[i] != 0 {
        assert x[0..n][i] != 0;
        return true;
      }
    }
    return false;
  }

  /** Dropping one leading zero digit after a shift of less than a digit is enough. */
  lemma OneZeroAtMost(ws: seq<Digit>, rs: seq<Digit>, p: int, rem: int)
    requires |ws| == |rs| > 1 && ws[|ws| - 1] != 0 && rs[|rs| - 1] == 0
    requires 0 < p < B && 0 <= rem < p && Val(ws) == p * Val(rs) + rem
    ensures Normal(rs[..|rs| - 1]) && Val(rs[..|rs| - 1]) == Val(rs)
  {
    var n := |rs| - 1;
    ValTop(ws);
    ValTop(rs);
    assert Pow(n) == B * Pow(n - 1);
    hide Val, Pow;
    MulMono(Pow(n), 1, ws[n]);
    QuotientAtLeast(Val(rs), p, rem, Pow(n - 1));
    NormalTop(rs[..n]);
  }

  lemma QuotientAtLeast(r: int, p: int, rem: int, q: int)
    requires 0 < p < B && 0 <= rem < p && p * r + rem >= B * q && q > 0
    ensures r >= q
  {
    if r < q {
      MulMono(p, r + 1, q);
      MulDist(r, 1, p);
      MulMono(q, p, B);
    }
  }

  /** The right-shift branch of I_lshift. */
  method ShiftRight(x: array<Digit>, xl: nat, ay: nat, sign: bool, r: array<Digit>) returns (n: nat)
    requires 0 < xl <= x.Length && x != r && x[xl - 1] != 0 && 0 < ay
    requires r.Length > 0 && (0 <= Int32(ay / D_EXP) < xl ==> xl - Int32(ay / D_EXP) < r.Length)
    modifies r
    ensures 1 <= n <= r.Length
    ensures Num(r, 0, n) == ShiftedMag(Num(x, 0, xl), xl, ay, sign) && Normal(r[0..n])
  {
    hide Val, Pow, Pow2, Normal;
    var bw: int, sw := Int32(ay / D_EXP), ay % D_EXP;
    if bw < 0 || xl <= bw {
      r[0] := if sign then 1 else 0;
      OneDigitNormal(r);
      return 1;
    }
    ghost var xs, xv := x[0..xl], Num(x, 0, xl);
    ValSplit(xs, bw);
    assert xs[..bw] == x[0..bw] && xs[bw..] == x[bw..xl];
    ValBound(x[0..bw]);
    var addOne := AnyNonZero(x, bw);
    addOne := sign && addOne;
    var rl := xl - bw;
    var low; ghost var rem;
    low, rem := ShiftDown(x, xl, sw, r, bw);
    ShiftedQuotient(xv, Num(x, 0, bw), Pow(bw), Pow2(sw), Num(r, 0, rl), rem);
    if sign && low { addOne := true; }
    n := FinishRight(r, rl, x, bw, xl, sw, sign, addOne, rem);
  }

  lemma OneDigitNormal(r: array<Digit>)
    requires r.Length > 0
    ensures Num(r, 0, 1) == r[0] && Normal(r[0..1])
  {
    OneDigit(r);
  }

  /** Trim one leading zero, then round up a negative number that lost bits. */
  method FinishRight(r: array<Digit>, rl: nat, x: array<Digit>, bw: nat, xl: nat, sw: nat, sign: bool, addOne: bool,
                     ghost rem: int) returns (n: nat)
    requires rl == xl - bw && 0 < rl < r.Length && bw < xl <= x.Length && x != r && x[xl - 1] != 0 && sw < D_EXP
    requires Val(x[bw..xl]) == Pow2(sw) * Num(r, 0, rl) + rem && 0 <= rem < Pow2(sw)
    requires addOne ==> sign
    requires sign && rem != 0 ==> addOne
    modifies r
    ensures 1 <= n <= r.Length && Normal(r[0..n])
    ensures Num(r, 0, n) == old(Num(r, 0, rl)) + if addOne then 1 else 0
  {
    hide Val, Pow, Pow2, Normal;
    ghost var ws, rs := x[bw..xl], r[0..rl];
    Pow2Below(sw);
    n := rl;
    if r[rl - 1] == 0 {
      if rl == 1 {
        ShiftedAway(ws, r, Pow2(sw), rem);
        if sign { r[0] := 1; }
        OneDigitNormal(r);
        return 1;
      }
      OneZeroAtMost(ws, rs, Pow2(sw), rem);
      n := rl - 1;
      assert rs[..n] == r[0..n];
    } else {
      TopIsNormal(rs);
    }
    if addOne {
      ghost var before := r[0..n];
      n := DAdd(r, 0, n, 1, r, 0);
      SumNormal(before, r[0..n], 1);
    }
  }

  lemma TopIsNormal(s: seq<Digit>)
    requires |s| > 0 && s[|s| - 1] != 0
    ensures Normal(s)
  {
  }

  lemma ShiftedAway(ws: seq<Digit>, r: array<Digit>, p: int, rem: int)
    requires |ws| == 1 && ws[0] != 0 && r.Length > 0 && r[0] == 0
    requires Val(ws) == p * Num(r, 0, 1) + rem
    ensures Num(r, 0, 1) == 0 && rem != 0
  {
    OneDigit(r);
    ValZeros(ws);
  }

  lemma Pow2Below(sw: nat)
    requires sw < D_EXP
    ensures Pow2(sw) < B
  {
    Pow2Literals();
    Pow2Mono(sw, D_EXP - 1);
    assert Pow2(D_EXP) == 2 * Pow2(D_EXP - 1);
  }

  const INT_MAX: int := 0x7FFF_FFFF

  lemma Pow2OfShift(ay: nat)
    ensures Pow2(ay) == Pow(ay / D_EXP) * Pow2(ay % D_EXP)
  {
    PowIsPow2(ay / D_EXP);
    Pow2Add(ay / D_EXP * D_EXP, ay % D_EXP);
  }

  /** The left-shift branch of I_lshift. */
  method ShiftLeft(x: array<Digit>, xl: nat, y: nat, r: array<Digit>) returns (n: nat)
    requires 0 < xl <= x.Length && xl + y / D_EXP < r.Length && x != r && x[xl - 1] != 0 && 0 < y
    requires y / D_EXP <= INT_MAX
    modifies r
    ensures n == xl + y / D_EXP || n == xl + y / D_EXP + 1
    ensures Num(r, 0, n) == Num(x, 0, xl) * Pow2(y) && Normal(r[0..n])
  {
    hide Val, Pow, Pow2, Normal;
    var bw, sw := y / D_EXP, y % D_EXP;
    ZeroDigits(r, bw);
    var a1 := ShiftUp(x, xl, sw, r, bw);
    ghost var top := r[bw..bw + xl];
    n := xl + bw;
    if a1 != 0 {
      ValSnoc(top, a1);
      r[n] := a1;
      assert r[bw..bw + (xl + 1)] == top + [a1];
      n := n + 1;
    }
    ScaleUp(r, bw, n, Num(x, 0, xl), y);
    LeftNormal(x[0..xl], r[0..n], y);
  }

  lemma ScaleUp(r: array<Digit>, bw: nat, n: nat, x: int, y: nat)
    requires bw <= n <= r.Length && bw == y / D_EXP && (forall k :: 0 <= k < bw ==> r[k] == 0)
    requires Num(r, bw, n - bw) == x * Pow2(y % D_EXP)
    ensures Num(r, 0, n) == x * Pow2(y)
  {
    hide Val, Pow, Pow2;
    ValLowZeros(r[0..n], bw);
    assert r[0..n][bw..] == r[bw..bw + (n - bw)];
    Pow2OfShift(y);
    SwapFactors(Pow(bw), x, Pow2(y % D_EXP));
  }

  lemma SwapFactors(a: int, x: int, b: int)
    ensures a * (x * b) == x * (a * b)
  {
  }

  lemma LeftNormal(xs: seq<Digit>, rs: seq<Digit>, y: nat)
    requires |xs| > 0 && xs[|xs| - 1] != 0 && Val(rs) == Val(xs) * Pow2(y)
    requires |rs| == |xs| + y / D_EXP || (|rs| == |xs| + y / D_EXP + 1 && rs[|rs| - 1] != 0)
    ensures Normal(rs)
  {
    if |rs| == |xs| + y / D_EXP {
      ValZeros(xs);
      NormalLower(xs);
      PowAdd(|xs| - 1, y / D_EXP);
      Pow2OfShift(y);
      hide Val, Pow, Pow2;
      MulMono(Pow(y / D_EXP), 1, Pow2(y % D_EXP));
      ProductAtLeast(Pow(|xs| - 1), Val(xs), Pow(y / D_EXP), Pow2(y));
      NormalTop(rs);
    }
  }

  /** I_lshift: y > 0 shifts left, y < 0 right; sign tells that the number is negative. */
  method ILshift(x: array<Digit>, xl: nat, y: int, sign: bool, r: array<Digit>) returns (n: nat)
    requires 0 < xl <= x.Length && Normal(x[0..xl]) && x != r
    requires r.Length > 0 && (y == 0 ==> xl <= r.Length)
    requires y > 0 ==> xl + y / D_EXP < r.Length && y / D_EXP <= INT_MAX
    requires y < 0 && 0 <= Int32(-y / D_EXP) < xl ==> xl - Int32(-y / D_EXP) < r.Length
    modifies r
    ensures 1 <= n <= r.Length && Normal(r[0..n])
    ensures y >= 0 ==> Num(r, 0, n) == Num(x, 0, xl) * Pow2(y)
    ensures y < 0 && Num(x, 0, xl) != 0 ==> Num(r, 0, n) == ShiftedMag(Num(x, 0, xl), xl, -y, sign)
    ensures Num(x, 0, xl) == 0 ==> Num(r, 0, n) == 0
  {
    hide Val, Pow, Pow2, ShiftedMag;
    assert x[0..xl][xl - 1] == x[xl - 1];
    if y == 0 {
      MoveDigits(x, xl, r);
      UnitShift();
      n := xl;
    } else if xl == 1 && x[0] == 0 {
      r[0] := 0;
      OneDigitNormal(r);
      OneDigit(x);
      n := 1;
    } else if y > 0 {
      n := ShiftLeft(x, xl, y, r);
      PositiveNum(x, xl);
    } else {
      n := ShiftRight(x, xl, -y, sign, r);
      PositiveNum(x, xl);
    }
  }

  lemma PositiveNum(x: array<Digit>, n: nat)
    requires 0 < n <= x.Length && x[n - 1] != 0
    ensures Num(x, 0, n) > 0
  {
    ValZeros(x[0..n]);
    assert x[0..n][n - 1] == x[n - 1];
  }

  /** The digit count fits an int, or the truncated count is negative or still shifts
      everything out. */
  predicate CountHolds(x: int, ay: nat, sign: bool) {
    || ay / D_EXP <= INT_MAX
    || Int32(ay / D_EXP) < 0
    || x < EffectiveDivisor(ay)
    || (sign && x == EffectiveDivisor(ay))
  }

  /** Exactly then the right shift is the true one. */
  lemma RightShiftExact(x: int, xl: nat, ay: nat, sign: bool)
    requires 0 < x < Pow(xl) && xl <= INT_MAX && ay > 0
    ensures ShiftedMag(x, xl, ay, sign) == DownMag(x, Pow2(ay), sign) <==> CountHolds(x, ay, sign)
  {
    hide Pow, Pow2;
    Pow2OfShift(ay);
    var w := Int32(ay / D_EXP);
    if xl <= ay / D_EXP {
      AllShiftedOut(x, xl, ay, sign);
    }
    if ay / D_EXP <= INT_MAX {
      assert w == ay / D_EXP;
    } else if w >= 0 {
      var p := EffectiveDivisor(ay);
      if xl <= w { TruncatedTooFar(x, xl, ay); }
      DownOfSmall(x, p, sign);
    }
  }

  lemma AllShiftedOut(x: int, xl: nat, ay: nat, sign: bool)
    requires 0 < x < Pow(xl) && xl <= ay / D_EXP
    ensures DownMag(x, Pow2(ay), sign) == if sign then 1 else 0
  {
    Pow2OfShift(ay);
    PowMono(xl, ay / D_EXP);
    hide Pow, Pow2;
    MulMono(Pow(ay / D_EXP), 1, Pow2(ay % D_EXP));
    DownOfSmall(x, Pow2(ay), sign);
  }

  lemma TruncatedTooFar(x: int, xl: nat, ay: nat)
    requires Int32(ay / D_EXP) >= xl && 0 < x < Pow(xl)
    ensures x < EffectiveDivisor(ay)
  {
    PowMono(xl, Int32(ay / D_EXP));
    hide Pow, Pow2;
    MulMono(Pow(Int32(ay / D_EXP)), 1, Pow2(ay % D_EXP));
  }

  lemma DownOfSmall(x: int, p: int, sign: bool)
    requires p > 0 && x > 0
    ensures DownMag(x, p, sign) == (if sign then 1 else 0) <==> x < p || (sign && x == p)
  {
    var t := TrueQuotient(x, p);
    if x < p {
      UniqueQuotient(x, p, 0, x);
    } else {
      QuotientOrder(x, p, 1, t);
      if t == 1 { UniqueQuotient(x, p, 1, x - p); }
    }
  }

  /** A count of 2^59, which the emulator substitutes for a bignum count, loses its digit
      part entirely: the number comes back unshifted instead of 0 or -1. */
  lemma HugeCountKeepsNumber(x: int, xl: nat, sign: bool)
    requires 1 < x < Pow(xl) && 0 < xl <= INT_MAX
    ensures ShiftedMag(x, xl, 0x800_0000_0000_0000, sign) == x
    ensures x != DownMag(x, Pow2(0x800_0000_0000_0000), sign)
  {
    var ay: nat := 0x800_0000_0000_0000;
    assert Int32(ay / D_EXP) == 0 && ay % D_EXP == 0;
    UnitShift();
    assert Pow(0) == 1;
    hide Pow, Pow2;
    assert EffectiveDivisor(ay) == 1;
    UniqueQuotient(x, 1, x, 0);
    RightShiftExact(x, xl, ay, sign);
  }
}

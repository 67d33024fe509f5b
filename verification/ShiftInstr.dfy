/** The bsl and bsr instructions: a fast path for fixnums, I_lshift for the rest. */
module ShiftInstr {
  import opened Digits
  import opened DigitOps
  import opened Vectors
  import opened BigText
  import opened Integers
  import opened Shift

  const SMALL_BITS: nat := 60

  datatype ShiftResult = Value(i: Integer) | SystemLimit

  /** a * 2^i rounded toward minus infinity. */
  function FloorShift(a: int, i: int): int {
    if i >= 0 then a * Pow2(i) else a / Pow2(-i)
  }

  /** (~0 << k) & v == 0 on 64-bit words: v, read as an unsigned word, is below 2^k. */
  predicate HighBitsClear(v: int, k: nat)
    requires k < D_EXP
  {
    v % B < Pow2(k)
  }

  /** The test that lets a fixnum be shifted left in place. */
  predicate FitsShifted(v: int, i: nat)
    requires 0 < i < SMALL_BITS - 1
  {
    (v > 0 && HighBitsClear(v, SMALL_BITS - 1 - i)) || HighBitsClear(-v - 1, SMALL_BITS - 1 - i)
  }

  lemma FitsShiftedExact(v: int, i: nat)
    requires IsSmall(v) && v != 0 && 0 < i < SMALL_BITS - 1
    ensures FitsShifted(v, i) <==> IsSmall(v * Pow2(i))
  {
    var k := SMALL_BITS - 1 - i;
    Pow2Add(k, i);
    SmallTop();
    Pow2Mono(k, SMALL_BITS - 1);
    hide Pow2;
    WordOf(v, k);
    WordOf(-v - 1, k);
    ScaledRange(v, Pow2(k), Pow2(i));
  }

  lemma WordOf(v: int, k: nat)
    requires -MAX_SMALL - 1 <= v <= MAX_SMALL && Pow2(k) <= MAX_SMALL + 1 && k < D_EXP
    ensures HighBitsClear(v, k) <==> 0 <= v < Pow2(k)
  {
  }

  lemma ScaledRange(v: int, p: int, q: int)
    requires p > 0 && q > 0 && p * q == MAX_SMALL + 1
    ensures IsSmall(v * q) <==> -p <= v < p
  {
    if v < -p {
      MulMono(q, v, -p - 1);
    } else if v >= p {
      MulMono(q, p, v);
    } else {
      MulMono(q, v + 1, p);
      MulMono(q, -p, v);
      MulDist(v, 1, q);
    }
  }

  /** small_shift: a fixnum shifted without leaving fixnums, when that is possible. */
  method SmallShift(v: int, i: int) returns (done: bool, r: int)
    requires IsSmall(v)
    ensures done <==> v == 0 || i <= 0 || (i < SMALL_BITS - 1 && IsSmall(FloorShift(v, i)))
    ensures done ==> r == FloorShift(v, i) && IsSmall(r)
  {
    hide Pow2;
    if i == 0 || v == 0 {
      UnitShift();
      ZeroShift(i);
      return true, v;
    }
    if i < 0 {
      FixnumRight(v, -i);
      if -i >= SMALL_BITS - 1 {
        return true, if v < 0 then -1 else 0;
      }
      return true, v / Pow2(-i);
    }
    if i < SMALL_BITS - 1 {
      FitsShiftedExact(v, i);
      if FitsShifted(v, i) {
        return true, v * Pow2(i);
      }
    }
    return false, 0;
  }

  lemma ZeroShift(i: int)
    ensures FloorShift(0, i) == 0
  {
    if i < 0 { UniqueQuotient(0, Pow2(-i), 0, 0); }
  }

  lemma FixnumRight(v: int, s: nat)
    requires IsSmall(v) && s > 0
    ensures IsSmall(v / Pow2(s))
    ensures s >= SMALL_BITS - 1 ==> v / Pow2(s) == if v < 0 then -1 else 0
  {
    SmallTop();
    if s >= SMALL_BITS - 1 {
      Pow2Mono(SMALL_BITS - 1, s);
      hide Pow2;
      UniqueQuotient(v, Pow2(s), if v < 0 then -1 else 0, if v < 0 then v + Pow2(s) else v);
    } else {
      hide Pow2;
      FloorShrinks(v, Pow2(s));
    }
  }

  lemma SmallTop()
    ensures Pow2(SMALL_BITS - 1) == MAX_SMALL + 1
  {
    Pow2Literals();
    Pow2Add(32, 16);
    Pow2Add(48, 8);
    Pow2Add(56, 2);
    Pow2Add(58, 1);
  }

  lemma FloorShrinks(v: int, p: int)
    requires p > 0
    ensures v >= 0 ==> 0 <= v / p <= v
    ensures v < 0 ==> v <= v / p < 0
  {
    var t := v / p;
    assert v == t * p + v % p;
    if v >= 0 {
      if t > v { MulMono(p, v + 1, t); MulMono(v + 1, 1, p); }
      if t < 0 { MulMono(p, t, -1); }
    } else {
      if t >= 0 { MulMono(p, 0, t); }
      if t < v { MulMono(p, t, v - 1); MulMono(-v, 1, p); }
    }
  }

  /** big_norm: a fixnum if it fits, nothing if the digit count exceeds the header's range. */
  method NormResult(r: array<Digit>, n: nat, sign: bool) returns (res: ShiftResult)
    requires 0 < n <= r.Length && Normal(r[0..n]) && (sign ==> Num(r, 0, n) > 0)
    ensures res.SystemLimit? <==> n > BIG_ARITY_MAX
    ensures res.Value? ==> res.i.Value() == (if sign then -Num(r, 0, n) else Num(r, 0, n)) && Canonical(res.i)
  {
    hide Val;
    if n == 1 {
      OneDigit(r);
      if r[0] <= MAX_SMALL + if sign then 1 else 0 {
        return Value(Small(if sign then -(r[0] as int) else r[0]));
      }
    } else {
      LongIsBig(r[0..n]);
    }
    if n > BIG_ARITY_MAX {
      return SystemLimit;
    }
    return Value(Big(sign, r[0..n]));
  }

  /** The digits I_lshift may write, from the size the instruction computes. */
  function ShiftRoom(size: nat, i: int): int {
    if i > 0 then
      size + i / D_EXP
    else if size <= -i / D_EXP then
      3
    else
      size - -i / D_EXP
  }

  /** The heap words that the instruction reserves: BIG_NEED_SIZE of one digit more, and one. */
  function Reserved(size: nat, i: int): int {
    ShiftRoom(size, i) + 1 + 1 + 1
  }

  /** The words that a right shift by s bits moves into the result, header included. */
  function Moved(xl: nat, s: nat): int {
    var w := Int32(s / D_EXP);
    1 + if 0 <= w < xl then xl - w else 1
  }

  /** They fit what was reserved if and only if the digit count fits an int, or the
      truncated one leaves at most five digits. */
  lemma RoomEnough(xl: nat, s: nat)
    requires 0 < xl <= INT_MAX && s > 0
    ensures Moved(xl, s) <= Reserved(xl, -(s as int))
        <==> s / D_EXP <= INT_MAX || Moved(xl, s) <= 1 + 5
    ensures s == 0x800_0000_0000_0000 ==> Moved(xl, s) == 1 + xl
  {
    assert -(-(s as int)) == s;
    if s / D_EXP <= INT_MAX {
      assert Int32(s / D_EXP) == s / D_EXP;
    }
  }

  /** What a right shift leaves, with its sign. */
  function RightShifted(x: int, xl: nat, s: nat, sign: bool): int {
    if sign then -ShiftedMag(x, xl, s, sign) else ShiftedMag(x, xl, s, sign)
  }

  /** A right shift rounds toward minus infinity exactly if its digit count holds. */
  lemma RightIsFloor(x: int, xl: nat, s: nat, sign: bool)
    requires 0 < x < Pow(xl) && xl <= INT_MAX && 0 < s
    ensures RightShifted(x, xl, s, sign) == FloorShift(if sign then -x else x, -(s as int))
        <==> CountHolds(x, s, sign)
    ensures sign ==> ShiftedMag(x, xl, s, sign) > 0
  {
    hide Pow, Pow2, CountHolds, DownMag;
    RightShiftExact(x, xl, s, sign);
    NegatedFloor(x, Pow2(s));
    if Int32(s / D_EXP) >= 0 { NegatedFloor(x, EffectiveDivisor(s)); }
  }

  lemma NegatedFloor(x: int, p: int)
    requires p > 0 && x > 0
    ensures -DownMag(x, p, true) == (-x) / p && DownMag(x, p, true) > 0
    ensures DownMag(x, p, false) == x / p
  {
    var t := TrueQuotient(x, p);
    assert x % p == x - t * p by { UniqueQuotient(x, p, t, x - t * p); }
    if x == t * p {
      UniqueQuotient(-x, p, -t, 0);
    } else {
      MulDist(t, 1, p);
      UniqueQuotient(-x, p, -(t + 1), p - (x - t * p));
    }
  }

  /** A left shift overflows the header exactly when the product has too many digits. */
  lemma LengthIsLimit(rs: seq<Digit>)
    requires Normal(rs) && Val(rs) > 0
    ensures |rs| > BIG_ARITY_MAX <==> Val(rs) >= Pow(BIG_ARITY_MAX)
  {
    hide Pow;
    ValBound(rs);
    NormalLower(rs);
    if |rs| > BIG_ARITY_MAX {
      PowMono(BIG_ARITY_MAX, |rs| - 1);
    } else {
      PowMono(|rs|, BIG_ARITY_MAX);
    }
  }

  /** The reserved heap takes whatever a right shift writes. */
  predicate Fits(xl: nat, i: int) {
    i < 0 ==> -i / D_EXP <= INT_MAX || Moved(xl, -i) <= 1 + 4
  }

  /** big_shift: size check, I_lshift, normalisation. */
  method BigShift(x: array<Digit>, xl: nat, sign: bool, i: int) returns (res: ShiftResult)
    requires 0 < xl <= x.Length && xl <= BIG_ARITY_MAX && Normal(x[0..xl]) && Num(x, 0, xl) > 0
    requires i != 0 && Fits(xl, i)
    ensures res.SystemLimit? <==> i > 0 && Num(x, 0, xl) * Pow2(i) >= Pow(BIG_ARITY_MAX)
    ensures res.Value? ==> Canonical(res.i)
    ensures var v := if sign then -Num(x, 0, xl) else Num(x, 0, xl);
            res.Value? ==> (res.i.Value() == FloorShift(v, i) <==> i > 0 || CountHolds(Num(x, 0, xl), -i, sign))
    ensures i < 0 ==> res.Value? && res.i.Value() == RightShifted(Num(x, 0, xl), xl, -i, sign)
  {
    hide Val, Pow, Pow2, Normal, ShiftedMag, Canonical, CountHolds;
    ghost var xv := Num(x, 0, xl);
    ValBound(x[0..xl]);
    var ires := ShiftRoom(xl, i);
    if ires + 2 - 8 > BIG_ARITY_MAX {
      ClearlyTooLong(x[0..xl], i);
      return SystemLimit;
    }
    var r := new Digit[ires + 2](k => 0);
    var n := ILshift(x, xl, i, sign, r);
    if i > 0 {
      SignedProduct(xv, Pow2(i));
      LengthIsLimit(r[0..n]);
    } else {
      RightIsFloor(xv, xl, -i, sign);
    }
    res := NormResult(r, n, sign);
    if i < 0 { RightNeverLonger(xv, xl, -i, sign, r[0..n]); }
  }

  lemma SignedProduct(x: int, p: int)
    requires x > 0 && p > 0
    ensures (-x) * p == -(x * p) && x * p > 0
  {
  }

  lemma ClearlyTooLong(xs: seq<Digit>, i: int)
    requires 0 < |xs| <= BIG_ARITY_MAX && Normal(xs) && Val(xs) > 0 && i != 0
    requires ShiftRoom(|xs|, i) + 2 - 8 > BIG_ARITY_MAX
    ensures i > 0 && Val(xs) * Pow2(i) >= Pow(BIG_ARITY_MAX)
  {
    hide Val, Pow, Pow2;
    NormalLower(xs);
    Pow2OfShift(i);
    PowAdd(|xs| - 1, i / D_EXP);
    PowMono(BIG_ARITY_MAX, |xs| - 1 + i / D_EXP);
    MulMono(Pow(i / D_EXP), 1, Pow2(i % D_EXP));
    ProductAtLeast(Pow(|xs| - 1), Val(xs), Pow(i / D_EXP), Pow2(i));
  }

  lemma RightNeverLonger(x: int, xl: nat, s: nat, sign: bool, rs: seq<Digit>)
    requires 0 < x < Pow(xl) && 0 < xl <= BIG_ARITY_MAX && 0 < s
    requires Normal(rs) && Val(rs) == ShiftedMag(x, xl, s, sign)
    ensures |rs| <= BIG_ARITY_MAX
  {
    hide Val, Pow, Pow2, DownMag;
    if Int32(s / D_EXP) >= 0 { MagShrinks(x, EffectiveDivisor(s), sign); }
    PowMono(xl, BIG_ARITY_MAX);
    if Val(rs) > 0 {
      LengthIsLimit(rs);
    } else {
      ZeroIsShort(rs);
    }
  }

  lemma ZeroIsShort(rs: seq<Digit>)
    requires Normal(rs) && Val(rs) <= 0
    ensures |rs| == 1
  {
    ValZeros(rs);
  }

  lemma MagShrinks(x: int, p: int, sign: bool)
    requires x > 0 && p >= 1
    ensures DownMag(x, p, sign) <= x
  {
    var t := TrueQuotient(x, p);
    if p == 1 {
      UniqueQuotient(x, 1, x, 0);
    } else {
      MulMono(t, 2, p);
      if t == 0 { UniqueQuotient(x, p, 0, x); }
    }
  }

  /** The shift is the true one: for a bignum shifted right, if its digit count holds. */
  predicate TrueShift(a: Integer, i: int) {
    a.Big? && i < 0 ==> CountHolds(Val(a.digits), -i, a.neg)
  }

  /** The instruction for a shift by i bits: left for positive i, right for negative.
      A fixnum and a bignum with the same value give the same answer. */
  method ShiftInteger(a: Integer, i: int) returns (res: ShiftResult)
    requires Canonical(a) && (a.Big? ==> |a.digits| <= BIG_ARITY_MAX && Fits(|a.digits|, i))
    ensures res.SystemLimit? <==> i > 0 && Abs(a.Value()) * Pow2(i) >= Pow(BIG_ARITY_MAX)
    ensures res.Value? ==> Canonical(res.i) && (res.i.Value() == FloorShift(a.Value(), i) <==> TrueShift(a, i))
  {
    hide Val, Pow, Pow2, Normal;
    match a
    case Small(v) =>
      var done, r := SmallShift(v, i);
      if done {
        SmallNeverLimit(v, i);
        return Value(Small(r));
      }
      var x := new Digit[1](k => 0);
      x[0] := Abs(v);
      OneDigitNormal(x);
      res := BigShift(x, 1, v < 0, i);
    case Big(neg, digits) =>
      if i == 0 {
        UnitShift();
        return Value(a);
      }
      BigIsPositive(a);
      var x := new Digit[|digits|](k requires 0 <= k < |digits| => digits[k]);
      assert x[0..|digits|] == digits;
      res := BigShift(x, |digits|, neg, i);
  }

  lemma BigIsPositive(a: Integer)
    requires a.Big? && Canonical(a)
    ensures Val(a.digits) > 0 && |a.digits| > 0
  {
  }

  /** A product that is a fixnum is far from the bignum limit. */
  lemma SmallNeverLimit(v: int, i: int)
    requires i > 0 ==> IsSmall(v * Pow2(i))
    ensures i > 0 ==> Abs(v) * Pow2(i) < Pow(BIG_ARITY_MAX)
  {
    hide Pow, Pow2;
    PowMono(1, BIG_ARITY_MAX);
    FirstPower();
    if i > 0 {
      AbsProduct(v, Pow2(i));
    }
  }

  lemma FirstPower()
    ensures Pow(1) == B
  {
  }

  lemma AbsProduct(v: int, p: int)
    requires p > 0
    ensures Abs(v) * p == Abs(v * p)
  {
    if v < 0 {
      MulMono(p, v, -1);
      assert (-v) * p == -(v * p);
    } else {
      MulMono(p, 0, v);
    }
  }
}

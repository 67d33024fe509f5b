/** Bignums to decimal text (write_big) and the size estimate its callers allocate by. */
module BigText {
  import opened Digits
  import opened DigitOps
  import opened Vectors
  import opened ShortDivision
  import opened Decimal

  const D_DECIMAL_EXP: nat := 9
  const D_DECIMAL_BASE: Digit := 1_000_000_000

  /** The last chunk: digits from the low end until nothing is left. Text grows to the left. */
  method WriteRest(rem: Digit, text: string) returns (out: string)
    ensures out == if rem == 0 then text else Dec(rem) + text
  {
    hide Dec;
    var left := rem;
    out := text;
    ghost var done := "";
    assert "" + text == text && Dec(rem) + "" == Dec(rem);
    while left != 0
      invariant 0 <= left < B
      invariant out == done + text
      invariant if left == 0 then done == (if rem == 0 then "" else Dec(rem)) else Dec(rem) == Dec(left) + done
    {
      LastDecDigit(left);
      ghost var c := [DigitChar(left % 10)];
      assert (Dec(left / 10) + c) + done == Dec(left / 10) + (c + done);
      assert (c + done) + text == c + (done + text);
      done := c + done;
      out := [DigitChar(left % 10)] + out;
      left := left / 10;
    }
  }

  lemma LastDecDigit(v: nat)
    ensures v < 10 ==> Dec(v) == [DigitChar(v % 10)]
    ensures v >= 10 ==> Dec(v) == Dec(v / 10) + [DigitChar(v % 10)]
  {
  }

  /** A chunk in the middle: always the same number of digits. */
  method WritePadded(rem: Digit, k: nat, text: string) returns (out: string)
    ensures out == Padded(rem, k) + text
  {
    var left, i: int := rem, k;
    out := text;
    ghost var done := "";
    assert Padded(rem, k) + "" == Padded(rem, k);
    while i > 0
      invariant 0 <= i <= k && 0 <= left < B
      invariant out == done + text
      invariant Padded(rem, k) == Padded(left, i) + done
    {
      assert Padded(left, i) == Padded(left / 10, i - 1) + [DigitChar(left % 10)];
      done := [DigitChar(left % 10)] + done;
      out := [DigitChar(left % 10)] + out;
      left, i := left / 10, i - 1;
    }
  }

  lemma DecimalBase()
    ensures Pow10(D_DECIMAL_EXP) == D_DECIMAL_BASE
  {
  }

  /** Nine more digits of text for each division by the decimal base. */
  lemma ChunkSplit(t: nat, q: nat, rem: nat, text: string, whole: string)
    requires t == q * D_DECIMAL_BASE + rem && rem < D_DECIMAL_BASE
    requires whole == Dec(t) + text
    ensures q > 0 ==> whole == Dec(q) + (Padded(rem, D_DECIMAL_EXP) + text)
    ensures q == 0 ==> whole == Dec(rem) + text
  {
    hide Dec, Padded, Pow10;
    DecimalBase();
    if q > 0 {
      DecSplit(q, rem, D_DECIMAL_EXP);
      assert Dec(q) + (Padded(rem, D_DECIMAL_EXP) + text) == (Dec(q) + Padded(rem, D_DECIMAL_EXP)) + text;
    }
  }

  /** write_big: exactly the decimal expansion, with a minus sign for negative numbers. */
  method WriteBig(dx: array<Digit>, xl: nat, sign: bool) returns (text: string)
    requires 0 < xl <= dx.Length && Normal(dx[0..xl])
    ensures text == Text(sign, Num(dx, 0, xl))
  {
    if xl == 1 && dx[0] < D_DECIMAL_BASE {
      text := if dx[0] == 0 then "0" else "";
      text := WriteRest(dx[0], text);
      OneDigit(dx);
      assert Dec(dx[0]) + "" == Dec(dx[0]);
    } else {
      text := WriteChunks(dx, xl);
    }
    if sign {
      text := ['-'] + text;
    }
    assert "" + text == text;
  }

  lemma OneDigit(dx: array<Digit>)
    requires dx.Length > 0
    ensures Num(dx, 0, 1) == dx[0]
  {
    var s: seq<Digit> := dx[0..1];
    assert s == [s[0]];
    FirstQuotient(s[0]);
  }

  /** The division loop on a scratch copy. */
  method WriteChunks(dx: array<Digit>, xl: nat) returns (text: string)
    requires 0 < xl <= dx.Length && Normal(dx[0..xl]) && (xl > 1 || dx[0] > 0)
    ensures text == Dec(Num(dx, 0, xl))
  {
    hide Val, Dec, Padded, Normal;
    var tmp := new Digit[xl](i => 0);
    MoveDigits(dx, xl, tmp);
    ghost var whole := Dec(Num(dx, 0, xl));
    Positive(dx, xl);
    text := "";
    assert whole + text == whole;
    var tmpl := xl;
    while true
      invariant 0 < tmpl <= xl && Normal(tmp[0..tmpl]) && Num(tmp, 0, tmpl) > 0
      invariant whole == Dec(Num(tmp, 0, tmpl)) + text
      decreases Num(tmp, 0, tmpl)
    {
      ghost var t := Num(tmp, 0, tmpl);
      var rem;
      tmpl, rem := DDiv(tmp, tmpl, D_DECIMAL_BASE, tmp);
      ChunkSplit(t, Num(tmp, 0, tmpl), rem, text, whole);
      if tmpl == 1 && tmp[0] == 0 {
        OneDigit(tmp);
        text := WriteRest(rem, text);
        break;
      } else {
        Positive(tmp, tmpl);
        text := WritePadded(rem, D_DECIMAL_EXP, text);
      }
    }
  }

  lemma Positive(x: array<Digit>, n: nat)
    requires 0 < n <= x.Length && Normal(x[0..n]) && (n > 1 || x[0] > 0)
    ensures Num(x, 0, n) > 0
  {
    ValZeros(x[0..n]);
    assert x[0..n][n - 1] == x[n - 1];
  }

  /** I_lg: the position of the top bit. */
  method ILg(x: array<Digit>, xl: nat) returns (lg: int)
    requires 0 < xl <= x.Length && x[xl - 1] != 0
    ensures lg >= 0 && Pow2(lg) <= Num(x, 0, xl) < Pow2(lg + 1)
  {
    var d: int := x[xl - 1];
    var bits := 0;
    while d != 0
      invariant 0 <= d && 0 <= bits
      invariant d * Pow2(bits) <= x[xl - 1] < (d + 1) * Pow2(bits)
      invariant d == 0 ==> bits > 0 && Pow2(bits - 1) <= x[xl - 1]
    {
      Halve(d, bits, x[xl - 1]);
      d := d / 2;
      bits := bits + 1;
    }
    var sz := (xl - 1) * D_EXP + bits;
    TopBit(x[0..xl], bits);
    lg := sz - 1;
  }

  lemma Halve(d: int, n: nat, v: int)
    requires d > 0 && d * Pow2(n) <= v < (d + 1) * Pow2(n)
    ensures (d / 2) * Pow2(n + 1) <= v < (d / 2 + 1) * Pow2(n + 1)
    ensures d / 2 == 0 ==> Pow2(n) <= v
  {
    var p := Pow2(n);
    assert Pow2(n + 1) == 2 * p;
    hide Pow2;
    MulMono(p, 2 * (d / 2), d);
    MulMono(p, d + 1, 2 * (d / 2) + 2);
  }

  lemma {:induction false} PowIsPow2(n: nat)
    ensures Pow(n) == Pow2(n * D_EXP)
  {
    if n > 0 {
      PowIsPow2(n - 1);
      Pow2Literals();
      Pow2Add(D_EXP, (n - 1) * D_EXP);
    }
  }

  lemma TopBit(s: seq<Digit>, bits: nat)
    requires |s| > 0 && bits > 0 && Pow2(bits - 1) <= s[|s| - 1] < Pow2(bits)
    ensures var lg := (|s| - 1) * D_EXP + bits - 1; Pow2(lg) <= Val(s) < Pow2(lg + 1)
  {
    var n, t: int := |s| - 1, s[|s| - 1];
    ValTop(s);
    PowIsPow2(n);
    Pow2Add(bits - 1, n * D_EXP);
    Pow2Add(bits, n * D_EXP);
    hide Val, Pow, Pow2;
    TopBitProduct(Pow(n), Pow2(bits - 1), Pow2(bits), t, Val(s));
  }

  lemma TopBitProduct(p: int, lo: int, hi: int, t: int, v: int)
    requires p > 0 && lo <= t < hi && t * p <= v < (t + 1) * p
    ensures lo * p <= v < hi * p
  {
    MulMono(p, lo, t);
    MulMono(p, t + 1, hi);
  }

  /** The estimate for a number with top bit lg: decimal digits, sign and a final null. */
  function DecimalEstimate(lg: int, sign: bool): int {
    (lg + 1) * 28 / 93 + 1 + (if sign then 1 else 0) + 1
  }

  lemma {:induction false} Pow2Mono(m: nat, n: nat)
    requires m <= n
    ensures Pow2(m) <= Pow2(n)
  {
    if m < n { Pow2Mono(m, n - 1); }
  }

  lemma {:induction false} Pow10Add(m: nat, n: nat)
    ensures Pow10(m + n) == Pow10(m) * Pow10(n)
  {
    if m > 0 {
      Pow10Add(m - 1, n);
      MulAssoc(10, Pow10(m - 1), Pow10(n));
    }
  }

  /** 2^93 < 10^28. */
  lemma LargePowersFit()
    ensures Pow2(93) < Pow10(28)
  {
    assert Pow10(7) == 10_000_000 && Pow2(1) == 2;
    hide Pow2, Pow10;
    Pow10Add(7, 7);
    Pow10Add(14, 14);
    Pow2Literals();
    Pow2Add(64, 16);
    Pow2Add(80, 8);
    Pow2Add(88, 4);
    Pow2Add(92, 1);
  }

  function Power(b: int, e: nat): int {
    if e == 0 then 1 else b * Power(b, e - 1)
  }

  lemma {:induction false} PowerMono(a: int, b: int, e: nat)
    requires 0 <= a < b
    ensures 0 <= Power(a, e) <= Power(b, e)
    ensures e > 0 ==> Power(a, e) < Power(b, e)
  {
    if e > 0 {
      PowerMono(a, b, e - 1);
      PowerPositive(b, e - 1);
      MulMono(a, Power(a, e - 1), Power(b, e - 1));
      MulMono(a, 0, Power(a, e - 1));
      MulMono(Power(b, e - 1), a + 1, b);
    }
  }

  lemma {:induction false} PowerPositive(b: int, e: nat)
    requires b > 0
    ensures Power(b, e) > 0
  {
    if e > 0 { PowerPositive(b, e - 1); }
  }

  lemma {:induction false} PowerOfPow2(n: nat, e: nat)
    ensures Power(Pow2(n), e) == Pow2(n * e)
  {
    if e > 0 {
      PowerOfPow2(n, e - 1);
      Pow2Add(n, n * (e - 1));
    }
  }

  lemma {:induction false} PowerOfPow10(n: nat, e: nat)
    ensures Power(Pow10(n), e) == Pow10(n * e)
  {
    if e > 0 {
      PowerOfPow10(n, e - 1);
      Pow10Add(n, n * (e - 1));
    }
  }

  lemma {:induction false} LargePowersScale(k: nat)
    ensures Pow2(93 * k) <= Pow10(28 * k)
  {
    hide Pow2, Pow10;
    if k == 0 {
      ZerothPowers();
    } else {
      LargePowersScale(k - 1);
      LargePowersFit();
      Pow2Add(93, 93 * (k - 1));
      Pow10Add(28, 28 * (k - 1));
      MulMono(Pow2(93), Pow2(93 * (k - 1)), Pow10(28 * (k - 1)));
      MulMono(Pow10(28 * (k - 1)), Pow2(93), Pow10(28));
    }
  }

  lemma ZerothPowers()
    ensures Pow2(0) == 1 && Pow10(0) == 1
  {
  }

  /** 28/93 is just above log10(2): compare the 28th powers of both sides. */
  lemma BinaryBelowDecimal(bits: nat)
    ensures Pow2(bits) <= Pow10(bits * 28 / 93 + 1)
  {
    hide Pow2, Pow10, Power;
    var k := bits * 28 / 93 + 1;
    if Pow2(bits) > Pow10(k) {
      PowerMono(Pow10(k), Pow2(bits), 28);
      PowerOfPow2(bits, 28);
      PowerOfPow10(k, 28);
      Pow2Mono(bits * 28, 93 * k);
      LargePowersScale(k);
    }
  }

  /** The text and its final null never exceed the estimate. */
  lemma EstimateEnough(v: nat, lg: int, sign: bool)
    requires lg >= 0 && Pow2(lg) <= v < Pow2(lg + 1)
    ensures |Text(sign, v)| + 1 <= DecimalEstimate(lg, sign)
  {
    BinaryBelowDecimal(lg + 1);
    DecLength(v, (lg + 1) * 28 / 93 + 1);
  }
}

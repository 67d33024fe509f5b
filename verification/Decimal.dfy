/** Decimal text of naturals: the reference that printing and parsing are held to. */
module Decimal {

  function Pow10(n: nat): (p: int)
    ensures p > 0
  {
    if n == 0 then 1 else 10 * Pow10(n - 1)
  }

  function DigitChar(d: nat): (c: char)
    requires d < 10
    ensures IsDigit(c) && DigitOf(c) == d
  {
    ('0' as int + d) as char
  }

  predicate IsDigit(c: char) {
    '0' <= c <= '9'
  }

  function DigitOf(c: char): int {
    c as int - '0' as int
  }

  /** The decimal expansion of v, without leading zeros. */
  function Dec(v: nat): (s: string)
    ensures |s| > 0
  {
    if v < 10 then [DigitChar(v)] else Dec(v / 10) + [DigitChar(v % 10)]
  }

  /** The last k decimal digits of v, with leading zeros. */
  function Padded(v: nat, k: nat): (s: string)
    ensures |s| == k
  {
    if k == 0 then "" else Padded(v / 10, k - 1) + [DigitChar(v % 10)]
  }

  /** The number a string of decimal digits stands for. */
  function DecVal(s: string): (v: int) {
    if s == "" then 0 else 10 * DecVal(s[..|s| - 1]) + DigitOf(s[|s| - 1])
  }

  predicate AllDigits(s: string) {
    forall i :: 0 <= i < |s| ==> IsDigit(s[i])
  }

  /** Reading back an expansion gives the number. */
  lemma {:induction false} DecRoundTrip(v: nat)
    ensures AllDigits(Dec(v)) && DecVal(Dec(v)) == v
  {
    if v < 10 {
      assert Dec(v)[..0] == "";
    } else {
      DecRoundTrip(v / 10);
      assert Dec(v)[..|Dec(v)| - 1] == Dec(v / 10);
    }
  }

  /** An expansion has at most n digits exactly when the number is below 10^n. */
  lemma {:induction false} DecLength(v: nat, n: nat)
    requires n > 0
    ensures |Dec(v)| <= n <==> v < Pow10(n)
  {
    if v < 10 {
      Pow10AtLeast10(n);
    } else if n == 1 {
      assert Pow10(1) == 10;
    } else {
      DecLength(v / 10, n - 1);
    }
  }

  lemma {:induction false} Pow10AtLeast10(n: nat)
    requires n > 0
    ensures Pow10(n) >= 10
  {
    if n > 1 { Pow10AtLeast10(n - 1); }
  }

  /** Splitting an expansion at its last k digits. */
  lemma {:induction false} DecSplit(a: nat, b: nat, k: nat)
    requires a > 0 && b < Pow10(k)
    ensures Dec(a * Pow10(k) + b) == Dec(a) + Padded(b, k)
  {
    if k == 0 {
      assert a * Pow10(0) + b == a;
      assert Dec(a) + "" == Dec(a);
    } else {
      DecSplit(a, b / 10, k - 1);
      var v := a * Pow10(k) + b;
      var w := a * Pow10(k - 1) + b / 10;
      PositiveProduct(a, Pow10(k - 1));
      assert v == 10 * w + b % 10 by {
        TenTimes(a, Pow10(k - 1));
      }
      DecStep(v, w, b % 10);
      assert Padded(b, k) == Padded(b / 10, k - 1) + [DigitChar(b % 10)];
      hide Dec, Padded, Pow10;
      assert Dec(a) + (Padded(b / 10, k - 1) + [DigitChar(b % 10)]) == (Dec(a) + Padded(b / 10, k - 1)) + [DigitChar(b % 10)];
    }
  }

  lemma DecStep(v: nat, w: nat, d: nat)
    requires w > 0 && d < 10 && v == 10 * w + d
    ensures Dec(v) == Dec(w) + [DigitChar(d)]
  {
    assert v / 10 == w && v % 10 == d;
  }

  lemma TenTimes(a: int, p: int)
    ensures a * (10 * p) == 10 * (a * p)
  {
  }

  lemma PositiveProduct(a: int, p: int)
    requires a > 0 && p > 0
    ensures a * p > 0
  {
  }

  /** A signed number: a minus sign, then the expansion. */
  function Text(neg: bool, v: nat): string {
    (if neg then "-" else "") + Dec(v)
  }
}

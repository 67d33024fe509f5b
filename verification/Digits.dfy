/** Digit vectors: the little-endian base-2^64 numbers that every bignum routine
    reads and writes.  `Val` is the number a vector stands for; all routines are
    specified through it. */
module Digits {

  const D_EXP: nat := 64
  const B: int := 0x1_0000_0000_0000_0000
  const D_MASK: Digit := 0xFFFF_FFFF_FFFF_FFFF

  /** One machine word used as a digit (`ErtsDigit`). */
  type Digit = x: int | 0 <= x < 0x1_0000_0000_0000_0000

  /** B to the power n. */
  function Pow(n: nat): (p: int)
    ensures p > 0
    ensures n > 0 ==> p >= B
  {
    if n == 0 then 1 else B * Pow(n - 1)
  }

  function Pow2(n: nat): (p: int)
    ensures p > 0
  {
    if n == 0 then 1 else 2 * Pow2(n - 1)
  }

  /** The number a digit vector stands for, least significant digit first. */
  function Val(s: seq<Digit>): (v: int)
    ensures v >= 0
  {
    if s == [] then 0 else s[0] + B * Val(s[1..])
  }

  /** No leading zero digit, except that zero itself is the one-digit vector [0]. */
  predicate Normal(s: seq<Digit>) {
    |s| > 0 && (|s| == 1 || s[|s| - 1] != 0)
  }

  /** v and d differ by k times m. */
  ghost predicate Shifted(v: int, d: int, m: int, k: int) {
    v == d + m * k
  }

  /** v and d agree modulo m. */
  ghost predicate Congruent(v: int, d: int, m: int) {
    exists k :: Shifted(v, d, m, k)
  }

  lemma {:induction false} PowAdd(m: nat, n: nat)
    ensures Pow(m + n) == Pow(m) * Pow(n)
  {
    if m > 0 {
      PowAdd(m - 1, n);
      MulAssoc(B, Pow(m - 1), Pow(n));
    }
  }

  lemma {:induction false} Pow2Add(m: nat, n: nat)
    ensures Pow2(m + n) == Pow2(m) * Pow2(n)
  {
    if m > 0 {
      Pow2Add(m - 1, n);
      MulAssoc(2, Pow2(m - 1), Pow2(n));
    }
  }

  lemma PowMono(m: nat, n: nat)
    requires m <= n
    ensures Pow(m) <= Pow(n)
  {
    PowAdd(m, n - m);
    MulMono(Pow(m), 1, Pow(n - m));
  }

  lemma MulAssoc(a: int, x: int, y: int)
    ensures a * (x * y) == (a * x) * y
  {
  }

  lemma MulDist(x: int, y: int, a: int)
    ensures (x + y) * a == x * a + y * a
  {
  }

  lemma MulMono(a: int, x: int, y: int)
    requires 0 <= a && x <= y
    ensures a * x <= a * y
  {
  }

  lemma ProductAtLeast(a: int, x: int, b: int, y: int)
    requires 0 <= a <= x && 0 <= b <= y
    ensures a * b <= x * y
  {
    MulMono(a, b, y);
    MulMono(y, a, x);
  }

  lemma UniqueQuotient(x: int, d: int, q: int, m: int)
    requires d > 0 && x == q * d + m && 0 <= m < d
    ensures x / d == q && x % d == m
  {
    var t := x / d;
    assert x == t * d + x % d;
    if q < t {
      MulMono(d, q + 1, t);
      MulDist(q, 1, d);
    } else if t < q {
      MulMono(d, t + 1, q);
      MulDist(t, 1, d);
    }
  }

  function Abs(x: int): int {
    if x < 0 then -x else x
  }

  lemma {:induction false} ValConcat(s: seq<Digit>, t: seq<Digit>)
    ensures Val(s + t) == Val(s) + Pow(|s|) * Val(t)
  {
    if s == [] {
      assert s + t == t;
    } else {
      assert (s + t)[1..] == s[1..] + t;
      ValConcat(s[1..], t);
      MulAssoc(B, Pow(|s| - 1), Val(t));
    }
  }

  /** Appending one most significant digit. */
  lemma ValSnoc(s: seq<Digit>, d: Digit)
    ensures Val(s + [d]) == Val(s) + Pow(|s|) * d
  {
    ValConcat(s, [d]);
    assert [d][1..] == [];
    assert Val([d]) == d;
  }

  lemma {:induction false} ValBound(s: seq<Digit>)
    ensures 0 <= Val(s) < Pow(|s|)
  {
    if s != [] {
      ValBound(s[1..]);
    }
  }

  /** A vector whose top digit is non-zero is at least B^(n-1). */
  lemma ValTop(s: seq<Digit>)
    requires |s| > 0
    ensures Val(s) == Val(s[..|s| - 1]) + Pow(|s| - 1) * s[|s| - 1]
    ensures s[|s| - 1] * Pow(|s| - 1) <= Val(s) < (s[|s| - 1] + 1) * Pow(|s| - 1)
  {
    var n := |s| - 1;
    assert s == s[..n] + [s[n]];
    ValSnoc(s[..n], s[n]);
    ValBound(s[..n]);
  }

  lemma {:induction false} ValZeros(s: seq<Digit>)
    ensures Val(s) == 0 <==> forall i :: 0 <= i < |s| ==> s[i] == 0
  {
    if s != [] {
      ValZeros(s[1..]);
      assert forall i :: 0 < i < |s| ==> s[i] == s[1..][i - 1];
    }
  }

  /** High zero digits do not change the value. */
  lemma ValDropZeros(s: seq<Digit>, n: nat)
    requires n <= |s|
    requires forall i :: n <= i < |s| ==> s[i] == 0
    ensures Val(s) == Val(s[..n])
  {
    assert s == s[..n] + s[n..];
    ValConcat(s[..n], s[n..]);
    ValZeros(s[n..]);
  }

  /** Low zero digits scale the value by a power of the base. */
  lemma ValLowZeros(s: seq<Digit>, n: nat)
    requires n <= |s|
    requires forall i :: 0 <= i < n ==> s[i] == 0
    ensures Val(s) == Pow(n) * Val(s[n..])
  {
    assert s == s[..n] + s[n..];
    ValConcat(s[..n], s[n..]);
    ValZeros(s[..n]);
  }

  /** Splitting a vector at position n. */
  lemma ValSplit(s: seq<Digit>, n: nat)
    requires n <= |s|
    ensures Val(s) == Val(s[..n]) + Pow(n) * Val(s[n..])
  {
    assert s == s[..n] + s[n..];
    ValConcat(s[..n], s[n..]);
  }

  lemma NormalLower(s: seq<Digit>)
    requires Normal(s) && Val(s) >= 1
    ensures Val(s) >= Pow(|s| - 1)
  {
    if |s| > 1 {
      ValTop(s);
      MulMono(Pow(|s| - 1), 1, s[|s| - 1]);
    }
  }

  /** Normal form is canonical: a number has exactly one normal digit vector. */
  lemma {:induction false} NormalUnique(s: seq<Digit>, t: seq<Digit>)
    requires Normal(s) && Normal(t) && Val(s) == Val(t)
    ensures s == t
  {
    if |s| == 1 && |t| == 1 {
      assert s[1..] == [] && t[1..] == [];
    } else if |s| == 1 || |t| == 1 {
      var (a, b) := if |s| == 1 then (s, t) else (t, s);
      ValTop(b);
      ValBound(a);
      PowMono(1, |b| - 1);
      MulMono(Pow(|b| - 1), 1, b[|b| - 1]);
      assert false;
    } else {
      assert s[0] == t[0] && Val(s[1..]) == Val(t[1..]);
      NormalUnique(s[1..], t[1..]);
      assert s == [s[0]] + s[1..] && t == [t[0]] + t[1..];
    }
  }
}

/** D_div: division of a vector by one digit, from the top, in place if need be. */
module ShortDivision {
  import opened Digits
  import opened DigitOps
  import opened Vectors

  /** The remainder by subtracting the low product digit is the true remainder. */
  lemma LowDifference(a1: int, a0: Digit, d: int, q: int, r: Digit, b1: int, b0: int, b: int, rem: Digit)
    requires a1 * B + a0 == q * d + r && b1 * B + b0 == d * q && rem - B * b == a0 - b0
    ensures rem == r
  {
    assert q * d == d * q;
    assert rem - r == B * (b + b1 - a1);
  }

  /** DDIV, DMUL and DSUB: one quotient digit and the next remainder. */
  method DivDigitStep(a1: Digit, a0: Digit, d: Digit) returns (q0: Digit, rem: Digit)
    requires a1 < d
    ensures a1 * B + a0 == q0 * d + rem && rem < d
  {
    var r;
    q0, r := DDivRem(a1, a0, d);
    var b1, b0 := DMulC(d, q0, 0);
    var b;
    b, rem := DSub(a0, b0);
    LowDifference(a1, a0, d, q0, r, b1, b0, b, rem);
  }

  /** Prepending a digit: the next lower digit of dividend and quotient. */
  lemma NextLower(xs: seq<Digit>, j: nat, qs: seq<Digit>, d: int, a1: int, q0: Digit, rem: int)
    requires 0 < j <= |xs|
    requires Val(xs[j..]) == Val(qs) * d + a1
    requires a1 * B + xs[j - 1] == q0 * d + rem
    ensures Val(xs[j - 1..]) == Val([q0] + qs) * d + rem
  {
    assert xs[j - 1..][1..] == xs[j..] && ([q0] + qs)[1..] == qs;
    var v := Val(qs);
    assert Val(xs[j - 1..]) == xs[j - 1] + B * Val(xs[j..]);
    assert Val([q0] + qs) == q0 + B * v;
    hide Val;
    MulDist(q0, B * v, d);
    MulAssoc(B, v, d);
  }

  /** D_div: quotient in q (which may be x itself) and remainder digit. */
  method DDiv(x: array<Digit>, xl: nat, d: Digit, q: array<Digit>) returns (qsz: nat, r: Digit)
    requires 0 < xl <= x.Length && xl <= q.Length && d > 0
    modifies q
    ensures 1 <= qsz <= xl
    ensures old(Num(x, 0, xl)) == Num(q, 0, qsz) * d + r && r < d
    ensures old(Normal(x[0..xl])) ==> Normal(q[0..qsz])
  {
    hide Val, Normal;
    ghost var xs := x[0..xl];
    LastDigit(xs);
    var a1 := x[xl - 1];
    qsz := xl;
    if d > a1 {
      if xl == 1 {
        q[0] := 0;
        ZeroQuotient(q, xs, d);
        return 1, a1;
      }
      qsz := qsz - 1;
    }
    r := DDivLoop(x, xl, d, q, qsz, a1);
    QuotientNormal(xs, q[0..qsz], d, r);
  }

  /** The loop of D_div.  Its first pass takes the top digit alone when that is not below
      d; every other pass takes one more digit of x.  j digits of x are still unread. */
  method DDivLoop(x: array<Digit>, xl: nat, d: Digit, q: array<Digit>, qsz: nat, top: Digit) returns (r: Digit)
    requires 0 < qsz <= xl <= x.Length && xl <= q.Length && d > 0
    requires top == x[xl - 1] && qsz == if d > top then xl - 1 else xl
    modifies q
    ensures old(Num(x, 0, xl)) == Num(q, 0, qsz) * d + r && r < d
  {
    hide Val;
    ghost var xs := x[0..xl];
    LastDigit(xs);
    EmptyProduct(d);
    assert q[qsz..qsz] == [];
    var j, q0 := xl - 1, 0;
    r := top;
    if d <= top {
      q0, r := DivDigitStep(0, top, d);
      q[j] := q0;
      FirstQuotient(q0);
      assert q[j..qsz] == [q0];
    }
    while j > 0
      invariant 0 <= j <= qsz && r < d
      invariant forall k :: 0 <= k < j ==> x[k] == xs[k]
      invariant Val(xs[j..]) == Val(q[j..qsz]) * d + r
    {
      ghost var qs, a1 := q[j..qsz], r;
      q0, r := DivDigitStep(r, x[j - 1], d);
      NextLower(xs, j, qs, d, a1, q0, r);
      j := j - 1;
      q[j] := q0;
      assert q[j..qsz] == [q0] + qs;
    }
    assert xs[0..] == xs;
  }

  lemma LastDigit(xs: seq<Digit>)
    requires |xs| > 0
    ensures Val(xs[|xs| - 1..]) == xs[|xs| - 1]
  {
    assert xs[|xs| - 1..][1..] == [];
  }

  lemma ZeroQuotient(q: array<Digit>, xs: seq<Digit>, d: int)
    requires q.Length > 0 && q[0] == 0 && |xs| == 1
    ensures Val(xs) == Num(q, 0, 1) * d + xs[0] && Normal(q[0..1])
  {
    ValZeros(q[0..1]);
    assert xs[1..] == [];
  }

  lemma EmptyProduct(d: int)
    ensures Val([]) * d == 0
  {
  }

  lemma FirstQuotient(q0: Digit)
    ensures Val([q0]) == q0
  {
    assert [q0][1..] == [];
  }

  /** The length D_div chooses up front is exact. */
  lemma QuotientNormal(xs: seq<Digit>, qs: seq<Digit>, d: Digit, r: int)
    requires |xs| > 0 && Val(xs) == Val(qs) * d + r && r < d
    requires |qs| == (if d > xs[|xs| - 1] then |xs| - 1 else |xs|) && |qs| > 0
    ensures Normal(xs) ==> Normal(qs)
  {
    if Normal(xs) {
      ValTop(xs);
      assert |qs| < |xs| ==> Pow(|xs| - 1) == B * Pow(|qs| - 1);
      hide Val, Pow;
      QuotientLower(Val(xs), xs[|xs| - 1], d, Val(qs), r, Pow(|qs| - 1));
      NormalTop(qs);
    }
  }

  lemma QuotientLower(x: int, t: int, d: Digit, q: int, r: int, p: int)
    requires x == q * d + r && r < d && p > 0 && d > 0
    requires if d > t then t >= 1 && x >= t * (B * p) else x >= t * p
    ensures q >= p
  {
    if d > t {
      MulMono(B * p, 1, t);
      MulMono(p, d, B);
    } else {
      MulMono(p, d, t);
    }
    if q < p {
      MulMono(d, q + 1, p);
      MulDist(q, 1, d);
    }
  }
}

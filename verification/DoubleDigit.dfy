/** D2DIVREM: quotient of two double digits.  Each round divides top digit by top
    digit, lets the estimate overshoot, and carries on with a signed remainder. */
module DoubleDigit {
  import opened Digits
  import opened DigitOps

  const QUOT_LIM: Digit := 0x7FFF_FFFF_FFFF_FFFF

  function Pair(hi: int, lo: int): int {
    hi * B + lo
  }

  /** The estimate of one round, from the top digits of dividend and divisor. */
  function TopEstimate(a1: Digit, b1: Digit): (q: Digit)
    requires 1 <= b1 <= a1
    ensures 1 <= q <= a1
    ensures q * b1 <= a1
    ensures b1 < a1 && a1 > QUOT_LIM ==> q * b1 + q <= a1
    ensures b1 == 1 && a1 > 1 ==> q * b1 + q <= a1
    ensures b1 > 1 ==> q == 1 || 2 * q <= a1
  {
    if b1 == 1 && a1 > 1 then
      a1 / 2
    else if a1 > QUOT_LIM && b1 < a1 then
      (DivDigit(a1, b1 + 1); TopQuotient(a1, b1 + 1); a1 / (b1 + 1))
    else
      (DivDigit(a1, b1); TopQuotient(a1, b1); a1 / b1)
  }

  lemma TopQuotient(a1: Digit, b: int)
    requires 1 <= b <= a1
    ensures 1 <= a1 / b && (a1 / b) * b <= a1 && (a1 / b) * b == (a1 / b) * (b - 1) + a1 / b
    ensures b > 1 ==> 2 * (a1 / b) <= a1
  {
    var t := TrueQuotient(a1, b);
    QuotientOrder(a1, b, 1, t);
    MulDist(b - 1, 1, t);
    if b > 1 { MulMono(t, 2, b); }
  }

  lemma TopProduct(q: int, d: int, b1: int, c: int)
    requires q > 0 && d < b1 * B + B && q * b1 + q <= c
    ensures q * d < c * B
  {
    MulMono(q, d + 1, b1 * B + B);
    MulDist(d, 1, q);
    MulAssoc(q, b1, B);
    assert q * (b1 * B + B) == (q * b1) * B + q * B;
  }

  /** The product of estimate and divisor fits a double digit and stays below twice
      the dividend, so the remainder shrinks in absolute value. */
  lemma EstimateProgress(a: int, a1: Digit, d: int, b1: Digit)
    requires d <= a < B * B && a1 == a / B && b1 == d / B && 1 <= b1
    ensures b1 <= a1
    ensures d <= TopEstimate(a1, b1) * d < B * B
    ensures TopEstimate(a1, b1) * d < 2 * a
  {
    hide TopEstimate;
    assert b1 <= a1;
    var q := TopEstimate(a1, b1);
    MulMono(d, 1, q);
    var c := q * b1 + q;
    TopProduct(q, d, b1, c);
    assert q == 1 || (c <= B && c <= 2 * a1);
  }

  /** D2GT. */
  predicate D2Gt(a1: Digit, a0: Digit, b1: Digit, b0: Digit)
    ensures D2Gt(a1, a0, b1, b0) <==> Pair(a1, a0) > Pair(b1, b0)
  {
    a1 > b1 || (a1 == b1 && a0 > b0)
  }

  /** D2MULc with no carry in: a triple-length product. */
  method D2Mul(q: Digit, b1: Digit, b0: Digit) returns (t2: Digit, t1: Digit, t0: Digit)
    ensures t2 * B * B + Pair(t1, t0) == q * Pair(b1, b0)
  {
    t2, t0 := DMulC(q, b0, 0);
    ghost var c := t2;
    t2, t1 := DMulC(q, b1, t2);
    assert q * Pair(b1, b0) == (q * b1) * B + q * b0;
  }

  /** D2SUB. */
  method D2Sub(a1: Digit, a0: Digit, b1: Digit, b0: Digit) returns (c1: Digit, c0: Digit)
    requires Pair(b1, b0) <= Pair(a1, a0)
    ensures Pair(c1, c0) == Pair(a1, a0) - Pair(b1, b0)
  {
    var r;
    r, c0 := DSub(a0, b0);
    r, c1 := DSubB(a1, b1, r);
  }

  /** What the signed rounds add up to: a == q * d + r, or a == q * d - r when neg. */
  datatype Signed = Signed(q: int, r: int, neg: bool)

  /** The estimate of a round on the whole double digits. */
  function Estimate(a: int, d: int): (q: Digit)
    requires B <= d <= a < B * B
    ensures d <= q * d < B * B && q * d < 2 * a
  {
    EstimateProgress(a, a / B, d, d / B);
    TopEstimate(a / B, d / B)
  }

  ghost function SignedRounds(a: int, d: int): (s: Signed)
    requires 0 <= a < B * B && B <= d < B * B
    decreases a
  {
    if a < d then
      Signed(0, a, false)
    else
      var q := Estimate(a, d);
      if q * d > a then
        var s := SignedRounds(q * d - a, d);
        Signed(q - s.q, s.r, !s.neg)
      else
        var s := SignedRounds(a - q * d, d);
        Signed(q + s.q, s.r, s.neg)
  }

  /** Folding one round into the sum of the later ones. */
  lemma FoldRound(a: int, d: int, q: int, p: int, t: Signed)
    requires p == q * d
    ensures p - a == t.q * d + (if t.neg then -t.r else t.r) ==> a == (q - t.q) * d + (if !t.neg then -t.r else t.r)
    ensures a - p == t.q * d + (if t.neg then -t.r else t.r) ==> a == (q + t.q) * d + (if t.neg then -t.r else t.r)
  {
    MulDist(q, -t.q, d);
    MulDist(q, t.q, d);
  }

  lemma {:induction false} SignedRoundsSum(a: int, d: int)
    requires 0 <= a < B * B && B <= d < B * B
    ensures var s := SignedRounds(a, d);
            a == s.q * d + (if s.neg then -s.r else s.r) && 0 <= s.r < d
    decreases a
  {
    hide Estimate;
    if a >= d {
      var p := Estimate(a, d) * d;
      var rest := if p > a then p - a else a - p;
      SignedRoundsSum(rest, d);
      FoldRound(a, d, Estimate(a, d), p, SignedRounds(rest, d));
    }
  }

  lemma QuotientRange(a: int, d: int, q: int, r: int)
    requires 0 <= a < B * B && B <= d && -d < r < d && a == q * d + r
    ensures 0 <= q <= B && (q == 0 ==> r >= 0) && (q == B ==> r < 0)
  {
    if q < 0 { MulMono(d, q, -1); }
    if q > B { MulMono(d, B + 1, q); }
  }

  /** The signed sum has a quotient that fits a digit once a negative rest is folded in. */
  lemma SignedQuotientFits(a: int, d: int)
    requires 0 <= a < B * B && B <= d < B * B
    ensures var s := SignedRounds(a, d); if s.neg then 1 <= s.q <= B else 0 <= s.q < B
  {
    SignedRoundsSum(a, d);
    hide SignedRounds;
    var s := SignedRounds(a, d);
    QuotientRange(a, d, s.q, if s.neg then -s.r else s.r);
  }

  lemma EstimateOfPairs(a1: Digit, a0: Digit, b1: Digit, b0: Digit)
    requires b1 >= 1 && Pair(b1, b0) <= Pair(a1, a0)
    ensures b1 <= a1 && TopEstimate(a1, b1) == Estimate(Pair(a1, a0), Pair(b1, b0))
  {
    hide TopEstimate;
    assert Pair(a1, a0) / B == a1 && Pair(b1, b0) / B == b1;
  }

  lemma NoTopDigit(t2: Digit, t: int, p: int)
    requires 0 <= t && t2 * B * B + t == p < B * B
    ensures t2 == 0
  {
  }

  /** One round of the loop. */
  method Round(a1: Digit, a0: Digit, b1: Digit, b0: Digit) returns (q1: Digit, flip: bool, r1: Digit, r0: Digit)
    requires b1 >= 1 && Pair(b1, b0) <= Pair(a1, a0)
    ensures q1 == Estimate(Pair(a1, a0), Pair(b1, b0))
    ensures flip <==> q1 * Pair(b1, b0) > Pair(a1, a0)
    ensures Pair(r1, r0) == (if flip then q1 * Pair(b1, b0) - Pair(a1, a0) else Pair(a1, a0) - q1 * Pair(b1, b0))
  {
    hide TopEstimate, Estimate;
    EstimateOfPairs(a1, a0, b1, b0);
    q1 := TopEstimate(a1, b1);
    var t2, t1, t0 := D2Mul(q1, b1, b0);
    NoTopDigit(t2, Pair(t1, t0), q1 * Pair(b1, b0));
    flip := D2Gt(t1, t0, a1, a0);
    if flip {
      r1, r0 := D2Sub(t1, t0, a1, a0);
    } else {
      r1, r0 := D2Sub(a1, a0, t1, t0);
    }
  }

  /** Part way: `exact` has been accumulated with sign `neg` and `a` is still to be divided. */
  ghost predicate Running(s: Signed, exact: int, neg: bool, a: int, d: int)
    requires 0 <= a < B * B && B <= d < B * B
  {
    var t := SignedRounds(a, d);
    s == if neg then Signed(exact - t.q, t.r, !t.neg) else Signed(exact + t.q, t.r, t.neg)
  }

  lemma RunningStart(a: int, d: int)
    requires 0 <= a < B * B && B <= d < B * B
    ensures Running(SignedRounds(a, d), 0, false, a, d) && Wrap(0) == 0
  {
  }

  lemma RunningDone(s: Signed, exact: int, neg: bool, a: int, d: int)
    requires 0 <= a < d && B <= d < B * B && Running(s, exact, neg, a, d)
    ensures s == Signed(exact, a, neg)
  {
  }

  lemma RunningStep(s: Signed, exact: int, neg: bool, a: int, d: int)
    requires 0 <= a < B * B && B <= d <= a && Running(s, exact, neg, a, d)
    ensures var q := Estimate(a, d);
            var next := if neg then exact - q else exact + q;
            if q * d > a then Running(s, next, !neg, q * d - a, d) else Running(s, next, neg, a - q * d, d)
  {
    hide Estimate;
  }

  /** D2DIVREM: the true quotient, or one less for the dividends in `Short`, and what that leaves. */
  method D2DivRem(a1: Digit, a0: Digit, b1: Digit, b0: Digit) returns (q: Digit, r1: Digit, r0: Digit)
    requires b1 >= 1
    ensures var a, d := Pair(a1, a0), Pair(b1, b0);
            && q == (if Short(a, d) then a / d - 1 else a / d)
            && Pair(r1, r0) == a - q * d
  {
    q, r1, r0 := SignedDivRem(a1, a0, b1, b0);
    ghost var a, d := Pair(a1, a0), Pair(b1, b0);
    ReturnedExact(a, d);
    SignedRoundsSum(a, d);
    hide SignedRounds, Short;
    MulDist(SignedRounds(a, d).q, -1, d);
  }

  /** The word loop computes the signed rounds and folds a negative rest back. */
  method SignedDivRem(a1: Digit, a0: Digit, b1: Digit, b0: Digit) returns (q: Digit, r1: Digit, r0: Digit)
    requires b1 >= 1
    ensures var s := SignedRounds(Pair(a1, a0), Pair(b1, b0));
            && q == (if s.neg then s.q - 1 else s.q)
            && Pair(r1, r0) == (if s.neg then Pair(b1, b0) - s.r else s.r)
  {
    hide Estimate, SignedRounds, Running, Wrap, D2Gt;
    ghost var d := Pair(b1, b0);
    ghost var s, exact := SignedRounds(Pair(a1, a0), d), 0;
    RunningStart(Pair(a1, a0), d);
    var neg := false;
    q, r1, r0 := 0, a1, a0;
    while !D2Gt(b1, b0, r1, r0)
      invariant q == Wrap(exact)
      invariant Running(s, exact, neg, Pair(r1, r0), d)
      decreases Pair(r1, r0)
    {
      RunningStep(s, exact, neg, Pair(r1, r0), d);
      var q1: int, flip: bool;
      q1, flip, r1, r0 := Round(r1, r0, b1, b0);
      var delta := if neg then -q1 else q1;
      WrapWrap(exact, delta);
      exact := exact + delta;
      q := Wrap(q + delta);
      neg := if flip then !neg else neg;
    }
    RunningDone(s, exact, neg, Pair(r1, r0), d);
    SignedQuotientFits(Pair(a1, a0), d);
    WrapSmall(if neg then exact - 1 else exact);
    if neg {
      WrapWrap(exact, -1);
      q := Wrap(q - 1);
      r1, r0 := D2Sub(b1, b0, r1, r0);
    }
  }

  /** The quotient D2DIVREM returns for a / d. */
  ghost function Returned(a: int, d: int): int
    requires 0 <= a < B * B && B <= d < B * B
  {
    var s := SignedRounds(a, d);
    if s.neg then s.q - 1 else s.q
  }

  /** The returned quotient is never too large and never more than one too small. */
  lemma ReturnedBounds(a: int, d: int)
    requires 0 <= a < B * B && B <= d < B * B
    ensures Returned(a, d) * d <= a <= Returned(a, d) * d + d
    ensures a >= d ==> Returned(a, d) >= 1
  {
    SignedRoundsSum(a, d);
    SignedQuotientFits(a, d);
    var s := SignedRounds(a, d);
    MulDist(s.q - 1, 1, d);
    if a == d {
      TopOfEqual(a / B);
    } else if Returned(a, d) == 0 {
      hide SignedRounds;
      assert s.neg ==> s.q == 1;
    }
  }

  lemma TopOfEqual(a1: Digit)
    requires a1 >= 1
    ensures TopEstimate(a1, a1) == 1
  {
    var t := TrueQuotient(a1, a1);
    QuotientOrder(a1, a1, 2, t);
    QuotientOrder(a1, a1, 1, t);
  }

  // ----- exactly when the quotient is the true one -----

  /** By how much the plain estimate of k * d overshoots k. */
  function Overshoot(k: nat, d: int): (m: nat)
    requires B <= d < B * B
    ensures k > 0 ==> m < k
  {
    OvershootBelow(k, d % B, d / B);
    (k * (d % B)) / (B * (d / B))
  }

  lemma OvershootBelow(k: nat, b0: int, b1: int)
    requires 0 <= b0 < B && 1 <= b1
    ensures B * b1 > 0 && 0 <= (k * b0) / (B * b1)
    ensures k > 0 ==> (k * b0) / (B * b1) < k
  {
    var v := B * b1;
    MulMono(k, b0, B);
    MulMono(k, 0, b0);
    MulMono(k, B, v);
    var t := TrueQuotient(k * b0, v);
    if k > 0 { MulMono(k, b0 + 1, B); QuotientOrder(k * b0, v, k, t); }
  }

  /** How many times the estimate of a multiple overshoots: k, its overshoot, the
      overshoot of that, and so on down to 0. */
  function Overshoots(k: nat, d: int): nat
    requires B <= d < B * B
    decreases k
  {
    var m := Overshoot(k, d);
    if k == 0 || m == 0 then 0 else 1 + Overshoots(m, d)
  }

  /** What is left of k after a first, cautious estimate, which is made when the
      dividend k * d has its top bit set. */
  function Reduced(k: nat, d: int): int
    requires B <= d
  {
    if k >= 2 && k * d / B > QUOT_LIM then k - (k * d / B) / (d / B + 1) else k
  }

  /** The multiples of d for which D2DIVREM returns one too little. */
  predicate Short(a: int, d: int)
    requires 0 <= a < B * B && B <= d < B * B
  {
    && a % d == 0 && d >= 2 * B
    && var k := Reduced(a / d, d); k >= 0 && Overshoots(k, d) % 2 == 1
  }

  // A multiple of d whose rounds all use the plain estimate.
  predicate Plain(k: nat, d: int)
    requires B <= d < B * B
  {
    k * d < B * B && d >= 2 * B && (k <= 1 || k * d / B <= QUOT_LIM)
  }

  lemma TopOfMultiple(k: nat, d: int, b1: int, b0: int)
    requires d == b1 * B + b0 && 0 <= b0 < B && b1 >= 1 && B <= d < B * B
    ensures (k * d / B) / b1 == k + Overshoot(k, d)
    ensures k * b1 <= k * d / B
  {
    UniqueQuotient(d, B, b1, b0);
    var v, u := B * b1, k * b0;
    OvershootBelow(k, b0, b1);
    var m := TrueQuotient(u, v);
    var r := u - m * v;
    var w := TrueQuotient(r, B);
    assert k * d == ((k + m) * b1 + w) * B + (r - w * B) by { SplitMultiple(k, b1, b0, m, r, w); }
    UniqueQuotient(k * d, B, (k + m) * b1 + w, r - w * B);
    QuotientOrder(r, B, b1, w);
    UniqueQuotient((k + m) * b1 + w, b1, k + m, w);
    MulDist(k, m, b1);
    MulMono(b1, 0, m);
  }

  lemma SplitMultiple(k: int, b1: int, b0: int, m: int, r: int, w: int)
    requires r == k * b0 - m * (B * b1)
    ensures k * (b1 * B + b0) == ((k + m) * b1 + w) * B + (r - w * B)
  {
    MulDist(k, m, b1);
    MulAssoc(m, B, b1);
    assert k * (b1 * B + b0) == (k * b1) * B + k * b0;
  }

  /** Below the limit the estimate of k * d is k plus its overshoot. */
  lemma PlainEstimate(k: nat, d: int)
    requires k >= 1 && B <= d < B * B && Plain(k, d)
    ensures d <= k * d && Estimate(k * d, d) == k + Overshoot(k, d)
  {
    MulMono(d, 1, k);
    var b1 := d / B;
    TopOfMultiple(k, d, b1, d % B);
    assert k == 1 ==> k * d / B == b1;
    hide Overshoot;
  }

  /** The rounds for k * d end with a negative sign. */
  ghost predicate EndsNegative(k: nat, d: int) {
    B <= d < B * B && k * d < B * B && SignedRounds(k * d, d).neg
  }

  lemma ZeroRounds(d: int)
    ensures !EndsNegative(0, d)
  {
    assert 0 * d == 0;
  }

  lemma PlainRest(k: nat, m: nat, d: int)
    requires B <= d && m < k && k * d < B * B
    ensures 0 <= (k + m) * d - k * d == m * d < B * B
    ensures m * d > 0 <==> m > 0
  {
    MulDist(k, m, d);
    MulMono(d, m, k);
    MulMono(d, 0, m);
    if m > 0 { MulMono(d, 1, m); }
  }

  lemma PlainRound(k: nat, d: int)
    requires k > 0 && B <= d < B * B && Plain(k, d)
    ensures EndsNegative(k, d) == (Overshoot(k, d) > 0 && !EndsNegative(Overshoot(k, d), d))
  {
    PlainEstimate(k, d);
    var m := Overshoot(k, d);
    PlainRest(k, m, d);
    hide Estimate, Overshoot, Plain;
    var a := k * d;
    assert Estimate(a, d) * d == a + m * d;
    if m == 0 {
      assert SignedRounds(0, d).neg == false;
    } else {
      assert SignedRounds(a, d).neg == !SignedRounds(m * d, d).neg;
    }
  }

  lemma {:induction false} PlainRounds(k: nat, d: int)
    requires B <= d < B * B && Plain(k, d)
    ensures EndsNegative(k, d) <==> Overshoots(k, d) % 2 == 1
    decreases k
  {
    hide Overshoot, Plain, EndsNegative;
    if k == 0 {
      ZeroRounds(d);
    } else {
      PlainRound(k, d);
      PlainSmaller(Overshoot(k, d), k, d);
      PlainRounds(Overshoot(k, d), d);
    }
  }

  lemma PlainSmaller(m: nat, k: nat, d: int)
    requires B <= d < B * B && Plain(k, d) && m < k
    ensures Plain(m, d)
  {
    MulMono(d, m, k);
  }

  /** With a divisor between B and 2B no estimate of a multiple overshoots. */
  lemma {:induction false} NarrowRounds(k: nat, d: int)
    requires B <= d < 2 * B && k * d < B * B
    ensures !EndsNegative(k, d)
    decreases k
  {
    if k == 0 {
      ZeroRounds(d);
    } else {
      MulMono(d, 1, k);
      NarrowEstimate(k, d);
      hide Estimate, EndsNegative;
      var q := Estimate(k * d, d);
      RoundBelow(k, d, q);
      MulMono(d, k - q, k);
      NarrowRounds(k - q, d);
    }
  }

  lemma NarrowEstimate(k: nat, d: int)
    requires 1 <= k && B <= d < 2 * B && d <= k * d < B * B
    ensures 1 <= Estimate(k * d, d) <= k
  {
    MulMono(k, d, 2 * B - 1);
    assert k * d / B < 2 * k;
  }

  lemma CautiousTop(k: int, b1: int, a1: int, q: int)
    requires b1 >= 2 && k >= 2 && 0 <= a1 < B && q >= 0
    requires k * b1 <= a1 < k * b1 + k && q * b1 + q <= a1 <= q * b1 + q + b1
    ensures 1 <= q < k
    ensures k <= q + 1 || a1 - q * b1 <= QUOT_LIM
  {
    if q >= k { MulMono(b1, k, q); }
    MulMono(b1, 2, k);
    if k == 3 {
      assert q >= 2;
    } else if k >= 4 {
      MulMono(b1, 4, k);
      MulMono(q, 2, b1);
    }
  }

  lemma MultipleTop(k: nat, d: int, b1: int)
    requires k > 0 && d >= B && b1 == d / B
    ensures k * b1 <= k * d / B < k * b1 + k
  {
    MulMono(k, b1 * B, d);
    MulMono(k, d + 1, b1 * B + B);
    MulAssoc(k, b1, B);
  }

  /** The cautious estimate stays below k and leaves a multiple for plain ones. */
  lemma CautiousEstimate(k: nat, d: int)
    requires k >= 2 && 2 * B <= d < B * B && k * d < B * B && k * d / B > QUOT_LIM
    ensures d <= k * d && Estimate(k * d, d) == (k * d / B) / (d / B + 1)
    ensures 1 <= Reduced(k, d) <= k && Plain(Reduced(k, d), d)
  {
    MulMono(d, 1, k);
    var b1, a1 := d / B, k * d / B;
    MultipleTop(k, d, b1);
    MulMono(b1, 2, k);
    assert Estimate(k * d, d) == a1 / (b1 + 1);
    hide Estimate;
    var q := TrueQuotient(a1, b1 + 1);
    MulDist(b1, 1, q);
    CautiousTop(k, b1, a1, q);
    CautiousRest(k, d, b1, a1, q);
  }

  lemma CautiousRest(k: int, d: int, b1: int, a1: int, q: int)
    requires b1 == d / B && a1 == k * d / B && 0 <= q < k && d >= B
    ensures (k - q) * d <= k * d
    ensures (k - q) * d / B <= a1 - q * b1
  {
    MulDist(k, -q, d);
    MulMono(d, 0, q);
    MulMono(q, b1 * B, d);
    MulAssoc(q, b1, B);
  }

  // A round that does not overshoot leaves the sign to the rest.
  lemma RoundBelow(k: nat, d: int, q: nat)
    requires B <= d < B * B && q <= k && d <= k * d < B * B && Estimate(k * d, d) == q
    ensures EndsNegative(k, d) <==> EndsNegative(k - q, d)
  {
    hide Estimate;
    var a := k * d;
    assert 0 <= a - q * d == (k - q) * d by {
      MulDist(q, k - q, d);
      MulMono(d, q, k);
    }
    MulMono(d, 0, q);
    assert SignedRounds(a, d).neg == SignedRounds((k - q) * d, d).neg;
  }

  lemma CautiousRounds(k: nat, d: int)
    requires k >= 2 && 2 * B <= d < B * B && k * d < B * B && k * d / B > QUOT_LIM
    ensures Reduced(k, d) >= 0
    ensures EndsNegative(k, d) <==> EndsNegative(Reduced(k, d), d)
  {
    CautiousEstimate(k, d);
    hide Estimate, EndsNegative;
    RoundBelow(k, d, k - Reduced(k, d));
  }

  lemma MultipleRounds(k: nat, d: int)
    requires B <= d < B * B && k * d < B * B
    ensures EndsNegative(k, d)
        <==> d >= 2 * B && Reduced(k, d) >= 0 && Overshoots(Reduced(k, d), d) % 2 == 1
  {
    hide EndsNegative, Overshoots;
    if d < 2 * B {
      NarrowRounds(k, d);
    } else if k >= 2 && k * d / B > QUOT_LIM {
      CautiousEstimate(k, d);
      CautiousRounds(k, d);
      hide Reduced;
      PlainRounds(Reduced(k, d), d);
    } else {
      PlainRounds(k, d);
    }
  }

  /** The quotient returned is the true one, except for the multiples of d in
      `Short`, where it is one too small. */
  lemma ReturnedExact(a: int, d: int)
    requires 0 <= a < B * B && B <= d < B * B
    ensures Returned(a, d) == if Short(a, d) then a / d - 1 else a / d
  {
    SignedRoundsSum(a, d);
    hide SignedRounds, Overshoots, Reduced;
    var s := SignedRounds(a, d);
    var k := TrueQuotient(a, d);
    if s.neg && s.r > 0 {
      MulDist(s.q, -1, d);
      UniqueQuotient(a, d, s.q - 1, d - s.r);
    } else {
      UniqueQuotient(a, d, s.q, s.r);
      if s.r == 0 { MultipleRounds(k, d); }
    }
  }

  /** A case where it is one too small: 3 * (3B - 1) divided by 3B - 1 returns 2. */
  lemma ReturnedTooSmall()
    ensures Returned(9 * B - 3, 3 * B - 1) == 2
  {
    var d := 3 * B - 1;
    assert TopEstimate(8, 2) == 4 && TopEstimate(2, 2) == 1;
    assert Estimate(9 * B - 3, d) == 4;
    assert Estimate(d, d) == 1;
    assert SignedRounds(0, d) == Signed(0, 0, false);
    assert SignedRounds(d, d) == Signed(1, 0, false);
    assert SignedRounds(9 * B - 3, d) == Signed(3, 0, true);
  }
}

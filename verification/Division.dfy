/** Long division with a signed remainder (I_div, I_rem).  A quotient digit is
    estimated from two leading digits; when it overshoots, the remainder is negated
    and later digits are subtracted from the quotient instead of added. */
module Division {
  import opened Digits
  import opened DigitOps
  import opened DoubleDigit
  import opened Vectors

  /** The leading two digits of a vector bracket its value. */
  lemma TopTwo(s: seq<Digit>)
    requires |s| >= 2
    ensures var n := |s|; var t := s[n - 1] * B + s[n - 2];
            t * Pow(n - 2) <= Val(s) < (t + 1) * Pow(n - 2)
  {
    var n := |s|;
    ValTop(s);
    ValTop(s[..n - 1]);
    assert Pow(n - 1) == B * Pow(n - 2);
    hide Val, Pow;
    TopTwoProduct(s[n - 1], s[n - 2], Pow(n - 2), Val(s[..n - 1]));
  }

  lemma TopTwoProduct(hi: int, lo: int, p: int, u: int)
    requires lo * p <= u < (lo + 1) * p
    ensures (hi * B + lo) * p <= u + (B * p) * hi < (hi * B + lo + 1) * p
  {
    var t := hi * B;
    assert t * p == (B * p) * hi;
    MulDist(t, lo, p);
    MulDist(t, lo + 1, p);
  }

  /** What a quotient digit q for window w and divisor y (top digit b1) must satisfy. */
  ghost predicate GoodDigit(q: int, w: int, y: int, b1: int, yl: nat)
    requires yl > 0
  {
    && 0 <= q
    && q * (b1 * Pow(yl - 1)) <= w
    && w - q * y < Pow(yl)
  }

  /** Estimates from a window as long as the divisor. */
  lemma SameLength(q: int, ws: seq<Digit>, ys: seq<Digit>)
    requires 2 <= |ys| == |ws| && q >= 0
    requires q * ys[|ys| - 1] <= ws[|ys| - 1]
    ensures GoodDigit(q, Val(ws), Val(ys), ys[|ys| - 1], |ys|)
  {
    var n := |ys|;
    ValTop(ws);
    ValBound(ws);
    hide Val, Pow;
    SameLengthProduct(q, ys[n - 1], ws[n - 1], Pow(n - 1), Val(ws), Val(ys));
  }

  lemma SameLengthProduct(q: int, b1: int, a1: int, p: int, w: int, y: int)
    requires 0 <= q && 0 < p && 0 <= y && q * b1 <= a1 && a1 * p <= w
    ensures q * (b1 * p) <= w
    ensures 0 <= q * y
  {
    MulAssoc(q, b1, p);
    MulMono(p, q * b1, a1);
    MulMono(q, 0, y);
  }

  /** Estimates from a window one digit longer: dividing two digits by one. */
  lemma OneLonger(q: int, ws: seq<Digit>, ys: seq<Digit>)
    requires 2 <= |ys| && |ws| == |ys| + 1 && q >= 0
    requires var n := |ys|;
             var t := ws[n] * B + ws[n - 1];
             q * ys[n - 1] <= t < q * ys[n - 1] + ys[n - 1]
    ensures GoodDigit(q, Val(ws), Val(ys), ys[|ys| - 1], |ys|)
  {
    var n := |ys|;
    var b1, p := ys[n - 1], Pow(n - 1);
    var t := ws[n] * B + ws[n - 1];
    TopTwo(ws);
    ValTop(ys);
    assert Pow(n) == B * p;
    hide Val, Pow;
    OneLongerProduct(q, t, b1, p, Val(ws), Val(ys));
  }

  lemma OneLongerProduct(q: int, t: int, b1: int, p: int, w: int, y: int)
    requires 0 <= q && 0 < p && 0 <= b1 < B
    requires q * b1 <= t < q * b1 + b1 && t * p <= w < (t + 1) * p && b1 * p <= y
    ensures q * (b1 * p) <= w
    ensures w - q * y < B * p
  {
    MulAssoc(q, b1, p);
    MulMono(p, q * b1, t);
    MulMono(p, t + 1, q * b1 + b1);
    MulDist(q * b1, b1, p);
    MulMono(q, b1 * p, y);
    MulMono(p, b1, B);
  }

  /** Equal top digits, smaller second digit: the largest digit is the estimate. */
  lemma LargestDigit(ws: seq<Digit>, ys: seq<Digit>)
    requires 2 <= |ys| && |ws| == |ys| + 1
    requires ws[|ys|] == ys[|ys| - 1] && ws[|ys| - 1] < ys[|ys| - 2]
    ensures GoodDigit(B - 1, Val(ws), Val(ys), ys[|ys| - 1], |ys|)
  {
    var n := |ys|;
    TopTwo(ws);
    TopTwo(ys);
    ValBound(ys);
    var p := Pow(n - 2);
    assert Pow(n - 1) == B * p && Pow(n) == B * (B * p);
    hide Val, Pow;
    LargestDigitProduct(ys[n - 1], ys[n - 2], ws[n - 1], p, Val(ws), Val(ys));
  }

  lemma LargestDigitProduct(b1: int, b2: int, a2: int, p: int, w: int, y: int)
    requires 0 <= b1 && 0 <= a2 < b2 && 0 < p
    requires (b1 * B + a2) * (B * p) <= w < (b1 * B + a2 + 1) * (B * p)
    requires (b1 * B + b2) * p <= y < B * (B * p)
    ensures (B - 1) * (b1 * (B * p)) <= w
    ensures w - (B - 1) * y < B * (B * p)
  {
    LargestLower(b1, a2, B * p, w);
    LargestUpper(b1 * B + a2 + 1, b1 * B + b2, p, w, y);
  }

  lemma LargestLower(b1: int, a2: int, p: int, w: int)
    requires 0 <= b1 && 0 <= a2 && 0 < p && (b1 * B + a2) * p <= w
    ensures (B - 1) * (b1 * p) <= w
  {
    MulDist(b1 * B, a2, p);
    MulMono(p, 0, a2);
    MulAssoc(B, b1, p);
    MulMono(b1, 0, p);
  }

  lemma LargestUpper(t: int, u: int, p: int, w: int, y: int)
    requires t <= u && 0 < p && w < t * (B * p) && u * p <= y < B * (B * p)
    ensures w - (B - 1) * y < B * (B * p)
  {
    MulMono(p, t, u);
    MulAssoc(B, t, p);
    assert t * (B * p) == B * (t * p);
  }

  /** A window as long as the divisor and not below it in its two leading digits. */
  predicate Covers(a1: Digit, a2: Digit, b1: Digit, b2: Digit) {
    b1 < a1 || (b1 == a1 && b2 <= a2)
  }

  /** Otherwise the window is smaller than the divisor. */
  lemma NotCovered(ws: seq<Digit>, ys: seq<Digit>)
    requires 2 <= |ys| == |ws|
    requires !Covers(ws[|ys| - 1], ws[|ys| - 2], ys[|ys| - 1], ys[|ys| - 2])
    ensures Val(ws) < Val(ys)
  {
    var n := |ys|;
    if ws[n - 1] < ys[n - 1] {
      TopDecides(ws, ys);
    } else {
      assert ws[n - 1..] == [ws[n - 1]] && ys[n - 1..] == [ys[n - 1]];
      HigherDigitWins(ws, ys, n - 1);
    }
  }

  /** The estimate of one quotient digit; s is the position it counts at. */
  method ChooseDigit(r: array<Digit>, rl: nat, y: array<Digit>, yl: nat) returns (q0: Digit, s: nat)
    requires 2 <= yl <= rl <= r.Length && yl <= y.Length && y[yl - 1] != 0
    requires rl == yl ==> Num(y, 0, yl) <= Num(r, 0, rl)
    ensures s + yl <= rl <= s + yl + 1
    ensures s + yl == rl <==> Covers(r[rl - 1], r[rl - 2], y[yl - 1], y[yl - 2])
    ensures GoodDigit(q0, Num(r, s, rl - s), Num(y, 0, yl), y[yl - 1], yl)
    ensures q0 >= 1 || s + yl < rl
  {
    hide Val, Pow, GoodDigit;
    var a1, a2, b1, b2 := r[rl - 1], r[rl - 2], y[yl - 1], y[yl - 2];
    ghost var ys := y[0..yl];
    if Covers(a1, a2, b1, b2) {
      s := rl - yl;
      if b1 < a1 {
        q0 := TopTwoQuotient(a1, a2, b1, b2);
      } else {
        q0 := 1;
      }
      SameLength(q0, r[s..s + (rl - s)], ys);
    } else {
      if rl == yl {
        NotCovered(r[0..rl], ys);
      }
      s := rl - yl - 1;
      ghost var ws := r[s..s + (rl - s)];
      if b1 > a1 {
        var rem;
        q0, rem := DDivRem(a1, a2, b1);
        assert ws[yl] == a1 && ws[yl - 1] == a2;
        OneLonger(q0, ws, ys);
      } else {
        q0 := D_MASK;
        LargestDigit(ws, ys);
      }
    }
  }

  /** DDIV2 as I_div uses it. */
  method TopTwoQuotient(a1: Digit, a2: Digit, b1: Digit, b2: Digit) returns (q0: Digit)
    requires 0 < b1 < a1
    ensures 1 <= q0 && q0 * b1 <= a1
  {
    var r1, r0;
    q0, r1, r0 := D2DivRem(a1, a2, b1, b2);
    ReturnedExact(Pair(a1, a2), Pair(b1, b2));
    ReturnedBounds(Pair(a1, a2), Pair(b1, b2));
    hide Short, Returned;
    TopOfProduct(q0, b1, b2, a1, a2);
  }

  lemma TopOfProduct(q: int, b1: int, b2: Digit, a1: int, a2: Digit)
    requires 0 <= q && q * Pair(b1, b2) <= Pair(a1, a2)
    ensures q * b1 <= a1
  {
    assert q * Pair(b1, b2) == (q * b1) * B + q * b2;
    MulMono(q, 0, b2);
  }

  /** An overshoot is smaller than the window and fits the divisor's length. */
  lemma OvershootBound(q: int, w: int, y: int, b1: int, yl: nat)
    requires yl > 0 && 0 <= q < B && 1 <= b1
    requires y < (b1 + 1) * Pow(yl - 1) && GoodDigit(q, w, y, b1, yl)
    ensures -Pow(yl) < w - q * y < Pow(yl)
    ensures q >= 1 ==> q * y < 2 * w
  {
    assert Pow(yl) == B * Pow(yl - 1);
    hide Pow;
    MulDist(b1, 1, Pow(yl - 1));
    OvershootProduct(q, w, y - b1 * Pow(yl - 1), b1 * Pow(yl - 1), Pow(yl - 1), b1);
  }

  lemma OvershootProduct(q: int, w: int, d: int, bp: int, p: int, b1: int)
    requires 0 <= q < B && 1 <= b1 && 0 < p && bp == b1 * p && d < p && q * bp <= w
    ensures q * (bp + d) - w < B * p
    ensures q >= 1 ==> q * (bp + d) < 2 * w
  {
    MulDist(bp, d, q);
    MulMono(q, d, p);
    MulMono(p, q, B - 1);
    MulMono(p, 1, b1);
    if q >= 1 {
      MulMono(q, d + 1, bp);
      MulDist(d, 1, q);
    }
  }

  /** A reduction step seen on values: lo lies below the window w, p is the weight of
      the window, and qy times p is subtracted. */
  lemma WindowDifference(lo: int, p: int, w: int, qy: int, limit: int)
    requires 0 <= lo < p && qy - w < limit
    ensures (lo + p * w) - qy * p == lo + p * (w - qy)
    ensures w < qy <==> lo + p * w < qy * p
    ensures qy * p - (lo + p * w) < p * limit
  {
    assert p * (w - qy) == p * w - p * qy;
    MulMono(p, qy - w, limit);
    if w < qy {
      MulMono(p, w + 1, qy);
      MulMono(p, qy - w + 1, limit);
    } else {
      MulMono(p, qy, w);
    }
    MulMono(p, qy - w + 1, limit);
  }

  /** Subtract q0 * y at position s and negate on overshoot.  The new length drops the
      window's leading zeros. */
  method ReduceWindow(r: array<Digit>, rl: nat, s: nat, q0: Digit, y: array<Digit>, yl: nat)
    returns (rl': nat, flip: bool)
    requires 2 <= yl <= y.Length && s + yl <= rl <= s + yl + 1 && rl <= r.Length && r != y
    requires y[yl - 1] != 0
    requires GoodDigit(q0, Num(r, s, rl - s), Num(y, 0, yl), y[yl - 1], yl)
    modifies r
    ensures s <= rl' <= s + yl
    ensures flip <==> old(Num(r, 0, rl)) < q0 * Num(y, 0, yl) * Pow(s)
    ensures Num(r, 0, rl') == Abs(old(Num(r, 0, rl)) - q0 * Num(y, 0, yl) * Pow(s))
    ensures rl' == s ==> r[s] == 0
  {
    hide Val, Pow, GoodDigit, Normal, Congruent;
    ghost var lo, w, qy := Num(r, 0, s), Num(r, s, rl - s), q0 * Num(y, 0, yl);
    SplitNum(r, s, rl);
    ValTop(y[0..yl]);
    OvershootBound(q0, w, Num(y, 0, yl), y[yl - 1], yl);
    WindowDifference(lo, Pow(s), w, qy, Pow(yl));
    PowAdd(s, yl);
    var nsz := rl - s;
    var nn := DMulSub(r, s, nsz, q0, y, yl, r, s);
    assert r[0..s] == old(r[0..s]);
    flip := nn == 0;
    if flip {
      nn := NegateRemainder(r, rl, s, nsz, yl, lo, w, qy);
    } else {
      WindowLength(r[s..s + nn], yl);
      SplitNum(r, s, s + nn);
    }
    nn := DropZeroWindow(r, s, nn);
    rl' := rl - (nsz - nn);
  }

  /** A window of one zero digit counts as empty. */
  method DropZeroWindow(r: array<Digit>, s: nat, nn: nat) returns (n: nat)
    requires 0 < nn && s + nn <= r.Length
    ensures n <= nn && Num(r, 0, s + n) == Num(r, 0, s + nn)
    ensures n == 0 ==> r[s] == 0
  {
    n := nn;
    if nn == 1 && r[s] == 0 {
      ValDropZeros(r[0..s + 1], s);
      assert r[0..s + 1][..s] == r[0..s];
      n := 0;
    }
  }

  /** A normal vector below B^n has at most n digits. */
  lemma WindowLength(s: seq<Digit>, n: nat)
    requires n > 0 && Normal(s) && Val(s) < Pow(n)
    ensures |s| <= n
  {
    if |s| > n {
      ValTop(s);
      PowMono(n, |s| - 1);
      MulMono(Pow(|s| - 1), 1, s[|s| - 1]);
    }
  }

  /** Z_sub on the whole remainder after an overshoot, and the window length it leaves. */
  method NegateRemainder(r: array<Digit>, rl: nat, s: nat, nsz: nat, ghost yl: nat, ghost lo: int, ghost w: int, ghost qy: int)
    returns (nn: nat)
    requires rl == s + nsz <= r.Length && 0 < yl <= nsz
    requires Num(r, 0, s) == lo
    requires lo + Pow(s) * w < qy * Pow(s) && qy * Pow(s) - (lo + Pow(s) * w) < Pow(s + yl)
    requires Congruent(Num(r, s, nsz), w - qy, Pow(nsz))
    modifies r
    ensures 1 <= nn <= yl
    ensures Num(r, 0, s + nn) == qy * Pow(s) - (lo + Pow(s) * w)
  {
    hide Val, Pow, Normal, Congruent;
    ghost var d := qy * Pow(s) - (lo + Pow(s) * w);
    PowMono(s + yl, rl);
    WindowResidue(r, rl, s, lo, w, qy);
    UniqueComplement(r[0..rl], -d);
    var k := ZSub(r, rl, r);
    WindowLength(r[0..k], s + yl);
    if nsz > rl - k {
      nn := nsz - (rl - k);
    } else {
      nn := 1;
      ValDropZeros(r[0..s + 1], k);
      assert r[0..s + 1][..k] == r[0..k];
    }
  }

  lemma WindowResidue(r: array<Digit>, rl: nat, s: nat, lo: int, w: int, qy: int)
    requires s <= rl <= r.Length && Num(r, 0, s) == lo
    requires Congruent(Num(r, s, rl - s), w - qy, Pow(rl - s))
    ensures Congruent(Val(r[0..rl]), (lo + Pow(s) * w) - qy * Pow(s), Pow(rl))
  {
    hide Val, Pow;
    var k :| Shifted(Num(r, s, rl - s), w - qy, Pow(rl - s), k);
    SplitNum(r, s, rl);
    PowAdd(s, rl - s);
    ResidueProduct(Pow(s), Pow(rl - s), k, w, qy, Num(r, s, rl - s));
    assert Shifted(Val(r[0..rl]), (lo + Pow(s) * w) - qy * Pow(s), Pow(rl), k);
  }

  lemma ResidueProduct(p: int, q: int, k: int, w: int, qy: int, v: int)
    requires v - q * k == w - qy
    ensures p * v == p * w - qy * p + (p * q) * k
  {
    MulAssoc(p, q, k);
    assert p * (v - q * k) == p * v - p * (q * k);
    assert p * (w - qy) == p * w - p * qy;
  }

  /** A residue of a small negative number is its complement. */
  lemma UniqueComplement(s: seq<Digit>, d: int)
    requires -Pow(|s|) < d < 0
    requires Congruent(Val(s), d, Pow(|s|))
    ensures Val(s) == d + Pow(|s|)
  {
    var k :| Shifted(Val(s), d, Pow(|s|), k);
    ValBound(s);
    hide Val, Pow;
    if k <= 0 { MulMono(Pow(|s|), k, 0); }
    if k >= 2 { MulMono(Pow(|s|), 2, k); }
  }

  /** X == Q * Y + R, or X == Q * Y - R while the remainder is negated. */
  ghost predicate Balance(x: int, q: int, y: int, r: int, neg: bool) {
    x == q * y + if neg then -r else r
  }

  /** One quotient digit of weight p keeps the balance. */
  lemma BalanceStep(x: int, q: int, y: int, r: int, neg: bool, q0: int, p: int, q': int, r': int)
    requires Balance(x, q, y, r, neg)
    requires q' == if neg then q - q0 * p else q + q0 * p
    requires r' == Abs(r - q0 * y * p)
    ensures Balance(x, q', y, r', neg != (r < q0 * y * p))
  {
    assert q0 * y * p == (q0 * p) * y;
    MulDist(q, q0 * p, y);
    MulDist(q, -(q0 * p), y);
  }

  /** A good digit takes off less than twice the remainder. */
  lemma DigitBelowTwice(q0: int, w: int, y: int, p: int, lo: int)
    requires q0 * y < 2 * w && p > 0 && lo >= 0
    ensures q0 * y * p < 2 * (lo + p * w)
  {
    MulMono(p, q0 * y + 1, 2 * w);
    MulDist(q0 * y, 1, p);
  }

  /** While the remainder is negated the quotient exceeds the next digit. */
  lemma SubtractFits(x: int, q: int, y: int, r: int, q0: int, p: int, nq: int)
    requires Balance(x, q, y, r, true) && r <= x && 0 < y && 0 < p
    requires q0 * y * p < 2 * r && q == p * nq
    ensures q0 < nq
  {
    assert q0 * y * p == (q0 * p) * y;
    if q <= q0 * p {
      MulMono(y, q, q0 * p);
    } else if nq <= q0 {
      MulMono(p, nq, q0);
    }
  }

  /** Adding a good digit to the quotient never carries out of its top digit. */
  lemma AddFits(x: int, q: int, y: int, q0: int, p: int, nq: int, w: int, lo: int, b: int, top: int)
    requires x == q * y + (lo + p * w) && x < top * (b * p) && q == p * nq
    requires 0 <= nq && 0 <= lo && 0 < p && 0 < b <= y && q0 * b <= w
    ensures nq + q0 < top
  {
    assert q * y == p * (nq * y);
    MulMono(nq, b, y);
    MulDist(nq, q0, b);
    MulMono(p, (nq + q0) * b, nq * y + w);
    assert p * (nq * y + w) == p * (nq * y) + p * w;
    assert p * ((nq + q0) * b) == (nq + q0) * (b * p);
    if nq + q0 >= top {
      MulMono(b * p, top, nq + q0);
    }
  }

  /** Add or subtract the digit at position qp of a quotient that is zero below qp. */
  method UpdateQuotient(q: array<Digit>, qp: nat, ql: nat, q0: Digit, neg: bool) returns (ql': nat)
    requires 0 < ql && qp + ql <= q.Length
    requires forall k :: 0 <= k < qp ==> q[k] == 0
    requires neg ==> q0 < Num(q, qp, ql)
    requires !neg ==> Num(q, qp, ql) + q0 >= Pow(ql - 1)
    requires !neg ==> qp + ql < q.Length || Num(q, qp, ql) + q0 < Pow(ql)
    modifies q
    ensures 0 < ql' <= ql + 1 && qp + ql' <= q.Length
    ensures ql' == ql + 1 ==> !neg && old(Num(q, qp, ql)) + q0 >= Pow(ql)
    ensures forall k :: 0 <= k < qp ==> q[k] == 0
    ensures Num(q, 0, qp + ql') == old(Num(q, 0, qp + ql)) + (if neg then -(q0 * Pow(qp)) else q0 * Pow(qp))
    ensures Num(q, qp, ql') >= Pow(ql' - 1)
  {
    hide Val, Pow, Normal;
    ghost var was := Num(q, qp, ql);
    LowZeros(q, qp, ql);
    if neg {
      ql' := DSubtract(q, qp, ql, q0, q, qp);
      NormalLower(q[qp..qp + ql']);
    } else {
      ql' := DAdd(q, qp, ql, q0, q, qp);
      if ql' > ql {
        ValTop(q[qp..qp + ql']);
      }
    }
    LowZeros(q, qp, ql');
    DigitProduct(Pow(qp), was, q0);
  }

  lemma DigitProduct(p: int, n: int, q0: int)
    ensures p * (n + q0) == p * n + q0 * p
    ensures p * (n - q0) == p * n - q0 * p
  {
  }

  lemma LowZeros(q: array<Digit>, qp: nat, ql: nat)
    requires qp + ql <= q.Length
    requires forall k :: 0 <= k < qp ==> q[k] == 0
    ensures Num(q, 0, qp + ql) == Pow(qp) * Num(q, qp, ql)
  {
    ValLowZeros(q[0..qp + ql], qp);
    assert q[0..qp + ql][qp..] == q[qp..qp + ql];
  }

  /** The state at the head of the division loop: `top` quotient digits are in use,
      all of them zero below position rl - yl, where the next digit counts. */
  ghost predicate Dividing(x: int, xl: nat, q: array<Digit>, top: nat, r: array<Digit>, rl: nat,
                           y: array<Digit>, yl: nat, neg: bool, first: bool)
    reads q, r, y
  {
    && 2 <= yl <= y.Length && y[yl - 1] != 0
    && yl <= rl <= xl <= r.Length && xl - yl < q.Length && r != y && q != y && q != r
    && rl - yl <= top <= xl - yl + 1
    && (forall k :: 0 <= k < rl - yl ==> q[k] == 0)
    && Balance(x, Num(q, 0, top), Num(y, 0, yl), Num(r, 0, rl), neg)
    && Num(r, 0, rl) <= x < Pow(xl)
    && (rl == yl ==> Num(y, 0, yl) <= Num(r, 0, rl))
    && (first ==> !neg && r[rl - 1] != 0 && Num(q, 0, top) == 0
                  && top == rl - yl + if Covers(r[rl - 1], r[rl - 2], y[yl - 1], y[yl - 2]) then 1 else 0)
    && (!first ==> rl - yl < top && Num(q, 0, top) >= Pow(top - 1))
  }

  /** A non-zero leading digit never yields a zero estimate. */
  lemma FirstDigit(q0: int, ws: seq<Digit>, ys: seq<Digit>)
    requires 0 < |ys| && |ws| == |ys| + 1 && ws[|ys|] != 0
    requires GoodDigit(q0, Val(ws), Val(ys), ys[|ys| - 1], |ys|)
    ensures q0 >= 1
  {
    if q0 == 0 {
      ValTop(ws);
      MulMono(Pow(|ys|), 1, ws[|ys|]);
    }
  }

  lemma Cancel(p: int, m: int, n: int)
    requires p > 0 && p * m <= p * n
    ensures m <= n
  {
    if n < m {
      MulMono(p, n + 1, m);
    }
  }

  /** The quotient digits in use from position s on, seen as a number. */
  lemma TopDigitAt(q: array<Digit>, top: nat, s: nat, first: bool, q0: Digit)
    requires s < top <= q.Length && (forall k :: 0 <= k < s ==> q[k] == 0)
    requires first ==> Num(q, 0, top) == 0 && top == s + 1 && q0 >= 1
    requires !first ==> Num(q, 0, top) >= Pow(top - 1)
    ensures Num(q, s, top - s) + q0 >= Pow(top - s - 1)
    ensures !first ==> Num(q, s, top - s) >= 1
  {
    LowZeros(q, s, top - s);
    if first {
      assert Pow(0) == 1;
    } else {
      PowAdd(s, top - s - 1);
      hide Val, Pow;
      Cancel(Pow(s), Pow(top - s - 1), Num(q, s, top - s));
    }
  }

  /** Why the chosen digit may be added to or subtracted from the quotient. */
  lemma UpdateAllowed(x: int, xl: nat, q: array<Digit>, top: nat, r: array<Digit>, rl: nat,
                      y: array<Digit>, yl: nat, neg: bool, first: bool, q0: Digit, s: nat)
    requires Dividing(x, xl, q, top, r, rl, y, yl, neg, first)
    requires s + yl <= rl <= s + yl + 1 && s < top
    requires first ==> q0 >= 1 && top == s + 1
    requires GoodDigit(q0, Num(r, s, rl - s), Num(y, 0, yl), y[yl - 1], yl)
    requires q0 >= 1 ==> q0 * Num(y, 0, yl) * Pow(s) < 2 * Num(r, 0, rl)
    ensures neg ==> q0 < Num(q, s, top - s)
    ensures !neg ==> Num(q, s, top - s) + q0 >= Pow(top - s - 1)
    ensures !neg && top == xl - yl + 1 ==> Num(q, s, top - s) + q0 < Pow(top - s)
  {
    hide Val, Pow;
    var yv, b := Num(y, 0, yl), y[yl - 1] * Pow(yl - 1);
    ValTop(y[0..yl]);
    LowZeros(q, s, top - s);
    TopDigitAt(q, top, s, first, q0);
    MulMono(Pow(yl - 1), 1, y[yl - 1]);
    if neg && q0 >= 1 {
      SubtractFits(x, Num(q, 0, top), yv, Num(r, 0, rl), q0, Pow(s), Num(q, s, top - s));
    }
    if !neg && top == xl - yl + 1 {
      SplitNum(r, s, rl);
      TopWeight(x, xl, y[yl - 1], yl, s, top);
      AddFits(x, Num(q, 0, top), yv, q0, Pow(s), Num(q, s, top - s), Num(r, s, rl - s), Num(r, 0, s), b, Pow(top - s));
    }
  }

  lemma TopWeight(x: int, xl: nat, b1: int, yl: nat, s: nat, top: nat)
    requires x < Pow(xl) && 1 <= b1 && 0 < yl <= xl && top == xl - yl + 1 && s < top
    ensures x < Pow(top - s) * ((b1 * Pow(yl - 1)) * Pow(s))
  {
    PowAdd(top - s, yl - 1 + s);
    PowAdd(yl - 1, s);
    hide Pow;
    TopWeightProduct(b1, Pow(yl - 1), Pow(s), Pow(top - s));
  }

  lemma TopWeightProduct(b1: int, u: int, v: int, t: int)
    requires 1 <= b1 && 0 < u && 0 < v && 0 < t
    ensures t * (u * v) <= t * ((b1 * u) * v)
  {
    MulMono(u, 1, b1);
    MulMono(v, u, b1 * u);
    MulMono(t, u * v, (b1 * u) * v);
  }

  /** A digit that takes off something but less than twice the remainder shrinks it. */
  lemma Shrinks(r: int, q0: int, y: int, p: int)
    requires 0 < y && 0 < p && 0 <= q0 && 0 <= r
    requires q0 >= 1 ==> q0 * y * p < 2 * r
    ensures if q0 == 0 then Abs(r - q0 * y * p) == r else Abs(r - q0 * y * p) < r
  {
    if q0 >= 1 {
      MulMono(y, 1, q0);
      MulMono(p, 1, q0 * y);
    }
  }

  lemma DigitBounds(r: array<Digit>, rl: nat, y: array<Digit>, yl: nat, q0: Digit, s: nat)
    requires 2 <= yl <= y.Length && rl <= r.Length && s + yl <= rl <= s + yl + 1 && y[yl - 1] != 0
    requires GoodDigit(q0, Num(r, s, rl - s), Num(y, 0, yl), y[yl - 1], yl)
    requires q0 >= 1 || s + yl < rl
    ensures r[rl - 1] != 0 ==> q0 >= 1
    ensures q0 >= 1 ==> q0 * Num(y, 0, yl) * Pow(s) < 2 * Num(r, 0, rl)
  {
    hide Val, Pow, GoodDigit;
    SplitNum(r, s, rl);
    ValTop(y[0..yl]);
    OvershootBound(q0, Num(r, s, rl - s), Num(y, 0, yl), y[yl - 1], yl);
    if q0 >= 1 {
      DigitBelowTwice(q0, Num(r, s, rl - s), Num(y, 0, yl), Pow(s), Num(r, 0, s));
    } else if r[rl - 1] != 0 {
      FirstDigit(q0, r[s..s + (rl - s)], y[0..yl]);
    }
  }

  lemma Positive(y: array<Digit>, yl: nat)
    requires 0 < yl <= y.Length && y[yl - 1] != 0
    ensures Num(y, 0, yl) > 0
  {
    ValZeros(y[0..yl]);
  }

  /** One round of the loop: choose a digit, enter it in the quotient, reduce. */
  method DivRound(ghost x: int, ghost xl: nat, q: array<Digit>, top: nat, r: array<Digit>, rl: nat,
                  y: array<Digit>, yl: nat, neg: bool, ghost first: bool)
    returns (s: nat, top': nat, rl': nat, neg': bool)
    requires Dividing(x, xl, q, top, r, rl, y, yl, neg, first)
    modifies q, r
    ensures s <= rl - yl && s <= rl' <= s + yl && s < top' <= xl - yl + 1
    ensures forall k :: 0 <= k < s ==> q[k] == 0
    ensures Balance(x, Num(q, 0, top'), Num(y, 0, yl), Num(r, 0, rl'), neg')
    ensures Num(q, 0, top') >= Pow(top' - 1)
    ensures Num(r, 0, rl') < old(Num(r, 0, rl)) || (Num(r, 0, rl') == old(Num(r, 0, rl)) && rl' < rl)
    ensures rl' == 0 ==> r[0] == 0
  {
    hide Val, Pow, GoodDigit, Covers, Balance, Abs;
    ghost var yv, qv, rv := Num(y, 0, yl), Num(q, 0, top), Num(r, 0, rl);
    Positive(y, yl);
    var q0;
    q0, s := ChooseDigit(r, rl, y, yl);
    DigitBounds(r, rl, y, yl, q0, s);
    UpdateAllowed(x, xl, q, top, r, rl, y, yl, neg, first, q0, s);
    var ql := UpdateQuotient(q, s, top - s, q0, neg);
    var flip;
    rl', flip := ReduceWindow(r, rl, s, q0, y, yl);
    top', neg' := s + ql, neg != flip;
    BalanceStep(x, qv, yv, rv, neg, q0, Pow(s), Num(q, 0, top'), Num(r, 0, rl'));
    LowZeros(q, s, ql);
    PowAdd(s, ql - 1);
    MulMono(Pow(s), Pow(ql - 1), Num(q, s, ql));
    Shrinks(rv, q0, yv, Pow(s));
  }

  /** The length of a dividend below the divisor, or the order of equal lengths, decides the loop. */
  lemma ShorterIsSmaller(r: array<Digit>, rl: nat, y: array<Digit>, yl: nat)
    requires rl < yl <= y.Length && rl <= r.Length && y[yl - 1] != 0
    ensures Num(r, 0, rl) < Num(y, 0, yl)
  {
    ValBound(r[0..rl]);
    ValTop(y[0..yl]);
    PowMono(rl, yl - 1);
    MulMono(Pow(yl - 1), 1, y[yl - 1]);
  }

  /** The division loop of I_div: from X to Q and a remainder below Y in absolute value. */
  method DivLoop(ghost x: int, xl: nat, y: array<Digit>, yl: nat, q: array<Digit>, r: array<Digit>)
    returns (top: nat, rl: nat, neg: bool)
    requires 2 <= yl <= xl <= r.Length && yl <= y.Length
    requires Dividing(x, xl, q, StartTop(xl, r, y, yl), r, xl, y, yl, false, true)
    modifies q, r
    ensures rl <= yl && 0 < top <= xl - yl + 1
    ensures Balance(x, Num(q, 0, top), Num(y, 0, yl), Num(r, 0, rl), neg)
    ensures Num(q, 0, top) >= Pow(top - 1)
    ensures Num(r, 0, rl) < Num(y, 0, yl)
    ensures rl == 0 ==> r[0] == 0
  {
    hide Val, Pow, Balance, Covers, Abs;
    rl, neg := xl, false;
    var qp: int := xl - yl;
    var ql: int := if Covers(r[xl - 1], r[xl - 2], y[yl - 1], y[yl - 2]) then 1 else 0;
    ghost var first := true;
    while true
      invariant 0 <= qp + ql && qp == rl - yl
      invariant Dividing(x, xl, q, qp + ql, r, rl, y, yl, neg, first)
      decreases Num(r, 0, rl), rl
    {
      var s;
      s, top, rl, neg := DivRound(x, xl, q, qp + ql, r, rl, y, yl, neg, first);
      first := false;
      var nnsz := rl - s;
      qp := s - (yl - nnsz);
      ql := top - s + (yl - nnsz);
      var c := IComp(r, rl, y, yl);
      if c < 0 {
        if rl < yl { ShorterIsSmaller(r, rl, y, yl); }
        break;
      }
    }
    top := ql + qp;
  }

  function StartTop(xl: nat, r: array<Digit>, y: array<Digit>, yl: nat): nat
    requires 2 <= yl <= xl <= r.Length && yl <= y.Length
    reads r, y
  {
    xl - yl + if Covers(r[xl - 1], r[xl - 2], y[yl - 1], y[yl - 2]) then 1 else 0
  }

  /** Folding a negated remainder back: Q * Y - R == (Q - 1) * Y + (Y - R). */
  lemma FoldBack(x: int, q: int, y: int, r: int)
    requires Balance(x, q, y, r, true)
    ensures x == (q - 1) * y + (y - r)
  {
    MulDist(q, -1, y);
  }

  /** I_div: quotient and remainder of x >= y, for a divisor of at least two digits.
      x may be the remainder vector itself. */
  method IDiv(x: array<Digit>, xl: nat, y: array<Digit>, yl: nat, q: array<Digit>, r: array<Digit>)
    returns (ql: nat, rl: nat)
    requires 2 <= yl <= xl <= x.Length && yl <= y.Length && xl <= r.Length && xl - yl + 1 <= q.Length
    requires q != r && q != x && q != y && r != y
    requires Normal(x[0..xl]) && Normal(y[0..yl])
    requires Num(y, 0, yl) <= Num(x, 0, xl)
    modifies q, r
    ensures 1 <= ql <= xl - yl + 1 && 1 <= rl <= yl
    ensures old(Num(x, 0, xl)) == Num(q, 0, ql) * Num(y, 0, yl) + Num(r, 0, rl)
    ensures Num(r, 0, rl) < Num(y, 0, yl)
    ensures Normal(q[0..ql]) && Normal(r[0..rl])
  {
    hide Val, Pow, Dividing, Normal, StartTop;
    ghost var xv := Num(x, 0, xl);
    StartDivision(x, xl, y, yl, q, r);
    var neg;
    ql, rl, neg := DivLoop(xv, xl, y, yl, q, r);
    NormalTop(q[0..ql]);
    rl := TrimRemainder(r, rl);
    if neg && (rl > 1 || r[0] != 0) {
      FoldBack(xv, Num(q, 0, ql), Num(y, 0, yl), Num(r, 0, rl));
      NonZero(r, rl);
      rl := ISub(y, yl, r, rl, r);
      AtLeastOne(ql);
      ql := DSubtract(q, 0, ql, 1, q, 0);
    } else if neg {
      ZeroValue(r);
    }
  }

  /** A remainder keeps at least one digit and loses leading zeros. */
  method TrimRemainder(r: array<Digit>, rl: nat) returns (n: nat)
    requires rl <= r.Length && r.Length > 0 && (rl == 0 ==> r[0] == 0)
    ensures 1 <= n && (n == 1 || n <= rl) && n <= r.Length
    ensures Num(r, 0, n) == Num(r, 0, rl) && Normal(r[0..n])
  {
    n := rl;
    if n == 0 {
      OneZero(r);
      n := 1;
    }
    n := Strip(r, 0, n);
  }

  method StartDivision(x: array<Digit>, xl: nat, y: array<Digit>, yl: nat, q: array<Digit>, r: array<Digit>)
    requires 2 <= yl <= xl <= x.Length && yl <= y.Length && xl <= r.Length && xl - yl + 1 <= q.Length
    requires q != r && q != x && q != y && r != y
    requires Normal(x[0..xl]) && Normal(y[0..yl])
    requires Num(y, 0, yl) <= Num(x, 0, xl)
    modifies q, r
    ensures Dividing(old(Num(x, 0, xl)), xl, q, StartTop(xl, r, y, yl), r, xl, y, yl, false, true)
  {
    MoveDigits(x, xl, r);
    ZeroDigits(q, xl - yl + 1);
    assert y[0..yl][yl - 1] == y[yl - 1] && r[0..xl][xl - 1] == r[xl - 1];
    ValBound(r[0..xl]);
    ValZeros(q[0..StartTop(xl, r, y, yl)]);
    hide Val, Pow;
  }

  lemma OneZero(r: array<Digit>)
    requires r.Length > 0 && r[0] == 0
    ensures Num(r, 0, 1) == Num(r, 0, 0)
  {
    assert r[0..1] == [0] && r[0..0] == [] && [0][1..] == [];
  }

  lemma NonZero(r: array<Digit>, rl: nat)
    requires 0 < rl <= r.Length && Normal(r[0..rl]) && (rl > 1 || r[0] != 0)
    ensures Num(r, 0, rl) > 0
  {
    ValZeros(r[0..rl]);
    assert r[0..rl][rl - 1] == r[rl - 1];
  }

  lemma ZeroValue(r: array<Digit>)
    requires r.Length > 0 && r[0] == 0
    ensures Num(r, 0, 1) == 0
  {
    ValZeros(r[0..1]);
  }

  lemma AtLeastOne(n: nat)
    requires n > 0
    ensures Pow(n - 1) >= 1
  {
  }

  /** I_rem: the remainder alone, by the same rounds without a quotient vector. */
  method IRem(x: array<Digit>, xl: nat, y: array<Digit>, yl: nat, r: array<Digit>) returns (rl: nat)
    requires 2 <= yl <= xl <= x.Length && yl <= y.Length && xl <= r.Length && r != y
    requires Normal(x[0..xl]) && Normal(y[0..yl])
    requires Num(y, 0, yl) <= Num(x, 0, xl)
    modifies r
    ensures 1 <= rl <= yl
    ensures Num(y, 0, yl) > 0 && Num(r, 0, rl) == old(Num(x, 0, xl)) % Num(y, 0, yl)
    ensures Normal(r[0..rl])
  {
    hide Val, Pow;
    ghost var xv, yv := Num(x, 0, xl), Num(y, 0, yl);
    MoveDigits(x, xl, r);
    assert y[0..yl][yl - 1] == y[yl - 1];
    Positive(y, yl);
    ghost var q;
    var neg;
    rl, neg, q := RemLoop(xv, xl, y, yl, r);
    rl := TrimRemainder(r, rl);
    if neg && (rl > 1 || r[0] != 0) {
      FoldBack(xv, q, yv, Num(r, 0, rl));
      NonZero(r, rl);
      rl := ISub(y, yl, r, rl, r);
      UniqueQuotient(xv, yv, q - 1, Num(r, 0, rl));
    } else {
      if neg { ZeroValue(r); }
      UniqueQuotient(xv, yv, q, Num(r, 0, rl));
    }
  }

  method RemLoop(ghost x: int, xl: nat, y: array<Digit>, yl: nat, r: array<Digit>)
    returns (rl: nat, neg: bool, ghost q: int)
    requires 2 <= yl <= xl <= r.Length && yl <= y.Length && r != y && y[yl - 1] != 0
    requires Num(r, 0, xl) == x && Num(y, 0, yl) <= x
    modifies r
    ensures rl <= yl && Num(r, 0, rl) < Num(y, 0, yl)
    ensures Balance(x, q, Num(y, 0, yl), Num(r, 0, rl), neg)
    ensures rl == 0 ==> r[0] == 0
  {
    hide Val, Pow, Covers, Abs, GoodDigit, Balance;
    ghost var yv := Num(y, 0, yl);
    Positive(y, yl);
    rl, neg, q := xl, false, 0;
    assert Balance(x, 0, yv, x, false) by { NothingDivided(x, yv); }
    while true
      invariant yl <= rl <= xl && (rl == yl ==> yv <= Num(r, 0, rl))
      invariant Balance(x, q, yv, Num(r, 0, rl), neg)
      decreases Num(r, 0, rl), rl
    {
      ghost var rv := Num(r, 0, rl);
      var q0, s := ChooseDigit(r, rl, y, yl);
      DigitBounds(r, rl, y, yl, q0, s);
      var flip;
      rl, flip := ReduceWindow(r, rl, s, q0, y, yl);
      ghost var q' := if neg then q - q0 * Pow(s) else q + q0 * Pow(s);
      BalanceStep(x, q, yv, rv, neg, q0, Pow(s), q', Num(r, 0, rl));
      Shrinks(rv, q0, yv, Pow(s));
      q, neg := q', neg != flip;
      var c := IComp(r, rl, y, yl);
      if c < 0 {
        if rl < yl { ShorterIsSmaller(r, rl, y, yl); }
        break;
      }
    }
  }

  lemma NothingDivided(x: int, y: int)
    ensures Balance(x, 0, y, x, false)
  {
  }

  /** I_div and I_rem on the same operands leave the same remainder, digit by digit. */
  method DivRemAgree(x: array<Digit>, xl: nat, y: array<Digit>, yl: nat,
                     q: array<Digit>, r: array<Digit>, r': array<Digit>)
    returns (ql: nat, rl: nat, rl': nat)
    requires 2 <= yl <= xl <= x.Length && yl <= y.Length && xl <= r.Length && xl <= r'.Length
    requires xl - yl + 1 <= q.Length
    requires q != r && q != r' && r != r' && x != q && x != r && x != r' && y != q && y != r && y != r'
    requires Normal(x[0..xl]) && Normal(y[0..yl])
    requires Num(y, 0, yl) <= Num(x, 0, xl)
    modifies q, r, r'
    ensures ql <= q.Length && rl <= r.Length && rl' <= r'.Length
    ensures rl == rl' && r[0..rl] == r'[0..rl']
    ensures Num(x, 0, xl) == Num(q, 0, ql) * Num(y, 0, yl) + Num(r', 0, rl')
  {
    hide Val, Normal;
    ql, rl := IDiv(x, xl, y, yl, q, r);
    rl' := IRem(x, xl, y, yl, r');
    UniqueQuotient(Num(x, 0, xl), Num(y, 0, yl), Num(q, 0, ql), Num(r, 0, rl));
    NormalUnique(r[0..rl], r'[0..rl']);
  }
}

/** Additions, subtractions and single-digit products on digit vectors stored in
    arrays.  A C pointer into a vector is an array with an offset; source and
    destination may be the same vector, as the callers in big.c use them. */
module Vectors {
  import opened Digits
  import opened DigitOps

  /** The number in the n digits of `a` starting at `lo`. */
  ghost function Num(a: array<Digit>, lo: nat, n: nat): int
    requires lo + n <= a.Length
    reads a
  {
    Val(a[lo..lo + n])
  }

  /** Outside [lo, lo + n) the vector still holds `was`. */
  ghost predicate Outside(a: array<Digit>, was: seq<Digit>, lo: nat, n: nat)
    requires a.Length == |was|
    reads a
  {
    forall k :: 0 <= k < a.Length && !(lo <= k < lo + n) ==> a[k] == was[k]
  }

  /** One column of a vector operation: digit s and carry c' come out of digit sum
      delta plus carry c. Carries may be negative (borrows). */
  lemma Column(rs: seq<Digit>, s: Digit, c: int, c': int, delta: int, v: int)
    requires Val(rs) + Pow(|rs|) * c == v
    requires s + B * c' == delta + c
    ensures Val(rs + [s]) + Pow(|rs| + 1) * c' == v + Pow(|rs|) * delta
  {
    ValSnoc(rs, s);
    var p := Pow(|rs|);
    assert Pow(|rs| + 1) == B * p;
    hide Val, Pow;
    ColumnProduct(p, s, c, c', delta);
  }

  lemma ColumnDown(rs: seq<Digit>, s: Digit, c: int, c': int, delta: int, v: int)
    requires Val(rs) - Pow(|rs|) * c == v
    requires s - B * c' == delta - c
    ensures Val(rs + [s]) - Pow(|rs| + 1) * c' == v + Pow(|rs|) * delta
  {
    hide Val, Pow;
    Column(rs, s, -c, -c', delta, v);
  }

  lemma ColumnProduct(p: int, s: int, c: int, c': int, delta: int)
    requires s + B * c' == delta + c
    ensures p * s + (B * p) * c' == p * delta + p * c
  {
    MulAssoc(B, p, c');
    assert p * s + p * (B * c') == p * (s + B * c');
    assert p * (delta + c) == p * delta + p * c;
  }

  lemma EmptyVector()
    ensures Val([]) == 0 && Pow(0) == 1
  {
  }

  /** A sum that wrapped is below either summand. */
  lemma CarryOut(x: Digit, c: Digit)
    ensures var s := Plus(x, c); s + B * Carry(s < c) == x + c
  {
  }

  /** Appending the next digit of a source vector. */
  lemma NextDigit(xs: seq<Digit>, i: nat)
    requires i < |xs|
    ensures Val(xs[..i + 1]) == Val(xs[..i]) + Pow(i) * xs[i]
  {
    assert xs[..i + 1] == xs[..i] + [xs[i]];
    ValSnoc(xs[..i], xs[i]);
  }

  /** A difference that wrapped is above the minuend. */
  lemma BorrowOut(x: Digit, c: Digit)
    ensures var s := Minus(x, c); s - B * Carry(s > x) == x - c
  {
  }

  /** Carry propagation of D_add: a sum below the carry added tells the next carry. */
  method CarryLoop(x: array<Digit>, xo: nat, xl: nat, d: Digit, r: array<Digit>, ro: nat) returns (c: Digit)
    requires xo + xl <= x.Length && ro + xl <= r.Length
    requires x == r ==> xo == ro
    modifies r
    ensures Outside(r, old(r[..]), ro, xl)
    ensures Num(r, ro, xl) + Pow(xl) * c == old(Num(x, xo, xl)) + d
    ensures xl > 0 || d <= 1 ==> c <= 1
    ensures d == 0 ==> c == 0
  {
    hide Val, Pow, Plus, Carry;
    EmptyVector();
    ghost var xs, was := x[xo..xo + xl], r[..];
    assert r[ro..ro + 0] == [] && xs[..0] == [] && xs[..xl] == xs;
    c := d;
    for i := 0 to xl
      invariant forall k :: i <= k < xl ==> x[xo + k] == xs[k]
      invariant Outside(r, was, ro, i)
      invariant Num(r, ro, i) + Pow(i) * c == Val(xs[..i]) + d
      invariant i > 0 || d <= 1 ==> c <= 1
      invariant d == 0 ==> c == 0
    {
      var s := Plus(x[xo + i], c);
      CarryOut(x[xo + i], c);
      Column(r[ro..ro + i], s, c, Carry(s < c), xs[i], Val(xs[..i]) + d);
      NextDigit(xs, i);
      r[ro + i] := s;
      assert r[ro..ro + i + 1] == r[ro..ro + i] + [s];
      c := Carry(s < c);
    }
  }

  /** Borrow propagation of D_sub and I_sub: a difference above the digit tells the next borrow. */
  method BorrowLoop(x: array<Digit>, xo: nat, xl: nat, d: Digit, r: array<Digit>, ro: nat) returns (c: Digit)
    requires xo + xl <= x.Length && ro + xl <= r.Length
    requires x == r ==> xo == ro
    modifies r
    ensures Outside(r, old(r[..]), ro, xl)
    ensures Num(r, ro, xl) - Pow(xl) * c == old(Num(x, xo, xl)) - d
    ensures xl > 0 || d <= 1 ==> c <= 1
  {
    hide Val, Pow, Minus, Carry;
    EmptyVector();
    ghost var xs, was := x[xo..xo + xl], r[..];
    assert r[ro..ro + 0] == [] && xs[..0] == [] && xs[..xl] == xs;
    c := d;
    for i := 0 to xl
      invariant forall k :: i <= k < xl ==> x[xo + k] == xs[k]
      invariant Outside(r, was, ro, i)
      invariant Num(r, ro, i) - Pow(i) * c == Val(xs[..i]) - d
      invariant i > 0 || d <= 1 ==> c <= 1
    {
      var s := Minus(x[xo + i], c);
      var c' := Carry(s > x[xo + i]);
      BorrowOut(x[xo + i], c);
      ColumnDown(r[ro..ro + i], s, c, c', xs[i], Val(xs[..i]) - d);
      NextDigit(xs, i);
      c := c';
      r[ro + i] := s;
      assert r[ro..ro + i + 1] == r[ro..ro + i] + [s];
    }
  }

  /** Drop leading zero digits, but keep one digit. */
  method Strip(r: array<Digit>, ro: nat, rl: nat) returns (n: nat)
    requires 0 < rl && ro + rl <= r.Length
    ensures 1 <= n <= rl
    ensures Num(r, ro, n) == Num(r, ro, rl)
    ensures forall k :: ro + n <= k < ro + rl ==> r[k] == 0
    ensures Normal(r[ro..ro + n])
  {
    n := rl;
    while r[ro + n - 1] == 0 && n - 1 != 0
      invariant 1 <= n <= rl
      invariant forall k :: ro + n <= k < ro + rl ==> r[k] == 0
    {
      n := n - 1;
    }
    ValDropZeros(r[ro..ro + rl], n);
    assert r[ro..ro + rl][..n] == r[ro..ro + n];
  }

  /** D_add: add a digit to a vector. */
  method DAdd(x: array<Digit>, xo: nat, xl: nat, d: Digit, r: array<Digit>, ro: nat) returns (n: nat)
    requires xo + xl <= x.Length && ro + xl <= r.Length
    requires x == r ==> xo == ro
    requires ro + xl < r.Length || (xl > 0 && Num(x, xo, xl) + d < Pow(xl))
    modifies r
    ensures n == xl || (n == xl + 1 && ro + xl < r.Length && r[ro + xl] == 1)
    ensures Outside(r, old(r[..]), ro, n)
    ensures xl > 0 || d <= 1 ==> Num(r, ro, n) == old(Num(x, xo, xl)) + d
  {
    var c := CarryLoop(x, xo, xl, d, r, ro);
    n := xl;
    if c != 0 {
      n := StoreCarry(r, ro, xl, c);
    }
  }

  method StoreCarry(r: array<Digit>, ro: nat, xl: nat, ghost c: Digit) returns (n: nat)
    requires ro + xl < r.Length
    modifies r
    ensures n == xl + 1 && r[ro + xl] == 1
    ensures Outside(r, old(r[..]), ro + xl, 1)
    ensures c == 1 ==> Num(r, ro, n) == old(Num(r, ro, xl)) + Pow(xl) * c
  {
    ghost var low := r[ro..ro + xl];
    ValSnoc(low, 1);
    r[ro + xl] := 1;
    assert r[ro..ro + xl + 1] == low + [1];
    n := xl + 1;
  }

  /** D_sub: subtract a digit that is not larger than the vector. */
  method DSubtract(x: array<Digit>, xo: nat, xl: nat, d: Digit, r: array<Digit>, ro: nat) returns (n: nat)
    requires 0 < xl && xo + xl <= x.Length && ro + xl <= r.Length
    requires x == r ==> xo == ro
    requires d <= Num(x, xo, xl)
    modifies r
    ensures 1 <= n <= xl
    ensures Outside(r, old(r[..]), ro, xl)
    ensures Num(r, ro, n) == old(Num(x, xo, xl)) - d
    ensures forall k :: ro + n <= k < ro + xl ==> r[k] == 0
    ensures Normal(r[ro..ro + n])
  {
    var c := BorrowLoop(x, xo, xl, d, r, ro);
    NoBorrow(r[ro..ro + xl], c);
    n := Strip(r, ro, xl);
  }

  /** A non-negative difference leaves no borrow. */
  lemma NoBorrow(s: seq<Digit>, c: int)
    requires c >= 0 && Val(s) - Pow(|s|) * c >= 0
    ensures c == 0
  {
    ValBound(s);
    if c > 0 {
      MulMono(Pow(|s|), 1, c);
    }
  }

  /** I_comp: compare by length, then digit by digit from the top. */
  method IComp(x: array<Digit>, xl: nat, y: array<Digit>, yl: nat) returns (res: int)
    requires xl <= x.Length && yl <= y.Length
    ensures xl < yl ==> res == -1
    ensures xl > yl ==> res == 1
    ensures xl == yl ==> res == Sign(Num(x, 0, xl) - Num(y, 0, yl))
  {
    if xl < yl { return -1; }
    if xl > yl { return 1; }
    if x == y { return 0; }
    var n: nat := xl;
    while n > 0 && x[n - 1] == y[n - 1]
      invariant n <= xl
      invariant x[n..xl] == y[n..xl]
    {
      assert x[n - 1..xl] == [x[n - 1]] + x[n..xl] && y[n - 1..xl] == [y[n - 1]] + y[n..xl];
      n := n - 1;
    }
    HigherDigitWins(x[..xl], y[..xl], n);
    assert x[0..xl] == x[..xl] && y[0..xl] == y[..xl];
    if n == 0 { return 0; }
    res := if x[n - 1] < y[n - 1] then -1 else 1;
  }

  function Sign(v: int): int {
    if v < 0 then -1 else if v == 0 then 0 else 1
  }

  /** The highest digit in which two vectors differ decides their order. */
  lemma HigherDigitWins(xs: seq<Digit>, ys: seq<Digit>, n: nat)
    requires n <= |xs| == |ys| && xs[n..] == ys[n..]
    ensures n == 0 ==> Val(xs) == Val(ys)
    ensures n > 0 && xs[n - 1] < ys[n - 1] ==> Val(xs) < Val(ys)
    ensures n > 0 && xs[n - 1] > ys[n - 1] ==> Val(xs) > Val(ys)
  {
    ValSplit(xs, n);
    ValSplit(ys, n);
    if n > 0 {
      hide Val, Pow;
      if xs[n - 1] < ys[n - 1] {
        TopDecides(xs[..n], ys[..n]);
      } else if xs[n - 1] > ys[n - 1] {
        TopDecides(ys[..n], xs[..n]);
      }
    }
  }

  lemma TopDecides(xs: seq<Digit>, ys: seq<Digit>)
    requires 0 < |xs| == |ys| && xs[|xs| - 1] < ys[|xs| - 1]
    ensures Val(xs) < Val(ys)
  {
    hide Val, Pow;
    ValTop(xs);
    ValTop(ys);
    MulMono(Pow(|xs| - 1), xs[|xs| - 1] + 1, ys[|xs| - 1]);
  }

  /** Z_sub: B^yl - y, in place. */
  method ZSub(y: array<Digit>, yl: nat, r: array<Digit>) returns (n: nat)
    requires 0 < yl <= y.Length && yl <= r.Length
    modifies r
    ensures 1 <= n <= yl
    ensures Outside(r, old(r[..]), 0, yl)
    ensures Num(r, 0, n) == (if old(Num(y, 0, yl)) == 0 then 0 else Pow(yl) - old(Num(y, 0, yl)))
    ensures forall k :: n <= k < yl ==> r[k] == 0
    ensures Normal(r[0..n])
  {
    ghost var ys := y[0..yl];
    var c := NegateLoop(y, yl, r);
    ComplementOf(r[0..yl], ys, c);
    n := Strip(r, 0, yl);
  }

  lemma ComplementOf(rs: seq<Digit>, ys: seq<Digit>, c: int)
    requires |rs| == |ys| && Val(rs) - Pow(|ys|) * c == -Val(ys)
    ensures Val(rs) == (if Val(ys) == 0 then 0 else Pow(|ys|) - Val(ys))
  {
    ValBound(rs);
    ValBound(ys);
    if c < 0 {
      MulMono(Pow(|ys|), c, -1);
    } else if c > 1 {
      MulMono(Pow(|ys|), 2, c);
    }
  }

  /** One digit of a negation with borrow. */
  lemma NegateColumn(y: Digit, c: Digit)
    requires c <= 1
    ensures var t := Plus(y, c);
            var s := Minus(0, t);
            s + y + c == B * (Carry(t < c) + Carry(s > 0))
            && Carry(t < c) + Carry(s > 0) <= 1
  {
  }

  method NegateLoop(y: array<Digit>, yl: nat, r: array<Digit>) returns (c: Digit)
    requires yl <= y.Length && yl <= r.Length
    modifies r
    ensures Outside(r, old(r[..]), 0, yl)
    ensures Num(r, 0, yl) - Pow(yl) * c == -old(Num(y, 0, yl))
  {
    hide Val, Pow, Plus, Minus, Carry;
    EmptyVector();
    ghost var ys, was := y[0..yl], r[..];
    assert r[0..0] == [] && ys[..0] == [] && ys[..yl] == ys;
    c := 0;
    for i := 0 to yl
      invariant c <= 1
      invariant forall k :: i <= k < yl ==> y[k] == ys[k]
      invariant Outside(r, was, 0, i)
      invariant Num(r, 0, i) - Pow(i) * c == -Val(ys[..i])
    {
      var t := Plus(y[i], c);
      var s := Minus(0, t);
      NegateColumn(y[i], c);
      var c' := Carry(t < c) + Carry(s > 0);
      ColumnDown(r[0..i], s, c, c', -(ys[i] as int), -Val(ys[..i]));
      NextDigit(ys, i);
      c := c';
      r[i] := s;
      assert r[0..i + 1] == r[0..i] + [s];
    }
  }

  /** D_mulsub: r = x - d * y, or 0 when that is negative.  On a negative result the
      destination holds the difference modulo the word size of x. */
  method DMulSub(x: array<Digit>, xo: nat, xl: nat, d: Digit, y: array<Digit>, yl: nat, r: array<Digit>, ro: nat)
    returns (n: nat)
    requires xo + xl <= x.Length && ro + xl <= r.Length && yl <= y.Length
    requires 0 < yl && (xl == yl || xl == yl + 1)
    requires y != r && (x == r ==> xo == ro)
    modifies r
    ensures n <= xl && Outside(r, old(r[..]), ro, xl)
    ensures n == 0 <==> old(Num(x, xo, xl)) < d * Num(y, 0, yl)
    ensures n > 0 ==>
      && Num(r, ro, n) == old(Num(x, xo, xl)) - d * Num(y, 0, yl)
      && (forall k :: ro + n <= k < ro + xl ==> r[k] == 0)
      && Normal(r[ro..ro + n])
    ensures n == 0 ==> Congruent(Num(r, ro, xl), old(Num(x, xo, xl)) - d * Num(y, 0, yl), Pow(xl))
  {
    hide Val, Pow;
    SplitTop(x[xo..xo + xl], yl);
    assert x[xo..xo + xl][..yl] == x[xo..xo + yl];
    var c: int, b: int := MulSubLoop(x, xo, d, y, yl, r, ro);
    if xl == yl {
      NoBorrowIff(r[ro..ro + xl], b + c);
      assert Shifted(Num(r, ro, xl), old(Num(x, xo, xl)) - d * Num(y, 0, yl), Pow(xl), b + c);
      if c != 0 || b != 0 { return 0; }
    } else {
      b := TopColumn(x, xo, yl, c, b, r, ro);
      NoBorrowIff(r[ro..ro + xl], b);
      assert Shifted(Num(r, ro, xl), old(Num(x, xo, xl)) - d * Num(y, 0, yl), Pow(xl), b);
    }
    if b != 0 { return 0; }
    n := Strip(r, ro, xl);
  }

  /** The extra digit of x against the outstanding carry and borrow. */
  method TopColumn(x: array<Digit>, xo: nat, yl: nat, c: Digit, b: Digit, r: array<Digit>, ro: nat) returns (b': Digit)
    requires xo + yl < x.Length && ro + yl < r.Length && (x == r ==> xo == ro)
    modifies r
    ensures Outside(r, old(r[..]), ro + yl, 1)
    ensures Num(r, ro, yl + 1) - Pow(yl + 1) * b' == old(Num(r, ro, yl)) - Pow(yl) * (b + c) + Pow(yl) * old(x[xo + yl])
  {
    hide Val, Pow;
    var s: Digit;
    ghost var low, xt, cb: int := r[ro..ro + yl], x[xo + yl], b + c;
    b', s := DSubB(x[xo + yl], c, b);
    ColumnDown(low, s, cb, b', xt, Val(low) - Pow(yl) * cb);
    r[ro + yl] := s;
    assert r[ro..ro + yl + 1] == low + [s];
  }

  lemma SplitTop(xs: seq<Digit>, n: nat)
    requires n <= |xs| <= n + 1
    ensures Val(xs) == Val(xs[..n]) + (if |xs| == n then 0 else Pow(n) * xs[n])
  {
    if |xs| == n { assert xs[..n] == xs; } else { NextDigit(xs, n); assert xs[..n + 1] == xs; }
  }

  /** A borrow is left exactly when the difference is negative. */
  lemma NoBorrowIff(s: seq<Digit>, c: int)
    requires c >= 0
    ensures Val(s) - Pow(|s|) * c < 0 <==> c != 0
  {
    ValBound(s);
    if c > 0 {
      MulMono(Pow(|s|), 1, c);
    }
  }

  method MulSubLoop(x: array<Digit>, xo: nat, d: Digit, y: array<Digit>, yl: nat, r: array<Digit>, ro: nat)
    returns (c: Digit, b: Digit)
    requires xo + yl <= x.Length && ro + yl <= r.Length && yl <= y.Length
    requires y != r && (x == r ==> xo == ro)
    modifies r
    ensures b <= 2 && Outside(r, old(r[..]), ro, yl)
    ensures Num(r, ro, yl) - Pow(yl) * (b + c) == old(Num(x, xo, yl)) - d * Num(y, 0, yl)
  {
    hide Val, Pow;
    EmptyVector();
    ghost var xs, ys, was := x[xo..xo + yl], y[0..yl], r[..];
    assert r[ro..ro + 0] == [] && xs[..0] == [] && ys[..0] == [] && xs[..yl] == xs && ys[..yl] == ys;
    c, b := 0, 0;
    for i := 0 to yl
      invariant b <= 2
      invariant forall k :: i <= k < yl ==> x[xo + k] == xs[k]
      invariant Outside(r, was, ro, i)
      invariant Num(r, ro, i) - Pow(i) * (b + c) == Val(xs[..i]) - d * Val(ys[..i])
    {
      ghost var cb: int := b + c;
      var c0: Digit, s: Digit;
      c, c0 := DMulC(d, y[i], c);
      b, s := DSubB(x[xo + i], c0, b);
      MulSubColumn(r[ro..ro + i], s, cb, b + c, d, xs, ys, i);
      r[ro + i] := s;
      assert r[ro..ro + i + 1] == r[ro..ro + i] + [s];
    }
  }

  lemma MulSubColumn(rs: seq<Digit>, s: Digit, c: int, c': int, d: int, xs: seq<Digit>, ys: seq<Digit>, i: nat)
    requires i < |xs| && i < |ys| && |rs| == i
    requires Val(rs) - Pow(i) * c == Val(xs[..i]) - d * Val(ys[..i])
    requires s - B * c' == xs[i] - d * ys[i] - c
    ensures Val(rs + [s]) - Pow(i + 1) * c' == Val(xs[..i + 1]) - d * Val(ys[..i + 1])
  {
    hide Val, Pow;
    ColumnDown(rs, s, c, c', xs[i] - d * ys[i], Val(xs[..i]) - d * Val(ys[..i]));
    NextDigit(xs, i);
    NextDigit(ys, i);
    MulSubStep(d, Val(ys[..i]), Pow(i), ys[i], xs[i]);
  }

  lemma MulSubStep(d: int, v: int, p: int, y: int, x: int)
    ensures d * (v + p * y) == d * v + p * (d * y)
    ensures p * (x - d * y) == p * x - p * (d * y)
  {
  }

  /** I_sub: x - y for y not larger than x; either operand may also be the result. */
  method ISub(x: array<Digit>, xl: nat, y: array<Digit>, yl: nat, r: array<Digit>) returns (n: nat)
    requires 0 < yl <= xl <= x.Length && yl <= y.Length && xl <= r.Length
    requires Num(y, 0, yl) <= Num(x, 0, xl)
    modifies r
    ensures 1 <= n <= xl && Outside(r, old(r[..]), 0, xl)
    ensures Num(r, 0, n) == old(Num(x, 0, xl)) - old(Num(y, 0, yl))
    ensures forall k :: n <= k < xl ==> r[k] == 0
    ensures Normal(r[0..n])
  {
    hide Val, Pow;
    ghost var xs, ys := x[0..xl], y[0..yl];
    assert xs[..yl] == x[0..yl];
    ValSplit(xs, yl);
    var c := SubLoop(x, y, yl, r);
    ghost var low := r[0..yl];
    assert x[yl..yl + (xl - yl)] == xs[yl..];
    c := BorrowLoop(x, yl, xl - yl, c, r, yl);
    ghost var rs := r[0..xl];
    assert rs[..yl] == low && rs[yl..] == r[yl..yl + (xl - yl)];
    JoinDifference(rs, xs, ys, yl, c);
    NoBorrow(rs, c);
    n := Strip(r, 0, xl);
  }

  lemma JoinDifference(rs: seq<Digit>, xs: seq<Digit>, ys: seq<Digit>, m: nat, c: int)
    requires |rs| == |xs| && m <= |rs|
    requires exists b :: Val(rs[..m]) - Pow(m) * b == Val(xs[..m]) - Val(ys)
                         && Val(rs[m..]) - Pow(|rs| - m) * c == Val(xs[m..]) - b
    ensures Val(rs) - Pow(|rs|) * c == Val(xs) - Val(ys)
  {
    hide Val, Pow;
    var b :| Val(rs[..m]) - Pow(m) * b == Val(xs[..m]) - Val(ys)
             && Val(rs[m..]) - Pow(|rs| - m) * c == Val(xs[m..]) - b;
    ValSplit(rs, m);
    ValSplit(xs, m);
    PowAdd(m, |rs| - m);
    JoinProduct(Pow(m), Pow(|rs| - m), Val(rs[m..]), Val(xs[m..]), b, c);
  }

  lemma JoinProduct(p: int, q: int, r: int, x: int, b: int, c: int)
    requires r - q * c == x - b
    ensures p * r - (p * q) * c == p * x - p * b
  {
    MulAssoc(p, q, c);
    assert p * (r - q * c) == p * r - p * (q * c);
    assert p * (x - b) == p * x - p * b;
  }

  method SubLoop(x: array<Digit>, y: array<Digit>, yl: nat, r: array<Digit>) returns (c: Digit)
    requires yl <= x.Length && yl <= y.Length && yl <= r.Length
    modifies r
    ensures c <= 1 && Outside(r, old(r[..]), 0, yl)
    ensures Num(r, 0, yl) - Pow(yl) * c == old(Num(x, 0, yl)) - old(Num(y, 0, yl))
  {
    hide Val, Pow, Plus, Minus, Carry;
    EmptyVector();
    ghost var xs, ys, was := x[0..yl], y[0..yl], r[..];
    assert r[0..0] == [] && xs[..0] == [] && ys[..0] == [] && xs[..yl] == xs && ys[..yl] == ys;
    c := 0;
    for i := 0 to yl
      invariant c <= 1
      invariant forall k :: i <= k < yl ==> x[k] == xs[k] && y[k] == ys[k]
      invariant Outside(r, was, 0, i)
      invariant Num(r, 0, i) - Pow(i) * c == Val(xs[..i]) - 1 * Val(ys[..i])
    {
      var t := Plus(y[i], c);
      var s := Minus(x[i], t);
      SubColumn(x[i], y[i], c);
      var c' := Carry(t < c) + Carry(s > x[i]);
      MulSubColumn(r[0..i], s, c, c', 1, xs, ys, i);
      c := c';
      r[i] := s;
      assert r[0..i + 1] == r[0..i] + [s];
    }
  }

  /** One digit of a difference with borrow. */
  lemma SubColumn(x: Digit, y: Digit, c: Digit)
    requires c <= 1
    ensures var t := Plus(y, c);
            var s := Minus(x, t);
            s + y + c == x + B * (Carry(t < c) + Carry(s > x))
            && Carry(t < c) + Carry(s > x) <= 1
  {
  }

  lemma SplitNum(r: array<Digit>, s: nat, rl: nat)
    requires s <= rl <= r.Length
    ensures Num(r, 0, rl) == Num(r, 0, s) + Pow(s) * Num(r, s, rl - s)
    ensures 0 <= Num(r, 0, s) < Pow(s)
  {
    ValSplit(r[0..rl], s);
    ValBound(r[0..s]);
    assert r[0..rl][..s] == r[0..s] && r[0..rl][s..] == r[s..s + (rl - s)];
  }

  lemma NormalTop(s: seq<Digit>)
    requires |s| > 0 && Val(s) >= Pow(|s| - 1)
    ensures Normal(s)
  {
    if s[|s| - 1] == 0 {
      ValTop(s);
    }
  }

  /** MOVE_DIGITS(r, x, n) unless they are the same vector. */
  method MoveDigits(x: array<Digit>, n: nat, r: array<Digit>)
    requires n <= x.Length && n <= r.Length
    modifies r
    ensures r[0..n] == old(x[0..n])
  {
    if x != r {
      var i := 0;
      while i < n
        invariant 0 <= i <= n
        invariant r[0..i] == x[0..i]
      {
        r[i] := x[i];
        i := i + 1;
      }
    }
  }

  /** ZERO_DIGITS. */
  method ZeroDigits(q: array<Digit>, n: nat)
    requires n <= q.Length
    modifies q
    ensures forall k :: 0 <= k < n ==> q[k] == 0
  {
    for i := 0 to n
      invariant forall k :: 0 <= k < i ==> q[k] == 0
    {
      q[i] := 0;
    }
  }

  lemma SumNormal(xs: seq<Digit>, rs: seq<Digit>, d: int)
    requires Normal(xs) && d >= 0 && Val(rs) == Val(xs) + d
    requires |rs| == |xs| || (|rs| == |xs| + 1 && rs[|rs| - 1] == 1)
    ensures Normal(rs)
  {
    if |rs| == |xs| && |xs| > 1 {
      ValZeros(xs);
      NormalLower(xs);
      NormalTop(rs);
    }
  }
}

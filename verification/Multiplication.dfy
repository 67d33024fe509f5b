/** Products of digit vectors: schoolbook multiplication with its short cuts for the
    digits 0, 1 and 2 (I_mul), squaring with doubled cross products (I_sqr), and
    multiplication by one digit (D_mul). */
module Multiplication {
  import opened Digits
  import opened DigitOps
  import opened Vectors

  /** One column of r + d * y; carries are collected in c. */
  lemma AddMulColumn(rs: seq<Digit>, s: Digit, c: int, c': int, d: int, xs: seq<Digit>, ys: seq<Digit>, i: nat)
    requires i < |xs| && i < |ys| && |rs| == i
    requires Val(rs) + Pow(i) * c == Val(xs[..i]) + d * Val(ys[..i])
    requires s + B * c' == xs[i] + d * ys[i] + c
    ensures Val(rs + [s]) + Pow(i + 1) * c' == Val(xs[..i + 1]) + d * Val(ys[..i + 1])
  {
    hide Val, Pow;
    Column(rs, s, c, c', xs[i] + d * ys[i], Val(xs[..i]) + d * Val(ys[..i]));
    NextDigit(xs, i);
    NextDigit(ys, i);
    MulSubStep(d, Val(ys[..i]), Pow(i), ys[i], 0);
    assert Pow(i) * (xs[i] + d * ys[i]) == Pow(i) * xs[i] + Pow(i) * (d * ys[i]);
  }

  /** The inner loop of I_mul: add d * y to the yl digits of r at ro.  The carries of
      the product (cp) and of the addition (c) run side by side. */
  method AddMulLoop(d: Digit, y: array<Digit>, yl: nat, r: array<Digit>, ro: nat) returns (c: Digit, cp: Digit)
    requires yl <= y.Length && ro + yl <= r.Length && y != r
    modifies r
    ensures c <= 2 && Outside(r, old(r[..]), ro, yl)
    ensures Num(r, ro, yl) + Pow(yl) * (c + cp) == old(Num(r, ro, yl)) + d * Num(y, 0, yl)
  {
    hide Val, Pow;
    EmptyVector();
    ghost var xs, ys, was := r[ro..ro + yl], y[0..yl], r[..];
    assert r[ro..ro + 0] == [] && xs[..0] == [] && ys[..0] == [] && xs[..yl] == xs && ys[..yl] == ys;
    c, cp := 0, 0;
    if d == 0 {
      ZeroProduct(ys);
      return;
    }
    for n := 0 to yl
      invariant c <= 2 && (d == 1 ==> cp == 0)
      invariant forall k :: n <= k < yl ==> r[ro + k] == xs[k]
      invariant Outside(r, was, ro, n)
      invariant Num(r, ro, n) + Pow(n) * (c + cp) == Val(xs[..n]) + d * Val(ys[..n])
    {
      ghost var cc: int := c + cp;
      var p: Digit;
      c, cp, p := MulDigit(d, y[n], r[ro + n], c, cp);
      AddMulColumn(r[ro..ro + n], p, cc, c + cp, d, xs, ys, n);
      r[ro + n] := p;
      assert r[ro..ro + n + 1] == r[ro..ro + n] + [p];
    }
  }

  lemma ZeroProduct(ys: seq<Digit>)
    ensures 0 * Val(ys) == 0 && Pow(|ys|) * 0 == 0
  {
  }

  /** One digit of the inner loop, by the case of the switch: 1, 2 or any other digit. */
  method MulDigit(d: Digit, y: Digit, r: Digit, ci: Digit, cpi: Digit) returns (c: Digit, cp: Digit, p: Digit)
    requires d != 0 && (d == 1 ==> cpi == 0)
    ensures d == 1 ==> cp == 0
    ensures p + B * (c + cp) == r + d * y + (ci + cpi)
    ensures c <= 2
  {
    cp := cpi;
    if d == 1 {
      c, p := DSumC(y, r, ci);
    } else if d == 2 {
      p := y;
      cp, p := DSumC(p, p, cpi);
      c, p := DSumC(p, r, ci);
    } else {
      cp, p := DMulC(d, y, cpi);
      c, p := DSumC(p, r, ci);
    }
  }

  /** Adding the next row of the product: r was X_i * y, and gains x_i * y at position i. */
  lemma RowSum(xs: seq<Digit>, i: nat, yv: int, low: int, old_: int, new_: int)
    requires i < |xs|
    requires low + Pow(i) * old_ == Val(xs[..i]) * yv && new_ == old_ + xs[i] * yv
    ensures low + Pow(i) * new_ == Val(xs[..i + 1]) * yv
  {
    NextDigit(xs, i);
    hide Val, Pow;
    RowProduct(Val(xs[..i]), Pow(i), xs[i], yv, old_);
  }

  lemma RowProduct(v: int, p: int, x: int, y: int, o: int)
    ensures (v + p * x) * y + p * o == v * y + p * (o + x * y)
  {
    MulDist(v, p * x, y);
    assert (p * x) * y == p * (x * y);
    assert p * (o + x * y) == p * o + p * (x * y);
  }

  /** The carry out of a row is a single digit. */
  lemma RowCarryFits(ws: seq<Digit>, ys: seq<Digit>, rs: seq<Digit>, d: Digit, c: int)
    requires |ws| == |ys| == |rs| && c >= 0
    requires Val(rs) + Pow(|ys|) * c == Val(ws) + d * Val(ys)
    ensures c < B
  {
    ValBound(ws);
    ValBound(ys);
    ValBound(rs);
    hide Val, Pow;
    MulMono(d, Val(ys), Pow(|ys|) - 1);
    MulMono(Pow(|ys|), d, B - 1);
    assert d * (Pow(|ys|) - 1) == d * Pow(|ys|) - d;
    if c >= B {
      MulMono(Pow(|ys|), B, c);
    }
  }

  /** One row: r[ro..] += d * y, with the carry stored in the next digit. */
  method AddRow(d: Digit, y: array<Digit>, yl: nat, r: array<Digit>, ro: nat)
    requires yl <= y.Length && ro + yl < r.Length && y != r
    modifies r
    ensures Outside(r, old(r[..]), ro, yl + 1)
    ensures Num(r, ro, yl + 1) == old(Num(r, ro, yl)) + d * Num(y, 0, yl)
  {
    hide Val, Pow;
    ghost var ws := r[ro..ro + yl];
    var c: int, cp: int := AddMulLoop(d, y, yl, r, ro);
    ghost var rs := r[ro..ro + yl];
    RowCarryFits(ws, y[0..yl], rs, d, c + cp);
    ValSnoc(rs, c + cp);
    r[ro + yl] := c + cp;
    assert r[ro..ro + yl + 1] == rs + [r[ro + yl]];
  }

  /** I_mul: the exact product, for a result vector whose first yl digits are zero. */
  method IMul(x: array<Digit>, xl: nat, y: array<Digit>, yl: nat, r: array<Digit>) returns (n: nat)
    requires 0 < xl <= x.Length && 0 < yl <= y.Length && xl + yl <= r.Length && x != r && y != r
    requires forall k :: 0 <= k < yl ==> r[k] == 0
    modifies r
    ensures n == xl + yl - 1 || n == xl + yl
    ensures Num(r, 0, n) == Num(x, 0, xl) * Num(y, 0, yl)
    ensures Num(x, 0, xl) != 0 && Num(y, 0, yl) != 0 && Normal(x[0..xl]) && Normal(y[0..yl]) ==> Normal(r[0..n])
  {
    hide Val, Pow, Normal;
    ghost var xs, yv := x[0..xl], Num(y, 0, yl);
    StartProduct(r, yl, xs, yv);
    for i := 0 to xl
      invariant Num(r, 0, i + yl) == Val(xs[..i]) * yv
    {
      SplitNum(r, i, i + yl);
      ghost var low, window := r[0..i], Num(r, i, yl);
      AddRow(x[i], y, yl, r, i);
      assert r[0..i] == low;
      SplitNum(r, i, i + yl + 1);
      RowSum(xs, i, yv, Val(low), window, Num(r, i, yl + 1));
    }
    assert xs[..xl] == xs;
    var t := xl + yl - 1;
    if r[t] == 0 {
      ValDropZeros(r[0..t + 1], t);
      assert r[0..t + 1][..t] == r[0..t];
      n := t;
    } else {
      n := t + 1;
    }
    ProductNormal(xs, y[0..yl], r[0..n]);
  }

  lemma StartProduct(r: array<Digit>, yl: nat, xs: seq<Digit>, yv: int)
    requires yl <= r.Length && forall k :: 0 <= k < yl ==> r[k] == 0
    ensures Num(r, 0, 0 + yl) == 0 == Val(xs[..0]) * yv
  {
    ValZeros(r[0..0 + yl]);
    assert xs[..0] == [];
  }

  /** A product of normal non-zero numbers needs no leading zero. */
  lemma ProductNormal(xs: seq<Digit>, ys: seq<Digit>, rs: seq<Digit>)
    requires |xs| > 0 && |ys| > 0 && (|rs| == |xs| + |ys| - 1 || (|rs| == |xs| + |ys| && rs[|rs| - 1] != 0))
    requires Val(rs) == Val(xs) * Val(ys)
    ensures Val(xs) != 0 && Val(ys) != 0 && Normal(xs) && Normal(ys) ==> Normal(rs)
  {
    if Val(xs) != 0 && Val(ys) != 0 && Normal(xs) && Normal(ys) && |rs| == |xs| + |ys| - 1 {
      NormalLower(xs);
      NormalLower(ys);
      PowAdd(|xs| - 1, |ys| - 1);
      ProductAtLeast(Pow(|xs| - 1), Val(xs), Pow(|ys| - 1), Val(ys));
      NormalTop(rs);
    }
  }

  /** D_mul: product with one digit; the result may overwrite x. */
  method DMul(x: array<Digit>, xl: nat, d: Digit, r: array<Digit>) returns (n: nat)
    requires 0 < xl <= x.Length && xl <= r.Length
    requires xl < r.Length || d * Num(x, 0, xl) < Pow(xl)
    modifies r
    ensures 1 <= n <= xl + 1 && n <= r.Length
    ensures Num(r, 0, n) == d * old(Num(x, 0, xl))
    ensures old(Normal(x[0..xl])) ==> Normal(r[0..n])
  {
    hide Val, Pow, Normal;
    ghost var xs := x[0..xl];
    if d == 0 {
      r[0] := 0;
      ZeroVector(r, xs);
      return 1;
    }
    if d == 1 {
      MoveDigits(x, xl, r);
      return xl;
    }
    var c := MulLoop(x, xl, d, r);
    ghost var rs := r[0..xl];
    if c == 0 {
      n := xl;
    } else {
      CarryNeedsRoom(rs, c, d * Val(xs));
      ValSnoc(rs, c);
      r[xl] := c;
      assert r[0..xl + 1] == rs + [c];
      n := xl + 1;
    }
    DigitTimesNormal(xs, d, r[0..n]);
  }

  lemma ZeroVector(r: array<Digit>, xs: seq<Digit>)
    requires r.Length > 0 && r[0] == 0
    ensures Num(r, 0, 1) == 0 * Val(xs) && Normal(r[0..1])
  {
    ValZeros(r[0..1]);
  }

  lemma CarryNeedsRoom(rs: seq<Digit>, c: Digit, v: int)
    requires Val(rs) + Pow(|rs|) * c == v && c != 0
    ensures v >= Pow(|rs|)
  {
    MulMono(Pow(|rs|), 1, c);
  }

  lemma DigitTimesNormal(xs: seq<Digit>, d: Digit, rs: seq<Digit>)
    requires |xs| > 0 && d >= 1 && (|rs| == |xs| || (|rs| == |xs| + 1 && rs[|rs| - 1] != 0))
    requires Val(rs) == d * Val(xs)
    ensures Normal(xs) ==> Normal(rs)
  {
    hide Val, Pow;
    if Normal(xs) && |rs| == |xs| && |xs| > 1 {
      ValZeros(xs);
      NormalLower(xs);
      MulMono(Val(xs), 1, d);
      NormalTop(rs);
    }
  }

  method MulLoop(x: array<Digit>, xl: nat, d: Digit, r: array<Digit>) returns (c: Digit)
    requires xl <= x.Length && xl <= r.Length && d >= 2
    modifies r
    ensures Outside(r, old(r[..]), 0, xl)
    ensures Num(r, 0, xl) + Pow(xl) * c == d * old(Num(x, 0, xl))
  {
    hide Val, Pow;
    EmptyVector();
    ghost var xs, was := x[0..xl], r[..];
    ghost var zs := seq(xl, i => 0 as Digit);
    ValZeros(zs);
    assert r[0..0] == [] && xs[..0] == [] && zs[..0] == [] && xs[..xl] == xs && zs[..xl] == zs;
    c := 0;
    for i := 0 to xl
      invariant forall k :: i <= k < xl ==> x[k] == xs[k]
      invariant Outside(r, was, 0, i)
      invariant Num(r, 0, i) + Pow(i) * c == Val(zs[..i]) + d * Val(xs[..i])
    {
      ghost var ci := c;
      var p: Digit := x[i];
      if d == 2 {
        c, p := DSumC(p, p, c);
      } else {
        c, p := DMulC(d, p, c);
      }
      AddMulColumn(r[0..i], p, ci, c, d, zs, xs, i);
      r[i] := p;
      assert r[0..i + 1] == r[0..i] + [p];
    }
  }

  /** The pending carries of a squaring row, weighed together: what is still to be added
      at the current column and the columns above. */
  ghost function Pending(y0: Digit, y1: Digit, y2: Digit, y3: Digit, z1: Digit): int {
    y0 + y2 + y3 + z1 + B * y1
  }

  /** One column of a squaring row: the doubled product 2 * d * y enters at r. */
  method SquareColumn(d: Digit, y: Digit, r: Digit, y0: Digit, y1: Digit, y2: Digit, y3: Digit, z1: Digit)
    returns (t: Digit, y0': Digit, y1': Digit, y2': Digit, y3': Digit, z1': Digit)
    ensures t + B * Pending(y0', y1', y2', y3', z1') == r + 2 * (d * y) + Pending(y0, y1, y2, y3, z1)
    ensures y0' <= 2 && y1' <= 2 && y2' <= 2 && y3' <= 2
  {
    var b1, b0 := DMulC(d, y, 0);
    var z0, z2;
    y0', z0 := DSumC(b0, b0, y0);
    y2', z2 := DSumC(z0, z1, y2);
    y3', t := DSumC(r, z2, y3);
    y1', z1' := DSumC(b1, b1, y1);
  }

  /** What digit d and the number `rest` above it contribute: (d + B*rest)^2 - (B*rest)^2. */
  ghost function RowValue(d: int, rest: int): int {
    d * d + 2 * d * (B * rest)
  }

  /** The running equation of a squaring row after its first 1 + j columns. */
  lemma SquareStep(rs: seq<Digit>, t: Digit, k: int, k': int, d: Digit, ws: seq<Digit>, ys: seq<Digit>, j: nat)
    requires j < |ys| && 1 + j < |ws| && |rs| == 1 + j
    requires Val(rs) + Pow(1 + j) * k == Val(ws[..1 + j]) + d * d + 2 * d * (B * Val(ys[..j]))
    requires t + B * k' == ws[1 + j] + 2 * (d * ys[j]) + k
    ensures Val(rs + [t]) + Pow(2 + j) * k' == Val(ws[..2 + j]) + d * d + 2 * d * (B * Val(ys[..j + 1]))
  {
    var v := Val(ws[..1 + j]) + d * d + 2 * d * (B * Val(ys[..j]));
    assert Pow(1 + j) == B * Pow(j);
    hide Val, Pow;
    Column(rs, t, k, k', ws[1 + j] + 2 * (d * ys[j]), v);
    NextDigit(ws, 1 + j);
    NextDigit(ys, j);
    SquareProduct(Pow(j), ws[1 + j], d, ys[j], Val(ys[..j]));
  }

  lemma SquareProduct(p: int, w: int, d: int, y: int, v: int)
    ensures (B * p) * (w + 2 * (d * y)) == (B * p) * w + (2 * d * (B * (v + p * y)) - 2 * d * (B * v))
  {
    assert d * (p * y) == p * (d * y);
    assert d * (v + p * y) == d * v + d * (p * y);
    assert p * (w + 2 * (d * y)) == p * w + 2 * (p * (d * y));
  }

  /** The columns of one squaring row: d^2 first, then the doubled products with the yl digits
      of x from yo on, which may lie in r above the columns. */
  method SquareLoop(d: Digit, x: array<Digit>, yo: nat, yl: nat, r: array<Digit>, ro: nat)
    returns (y0: Digit, y1: Digit, y2: Digit, y3: Digit, z1: Digit)
    requires yo + yl <= x.Length && ro + yl + 1 < r.Length && (x == r ==> ro + yl + 1 <= yo)
    modifies r
    ensures y0 <= 2 && y1 <= 2 && y2 <= 2 && y3 <= 2 && (yl == 0 ==> y0 == y1 == y2 == 0)
    ensures Outside(r, old(r[..]), ro, yl + 1)
    ensures Num(r, ro, yl + 1) + Pow(yl + 1) * Pending(y0, y1, y2, y3, z1)
         == old(Num(r, ro, yl + 1)) + RowValue(d, old(Num(x, yo, yl)))
  {
    hide Val, Pow, Pending;
    EmptyVector();
    ghost var ws, ys, was := r[ro..ro + (yl + 1)], x[yo..yo + yl], r[..];
    assert ws[..yl + 1] == ws && ys[..yl] == ys && ws[..0] == [] && ys[..0] == [] && r[ro..ro] == [];
    y0, y1, y2 := 0, 0, 0;
    var b1, b0 := DMulC(d, d, 0);
    var t: Digit;
    y3, t := DSumC(r[ro], b0, 0);
    FirstColumn(ws[0], d, t, b1, b0, y3);
    z1 := b1;
    Column([], t, 0, Pending(0, 0, 0, y3, z1), ws[0] + d * d, 0);
    NextDigit(ws, 0);
    r[ro] := t;
    assert r[ro..ro + 1] == [] + [t];
    for j := 0 to yl
      invariant y0 <= 2 && y1 <= 2 && y2 <= 2 && y3 <= 2 && (j == 0 ==> y0 == y1 == y2 == 0)
      invariant forall k :: 1 + j <= k < yl + 1 ==> ws[k] == r[ro + k]
      invariant x[yo..yo + yl] == ys
      invariant Outside(r, was, ro, 1 + j)
      invariant Num(r, ro, 1 + j) + Pow(1 + j) * Pending(y0, y1, y2, y3, z1)
             == Val(ws[..1 + j]) + d * d + 2 * d * (B * Val(ys[..j]))
    {
      ghost var k := Pending(y0, y1, y2, y3, z1);
      t, y0, y1, y2, y3, z1 := SquareColumn(d, x[yo + j], r[ro + 1 + j], y0, y1, y2, y3, z1);
      SquareStep(r[ro..ro + 1 + j], t, k, Pending(y0, y1, y2, y3, z1), d, ws, ys, j);
      r[ro + 1 + j] := t;
      assert r[ro..ro + 2 + j] == r[ro..ro + 1 + j] + [t];
    }
  }

  lemma FirstColumn(w: Digit, d: Digit, t: Digit, b1: Digit, b0: Digit, y3: Digit)
    requires b1 * B + b0 == d * d && t + B * y3 == w + b0
    ensures t + B * Pending(0, 0, 0, y3, b1) == w + d * d
  {
  }

  /** The column after the last product: what is pending, and the digit above it. */
  method CloseRow(r: Digit, y0: Digit, y1: Digit, y2: Digit, y3: Digit, z1: Digit) returns (t: Digit, top: Digit)
    requires y1 <= 2
    ensures t + B * top == r + Pending(y0, y1, y2, y3, z1)
  {
    var y2', z2 := DSumC(y0, z1, y2);
    var y3';
    y3', t := DSumC(r, z2, y3);
    top := y1 + y2' + y3';
  }

  lemma TopOf(r: array<Digit>, ro: nat, n: nat)
    requires ro + n < r.Length
    ensures Num(r, ro, n + 1) == Num(r, ro, n) + Pow(n) * r[ro + n]
  {
    ValSnoc(r[ro..ro + n], r[ro + n]);
    assert r[ro..ro + n + 1] == r[ro..ro + n] + [r[ro + n]];
  }

  lemma NoTop(rs: seq<Digit>, top: int)
    requires top >= 0 && Val(rs) + Pow(|rs|) * top < Pow(|rs|)
    ensures top == 0
  {
    if top > 0 {
      MulMono(Pow(|rs|), 1, top);
    }
  }

  /** Digits a row writes when yl digits follow the one squared. */
  function RowDigits(yl: nat): nat {
    if yl > 0 then yl + 3 else 2
  }

  /** One row of I_sqr.  The row for the last digit has no further digit to store. */
  method SquareRow(d: Digit, x: array<Digit>, yo: nat, yl: nat, r: array<Digit>, ro: nat)
    requires yo + yl <= x.Length && (x == r ==> ro + yl + 1 <= yo)
    requires ro + yl + 1 < r.Length && (yl > 0 ==> ro + yl + 2 < r.Length)
    requires yl == 0 ==> Num(r, ro, 2) + RowValue(d, 0) < Pow(2)
    modifies r
    ensures Outside(r, old(r[..]), ro, RowDigits(yl))
    ensures Num(r, ro, RowDigits(yl)) == old(Num(r, ro, yl + 2)) + RowValue(d, old(Num(x, yo, yl)))
  {
    hide Val, Pow, Pending, RowValue;
    ghost var n := yl + 1;
    ghost var high := r[ro + n];
    TopOf(r, ro, n);
    EmptyNum(x, yo);
    var y0, y1, y2, y3, z1 := SquareLoop(d, x, yo, yl, r, ro);
    var s := ro + yl + 1;
    var t, top := CloseRow(r[s], y0, y1, y2, y3, z1);
    ghost var rs, k := r[ro..ro + n], Pending(y0, y1, y2, y3, z1);
    Column(rs, t, k, top, high, Val(rs) + Pow(n) * k);
    r[s] := t;
    ghost var rs' := r[ro..ro + n + 1];
    assert rs' == rs + [t];
    if yl != 0 {
      ValSnoc(rs', top);
      r[s + 1] := top;
      assert r[ro..ro + n + 2] == rs' + [top];
    } else {
      NoTop(rs', top);
    }
  }

  lemma EmptyNum(x: array<Digit>, yo: nat)
    requires yo <= x.Length
    ensures Num(x, yo, 0) == 0
  {
  }

  /** Taking the next digit out of the square that is still to be added. */
  lemma SquareSplit(xs: seq<Digit>, i: nat)
    requires i < |xs|
    ensures Sq(Val(xs[i..])) == RowValue(xs[i], Val(xs[i + 1..])) + B * (B * Sq(Val(xs[i + 1..])))
  {
    assert xs[i..][1..] == xs[i + 1..];
    SquareOfSum(xs[i], Val(xs[i + 1..]));
  }

  ghost function Sq(v: int): int {
    v * v
  }

  lemma SquareOfSum(d: int, v: int)
    ensures Sq(d + B * v) == RowValue(d, v) + B * (B * Sq(v))
  {
  }

  /** I_sqr: the exact square, for a result vector whose first xl + 1 digits are zero, or
      whose first xl digits are zero and are followed by x itself. */
  method ISqr(x: array<Digit>, xo: nat, xl: nat, r: array<Digit>) returns (n: nat)
    requires 0 < xl && xo + xl <= x.Length && 2 * xl <= r.Length && (x == r ==> xo == xl)
    requires (forall k :: 0 <= k < xl ==> r[k] == 0) && (x == r || r[xl] == 0)
    modifies r
    ensures n == 2 * xl - 1 || n == 2 * xl
    ensures Num(r, 0, n) == old(Num(x, xo, xl)) * old(Num(x, xo, xl))
    ensures old(Num(x, xo, xl)) != 0 && old(Normal(x[xo..xo + xl])) ==> Normal(r[0..n])
  {
    hide Val, Pow, Normal, Sq, RowValue;
    ghost var xs := x[xo..xo + xl];
    SquareRows(x, xo, xl, r);
    var t := 2 * xl - 1;
    if r[t] == 0 {
      ValDropZeros(r[0..t + 1], t);
      assert r[0..t + 1][..t] == r[0..t];
      n := t;
    } else {
      n := t + 1;
    }
    ProductNormal(xs, xs, r[0..n]);
  }

  /** All rows of I_sqr. */
  method SquareRows(x: array<Digit>, xo: nat, xl: nat, r: array<Digit>)
    requires 0 < xl && xo + xl <= x.Length && 2 * xl <= r.Length && (x == r ==> xo == xl)
    requires (forall k :: 0 <= k < xl ==> r[k] == 0) && (x == r || r[xl] == 0)
    modifies r
    ensures Num(r, 0, 2 * xl) == old(Num(x, xo, xl)) * old(Num(x, xo, xl))
  {
    hide Val, Pow, Sq, RowValue;
    ghost var xs := x[xo..xo + xl];
    var d := x[xo];
    if x == r { x[xo] := 0; }
    assert Ahead(x, xo, xs, 1);
    StartSquare(r, xs);
    hide Ahead;
    for i := 0 to xl
      invariant Num(r, 0, SquareLength(i, xl)) + Pow(2 * i) * Sq(Val(xs[i..])) == Sq(Val(xs))
      invariant i < xl ==> d == xs[i]
      invariant Ahead(x, xo, xs, i + 1)
    {
      d := SquareAdvance(x, xo, xl, r, i, d, xs);
    }
    SquareDone(xs);
  }

  /** The digits from position i on are still in place. */
  ghost predicate Ahead(x: array<Digit>, xo: nat, xs: seq<Digit>, i: nat)
    requires xo + |xs| <= x.Length
    reads x
  {
    i <= |xs| ==> x[xo + i..xo + |xs|] == xs[i..]
  }

  /** Digits of r in use before row i. */
  function SquareLength(i: nat, xl: nat): nat
    requires i <= xl
  {
    if i < xl then xl + 1 + i else 2 * xl
  }

  lemma StartSquare(r: array<Digit>, xs: seq<Digit>)
    requires |xs| < r.Length && forall k :: 0 <= k <= |xs| ==> r[k] == 0
    ensures Num(r, 0, |xs| + 1 + 0) + Pow(2 * 0) * Sq(Val(xs[0..])) == Sq(Val(xs))
  {
    assert Pow(2 * 0) == 1;
    hide Pow, Sq;
    ValZeros(r[0..|xs| + 1]);
    assert xs[0..] == xs;
  }

  lemma SquareDone(xs: seq<Digit>)
    ensures Pow(2 * |xs|) * Sq(Val(xs[|xs|..])) == 0
    ensures Sq(Val(xs)) == Val(xs) * Val(xs)
  {
    assert xs[|xs|..] == [];
  }

  /** What row i adds up to. */
  method SquareAddRow(d: Digit, x: array<Digit>, yo: nat, r: array<Digit>, i: nat, xl: nat, ghost xs: seq<Digit>)
    requires i < xl == |xs| && yo + xl - i - 1 <= x.Length && 2 * xl <= r.Length && (x == r ==> i + xl < yo)
    requires d == xs[i] && Num(x, yo, xl - i - 1) == Val(xs[i + 1..])
    requires Num(r, 0, SquareLength(i, xl)) + Pow(2 * i) * Sq(Val(xs[i..])) == Sq(Val(xs))
    modifies r
    ensures Num(r, 0, SquareLength(i + 1, xl)) + Pow(2 * (i + 1)) * Sq(Val(xs[i + 1..])) == Sq(Val(xs))
    ensures Outside(r, old(r[..]), 2 * i, RowDigits(xl - i - 1))
  {
    hide Val, Pow, Sq, RowValue;
    ghost var yl := xl - i - 1;
    SplitNum(r, 2 * i, SquareLength(i, xl));
    ghost var low, window := r[0..2 * i], Num(r, 2 * i, yl + 2);
    LastRowFits(xs, i, Val(low), window);
    SquareRow(d, x, yo, xl - i - 1, r, 2 * i);
    assert r[0..2 * i] == low;
    SplitNum(r, 2 * i, SquareLength(i + 1, xl));
    SquareRowSum(xs, i, Val(low), window, Num(r, 2 * i, RowDigits(yl)));
  }

  /** Row i: the next digit is read before its word may be overwritten. */
  method SquareAdvance(x: array<Digit>, xo: nat, xl: nat, r: array<Digit>, i: nat, d: Digit, ghost xs: seq<Digit>)
    returns (next: Digit)
    requires i < xl == |xs| && xo + xl <= x.Length && 2 * xl <= r.Length && (x == r ==> xo == xl)
    requires d == xs[i] && Ahead(x, xo, xs, i + 1)
    requires Num(r, 0, SquareLength(i, xl)) + Pow(2 * i) * Sq(Val(xs[i..])) == Sq(Val(xs))
    modifies r
    ensures Num(r, 0, SquareLength(i + 1, xl)) + Pow(2 * (i + 1)) * Sq(Val(xs[i + 1..])) == Sq(Val(xs))
    ensures i + 1 < xl ==> next == xs[i + 1]
    ensures Ahead(x, xo, xs, i + 2)
  {
    hide Val, Pow, Sq, Num, SquareLength;
    next := if i + 1 < xl then x[xo + i + 1] else 0;
    RowKeepsAhead(x, xo, xs, i);
    SquareAddRow(d, x, xo + i + 1, r, i, xl, xs);
  }

  lemma RowKeepsAhead(x: array<Digit>, xo: nat, xs: seq<Digit>, i: nat)
    requires i < |xs| && xo + |xs| <= x.Length && Ahead(x, xo, xs, i + 1)
    ensures Num(x, xo + i + 1, |xs| - i - 1) == Val(xs[i + 1..])
    ensures i + 1 < |xs| ==> x[xo + i + 1] == xs[i + 1] && x[xo + i + 2..xo + |xs|] == xs[i + 2..]
  {
    if i + 1 < |xs| {
      var y := x[xo + i + 1..xo + |xs|];
      assert y[0] == xs[i + 1..][0];
      assert y[1..] == xs[i + 1..][1..];
    }
  }

  lemma SquareRowSum(xs: seq<Digit>, i: nat, low: int, window: int, window': int)
    requires i < |xs|
    requires window' == window + RowValue(xs[i], Val(xs[i + 1..]))
    ensures low + Pow(2 * i) * window' + Pow(2 * (i + 1)) * Sq(Val(xs[i + 1..]))
         == low + Pow(2 * i) * window + Pow(2 * i) * Sq(Val(xs[i..]))
  {
    SquareSplit(xs, i);
    assert Pow(2 * (i + 1)) == B * (B * Pow(2 * i));
    hide Val, Pow, Sq, RowValue;
    SquareRowProduct(Pow(2 * i), window, RowValue(xs[i], Val(xs[i + 1..])), Sq(Val(xs[i + 1..])));
  }

  lemma SquareRowProduct(p: int, w: int, v: int, s: int)
    ensures p * (w + v) + (B * (B * p)) * s == p * w + p * (v + B * (B * s))
  {
    assert p * (w + v) == p * w + p * v;
    assert p * (v + B * (B * s)) == p * v + p * (B * (B * s));
  }

  /** The square of an n-digit number has at most 2n digits, so the last row cannot overflow. */
  lemma LastRowFits(xs: seq<Digit>, i: nat, low: int, window: int)
    requires i < |xs| && low >= 0
    requires low + Pow(2 * i) * window + Pow(2 * i) * Sq(Val(xs[i..])) == Sq(Val(xs))
    ensures i + 1 == |xs| ==> window + RowValue(xs[i], 0) < Pow(2)
  {
    hide Val, Pow, Sq, RowValue;
    if i + 1 == |xs| {
      LastRowValue(xs, i);
      SquareTop(xs, i);
      LastRowProduct(Pow(2 * i), window, RowValue(xs[i], 0), low, Pow(2));
    }
  }

  lemma LastRowValue(xs: seq<Digit>, i: nat)
    requires i + 1 == |xs|
    ensures Sq(Val(xs[i..])) == RowValue(xs[i], 0)
  {
    assert xs[i + 1..] == [] && Val([]) == 0;
    SquareSplit(xs, i);
    assert Sq(0) == 0;
  }

  lemma SquareTop(xs: seq<Digit>, i: nat)
    requires i + 1 == |xs|
    ensures Sq(Val(xs)) < Pow(2 * i) * Pow(2)
  {
    hide Val, Pow, Sq;
    ValBound(xs);
    PowAdd(|xs|, |xs|);
    PowAdd(2 * i, 2);
    SquareBelow(Val(xs), Pow(|xs|));
  }

  lemma LastRowProduct(p: int, w: int, v: int, low: int, t: int)
    requires p > 0 && low >= 0 && low + p * w + p * v < p * t
    ensures w + v < t
  {
    MulDist(w, v, p);
    if w + v >= t {
      MulMono(p, t, w + v);
    }
  }

  lemma SquareBelow(v: int, p: int)
    requires 0 <= v < p
    ensures Sq(v) < p * p
  {
    MulMono(v, v, p);
    MulMono(p, v + 1, p);
  }

  /** I_sqr of a number and I_mul of the number by itself leave the same digits. */
  method SqrMulAgree(x: array<Digit>, xl: nat, r: array<Digit>, r': array<Digit>) returns (n: nat, n': nat)
    requires 0 < xl <= x.Length && 2 * xl <= r.Length && 2 * xl <= r'.Length
    requires x != r && x != r' && r != r'
    requires Normal(x[0..xl]) && Num(x, 0, xl) != 0
    requires (forall k :: 0 <= k <= xl ==> r[k] == 0) && (forall k :: 0 <= k < xl ==> r'[k] == 0)
    modifies r, r'
    ensures n <= r.Length && n' <= r'.Length
    ensures n == n' && r[0..n] == r'[0..n']
    ensures Num(r, 0, n) == Num(x, 0, xl) * Num(x, 0, xl)
  {
    hide Val, Normal;
    n := ISqr(x, 0, xl, r);
    n' := IMul(x, xl, x, xl, r');
    NormalUnique(r[0..n], r'[0..n']);
  }
}

/** do_list_to_integer: an optional sign and a run of decimal digits at the head of an
    Erlang list, turned into an integer that may need a bignum. */
module BigParse {
  import opened Digits
  import opened DigitOps
  import opened Vectors
  import opened Multiplication
  import opened Decimal
  import opened BigText
  import opened Integers

  /** A list element: a fixnum, or any other term. */
  datatype Elem = Fix(v: int) | Term

  /** A list, possibly improper: the tail after the last cons is [] or another term. */
  datatype List = Nil | Cons(head: Elem, tail: List) | NonList

  datatype Outcome = BadStructure | NoInteger | SomeInteger | AllInteger

  const SMALL_DIGITS: nat := 17

  predicate DigitElem(e: Elem) {
    e.Fix? && '0' as int <= e.v <= '9' as int
  }

  /** The digits at the head of a list, and what follows them. */
  function Run(l: List): (s: string)
    ensures AllDigits(s)
  {
    if l.Cons? && DigitElem(l.head) then [l.head.v as char] + Run(l.tail) else ""
  }

  function After(l: List): List {
    if l.Cons? && DigitElem(l.head) then After(l.tail) else l
  }

  function Skip(l: List, n: nat): List
    requires n <= |Run(l)|
  {
    if n == 0 then l else Skip(l.tail, n - 1)
  }

  /** Division truncating toward zero, as C divides. */
  function TruncDiv(a: int, b: int): int
    requires b > 0
  {
    if a >= 0 then a / b else -((-a) / b)
  }

  /** The words of digits that the parser allocates for n decimal digits. */
  function BufferDigits(n: nat): int {
    var lg2 := TruncDiv(Int32(Int32(n + 1) * 230), 69) + 1;
    TruncDiv(lg2 + D_EXP - 1, D_EXP)
  }

  /** The longest digit run for which (n + 1) * 230 is still a 32-bit int. */
  const MAX_RUN: nat := 9336884

  lemma {:induction false} DecimalBelowBinary(n: nat)
    ensures Pow10(n) <= Pow2((n + 1) * 10 / 3 + 1)
  {
    if n < 3 {
      assert Pow10(0) == 1 && Pow10(1) == 10 && Pow10(2) == 100;
      assert Pow2(4) == 16 && Pow2(7) == 128 && Pow2(11) == 2048;
    } else {
      DecimalBelowBinary(n - 3);
      assert Pow2(10) == 1024 && Pow10(3) == 1000;
      var e := (n - 2) * 10 / 3 + 1;
      assert (n + 1) * 10 / 3 + 1 == 10 + e;
      hide Pow2, Pow10;
      Pow2Add(10, e);
      Pow10Add(3, n - 3);
      MulMono(1000, Pow10(n - 3), Pow2(e));
    }
  }

  lemma BufferFormula(n: nat)
    requires n <= MAX_RUN
    ensures BufferDigits(n) == ((n + 1) * 10 / 3 + 64) / 64
    ensures 0 < BufferDigits(n) <= BIG_ARITY_MAX
  {
    assert Int32(n + 1) == n + 1;
    assert Int32((n + 1) * 230) == (n + 1) * 230;
    assert (n + 1) * 230 / 69 == (n + 1) * 10 / 3;
  }

  /** Up to MAX_RUN digits the buffer holds every number of that many decimal digits. */
  lemma BufferEnough(n: nat)
    requires n <= MAX_RUN
    ensures 0 < BufferDigits(n) <= BIG_ARITY_MAX
    ensures Pow10(n) <= Pow(BufferDigits(n))
  {
    hide Pow, Pow2, Pow10, BufferDigits;
    var lg2, m := (n + 1) * 10 / 3 + 1, BufferDigits(n);
    BufferFormula(n);
    DecimalBelowBinary(n);
    PowIsPow2(m);
    Pow2Mono(lg2, m * D_EXP);
  }

  lemma {:induction false} DecimalAboveOctal(n: nat)
    ensures Pow2(3 * n) <= Pow10(n)
  {
    if n == 0 {
      assert 3 * n == 0;
    } else {
      DecimalAboveOctal(n - 1);
      assert Pow2(3 * n) == 2 * Pow2(3 * n - 1) == 4 * Pow2(3 * n - 2) == 8 * Pow2(3 * (n - 1));
    }
  }

  /** Beyond MAX_RUN the size computation overflows and the buffer is too small for any
      number of n decimal digits. */
  lemma BufferTooSmall(n: nat)
    requires n > MAX_RUN
    ensures BufferDigits(n) <= 0 || Pow(BufferDigits(n)) < Pow10(n - 1)
  {
    var m := BufferDigits(n);
    BufferCeiling(n);
    hide Pow, Pow2, Pow10, BufferDigits;
    if m > 0 {
      PowIsPow2(m);
      Pow2Increases(m * D_EXP, 3 * (n - 1));
      DecimalAboveOctal(n - 1);
    }
  }

  lemma BufferCeiling(n: nat)
    requires n > MAX_RUN
    ensures BufferDigits(n) * D_EXP < 3 * (n - 1)
  {
    var w := Int32(Int32(n + 1) * 230);
    if n < 18673770 {
      assert Int32(n + 1) == n + 1;
      assert w == (n + 1) * 230 - 0x1_0000_0000 < 0;
    } else {
      assert w / 69 <= 31122951;
    }
  }

  lemma Pow2Increases(m: nat, n: nat)
    requires m < n
    ensures Pow2(m) < Pow2(n)
  {
    Pow2Mono(m, n - 1);
  }

  /** Reading i digits into a machine word. */
  method ReadChunk(lst: List, i: nat) returns (m: int, rest: List)
    requires i <= D_DECIMAL_EXP && i <= |Run(lst)|
    ensures m == DecVal(Run(lst)[..i]) && 0 <= m < Pow10(i)
    ensures rest == Skip(lst, i) && Run(rest) == Run(lst)[i..]
  {
    ghost var run := Run(lst);
    m, rest := 0, lst;
    for k := 0 to i
      invariant m == DecVal(run[..k]) && 0 <= m < Pow10(k)
      invariant Run(rest) == run[k..]
      invariant rest == Skip(lst, k)
    {
      assert run[..k + 1][..k] == run[..k];
      SkipNext(lst, k);
      m := 10 * m + (rest.head.v - '0' as int);
      rest := rest.tail;
    }
  }

  lemma {:induction false} SkipNext(l: List, k: nat)
    requires k < |Run(l)|
    ensures Skip(l, k).Cons? && DigitElem(Skip(l, k).head) && Skip(l, k).head.v as char == Run(l)[k]
    ensures Skip(l, k + 1) == Skip(l, k).tail
  {
    if k > 0 { SkipNext(l.tail, k - 1); }
  }

  /** An integer under construction: a fixnum, or n digits in the heap buffer. */
  datatype Cell = FixCell(v: int) | HeapCell(n: nat)

  /** What a cell stands for, in the form big_norm leaves it. */
  ghost predicate Holds(hp: array<Digit>, c: Cell, v: int)
    reads hp
  {
    match c
    case FixCell(x) => x == v && 0 <= v <= MAX_SMALL
    case HeapCell(n) => 0 < n <= hp.Length && Num(hp, 0, n) == v && Normal(hp[0..n])
  }

  /** big_norm for a non-negative number of at most BIG_ARITY_MAX digits. */
  method BigNorm(hp: array<Digit>, n: nat) returns (c: Cell)
    requires 0 < n <= hp.Length && Normal(hp[0..n])
    ensures Holds(hp, c, Num(hp, 0, n))
    ensures c.HeapCell? <==> Num(hp, 0, n) > MAX_SMALL
  {
    if n == 1 {
      OneDigit(hp);
      if hp[0] <= MAX_SMALL {
        return FixCell(hp[0]);
      }
    } else {
      LongIsBig(hp[0..n]);
    }
    return HeapCell(n);
  }

  /** small_to_big when the number is a fixnum. */
  method ToBig(hp: array<Digit>, c: Cell, ghost v: int) returns (n: nat)
    requires hp.Length > 0 && Holds(hp, c, v)
    modifies hp
    ensures 0 < n <= hp.Length && Num(hp, 0, n) == v && Normal(hp[0..n])
  {
    match c
    case FixCell(x) =>
      hp[0] := x;
      OneDigit(hp);
      n := 1;
    case HeapCell(k) =>
      n := k;
  }

  /** big_plus_small in place. */
  method PlusSmall(hp: array<Digit>, n: nat, m: Digit) returns (c: Cell)
    requires 0 < n <= hp.Length && Normal(hp[0..n]) && Num(hp, 0, n) + m < Pow(hp.Length)
    modifies hp
    ensures Holds(hp, c, old(Num(hp, 0, n)) + m)
    ensures c.HeapCell? <==> old(Num(hp, 0, n)) + m > MAX_SMALL
  {
    hide Val, Pow, Normal;
    ghost var xs := hp[0..n];
    var k := DAdd(hp, 0, n, m, hp, 0);
    SumNormal(xs, hp[0..k], m);
    c := BigNorm(hp, k);
  }

  /** One round: res * 10^9 + m, converting fixnums to bignums on the way. */
  method TimesPlus(hp: array<Digit>, c: Cell, m: Digit, ghost v: int) returns (c': Cell)
    requires hp.Length > 0 && Holds(hp, c, v) && v * D_DECIMAL_BASE + m < Pow(hp.Length)
    modifies hp
    ensures Holds(hp, c', v * D_DECIMAL_BASE + m)
  {
    hide Val, Pow, Normal, Holds;
    var n := ToBig(hp, c, v);
    n := DMul(hp, n, D_DECIMAL_BASE, hp);
    c' := BigNorm(hp, n);
    n := ToBig(hp, c', v * D_DECIMAL_BASE);
    c' := PlusSmall(hp, n, m);
  }

  /** Ten to the ninth more for every nine digits read. */
  lemma {:induction false} DecValAppend(s: string, t: string)
    ensures DecVal(s + t) == DecVal(s) * Pow10(|t|) + DecVal(t)
  {
    if t == "" {
      assert s + t == s;
    } else {
      var k := |t| - 1;
      assert (s + t)[..|s + t| - 1] == s + t[..k];
      DecValAppend(s, t[..k]);
      MulAssoc(10, DecVal(s), Pow10(k));
      assert DecVal(s) * Pow10(k + 1) == 10 * (DecVal(s) * Pow10(k));
    }
  }

  lemma {:induction false} DecValBound(s: string)
    requires AllDigits(s)
    ensures 0 <= DecVal(s) < Pow10(|s|)
  {
    if s != "" { DecValBound(s[..|s| - 1]); }
  }

  lemma NextChunk(run: string, j: nat, k: nat, m: int, words: nat)
    requires AllDigits(run) && j + k <= |run| && k == D_DECIMAL_EXP
    requires m == DecVal(run[j..][..k]) && Pow10(|run|) <= Pow(words)
    ensures DecVal(run[..j + k]) == DecVal(run[..j]) * D_DECIMAL_BASE + m
    ensures 0 <= DecVal(run[..j + k]) < Pow(words)
  {
    assert run[..j + k] == run[..j] + run[j..][..k];
    DecValAppend(run[..j], run[j..][..k]);
    DecimalBase();
    PrefixBelow(run, j + k);
  }

  lemma PrefixBelow(run: string, j: nat)
    requires AllDigits(run) && j <= |run|
    ensures 0 <= DecVal(run[..j]) < Pow10(|run|)
  {
    DecValBound(run[..j]);
    Pow10Add(j, |run| - j);
    MulMono(Pow10(j), 1, Pow10(|run| - j));
  }

  method NextNine(hp: array<Digit>, c: Cell, lst: List, ghost run: string, ghost j: nat) returns (c': Cell, rest: List)
    requires hp.Length > 0 && AllDigits(run) && j + D_DECIMAL_EXP <= |run| && Pow10(|run|) <= Pow(hp.Length)
    requires Run(lst) == run[j..] && Holds(hp, c, DecVal(run[..j]))
    modifies hp
    ensures Run(rest) == run[j + D_DECIMAL_EXP..] && Holds(hp, c', DecVal(run[..j + D_DECIMAL_EXP]))
  {
    hide Pow, Pow10, DecVal, Run, Holds;
    var m;
    m, rest := ReadChunk(lst, D_DECIMAL_EXP);
    ChunkBelow(m);
    NextChunk(run, j, D_DECIMAL_EXP, m, hp.Length);
    c' := TimesPlus(hp, c, m, DecVal(run[..j]));
    assert run[j..][D_DECIMAL_EXP..] == run[j + D_DECIMAL_EXP..];
  }

  /** The bignum path: a first chunk of one to nine digits, then nine at a time. */
  method BuildBig(lst: List, n: nat) returns (hp: array<Digit>, c: Cell)
    requires SMALL_DIGITS < n == |Run(lst)| <= MAX_RUN
    ensures fresh(hp) && Holds(hp, c, DecVal(Run(lst)))
    ensures c.HeapCell? <==> DecVal(Run(lst)) > MAX_SMALL
  {
    hide Pow, Pow10, DecVal, Run, Normal, Val, BufferDigits;
    ghost var run := Run(lst);
    BufferEnough(n);
    hp := new Digit[BufferDigits(n)](i => 0);
    var i := if n % D_DECIMAL_EXP == 0 then D_DECIMAL_EXP else n % D_DECIMAL_EXP;
    var left := n - i;
    var m, rest := ReadChunk(lst, i);
    c := FirstChunk(hp, m, i);
    while left > 0
      invariant 0 <= left <= n && left % D_DECIMAL_EXP == 0
      invariant Run(rest) == run[n - left..]
      invariant Holds(hp, c, DecVal(run[..n - left]))
      invariant fresh(hp) && hp.Length == BufferDigits(n)
    {
      ghost var j := n - left;
      left := left - D_DECIMAL_EXP;
      c, rest := NextNine(hp, c, rest, run, j);
    }
    assert run[..n] == run;
    PrefixBelow(run, n);
    if c.HeapCell? {
      c := PlusSmall(hp, c.n, 0);
    }
  }

  lemma ChunkBelow(m: int)
    requires 0 <= m < Pow10(D_DECIMAL_EXP)
    ensures m < D_DECIMAL_BASE
  {
    DecimalBase();
  }

  /** small_to_big on the first chunk. */
  method FirstChunk(hp: array<Digit>, m: int, i: nat) returns (c: Cell)
    requires hp.Length > 0 && i <= D_DECIMAL_EXP && 0 <= m < Pow10(i)
    modifies hp
    ensures Holds(hp, c, m)
  {
    DecimalBase();
    Pow10Add(i, D_DECIMAL_EXP - i);
    hide Pow10;
    MulMono(Pow10(i), 1, Pow10(D_DECIMAL_EXP - i));
    hp[0] := m;
    OneDigit(hp);
    c := HeapCell(1);
  }

  function Negated(neg: bool, v: int): int {
    if neg then -v else v
  }

  /** do_list_to_integer.  MAX_RUN bounds the digits only: any list structure is allowed. */
  method DoListToInteger(orig: List) returns (res: Outcome, value: Integer, rest: List)
    requires |Run(Signless(orig))| <= MAX_RUN
    ensures !orig.Cons? ==> rest == orig && res == if orig.Nil? then NoInteger else BadStructure
    ensures orig.Cons? ==> rest == After(Signless(orig))
                           && (res == NoInteger <==> Run(Signless(orig)) == "") && !res.BadStructure?
    ensures res.SomeInteger? || res.AllInteger? ==>
      && value.Value() == Negated(Negative(orig), DecVal(Run(Signless(orig))))
      && (res.AllInteger? <==> rest.Nil?)
      && (Canonical(value) <==> !(Negative(orig) && DecVal(Run(Signless(orig))) == MAX_SMALL + 1))
    ensures res.NoInteger? || res.BadStructure? ==> value == Small(0)
  {
    rest, value := orig, Small(0);
    if orig.Nil? { return NoInteger, value, orig; }
    if !orig.Cons? { return BadStructure, value, orig; }
    var neg := orig.head == Fix('-' as int);
    var lst := orig;
    if neg || orig.head == Fix('+' as int) {
      lst := orig.tail;
      if !lst.Cons? { return NoInteger, value, lst; }
    }
    var i, n;
    i, n, rest := CountDigits(lst);
    if n == 0 { return NoInteger, value, rest; }
    value := Convert(lst, neg, i, n);
    res := if rest.Nil? then AllInteger else SomeInteger;
  }

  /** A leading minus, and the list after a leading sign. */
  predicate Negative(l: List) {
    l.Cons? && l.head == Fix('-' as int)
  }

  function Signless(l: List): List {
    if l.Cons? && (l.head == Fix('-' as int) || l.head == Fix('+' as int)) then l.tail else l
  }

  /** The counting loop; i is a machine word and overflows harmlessly for long runs. */
  method CountDigits(lst: List) returns (i: Digit, n: nat, rest: List)
    ensures n == |Run(lst)| && rest == After(lst)
    ensures n <= SMALL_DIGITS ==> i == DecVal(Run(lst))
  {
    ghost var run := Run(lst);
    i, n, rest := 0, 0, lst;
    while rest.Cons? && DigitElem(rest.head)
      invariant n <= |run| && Run(rest) == run[n..] && After(rest) == After(lst)
      invariant n <= SMALL_DIGITS ==> i == DecVal(run[..n])
      decreases rest
    {
      assert run[..n + 1][..n] == run[..n];
      assert run[n] == rest.head.v as char;
      if n < SMALL_DIGITS { ShortRun(run, n + 1); }
      i := (i * 10 + (rest.head.v - '0' as int)) % B;
      n := n + 1;
      rest := rest.tail;
    }
    assert run[..n] == run;
  }

  lemma ShortRun(run: string, k: nat)
    requires AllDigits(run) && k <= |run| && k <= SMALL_DIGITS
    ensures 0 <= DecVal(run[..k]) <= MAX_SMALL
  {
    hide Pow10, DecVal;
    DecValBound(run[..k]);
    Pow10Add(k, SMALL_DIGITS - k);
    SmallRange();
    MulMono(Pow10(k), 1, Pow10(SMALL_DIGITS - k));
  }

  /** Any 17-digit number is a fixnum. */
  lemma SmallRange()
    ensures Pow10(SMALL_DIGITS) <= MAX_SMALL
  {
    assert Pow10(8) == 100_000_000;
    DecimalBase();
    hide Pow10;
    Pow10Add(8, D_DECIMAL_EXP);
  }

  /** The value: a fixnum when the run is short, otherwise through the buffer; negation
      only flips the sign of what is there. */
  method Convert(lst: List, neg: bool, i: Digit, n: nat) returns (value: Integer)
    requires 0 < n == |Run(lst)| <= MAX_RUN
    requires n <= SMALL_DIGITS ==> i == DecVal(Run(lst))
    ensures value.Value() == Negated(neg, DecVal(Run(lst)))
    ensures Canonical(value) <==> !(neg && DecVal(Run(lst)) == MAX_SMALL + 1)
  {
    hide Run, DecVal, Val;
    ghost var v := DecVal(Run(lst));
    if n <= SMALL_DIGITS {
      assert Run(lst)[..n] == Run(lst);
      ShortRun(Run(lst), n);
      value := Small(Negated(neg, i));
    } else {
      var hp, c := BuildBig(lst, n);
      match c
      case FixCell(x) => value := Small(Negated(neg, x));
      case HeapCell(k) => value := Big(neg, hp[0..k]);
    }
  }

  /** A string as the list of its characters. */
  function ListOf(s: string): List {
    if s == "" then Nil else Cons(Fix(s[0] as int), ListOf(s[1..]))
  }

  lemma {:induction false} RunOfDigits(s: string)
    requires AllDigits(s)
    ensures Run(ListOf(s)) == s && After(ListOf(s)) == Nil
  {
    if s != "" {
      RunOfDigits(s[1..]);
      assert s == [s[0]] + s[1..];
    }
  }

  /** The text of a number parses to the whole text's sign and digits. */
  lemma TextParses(neg: bool, v: nat)
    ensures var l := ListOf(Text(neg, v));
            l.Cons? && Negative(l) == neg && Run(Signless(l)) == Dec(v) && After(Signless(l)) == Nil
    ensures DecVal(Dec(v)) == v
  {
    DecRoundTrip(v);
    RunOfDigits(Dec(v));
    var t := Text(neg, v);
    assert neg ==> t[0] == '-' && t[1..] == Dec(v);
    assert !neg ==> t == Dec(v) && IsDigit(t[0]);
  }

  /** integer_to_list followed by list_to_integer gives the number back. */
  method PrintThenParse(dx: array<Digit>, xl: nat, sign: bool) returns (value: Integer)
    requires 0 < xl <= dx.Length && Normal(dx[0..xl]) && Num(dx, 0, xl) < Pow10(MAX_RUN)
    ensures value.Value() == Negated(sign, Num(dx, 0, xl))
  {
    hide Run, After, DecVal, Dec, Pow10, Val, Canonical, Normal;
    ghost var v := Num(dx, 0, xl);
    var text := WriteBig(dx, xl, sign);
    TextParses(sign, v);
    DecLength(v, MAX_RUN);
    var res, rest;
    res, value, rest := DoListToInteger(ListOf(text));
  }
}

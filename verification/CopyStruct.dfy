/** copy_struct: copy a term into a block that is filled from both ends. The C
  * local `res` is modelled as the memory word `res`, because copy_struct writes
  * it through the same pointer as any other slot. */
module CopyStruct {
  import opened Terms
  import opened CopyProofs
  import SizeObject

  // Copy n words; tell whether all of them are immediate.
  method CopyWords(mem: array<Word>, from: nat, to: nat, n: nat) returns (allImmed: bool)
    requires from + n <= mem.Length && to + n <= mem.Length
    requires from + n <= to || to + n <= from
    modifies mem
    ensures forall p :: 0 <= p < mem.Length && !(to <= p < to + n) ==> mem[p] == old(mem[p])
    ensures forall p :: to <= p < to + n ==> mem[p] == old(mem[p - to + from])
    ensures allImmed <==> forall p :: to <= p < to + n ==> mem[p].Immed?
  {
    allImmed := true;
    ghost var bad := to;
    for k := 0 to n
      invariant forall p :: 0 <= p < mem.Length && !(to <= p < to + k) ==> mem[p] == old(mem[p])
      invariant forall p :: to <= p < to + k ==> mem[p] == old(mem[p - to + from])
      invariant allImmed ==> forall p :: to <= p < to + k ==> mem[p].Immed?
      invariant !allImmed ==> to <= bad < to + k && !mem[bad].Immed?
    {
      var elem := mem[from + k];
      mem[to + k] := elem;
      if !elem.Immed? { allImmed, bad := false, to + k; }
    }
  }

  // If the scan has not passed the latest constant tuple, nothing in it is left to copy.
  ghost predicate ConstOk(g: seq<Slot>, q: seq<Term>, hp: nat, ct: int) {
    ct >= hp ==>
      && ct < |g| && g[ct].Fixed? && g[ct].w.Arity? && ct - hp + g[ct].w.n < |q|
      && forall j :: ct - hp <= j <= ct - hp + g[ct].w.n ==> q[j].Imm?
  }

  // What one copied object leaves behind: bigger ends, more slots in use, a longer queue.
  ghost predicate Later(g: seq<Slot>, q: seq<Term>, g': seq<Slot>, q': seq<Term>) {
    Grows(g, g') && |q| <= |q'| && q'[..|q|] == q
  }

  lemma ConstLater(g: seq<Slot>, q: seq<Term>, g': seq<Slot>, q': seq<Term>, hp: nat, ct: int)
    requires Later(g, q, g', q') && ConstOk(g, q, hp, ct)
    ensures ConstOk(g', q', hp, ct)
  {
    forall j | 0 <= j < |q| ensures q'[j] == q[j] { assert q'[..|q|][j] == q[j]; }
  }

  lemma SourceIntact(b: Block, m: seq<Word>, w: Word, t: Term)
    requires Wf(b) && |m| == |b.src| && Frame(b, m) && Rep(b.src, Outside(b.lo, b.hi, b.res), w, t) && !t.Imm?
    ensures w.ListPtr? || w.BoxPtr?
    ensures w.ListPtr? <==> t.Cons?
    ensures t.Cons? ==> w.at + 2 <= |m| && m[w.at] == b.src[w.at] && m[w.at + 1] == b.src[w.at + 1]
    ensures t.Tuple? ==> w.at + 1 + |t.elems| <= |m| && Allowed(Outside(b.lo, b.hi, b.res), w.at, 1 + |t.elems|)
                         && m[w.at] == Arity(|t.elems|)
                         && forall p :: w.at <= p < w.at + 1 + |t.elems| ==> m[p] == b.src[p]
    ensures t.Flat? ==> w.at + 1 + |t.data| <= |m| && Allowed(Outside(b.lo, b.hi, b.res), w.at, 1 + |t.data|)
                        && m[w.at] == Thing(t.kind, |t.data|)
                        && forall p :: w.at <= p < w.at + 1 + |t.data| ==> m[p] == b.src[p]
  {
  }

  // The boxed object at `from`, of n words in all, can be copied to `to`.
  ghost predicate Movable(b: Block, m: seq<Word>, argp: nat, from: nat, to: nat, n: nat) {
    && from + n <= |m| && to + n <= |m| && (from + n <= to || to + n <= from)
    && argp < |m| && !(from <= argp < from + n) && !(to <= argp < to + n)
    && |b.src| == |m| && forall p :: from <= p < from + n ==> m[p] == b.src[p]
  }

  // What the writes of one boxed object do to the memory.
  ghost predicate Moved(m: seq<Word>, m': seq<Word>, argp: nat, from: nat, to: nat, n: nat)
    requires argp < |m| && from + n <= |m| && to + n <= |m|
  {
    && |m'| == |m| && m'[argp] == BoxPtr(to)
    && (forall p :: to <= p < to + n ==> m'[p] == m[p - to + from])
    && (forall p :: 0 <= p < |m| && p != argp && !(to <= p < to + n) ==> m'[p] == m[p])
  }

  // Point argp at the new place, then copy the header and the words behind it.
  method MoveObject(mem: array<Word>, ghost b: Block, argp: nat, from: nat, to: nat, n: nat) returns (allImmed: bool)
    requires n > 0 && Movable(b, mem[..], argp, from, to, n)
    modifies mem
    ensures Moved(old(mem[..]), mem[..], argp, from, to, n)
    ensures allImmed <==> forall p :: to < p < to + n ==> mem[..][p].Immed?
  {
    mem[argp] := BoxPtr(to);
    mem[to] := mem[from];
    allImmed := CopyWords(mem, from + 1, to + 1, n - 1);
  }

  lemma BoxedStart(b: Block, m: seq<Word>, g: seq<Slot>, q: seq<Term>, e: Ends, obj: Word, t: Term)
    requires Copying(b, m, g, q, e) && e.hole < |m| && g[e.hole] == Holds(t) && FromSource(b, obj, t) && !t.Cons?
    ensures obj.BoxPtr? && obj.at < |m| && Size1(t) <= e.hbot - e.htop
    ensures |g| == |m| && e.hp + |q| == e.htop && e.htop <= e.hbot <= |m|
    ensures Movable(b, m, e.hole, obj.at, e.htop, Size1(t)) && Movable(b, m, e.hole, obj.at, e.hbot - Size1(t), Size1(t))
    ensures m[obj.at] == if t.Tuple? then Arity(|t.elems|) else Thing(t.kind, |t.data|)
  {
    hide SizeAll, Finished, Queue, Unused, LowOk;
    SourceIntact(b, m, obj, t);
  }

  // The words of a boxed object itself.
  function Size1(t: Term): nat
    requires t.Tuple? || t.Flat?
  {
    if t.Tuple? then 1 + |t.elems| else 1 + |t.data|
  }

  lemma TupleEnd(b: Block, m: seq<Word>, g: seq<Slot>, q: seq<Term>, e: Ends, obj: Word, t: Term, m': seq<Word>)
    requires Copying(b, m, g, q, e) && e.hole < |m| && g[e.hole] == Holds(t) && FromSource(b, obj, t) && t.Tuple?
    requires Movable(b, m, e.hole, obj.at, e.htop, Size1(t)) && Moved(m, m', e.hole, obj.at, e.htop, Size1(t))
    requires e.htop + Size1(t) <= e.hbot
    ensures Copying(b, m', Put(g, e.htop, TupleSlots(t.elems)), q + [Imm(0)] + t.elems,
                    Ends(e.hp, e.htop + Size1(t), e.hbot, |m|))
    ensures Later(g, q, Put(g, e.htop, TupleSlots(t.elems)), q + [Imm(0)] + t.elems)
  {
    hide SizeAll, Finished, Queue, LowOk;
    var es := t.elems;
    forall j | e.htop < j <= e.htop + |es|
      ensures Rep(b.src, Outside(b.lo, b.hi, b.res), m'[j], es[j - e.htop - 1])
    {
      assert m'[j] == b.src[obj.at + (j - e.htop)];
    }
    assert m'[e.htop] == b.src[obj.at];
    TupleLow(b, m, g, q, e, es, m', Ends(e.hp, e.htop + Size1(t), e.hbot, |m|));
  }

  lemma ConstTuple(b: Block, m: seq<Word>, m': seq<Word>, g: seq<Slot>, q: seq<Term>, e: Ends, obj: Word, t: Term)
    requires FromSource(b, obj, t) && t.Tuple? && |g| == |m|
    requires e.hp + |q| == e.htop && e.htop + Size1(t) <= |g|
    requires Movable(b, m, e.hole, obj.at, e.htop, Size1(t)) && Moved(m, m', e.hole, obj.at, e.htop, Size1(t))
    requires forall p :: e.htop < p < e.htop + Size1(t) ==> m'[p].Immed?
    ensures ConstOk(Put(g, e.htop, TupleSlots(t.elems)), q + [Imm(0)] + t.elems, e.hp, e.htop)
  {
    var es, from := t.elems, obj.at;
    var q' := q + [Imm(0)] + es;
    forall j | e.htop - e.hp <= j <= e.htop - e.hp + |es| ensures q'[j].Imm? {
      if j > e.htop - e.hp {
        var i := j - |q| - 1;
        assert m'[e.htop + 1 + i] == b.src[from + 1 + i];
        assert q'[j] == es[i] && Rep(b.src, Outside(b.lo, b.hi, b.res), b.src[from + 1 + i], es[i]);
      }
    }
  }

  method CopyTuple(mem: array<Word>, ghost b: Block, ghost g: seq<Slot>, ghost q: seq<Term>, ghost hp: nat,
                   htop: nat, ghost hbot: nat, argp: nat, obj: Word, ghost t: Term)
    returns (top: nat, isConst: bool, ghost g': seq<Slot>, ghost q': seq<Term>)
    requires Copying(b, mem[..], g, q, Ends(hp, htop, hbot, argp)) && argp < mem.Length
    requires g[argp] == Holds(t) && FromSource(b, obj, t) && t.Tuple?
    modifies mem
    ensures Copying(b, mem[..], g', q', Ends(hp, top, hbot, mem.Length)) && Later(g, q, g', q')
    ensures isConst ==> ConstOk(g', q', hp, htop)
  {
    hide Copying, Later, ConstOk, Rep, Put, TupleSlots, Moved;
    ghost var m := mem[..];
    ghost var e := Ends(hp, htop, hbot, argp);
    BoxedStart(b, m, g, q, e, obj, t);
    var n := mem[obj.at].n;
    isConst := MoveObject(mem, b, argp, obj.at, htop, 1 + n);
    top := htop + 1 + n;
    g', q' := Put(g, htop, TupleSlots(t.elems)), q + [Imm(0)] + t.elems;
    TupleEnd(b, m, g, q, e, obj, t, mem[..]);
    if isConst { ConstTuple(b, m, mem[..], g, q, e, obj, t); }
  }

  method CopyFlat(mem: array<Word>, ghost b: Block, ghost g: seq<Slot>, ghost q: seq<Term>, ghost hp: nat,
                  ghost htop: nat, hbot: nat, argp: nat, obj: Word, ghost t: Term)
    returns (bot: nat, ghost g': seq<Slot>)
    requires Copying(b, mem[..], g, q, Ends(hp, htop, hbot, argp)) && argp < mem.Length
    requires g[argp] == Holds(t) && FromSource(b, obj, t) && t.Flat?
    modifies mem
    ensures Copying(b, mem[..], g', q, Ends(hp, htop, bot, mem.Length)) && Later(g, q, g', q)
  {
    hide Copying, Later, Rep, Put, FlatSlots, Moved;
    ghost var m := mem[..];
    ghost var e := Ends(hp, htop, hbot, argp);
    BoxedStart(b, m, g, q, e, obj, t);
    var n := mem[obj.at].n + 1;
    bot := hbot - n;
    var _ := MoveObject(mem, b, argp, obj.at, bot, n);
    g' := Put(g, bot, FlatSlots(t.kind, t.data));
    FlatEnd(b, m, g, q, e, obj, t, mem[..]);
  }

  lemma FlatEnd(b: Block, m: seq<Word>, g: seq<Slot>, q: seq<Term>, e: Ends, obj: Word, t: Term, m': seq<Word>)
    requires Copying(b, m, g, q, e) && e.hole < |m| && g[e.hole] == Holds(t) && FromSource(b, obj, t) && t.Flat?
    requires e.htop + Size1(t) <= e.hbot && Movable(b, m, e.hole, obj.at, e.hbot - Size1(t), Size1(t))
    requires Moved(m, m', e.hole, obj.at, e.hbot - Size1(t), Size1(t))
    ensures Copying(b, m', Put(g, e.hbot - Size1(t), FlatSlots(t.kind, t.data)), q,
                    Ends(e.hp, e.htop, e.hbot - Size1(t), |m|))
    ensures Later(g, q, Put(g, e.hbot - Size1(t), FlatSlots(t.kind, t.data)), q)
  {
    hide SizeAll, Finished, Queue, LowOk;
    var bot := e.hbot - Size1(t);
    forall j | bot < j < e.hbot ensures m'[j] == t.data[j - bot - 1] {
      assert m'[j] == b.src[obj.at + 1..obj.at + 1 + |t.data|][j - bot - 1];
    }
    assert m'[bot] == b.src[obj.at];
    FlatHigh(b, m, g, q, e, t.kind, t.data, m', Ends(e.hp, e.htop, bot, |m|));
  }

  method CopyBoxed(mem: array<Word>, ghost b: Block, ghost g: seq<Slot>, ghost q: seq<Term>, ghost hp: nat,
                   htop: nat, hbot: nat, ct: int, argp: nat, obj: Word, ghost t: Term)
    returns (top: nat, bot: nat, ct': int, ghost g': seq<Slot>, ghost q': seq<Term>)
    requires Copying(b, mem[..], g, q, Ends(hp, htop, hbot, argp)) && argp < mem.Length
    requires g[argp] == Holds(t) && FromSource(b, obj, t) && !t.Cons? && ConstOk(g, q, hp, ct)
    modifies mem
    ensures Copying(b, mem[..], g', q', Ends(hp, top, bot, mem.Length)) && Later(g, q, g', q')
    ensures ConstOk(g', q', hp, ct')
  {
    hide Copying, Later, ConstOk, Rep;
    BoxedStart(b, mem[..], g, q, Ends(hp, htop, hbot, argp), obj, t);
    top, bot, ct', q' := htop, hbot, ct, q;
    if mem[obj.at].Arity? {
      var isConst;
      top, isConst, g', q' := CopyTuple(mem, b, g, q, hp, htop, hbot, argp, obj, t);
      ConstLater(g, q, g', q', hp, ct);
      if isConst { ct' := htop; }
    } else {
      bot, g' := CopyFlat(mem, b, g, q, hp, htop, hbot, argp, obj, t);
      ConstLater(g, q, g', q', hp, ct);
    }
  }

  lemma LaterTrans(g: seq<Slot>, q: seq<Term>, h: seq<Slot>, r: seq<Term>, k: seq<Slot>, s: seq<Term>)
    requires Later(g, q, h, r) && Later(h, r, k, s)
    ensures Later(g, q, k, s)
  {
    assert s[..|q|] == s[..|r|][..|q|];
  }

  lemma CellStart(b: Block, m: seq<Word>, g: seq<Slot>, q: seq<Term>, e: Ends, obj: Word, t: Term)
    requires Copying(b, m, g, q, e) && e.hole < |m| && g[e.hole] == Holds(t)
    requires Rep(b.src, Outside(b.lo, b.hi, b.res), obj, t) && t.Cons?
    ensures obj.ListPtr? && obj.at + 2 <= |m| && e.htop + 2 <= e.hbot <= |m|
    ensures m[obj.at] == b.src[obj.at] && m[obj.at + 1] == b.src[obj.at + 1]
    ensures Rep(b.src, Outside(b.lo, b.hi, b.res), m[obj.at], t.hd)
    ensures Rep(b.src, Outside(b.lo, b.hi, b.res), m[obj.at + 1], t.tl)
    ensures e.hole < e.htop || e.hbot <= e.hole
    ensures obj.at + 1 != e.hole && !(e.htop <= obj.at + 1 < e.hbot)
    ensures |g| == |m|
  {
    hide SizeAll, Finished, Queue, Unused, LowOk;
    SourceIntact(b, m, obj, t);
  }

  // The loop over a list, up to a tail that is not a list: the tail slot is the new hole.
  method CopyCells(mem: array<Word>, ghost b: Block, ghost g: seq<Slot>, ghost q: seq<Term>, ghost hp: nat,
                   htop: nat, hbot: nat, ghost ct: int, argp: nat, obj: Word, ghost t: Term)
    returns (top: nat, bot: nat, tailp: nat, rest: Word, ghost u: Term, ghost g': seq<Slot>, ghost q': seq<Term>)
    requires Copying(b, mem[..], g, q, Ends(hp, htop, hbot, argp)) && argp < mem.Length
    requires g[argp] == Holds(t) && Rep(b.src, Outside(b.lo, b.hi, b.res), obj, t) && ConstOk(g, q, hp, ct)
    modifies mem
    ensures Copying(b, mem[..], g', q', Ends(hp, top, bot, tailp)) && tailp < mem.Length == |g'|
    ensures g'[tailp] == Holds(u) && Rep(b.src, Outside(b.lo, b.hi, b.res), rest, u) && !u.Cons?
    ensures Later(g, q, g', q') && ConstOk(g', q', hp, ct)
  {
    hide Copying, Later, ConstOk, Rep;
    top, bot, tailp, rest, u, g', q' := htop, hbot, argp, obj, t, g, q;
    LaterSelf(g, q);
    Lengths(b, mem[..], g, q, Ends(hp, htop, hbot, argp));
    while rest.ListPtr?
      invariant Copying(b, mem[..], g', q', Ends(hp, top, bot, tailp)) && tailp < mem.Length == |g'|
      invariant g'[tailp] == Holds(u) && Rep(b.src, Outside(b.lo, b.hi, b.res), rest, u)
      invariant Later(g, q, g', q') && ConstOk(g', q', hp, ct)
      decreases u
    {
      top, bot, tailp, rest, u, g', q' := CopyCell(mem, b, g, q, g', q', hp, top, bot, ct, tailp, rest, u);
    }
    NotCell(b, rest, u);
  }

  lemma Lengths(b: Block, m: seq<Word>, g: seq<Slot>, q: seq<Term>, e: Ends)
    requires Copying(b, m, g, q, e)
    ensures |g| == |m| == |b.src| && e.hp + |q| == e.htop && b.lo <= e.hp && e.htop <= e.hbot <= b.hi <= |m|
    ensures b.res < |m|
  {
  }

  lemma LaterSelf(g: seq<Slot>, q: seq<Term>)
    ensures Later(g, q, g, q)
  {
  }

  lemma NotCell(b: Block, w: Word, t: Term)
    requires Rep(b.src, Outside(b.lo, b.hi, b.res), w, t)
    ensures t.Cons? <==> w.ListPtr?
    ensures t.Imm? <==> w.Immed?
  {
  }

  // One cell: to the high end when its head is immediate, to the low end otherwise.
  method CopyCell(mem: array<Word>, ghost b: Block, ghost g0: seq<Slot>, ghost q0: seq<Term>,
                  ghost g: seq<Slot>, ghost q: seq<Term>, ghost hp: nat,
                  htop: nat, hbot: nat, ghost ct: int, argp: nat, obj: Word, ghost t: Term)
    returns (top: nat, bot: nat, tailp: nat, rest: Word, ghost u: Term, ghost g': seq<Slot>, ghost q': seq<Term>)
    requires Copying(b, mem[..], g, q, Ends(hp, htop, hbot, argp)) && argp < mem.Length == |g|
    requires g[argp] == Holds(t) && Rep(b.src, Outside(b.lo, b.hi, b.res), obj, t) && obj.ListPtr?
    requires Later(g0, q0, g, q) && ConstOk(g, q, hp, ct)
    modifies mem
    ensures Copying(b, mem[..], g', q', Ends(hp, top, bot, tailp)) && tailp < mem.Length == |g'|
    ensures g'[tailp] == Holds(u) && Rep(b.src, Outside(b.lo, b.hi, b.res), rest, u)
    ensures Later(g0, q0, g', q') && ConstOk(g', q', hp, ct)
    ensures t.Cons? && u == t.tl
  {
    hide Copying, Later, ConstOk, Rep;
    ghost var m := mem[..];
    ghost var e := Ends(hp, htop, hbot, argp);
    NotCell(b, obj, t);
    CellStart(b, m, g, q, e, obj, t);
    ghost var h := t.hd;
    u := t.tl;
    var elem := mem[obj.at];
    NotCell(b, elem, h);
    top, bot, q' := htop, hbot, q;
    if elem.Immed? {
      g' := g[hbot - 2 := Holds(h)][hbot - 1 := Holds(u)];
      mem[hbot - 2] := elem;
      tailp := hbot - 1;
      bot := hbot - 2;
    } else {
      g' := g[htop := Holds(h)][htop + 1 := Holds(u)];
      q' := q + [h, Imm(0)];
      mem[htop] := elem;
      tailp := htop + 1;
      top := htop + 2;
    }
    mem[argp] := ListPtr(tailp - 1);
    rest := mem[obj.at + 1];
    if elem.Immed? {
      ImmedHead(b, elem, h);
      assert mem[..] == m[hbot - 2 := elem][argp := ListPtr(hbot - 2)];
      ConsHigh(b, m, g, q, e, elem, h, u, mem[..], g', Ends(hp, top, bot, tailp));
    } else {
      assert mem[..] == m[htop := elem][argp := ListPtr(htop)];
      ConsLow(b, m, g, q, e, elem, h, u, mem[..], g', Ends(hp, top, bot, tailp));
    }
    CellLater(b, m, g, q, e, g', q', h, u);
    LaterTrans(g0, q0, g, q, g', q');
    ConstLater(g, q, g', q', hp, ct);
  }

  lemma ImmedHead(b: Block, w: Word, t: Term)
    requires Rep(b.src, Outside(b.lo, b.hi, b.res), w, t) && t.Imm?
    ensures w == Immed(t.v)
  {
  }

  lemma CellLater(b: Block, m: seq<Word>, g: seq<Slot>, q: seq<Term>, e: Ends, g': seq<Slot>, q': seq<Term>,
                  h: Term, u: Term)
    requires Copying(b, m, g, q, e) && e.htop + 2 <= e.hbot
    requires || (g' == g[e.hbot - 2 := Holds(h)][e.hbot - 1 := Holds(u)] && q' == q)
             || (g' == g[e.htop := Holds(h)][e.htop + 1 := Holds(u)] && q' == q + [h, Imm(0)])
    ensures Later(g, q, g', q')
  {
    hide SizeAll, Finished, Queue, LowOk;
  }

  /** L_copy_list and, for an improper tail, L_copy_boxed. */
  method CopyList(mem: array<Word>, ghost b: Block, ghost g: seq<Slot>, ghost q: seq<Term>, ghost hp: nat,
                  htop: nat, hbot: nat, ct: int, argp: nat, obj: Word, ghost t: Term)
    returns (top: nat, bot: nat, ct': int, ghost g': seq<Slot>, ghost q': seq<Term>)
    requires Copying(b, mem[..], g, q, Ends(hp, htop, hbot, argp)) && argp < mem.Length
    requires g[argp] == Holds(t) && FromSource(b, obj, t) && t.Cons? && ConstOk(g, q, hp, ct)
    modifies mem
    ensures Copying(b, mem[..], g', q', Ends(hp, top, bot, mem.Length)) && Later(g, q, g', q')
    ensures ConstOk(g', q', hp, ct')
  {
    hide Copying, Later, ConstOk, Rep;
    var tailp, rest;
    ghost var u;
    top, bot, tailp, rest, u, g', q' := CopyCells(mem, b, g, q, hp, htop, hbot, ct, argp, obj, t);
    ct' := ct;
    NotCell(b, rest, u);
    if rest.Immed? {
      ghost var m := mem[..];
      ImmedHead(b, rest, u);
      mem[tailp] := rest;
      assert mem[..] == m[tailp := rest];
      TailImmed(b, m, g', q', Ends(hp, top, bot, tailp), rest, mem[..]);
    } else {
      ghost var g1, q1 := g', q';
      top, bot, ct', g', q' := CopyBoxed(mem, b, g1, q1, hp, top, bot, ct, tailp, rest, u);
      LaterTrans(g, q, g1, q1, g', q');
    }
  }

  // The block before anything is copied: the result word is the hole.
  lemma Begin(b: Block, obj: Word, t: Term) returns (g: seq<Slot>)
    requires Wf(b) && b.hi - b.lo == Size(t)
    ensures |g| == |b.src| && g[b.res] == Holds(t)
    ensures Copying(b, b.src, g, [], Ends(b.lo, b.lo, b.hi, b.res)) && ConstOk(g, [], b.lo, -1)
  {
    hide Size, Points, Rep;
    g := seq(|b.src|, i => Free)[b.res := Holds(t)];
    NoneLeft();
  }

  lemma NoneLeft()
    ensures SizeAll([]) == 0
  {
  }

  // One turn of the scan at L_copy.
  method ScanWord(mem: array<Word>, ghost b: Block, lo: nat, hi: nat, ghost g: seq<Slot>, ghost q: seq<Term>,
                  hp: nat, htop: nat, hbot: nat, ct: int)
    returns (hp': nat, top: nat, bot: nat, ct': int, ghost g': seq<Slot>, ghost q': seq<Term>)
    requires Copying(b, mem[..], g, q, Ends(hp, htop, hbot, mem.Length)) && lo == b.lo && hi == b.hi
    requires hp < htop && ConstOk(g, q, hp, ct)
    modifies mem
    ensures Copying(b, mem[..], g', q', Ends(hp', top, bot, mem.Length)) && Grows(g, g')
    ensures ConstOk(g', q', hp', ct') && hp < hp'
  {
    hide Copying, ConstOk, Rep, Grows, Later, Queued;
    ghost var m := mem[..];
    ghost var e := Ends(hp, htop, hbot, mem.Length);
    Lengths(b, m, g, q, e);
    AtScan(b, m, g, q, e);
    hp', top, bot, ct', g', q' := hp + 1, htop, hbot, ct, g, q[1..];
    var obj := mem[hp];
    if (obj.ListPtr? || obj.BoxPtr?) && !(lo <= obj.at < hi) {
      Pick(b, m, g, q, e);
      ConstNext(g, q, hp, ct, 1);
      if obj.ListPtr? {
        top, bot, ct', g', q' := CopyList(mem, b, g, q[1..], hp + 1, htop, hbot, ct, hp, obj, q[0]);
      } else {
        top, bot, ct', g', q' := CopyBoxed(mem, b, g, q[1..], hp + 1, htop, hbot, ct, hp, obj, q[0]);
      }
      LaterGrows(g, q[1..], g', q');
    } else {
      GrowsSelf(g);
      var n := if obj.Thing? || (obj.Arity? && hp == ct) then obj.n + 1 else 1;
      if obj.Arity? && hp == ct { ConstHere(g, q, hp, ct, obj); }
      hp', q' := hp + n, q[n..];
      Skip(b, m, g, q, e, n);
      ConstNext(g, q, hp, ct, n);
    }
  }

  lemma AtScan(b: Block, m: seq<Word>, g: seq<Slot>, q: seq<Term>, e: Ends)
    requires Copying(b, m, g, q, e) && e.hole == |m| && e.hp < e.htop
    ensures |q| > 0 && e.hp < |g| && e.hp < |m|
    ensures var w := m[e.hp];
            && (!q[0].Imm? <==> (w.ListPtr? || w.BoxPtr?) && !(b.lo <= w.at < b.hi))
            && !w.Thing? && (w.Arity? ==> g[e.hp] == Fixed(w))
            && (w.ListPtr? && !q[0].Imm? ==> q[0].Cons?)
            && (w.BoxPtr? && !q[0].Imm? ==> !q[0].Cons?)
  {
    hide Finished, Room, Queued, Frame, Unused;
    assert Queued(b, g, g[e.hp], m[e.hp], q[0]);
    Scanned(b, g, g[e.hp], m[e.hp], q[0]);
  }

  lemma ConstNext(g: seq<Slot>, q: seq<Term>, hp: nat, ct: int, n: nat)
    requires ConstOk(g, q, hp, ct) && n <= |q|
    ensures ConstOk(g, q[n..], hp + n, ct)
  {
  }

  lemma ConstHere(g: seq<Slot>, q: seq<Term>, hp: nat, ct: int, w: Word)
    requires ConstOk(g, q, hp, ct) && hp == ct && ct < |g| && g[ct] == Fixed(w)
    ensures w.Arity? && w.n + 1 <= |q| && forall j :: 0 <= j < w.n + 1 ==> q[j].Imm?
  {
  }

  lemma GrowsSelf(g: seq<Slot>)
    ensures Grows(g, g)
  {
  }

  lemma LaterGrows(g: seq<Slot>, q: seq<Term>, g': seq<Slot>, q': seq<Term>)
    requires Later(g, q, g', q')
    ensures Grows(g, g')
  {
  }

  lemma GrowsTrans(g: seq<Slot>, h: seq<Slot>, k: seq<Slot>, p: nat)
    requires Grows(g, h) && Grows(h, k) && p < |g| && !g[p].Free?
    ensures Grows(g, k) && p < |k| && k[p] == g[p]
  {
  }

  lemma Untouched(b: Block, m: seq<Word>, g: seq<Slot>, q: seq<Term>, e: Ends)
    requires Copying(b, m, g, q, e)
    ensures |m| == |b.src|
    ensures forall p :: 0 <= p < |m| && !(b.lo <= p < b.hi) && p != b.res ==> m[p] == b.src[p]
  {
    hide Unused, Finished, Queue, LowOk, Room;
  }

  /** Given as many words as the term takes, the copy fills them exactly: the
    * ends meet, the result represents the same term with every cell inside the
    * block, and nothing else is written. */
  method Copy(mem: array<Word>, lo: nat, sz: nat, res: nat, obj: Word, ghost t: Term) returns (htop: nat, hbot: nat)
    requires lo + sz <= mem.Length && res < mem.Length && (res < lo || lo + sz <= res)
    requires Rep(mem[..], Outside(lo, lo + sz, res), obj, t) && sz == Size(t)
    modifies mem
    ensures htop == hbot && lo <= htop <= lo + sz
    ensures Rep(mem[..], Inside(lo, lo + sz), mem[res], t)
    ensures forall p :: 0 <= p < mem.Length && !(lo <= p < lo + sz) && p != res ==> mem[p] == old(mem[p])
  {
    hide Rep, Size, Copying, ConstOk, Grows, Later;
    ghost var b := Block(mem[..], lo, lo + sz, res);
    ConstSize(b, obj, t);
    if obj.Immed? {
      mem[res] := obj;
      ImmediateCopy(b, mem[..], obj, t);
      return lo, lo + sz;
    }
    ghost var g := Begin(b, obj, t);
    ghost var g0, q := g, [];
    var hp, ct := lo, -1;
    htop, hbot := lo, lo + sz;
    if obj.ListPtr? {
      htop, hbot, ct, g, q := CopyList(mem, b, g, q, hp, htop, hbot, ct, res, obj, t);
    } else {
      htop, hbot, ct, g, q := CopyBoxed(mem, b, g, q, hp, htop, hbot, ct, res, obj, t);
    }
    LaterGrows(g0, [], g, q);
    GrowsSelf(g);
    GrowsTrans(g0, g, g, res);
    while hp != htop
      invariant Copying(b, mem[..], g, q, Ends(hp, htop, hbot, mem.Length)) && ConstOk(g, q, hp, ct)
      invariant Grows(g0, g) && res < |g| && g[res] == Holds(t)
      decreases b.hi - hp
    {
      Lengths(b, mem[..], g, q, Ends(hp, htop, hbot, mem.Length));
      ghost var g1 := g;
      hp, htop, hbot, ct, g, q := ScanWord(mem, b, lo, lo + sz, g, q, hp, htop, hbot, ct);
      GrowsTrans(g0, g1, g, res);
      Lengths(b, mem[..], g, q, Ends(hp, htop, hbot, mem.Length));
    }
    ghost var e := Ends(hp, htop, hbot, mem.Length);
    Lengths(b, mem[..], g, q, e);
    CaughtUp(b, mem[..], g, q, e, t);
    Untouched(b, mem[..], g, q, e);
    assert mem[..][res] == mem[res];
    forall p | 0 <= p < mem.Length && !(lo <= p < lo + sz) && p != res ensures mem[p] == old(mem[p]) {
      assert mem[..][p] == b.src[p];
    }
  }

  lemma ConstSize(b: Block, obj: Word, t: Term)
    requires Rep(b.src, Outside(b.lo, b.hi, b.res), obj, t)
    ensures obj.Immed? <==> t.Imm?
    ensures obj.ListPtr? <==> t.Cons?
    ensures obj.Immed? ==> Size(t) == 0
    ensures !obj.Immed? ==> FromSource(b, obj, t)
  {
  }

  lemma ImmediateCopy(b: Block, m: seq<Word>, obj: Word, t: Term)
    requires Rep(b.src, Outside(b.lo, b.hi, b.res), obj, t) && t.Imm?
    ensures Rep(m, Inside(b.lo, b.hi), obj, t)
  {
  }

  /** copy_object: size_object decides how much room copy_struct gets, and that
    * is exactly enough. `room` is how many free words there are at `lo`. */
  method CopyObject(mem: array<Word>, lo: nat, room: nat, res: nat, obj: Word, ghost t: Term)
    returns (ok: bool, used: nat)
    requires lo + room <= mem.Length && res < mem.Length && (res < lo || lo + room <= res)
    requires Rep(mem[..], Outside(lo, lo + room, res), obj, t)
    modifies mem
    ensures ok <==> Size(t) <= room
    ensures ok ==> used == Size(t) && Rep(mem[..], Inside(lo, lo + used), mem[res], t)
    ensures ok ==> forall p :: 0 <= p < mem.Length && !(lo <= p < lo + used) && p != res ==> mem[p] == old(mem[p])
    ensures ok ==> Rep(mem[..], Outside(lo, lo + room, res), obj, t)
  {
    hide Rep, Size;
    used := SizeObject.SizeOf(mem, Outside(lo, lo + room, res), obj, t);
    ok := used <= room;
    if ok {
      ghost var m := mem[..];
      Narrow(m, lo, lo + room, lo + used, res, obj, t);
      var htop, hbot := Copy(mem, lo, used, res, obj, t);
      SourceKept(m, mem[..], lo, lo + room, res, obj, t);
    }
  }

  // A term outside a block is outside every part of it.
  lemma {:induction false} Narrow(m: seq<Word>, lo: nat, hi: nat, mid: nat, res: nat, w: Word, t: Term)
    requires lo <= mid <= hi && Rep(m, Outside(lo, hi, res), w, t)
    ensures Rep(m, Outside(lo, mid, res), w, t)
    decreases t
  {
    match t
    case Imm(_) =>
    case Flat(_, _) =>
    case Cons(h, tl) =>
      Narrow(m, lo, hi, mid, res, m[w.at], h);
      Narrow(m, lo, hi, mid, res, m[w.at + 1], tl);
    case Tuple(es) =>
      forall j | w.at < j <= w.at + |es| ensures Rep(m, Outside(lo, mid, res), m[j], es[j - w.at - 1]) {
        Narrow(m, lo, hi, mid, res, m[j], es[j - w.at - 1]);
      }
  }

  lemma {:induction false} SourceKept(m: seq<Word>, n: seq<Word>, lo: nat, hi: nat, res: nat, w: Word, t: Term)
    requires Rep(m, Outside(lo, hi, res), w, t) && |n| == |m|
    requires forall p :: 0 <= p < |m| && !(lo <= p < hi) && p != res ==> n[p] == m[p]
    ensures Rep(n, Outside(lo, hi, res), w, t)
    decreases t
  {
    match t
    case Imm(_) =>
    case Flat(_, d) =>
      assert n[w.at + 1..w.at + 1 + |d|] == m[w.at + 1..w.at + 1 + |d|];
    case Cons(h, tl) =>
      SourceKept(m, n, lo, hi, res, m[w.at], h);
      SourceKept(m, n, lo, hi, res, m[w.at + 1], tl);
    case Tuple(es) =>
      forall j | w.at < j <= w.at + |es| ensures Rep(n, Outside(lo, hi, res), n[j], es[j - w.at - 1]) {
        SourceKept(m, n, lo, hi, res, m[j], es[j - w.at - 1]);
      }
  }
}

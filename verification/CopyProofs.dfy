/** The bookkeeping behind copy_struct: what each word of the destination block
  * is for, and how one step of the copy keeps it. */
module CopyProofs {
  import opened Terms

  // The memory before the copy, the destination block [lo, hi) and the word
  // that receives the result.
  datatype Block = Block(src: seq<Word>, lo: nat, hi: nat, res: nat)

  // What a word of the block is for: not allocated, a slot that must come to
  // represent a term, or a header or data word that never changes.
  datatype Slot = Free | Holds(t: Term) | Fixed(w: Word)

  ghost predicate Wf(b: Block) {
    b.lo <= b.hi <= |b.src| && b.res < |b.src| && (b.res < b.lo || b.hi <= b.res)
  }

  // w needs no more copying: it is immediate, or points to an object laid out in the block.
  ghost predicate Points(b: Block, g: seq<Slot>, w: Word, t: Term)
    requires b.hi <= |g|
  {
    match t
    case Imm(v) => w == Immed(v)
    case Cons(h, tl) =>
      w.ListPtr? && b.lo <= w.at && w.at + 2 <= b.hi && g[w.at] == Holds(h) && g[w.at + 1] == Holds(tl)
    case Tuple(es) =>
      && w.BoxPtr? && b.lo <= w.at && w.at + 1 + |es| <= b.hi && g[w.at] == Fixed(Arity(|es|))
      && forall j :: w.at < j <= w.at + |es| ==> g[j] == Holds(es[j - w.at - 1])
    case Flat(k, d) =>
      && w.BoxPtr? && b.lo <= w.at && w.at + 1 + |d| <= b.hi && g[w.at] == Fixed(Thing(k, |d|))
      && forall j :: w.at < j <= w.at + |d| ==> g[j] == Fixed(d[j - w.at - 1])
  }

  // w still points into the source.
  ghost predicate FromSource(b: Block, w: Word, t: Term) {
    !t.Imm? && Rep(b.src, Outside(b.lo, b.hi, b.res), w, t)
  }

  ghost predicate Filled(b: Block, g: seq<Slot>, s: Slot, w: Word)
    requires b.hi <= |g|
  {
    match s
    case Free => false
    case Holds(t) => Points(b, g, w, t)
    case Fixed(x) => w == x
  }

  // A word between the scan pointer and the low end; `t` is what is left to copy for it.
  ghost predicate Queued(b: Block, g: seq<Slot>, s: Slot, w: Word, t: Term)
    requires b.hi <= |g|
  {
    (t.Imm? && Filled(b, g, s, w)) || (s == Holds(t) && FromSource(b, w, t))
  }

  // The scan pointer, the two ends, and the slot about to be written (|m| when there is none).
  datatype Ends = Ends(hp: nat, htop: nat, hbot: nat, hole: nat)

  ghost predicate Shape(b: Block, m: seq<Word>, g: seq<Slot>, q: seq<Term>, e: Ends) {
    && Wf(b) && |m| == |g| == |b.src|
    && b.lo <= e.hp <= e.htop <= e.hbot <= b.hi
    && |q| == e.htop - e.hp
    && e.hole <= |m|
    && (e.hole < |m| ==>
          && (e.hole == b.res || b.lo <= e.hole < e.htop || e.hbot <= e.hole < b.hi)
          && g[e.hole].Holds?
          && (e.hp <= e.hole < e.htop ==> q[e.hole - e.hp].Imm?))
    && g[b.res].Holds?
  }

  // Only the block and the result word have been written.
  ghost predicate Frame(b: Block, m: seq<Word>)
    requires |m| == |b.src|
  {
    forall p :: 0 <= p < |m| && !(b.lo <= p < b.hi) && p != b.res ==> m[p] == b.src[p]
  }

  ghost predicate Unused(g: seq<Slot>, e: Ends)
    requires e.hbot <= |g|
  {
    forall p :: e.htop <= p < e.hbot ==> g[p] == Free
  }

  ghost predicate Finished(b: Block, m: seq<Word>, g: seq<Slot>, e: Ends)
    requires |m| == |g| && b.hi <= |g| && b.res < |g|
  {
    forall p :: 0 <= p < |g| && (b.lo <= p < e.hp || e.hbot <= p < b.hi || p == b.res) && p != e.hole
      ==> Filled(b, g, g[p], m[p])
  }

  ghost predicate Queue(b: Block, m: seq<Word>, g: seq<Slot>, q: seq<Term>, e: Ends)
    requires |m| == |g| && b.hi <= |g| && e.hp <= e.htop <= b.hi && |q| == e.htop - e.hp
  {
    forall p :: e.hp <= p < e.htop && p != e.hole ==> Queued(b, g, g[p], m[p], q[p - e.hp])
  }

  // The low end holds no data words, so the scan cannot mistake one for a term.
  ghost predicate LowOk(b: Block, g: seq<Slot>, e: Ends)
    requires e.htop <= |g|
  {
    forall p :: b.lo <= p < e.htop ==> g[p].Holds? || (g[p].Fixed? && g[p].w.Arity?)
  }

  // The room left is exactly what is left to copy.
  ghost predicate Room(m: seq<Word>, g: seq<Slot>, q: seq<Term>, e: Ends)
    requires |m| == |g| && (e.hole < |m| ==> g[e.hole].Holds?)
  {
    e.hbot - e.htop == SizeAll(q) + (if e.hole < |m| then Size(g[e.hole].t) else 0)
  }

  ghost predicate Copying(b: Block, m: seq<Word>, g: seq<Slot>, q: seq<Term>, e: Ends) {
    Shape(b, m, g, q, e) && Frame(b, m) && Unused(g, e) && Finished(b, m, g, e) && Queue(b, m, g, q, e)
    && LowOk(b, g, e) && Room(m, g, q, e)
  }

  // ----- growing -----

  // Slots are given a use once.
  ghost predicate Grows(g: seq<Slot>, h: seq<Slot>) {
    |g| == |h| && forall p :: 0 <= p < |g| && !g[p].Free? ==> h[p] == g[p]
  }

  lemma PointsGrow(b: Block, g: seq<Slot>, h: seq<Slot>, w: Word, t: Term)
    requires b.hi <= |g| && Grows(g, h) && Points(b, g, w, t)
    ensures Points(b, h, w, t)
  {
  }

  lemma FilledGrow(b: Block, g: seq<Slot>, h: seq<Slot>, s: Slot, w: Word)
    requires b.hi <= |g| && Grows(g, h) && Filled(b, g, s, w)
    ensures Filled(b, h, s, w)
  {
    hide Points;
    if s.Holds? { PointsGrow(b, g, h, w, s.t); }
  }

  lemma QueuedGrow(b: Block, g: seq<Slot>, h: seq<Slot>, s: Slot, w: Word, t: Term)
    requires b.hi <= |g| && Grows(g, h) && Queued(b, g, s, w, t)
    ensures Queued(b, h, s, w, t)
  {
    hide Filled;
    if t.Imm? && Filled(b, g, s, w) { FilledGrow(b, g, h, s, w); }
  }

  // ----- filling the hole while allocating at either end -----

  // From (m, g, q, e) to (m', g', q', e'): words are taken from both ends, the hole
  // gets a word for its term, and possibly one of the new words becomes the hole.
  ghost predicate Taken(b: Block, m: seq<Word>, g: seq<Slot>, q: seq<Term>, e: Ends,
                        m': seq<Word>, g': seq<Slot>, q': seq<Term>, e': Ends)
    requires Shape(b, m, g, q, e) && e.hole < |m|
  {
    && |m'| == |m| && Grows(g, g')
    && e'.hp == e.hp && e.htop <= e'.htop <= e'.hbot <= e.hbot
    && |q'| == e'.htop - e'.hp && q'[..|q|] == q
    && (forall p :: 0 <= p < |m| && p != e.hole && !(e.htop <= p < e.hbot) ==> m'[p] == m[p])
    && Points(b, g', m'[e.hole], g[e.hole].t)
    && Unused(g', e')
  }

  // The words just taken are in order.
  ghost predicate Fresh(b: Block, e: Ends, m': seq<Word>, g': seq<Slot>, q': seq<Term>, e': Ends)
    requires |m'| == |g'| && b.hi <= |g'| && e'.hp <= e.htop <= e'.htop && e'.htop <= e'.hbot <= e.hbot <= b.hi
    requires |q'| == e'.htop - e'.hp
  {
    && (forall p :: e'.hbot <= p < e.hbot && p != e'.hole ==> Filled(b, g', g'[p], m'[p]))
    && (forall p :: e.htop <= p < e'.htop && p != e'.hole ==> Queued(b, g', g'[p], m'[p], q'[p - e'.hp]))
    && (forall p :: e.htop <= p < e'.htop ==> g'[p].Holds? || (g'[p].Fixed? && g'[p].w.Arity?))
    && (|| e'.hole == |m'|
        || (e'.hbot <= e'.hole < e.hbot && g'[e'.hole].Holds?)
        || (e.htop <= e'.hole < e'.htop && g'[e'.hole].Holds? && q'[e'.hole - e'.hp].Imm?))
  }

  lemma TakenFinished(b: Block, m: seq<Word>, g: seq<Slot>, q: seq<Term>, e: Ends,
                      m': seq<Word>, g': seq<Slot>, q': seq<Term>, e': Ends)
    requires Copying(b, m, g, q, e) && e.hole < |m| && Taken(b, m, g, q, e, m', g', q', e')
    requires Fresh(b, e, m', g', q', e')
    ensures Finished(b, m', g', e')
  {
    hide Points, Room, SizeAll, Size, Filled, Queued;
    forall p | 0 <= p < |g| && (b.lo <= p < e.hp || e'.hbot <= p < b.hi || p == b.res) && p != e'.hole
      ensures Filled(b, g', g'[p], m'[p])
    {
      if p == e.hole {
        HoleFilled(b, g', g'[p], m'[p]);
      } else if !(e'.hbot <= p < e.hbot) {
        FilledUsed(b, g, g[p], m[p]);
        FilledGrow(b, g, g', g[p], m[p]);
      }
    }
  }

  lemma HoleFilled(b: Block, g: seq<Slot>, s: Slot, w: Word)
    requires b.hi <= |g| && s.Holds? && Points(b, g, w, s.t)
    ensures Filled(b, g, s, w)
  {
  }

  lemma FilledUsed(b: Block, g: seq<Slot>, s: Slot, w: Word)
    requires b.hi <= |g| && Filled(b, g, s, w)
    ensures !s.Free?
  {
  }

  lemma QueuedUsed(b: Block, g: seq<Slot>, s: Slot, w: Word, t: Term)
    requires b.hi <= |g| && Queued(b, g, s, w, t)
    ensures !s.Free?
  {
  }

  lemma FilledQueued(b: Block, g: seq<Slot>, s: Slot, w: Word, t: Term)
    requires b.hi <= |g| && Filled(b, g, s, w) && t.Imm?
    ensures Queued(b, g, s, w, t)
  {
  }

  lemma TakenQueue(b: Block, m: seq<Word>, g: seq<Slot>, q: seq<Term>, e: Ends,
                   m': seq<Word>, g': seq<Slot>, q': seq<Term>, e': Ends)
    requires Copying(b, m, g, q, e) && e.hole < |m| && Taken(b, m, g, q, e, m', g', q', e')
    requires Fresh(b, e, m', g', q', e')
    ensures Queue(b, m', g', q', e')
  {
    hide Points, Room, SizeAll, Size, Filled, Queued;
    forall p | e'.hp <= p < e'.htop && p != e'.hole
      ensures Queued(b, g', g'[p], m'[p], q'[p - e'.hp])
    {
      if p < e.htop {
        assert q'[p - e.hp] == q'[..|q|][p - e.hp] == q[p - e.hp];
        if p == e.hole {
          HoleFilled(b, g', g'[p], m'[p]);
          FilledQueued(b, g', g'[p], m'[p], q[p - e.hp]);
        } else {
          QueuedUsed(b, g, g[p], m[p], q[p - e.hp]);
          QueuedGrow(b, g, g', g[p], m[p], q[p - e.hp]);
        }
      }
    }
  }

  lemma TakenKeeps(b: Block, m: seq<Word>, g: seq<Slot>, q: seq<Term>, e: Ends,
                   m': seq<Word>, g': seq<Slot>, q': seq<Term>, e': Ends)
    requires Copying(b, m, g, q, e) && e.hole < |m| && Taken(b, m, g, q, e, m', g', q', e')
    requires Fresh(b, e, m', g', q', e') && Room(m', g', q', e')
    ensures Copying(b, m', g', q', e')
  {
    hide Points, Room, SizeAll, Size, Filled, Queued, Finished, Queue;
    TakenFinished(b, m, g, q, e, m', g', q', e');
    TakenQueue(b, m, g, q, e, m', g', q', e');
  }

  // A list cell with an immediate head goes to the high end.
  lemma ConsHigh(b: Block, m: seq<Word>, g: seq<Slot>, q: seq<Term>, e: Ends, elem: Word, h: Term, tl: Term,
                 m': seq<Word>, g': seq<Slot>, e': Ends)
    requires Copying(b, m, g, q, e) && e.hole < |m| && g[e.hole] == Holds(Cons(h, tl))
    requires h.Imm? && elem == Immed(h.v)
    requires e.hbot >= 2 && e' == Ends(e.hp, e.htop, e.hbot - 2, e.hbot - 1)
    requires g' == g[e.hbot - 2 := Holds(h)][e.hbot - 1 := Holds(tl)]
    requires m' == m[e.hbot - 2 := elem][e.hole := ListPtr(e.hbot - 2)]
    ensures Copying(b, m', g', q, e')
  {
    hide Finished, Queue, FromSource, SizeAll;
    assert Size(Cons(h, tl)) == 2 + Size(h) + Size(tl);
    TakenKeeps(b, m, g, q, e, m', g', q, e');
  }

  // Any other list cell goes to the low end, where its head waits for the scan.
  lemma ConsLow(b: Block, m: seq<Word>, g: seq<Slot>, q: seq<Term>, e: Ends, elem: Word, h: Term, tl: Term,
                m': seq<Word>, g': seq<Slot>, e': Ends)
    requires Copying(b, m, g, q, e) && e.hole < |m| && g[e.hole] == Holds(Cons(h, tl))
    requires FromSource(b, elem, h)
    requires e.htop + 2 <= |m| && e' == Ends(e.hp, e.htop + 2, e.hbot, e.htop + 1)
    requires g' == g[e.htop := Holds(h)][e.htop + 1 := Holds(tl)]
    requires m' == m[e.htop := elem][e.hole := ListPtr(e.htop)]
    ensures Copying(b, m', g', q + [h, Imm(0)], e')
  {
    hide Finished, Queue, SizeAll, FromSource;
    assert Size(Cons(h, tl)) == 2 + Size(h) + Size(tl);
    assert Size(Imm(0)) == 0;
    SizeAllConcat(q, [h, Imm(0)]);
    SizeAllConcat([h], [Imm(0)]);
    assert [h] + [Imm(0)] == [h, Imm(0)];
    SizeAllOne(h);
    SizeAllOne(Imm(0));
    TakenKeeps(b, m, g, q, e, m', g', q + [h, Imm(0)], e');
  }

  // The end of a list.
  lemma TailImmed(b: Block, m: seq<Word>, g: seq<Slot>, q: seq<Term>, e: Ends, w: Word, m': seq<Word>)
    requires Copying(b, m, g, q, e) && e.hole < |m| && g[e.hole].t.Imm? && w == Immed(g[e.hole].t.v)
    requires m' == m[e.hole := w]
    ensures Copying(b, m', g, q, e.(hole := |m|))
  {
    hide Finished, Queue, FromSource, SizeAll;
    TakenKeeps(b, m, g, q, e, m', g, q, e.(hole := |m|));
  }

  // The uses of the words of a tuple, and of a flat object.
  function TupleSlots(es: seq<Term>): (r: seq<Slot>)
    ensures |r| == 1 + |es|
  {
    [Fixed(Arity(|es|))] + seq(|es|, i requires 0 <= i < |es| => Holds(es[i]))
  }

  function FlatSlots(k: nat, d: seq<Word>): (r: seq<Slot>)
    ensures |r| == 1 + |d|
  {
    [Fixed(Thing(k, |d|))] + seq(|d|, i requires 0 <= i < |d| => Fixed(d[i]))
  }

  function Put<T>(s: seq<T>, at: nat, part: seq<T>): (r: seq<T>)
    requires at + |part| <= |s|
    ensures |r| == |s|
    ensures forall p :: 0 <= p < |s| ==> r[p] == if at <= p < at + |part| then part[p - at] else s[p]
  {
    s[..at] + part + s[at + |part|..]
  }

  // A word of the source is immediate, or waits for the scan.
  lemma ElementQueued(b: Block, g: seq<Slot>, w: Word, t: Term)
    requires b.hi <= |g| && Rep(b.src, Outside(b.lo, b.hi, b.res), w, t)
    ensures Queued(b, g, Holds(t), w, t)
  {
  }

  lemma TupleFresh(b: Block, e: Ends, es: seq<Term>, m': seq<Word>, g: seq<Slot>, q: seq<Term>, e': Ends)
    requires Wf(b) && |m'| == |g| == |b.src| && e.hp + |q| == e.htop <= e.hbot <= b.hi
    requires e.htop + 1 + |es| <= e.hbot && e' == Ends(e.hp, e.htop + 1 + |es|, e.hbot, |m'|)
    requires m'[e.htop] == Arity(|es|)
    requires forall j :: e.htop < j <= e.htop + |es| ==>
               Rep(b.src, Outside(b.lo, b.hi, b.res), m'[j], es[j - e.htop - 1])
    ensures Fresh(b, e, m', Put(g, e.htop, TupleSlots(es)), q + [Imm(0)] + es, e')
  {
    hide Rep, Points, Put;
    var g' := Put(g, e.htop, TupleSlots(es));
    var q' := q + [Imm(0)] + es;
    forall p | e.htop <= p < e'.htop
      ensures Queued(b, g', g'[p], m'[p], q'[p - e.hp])
      ensures g'[p].Holds? || (g'[p].Fixed? && g'[p].w.Arity?)
    {
      if p > e.htop {
        assert q'[p - e.hp] == es[p - e.htop - 1];
        ElementQueued(b, g', m'[p], es[p - e.htop - 1]);
      } else {
        assert q'[p - e.hp] == Imm(0);
      }
    }
  }

  lemma TupleLow(b: Block, m: seq<Word>, g: seq<Slot>, q: seq<Term>, e: Ends, es: seq<Term>,
                 m': seq<Word>, e': Ends)
    requires Copying(b, m, g, q, e) && e.hole < |m| && g[e.hole] == Holds(Tuple(es))
    requires e.htop + 1 + |es| <= e.hbot && e' == Ends(e.hp, e.htop + 1 + |es|, e.hbot, |m|)
    requires |m'| == |m| && m'[e.hole] == BoxPtr(e.htop) && m'[e.htop] == Arity(|es|)
    requires forall j :: e.htop < j <= e.htop + |es| ==>
               Rep(b.src, Outside(b.lo, b.hi, b.res), m'[j], es[j - e.htop - 1])
    requires forall p :: 0 <= p < |m| && p != e.hole && !(e.htop <= p <= e.htop + |es|) ==> m'[p] == m[p]
    ensures Copying(b, m', Put(g, e.htop, TupleSlots(es)), q + [Imm(0)] + es, e')
  {
    hide Finished, Queue, SizeAll, FromSource, Rep, Queued, Filled, Fresh, Put;
    var g' := Put(g, e.htop, TupleSlots(es));
    var q' := q + [Imm(0)] + es;
    assert Size(Tuple(es)) == 1 + |es| + SizeAll(es);
    assert Size(Imm(0)) == 0;
    SizeAllOne(Imm(0));
    SizeAllConcat(q, [Imm(0)]);
    SizeAllConcat(q + [Imm(0)], es);
    TupleFresh(b, e, es, m', g, q, e');
    assert Taken(b, m, g, q, e, m', g', q', e');
    TakenKeeps(b, m, g, q, e, m', g', q', e');
  }

  // A flat object goes to the high end.
  lemma FlatHigh(b: Block, m: seq<Word>, g: seq<Slot>, q: seq<Term>, e: Ends, k: nat, d: seq<Word>,
                 m': seq<Word>, e': Ends)
    requires Copying(b, m, g, q, e) && e.hole < |m| && g[e.hole] == Holds(Flat(k, d))
    requires e.htop + 1 + |d| <= e.hbot && e' == Ends(e.hp, e.htop, e.hbot - 1 - |d|, |m|)
    requires |m'| == |m| && m'[e.hole] == BoxPtr(e'.hbot) && m'[e'.hbot] == Thing(k, |d|)
    requires forall j :: e'.hbot < j < e.hbot ==> m'[j] == d[j - e'.hbot - 1]
    requires forall p :: 0 <= p < |m| && p != e.hole && !(e'.hbot <= p < e.hbot) ==> m'[p] == m[p]
    ensures Copying(b, m', Put(g, e'.hbot, FlatSlots(k, d)), q, e')
  {
    hide Finished, Queue, SizeAll, FromSource, Rep, Queued, Put;
    var g' := Put(g, e'.hbot, FlatSlots(k, d));
    assert Size(Flat(k, d)) == 1 + |d|;
    assert Taken(b, m, g, q, e, m', g', q, e');
    assert Fresh(b, e, m', g', q, e');
    TakenKeeps(b, m, g, q, e, m', g', q, e');
  }

  // ----- scanning -----

  // The word at the scan pointer needs nothing: step over it.
  lemma Skip(b: Block, m: seq<Word>, g: seq<Slot>, q: seq<Term>, e: Ends, n: nat)
    requires Copying(b, m, g, q, e) && e.hole == |m| && e.hp + n <= e.htop
    requires forall j :: 0 <= j < n ==> q[j].Imm?
    ensures Copying(b, m, g, q[n..], e.(hp := e.hp + n))
  {
    hide Points, FromSource, SizeAll;
    SizeAllConcat(q[..n], q[n..]);
    assert q[..n] + q[n..] == q;
    NothingToCopy(q[..n]);
    forall p | e.hp <= p < e.hp + n ensures Filled(b, g, g[p], m[p]) {
      assert Queued(b, g, g[p], m[p], q[p - e.hp]);
      DoneQueued(b, g, g[p], m[p], q[p - e.hp]);
    }
  }

  lemma DoneQueued(b: Block, g: seq<Slot>, s: Slot, w: Word, t: Term)
    requires b.hi <= |g| && Queued(b, g, s, w, t) && t.Imm?
    ensures Filled(b, g, s, w)
  {
  }

  lemma {:induction false} NothingToCopy(q: seq<Term>)
    requires forall j :: 0 <= j < |q| ==> q[j].Imm?
    ensures SizeAll(q) == 0
  {
    if q != [] { NothingToCopy(q[1..]); }
  }

  // The word at the scan pointer points into the source: it becomes the hole.
  lemma Pick(b: Block, m: seq<Word>, g: seq<Slot>, q: seq<Term>, e: Ends)
    requires Copying(b, m, g, q, e) && e.hole == |m| && e.hp < e.htop && !q[0].Imm?
    ensures g[e.hp] == Holds(q[0]) && FromSource(b, m[e.hp], q[0])
    ensures Copying(b, m, g, q[1..], e.(hp := e.hp + 1, hole := e.hp))
  {
    hide Points, FromSource;
    assert Queued(b, g, g[e.hp], m[e.hp], q[0]);
  }

  // Whether a queued word still points into the source can be seen from the word.
  lemma Scanned(b: Block, g: seq<Slot>, s: Slot, w: Word, t: Term)
    requires Wf(b) && b.hi <= |g| && Queued(b, g, s, w, t)
    requires s.Holds? || (s.Fixed? && s.w.Arity?)
    ensures !t.Imm? <==> (w.ListPtr? || w.BoxPtr?) && !(b.lo <= w.at < b.hi)
    ensures !w.Thing? && (w.Arity? ==> s == Fixed(w)) && (w.Immed? ==> s.Holds?)
    ensures w.ListPtr? && !t.Imm? ==> t.Cons?
    ensures w.BoxPtr? && !t.Imm? ==> t.Tuple? || t.Flat?
  {
  }

  // ----- the result -----

  /** When the scan has caught up, the room is used up and the result word
    * represents the term with every cell inside the block. */
  lemma CaughtUp(b: Block, m: seq<Word>, g: seq<Slot>, q: seq<Term>, e: Ends, t: Term)
    requires Copying(b, m, g, q, e) && e.hole == |m| && e.hp == e.htop && g[b.res] == Holds(t)
    ensures e.htop == e.hbot
    ensures Rep(m, Inside(b.lo, b.hi), m[b.res], t)
  {
    hide Points, FromSource, Rep;
    assert Filled(b, g, g[b.res], m[b.res]);
    Decoded(b, m, g, e, m[b.res], t);
  }

  lemma {:induction false} Decoded(b: Block, m: seq<Word>, g: seq<Slot>, e: Ends, w: Word, t: Term)
    requires Wf(b) && |m| == |g| == |b.src| && e.hole == |m| && e.hp == e.hbot
    requires Finished(b, m, g, e) && Points(b, g, w, t)
    ensures Rep(m, Inside(b.lo, b.hi), w, t)
    decreases t
  {
    match t
    case Imm(_) =>
    case Cons(h, tl) =>
      assert Filled(b, g, g[w.at], m[w.at]) && Filled(b, g, g[w.at + 1], m[w.at + 1]);
      Decoded(b, m, g, e, m[w.at], h);
      Decoded(b, m, g, e, m[w.at + 1], tl);
    case Tuple(es) =>
      assert Filled(b, g, g[w.at], m[w.at]);
      forall j | w.at < j <= w.at + |es| ensures Rep(m, Inside(b.lo, b.hi), m[j], es[j - w.at - 1]) {
        assert Filled(b, g, g[j], m[j]);
        Decoded(b, m, g, e, m[j], es[j - w.at - 1]);
      }
    case Flat(k, d) =>
      assert Filled(b, g, g[w.at], m[w.at]);
      forall i | 0 <= i < |d| ensures m[w.at + 1 + i] == d[i] {
        assert Filled(b, g, g[w.at + 1 + i], m[w.at + 1 + i]);
      }
      assert m[w.at + 1..w.at + 1 + |d|] == d;
  }
}

/** Moving a block of heap words: copy_shallow, and the literal mover of
  * freeze_code. Pointers are offset, data words behind a thing header are not. */
module Relocate {
  import opened Terms

  // The words one item of a block takes: a thing takes its data along.
  function Step(w: Word): nat {
    if w.Thing? then w.n + 1 else 1
  }

  // The words from p to hi are whole items.
  ghost predicate Laid(m: seq<Word>, p: nat, hi: nat)
    requires hi <= |m|
    decreases hi - p
  {
    p == hi || (p < hi && p + Step(m[p]) <= hi && Laid(m, p + Step(m[p]), hi))
  }

  // p is the first word of an item of the block that starts at lo.
  ghost predicate Item(m: seq<Word>, lo: nat, hi: nat, p: nat)
    requires hi <= |m|
    decreases hi - lo
  {
    lo < hi && (p == lo || Item(m, lo + Step(m[lo]), hi, p))
  }

  // Every pointer at an item leads to items of the same block.
  ghost predicate Leads(m: seq<Word>, lo: nat, hi: nat, w: Word)
    requires hi <= |m|
  {
    match w
    case ListPtr(a) => Item(m, lo, hi, a) && Item(m, lo, hi, a + 1)
    case BoxPtr(a) =>
      && Item(m, lo, hi, a) && a < |m| && (m[a].Arity? || m[a].Thing?)
      && (m[a].Arity? ==> forall j :: a < j <= a + m[a].n ==> Item(m, lo, hi, j))
    case _ => true
  }

  ghost predicate Closed(m: seq<Word>, lo: nat, hi: nat) {
    lo <= hi <= |m| && Laid(m, lo, hi)
    && forall p :: lo <= p < hi && Item(m, lo, hi, p) ==> Leads(m, lo, hi, m[p])
  }

  // offset_ptr, for a block moved from lo to dst. (No pointer of a closed block is below lo.)
  function Offset(w: Word, lo: nat, dst: nat): Word {
    match w
    case ListPtr(a) => if a >= lo then ListPtr(a - lo + dst) else w
    case BoxPtr(a) => if a >= lo then BoxPtr(a - lo + dst) else w
    case _ => w
  }

  // The first words of the block, up to p, have been moved.
  ghost predicate MovedTo(m: seq<Word>, lo: nat, hi: nat, n: seq<Word>, dst: nat, p: nat)
    requires lo <= p <= hi <= |m| && dst + (p - lo) <= |n|
  {
    forall j :: lo <= j < p ==> n[j - lo + dst] == if Item(m, lo, hi, j) then Offset(m[j], lo, dst) else m[j]
  }

  lemma {:induction false} ItemRange(m: seq<Word>, lo: nat, hi: nat, p: nat)
    requires hi <= |m| && Item(m, lo, hi, p)
    ensures lo <= p < hi
    decreases hi - lo
  {
    if p != lo { ItemRange(m, lo + Step(m[lo]), hi, p); }
  }

  // Behind an item come its data words, which are no items, and then the next item.
  lemma {:induction false} NextItem(m: seq<Word>, lo: nat, hi: nat, p: nat)
    requires hi <= |m| && lo <= p < hi && Item(m, lo, hi, p) && Laid(m, lo, hi)
    ensures p + Step(m[p]) <= hi && Laid(m, p + Step(m[p]), hi)
    ensures p + Step(m[p]) < hi ==> Item(m, lo, hi, p + Step(m[p]))
    ensures forall j :: p < j < p + Step(m[p]) ==> !Item(m, lo, hi, j)
    decreases hi - lo
  {
    var next := lo + Step(m[lo]);
    if p == lo {
      forall j | p < j < next ensures !Item(m, lo, hi, j) {
        if Item(m, next, hi, j) { ItemRange(m, next, hi, j); }
      }
    } else {
      ItemRange(m, next, hi, p);
      NextItem(m, next, hi, p);
      forall j | p < j < p + Step(m[p]) ensures !Item(m, lo, hi, j) {
        assert !Item(m, next, hi, j);
      }
    }
  }

  // The word at an item moves and leads to items.
  lemma ItemMoved(m: seq<Word>, lo: nat, hi: nat, n: seq<Word>, dst: nat, p: nat)
    requires Closed(m, lo, hi) && dst + (hi - lo) <= |n| && MovedTo(m, lo, hi, n, dst, hi)
    requires lo <= p < hi && Item(m, lo, hi, p)
    ensures Leads(m, lo, hi, m[p]) && n[p - lo + dst] == Offset(m[p], lo, dst)
  {
  }

  // The two words of a list cell, once they have moved.
  lemma CellMoved(m: seq<Word>, lo: nat, hi: nat, n: seq<Word>, dst: nat, a: nat, h: Term, tl: Term)
    requires lo <= a && a + 2 <= hi && dst + (hi - lo) <= |n| && hi <= |m|
    requires n[a - lo + dst] == Offset(m[a], lo, dst) && n[a + 1 - lo + dst] == Offset(m[a + 1], lo, dst)
    requires Rep(n, Inside(dst, dst + (hi - lo)), Offset(m[a], lo, dst), h)
    requires Rep(n, Inside(dst, dst + (hi - lo)), Offset(m[a + 1], lo, dst), tl)
    ensures Rep(n, Inside(dst, dst + (hi - lo)), ListPtr(a - lo + dst), Cons(h, tl))
  {
  }

  // The words of a tuple, once they have moved.
  lemma TupleMoved(m: seq<Word>, lo: nat, hi: nat, n: seq<Word>, dst: nat, a: nat, es: seq<Term>)
    requires lo <= a && a + 1 + |es| <= hi <= |m| && dst + (hi - lo) <= |n|
    requires n[a - lo + dst] == Arity(|es|)
    requires forall j :: a < j <= a + |es| ==> Offset(m[j], lo, dst) == n[j - lo + dst]
    requires forall j :: a < j <= a + |es| ==> Rep(n, Inside(dst, dst + (hi - lo)), Offset(m[j], lo, dst), es[j - a - 1])
    ensures Rep(n, Inside(dst, dst + (hi - lo)), BoxPtr(a - lo + dst), Tuple(es))
  {
    var c := a - lo + dst;
    forall j | c < j <= c + |es| ensures Rep(n, Inside(dst, dst + (hi - lo)), n[j], es[j - c - 1]) {
      assert n[j] == Offset(m[j - dst + lo], lo, dst);
    }
  }

  /** A moved block decodes to the same terms. */
  lemma {:induction false} MovedKeeps(m: seq<Word>, lo: nat, hi: nat, n: seq<Word>, dst: nat, w: Word, t: Term)
    requires Closed(m, lo, hi) && dst + (hi - lo) <= |n| && MovedTo(m, lo, hi, n, dst, hi)
    requires Rep(m, Inside(lo, hi), w, t) && Leads(m, lo, hi, w)
    ensures Rep(n, Inside(dst, dst + (hi - lo)), Offset(w, lo, dst), t)
    decreases t
  {
    match t
    case Imm(_) =>
    case Cons(h, tl) => CellKeeps(m, lo, hi, n, dst, w.at, h, tl);
    case Tuple(es) => TupleKeeps(m, lo, hi, n, dst, w.at, es);
    case Flat(k, d) => FlatMoved(m, lo, hi, n, dst, w.at, k, d);
  }

  lemma {:induction false} CellKeeps(m: seq<Word>, lo: nat, hi: nat, n: seq<Word>, dst: nat, a: nat, h: Term, tl: Term)
    requires Closed(m, lo, hi) && dst + (hi - lo) <= |n| && MovedTo(m, lo, hi, n, dst, hi)
    requires Rep(m, Inside(lo, hi), ListPtr(a), Cons(h, tl)) && Leads(m, lo, hi, ListPtr(a))
    ensures Rep(n, Inside(dst, dst + (hi - lo)), ListPtr(a - lo + dst), Cons(h, tl))
    decreases Cons(h, tl), 0
  {
    assert lo <= hi <= |m| && Rep(m, Inside(lo, hi), m[a], h) && Rep(m, Inside(lo, hi), m[a + 1], tl);
    hide Item, Laid, Closed, MovedTo, Rep;
    ItemMoved(m, lo, hi, n, dst, a);
    ItemMoved(m, lo, hi, n, dst, a + 1);
    MovedKeeps(m, lo, hi, n, dst, m[a], h);
    MovedKeeps(m, lo, hi, n, dst, m[a + 1], tl);
    CellMoved(m, lo, hi, n, dst, a, h, tl);
  }

  lemma {:induction false} TupleKeeps(m: seq<Word>, lo: nat, hi: nat, n: seq<Word>, dst: nat, a: nat, es: seq<Term>)
    requires Closed(m, lo, hi) && dst + (hi - lo) <= |n| && MovedTo(m, lo, hi, n, dst, hi)
    requires Rep(m, Inside(lo, hi), BoxPtr(a), Tuple(es)) && Leads(m, lo, hi, BoxPtr(a))
    ensures Rep(n, Inside(dst, dst + (hi - lo)), BoxPtr(a - lo + dst), Tuple(es))
    decreases Tuple(es), 0
  {
    assert m[a] == Arity(|es|) && lo <= a && a + 1 + |es| <= hi <= |m|;
    hide Item, Laid, Closed, MovedTo;
    ItemMoved(m, lo, hi, n, dst, a);
    forall j | a < j <= a + |es|
      ensures Offset(m[j], lo, dst) == n[j - lo + dst]
      ensures Rep(n, Inside(dst, dst + (hi - lo)), Offset(m[j], lo, dst), es[j - a - 1])
    {
      ItemMoved(m, lo, hi, n, dst, j);
      MovedKeeps(m, lo, hi, n, dst, m[j], es[j - a - 1]);
    }
    TupleMoved(m, lo, hi, n, dst, a, es);
  }

  lemma FlatMoved(m: seq<Word>, lo: nat, hi: nat, n: seq<Word>, dst: nat, a: nat, k: nat, d: seq<Word>)
    requires Closed(m, lo, hi) && dst + (hi - lo) <= |n| && MovedTo(m, lo, hi, n, dst, hi)
    requires Rep(m, Inside(lo, hi), BoxPtr(a), Flat(k, d)) && Item(m, lo, hi, a)
    ensures Rep(n, Inside(dst, dst + (hi - lo)), BoxPtr(a - lo + dst), Flat(k, d))
  {
    hide Item, Laid;
    var c := a - lo + dst;
    assert n[a - lo + dst] == Offset(m[a], lo, dst);
    NextItem(m, lo, hi, a);
    forall i | 0 <= i < |d| ensures n[c + 1 + i] == d[i] {
      var p := a + 1 + i;
      assert n[p - lo + dst] == m[p];
      assert m[a + 1..a + 1 + |d|][i] == d[i];
    }
    assert n[c + 1..c + 1 + |d|] == d;
  }

  lemma MovedItem(m: seq<Word>, lo: nat, hi: nat, n: seq<Word>, n': seq<Word>, dst: nat, p: nat)
    requires Closed(m, lo, hi) && lo <= p < hi && Item(m, lo, hi, p) && p + Step(m[p]) <= hi
    requires dst + (hi - lo) <= |n| == |n'| && MovedTo(m, lo, hi, n, dst, p)
    requires forall c :: dst <= c < dst + (p - lo) ==> n'[c] == n[c]
    requires n'[p - lo + dst] == Offset(m[p], lo, dst)
    requires forall j :: p < j < p + Step(m[p]) ==> m[j] == n'[j - lo + dst]
    ensures MovedTo(m, lo, hi, n', dst, p + Step(m[p]))
  {
    hide Item, Laid;
    NextItem(m, lo, hi, p);
    forall j | lo <= j < p + Step(m[p])
      ensures n'[j - lo + dst] == if Item(m, lo, hi, j) then Offset(m[j], lo, dst) else m[j]
    {
      if j < p { assert n'[j - lo + dst] == n[j - lo + dst]; }
    }
  }

  lemma WholeItems(m: seq<Word>, lo: nat, hi: nat)
    requires Closed(m, lo, hi)
    ensures lo <= hi <= |m| && Laid(m, lo, hi)
  {
  }

  // Every term of the block at lo of m is the same term at dst of n.
  ghost predicate SameTerms(m: seq<Word>, lo: nat, hi: nat, n: seq<Word>, dst: nat)
    requires lo <= hi <= |m|
  {
    forall w, t :: Rep(m, Inside(lo, hi), w, t) && Leads(m, lo, hi, w)
      ==> Rep(n, Inside(dst, dst + (hi - lo)), Offset(w, lo, dst), t)
  }

  lemma MovedSame(m: seq<Word>, lo: nat, hi: nat, n: seq<Word>, dst: nat)
    requires Closed(m, lo, hi) && dst + (hi - lo) <= |n| && MovedTo(m, lo, hi, n, dst, hi)
    ensures SameTerms(m, lo, hi, n, dst)
  {
    hide Item, Laid, Leads, Rep;
    forall w, t | Rep(m, Inside(lo, hi), w, t) && Leads(m, lo, hi, w)
      ensures Rep(n, Inside(dst, dst + (hi - lo)), Offset(w, lo, dst), t)
    {
      MovedKeeps(m, lo, hi, n, dst, w, t);
    }
  }

  method WriteItem(mem: array<Word>, from: nat, to: nat, w: Word, n: nat)
    requires n > 0 && from + n <= mem.Length && to + n <= mem.Length && (from + n <= to || to + n <= from)
    modifies mem
    ensures mem[to] == w
    ensures forall p {:trigger mem[p]} :: 0 <= p < mem.Length && !(to <= p < to + n) ==> mem[p] == old(mem[p])
    ensures forall p {:trigger mem[p]} :: to < p < to + n ==> mem[p] == old(mem[p - to + from])
  {
    mem[to] := w;
    CopyData(mem, from + 1, to + 1, n - 1);
  }

  // One word and, behind a thing header, its data.
  method CopyItem(mem: array<Word>, ghost m: seq<Word>, ptr: nat, ghost hi: nat, hp: nat, tp: nat, end: nat)
    returns (step: nat)
    requires Closed(m, ptr, hi) && ptr <= tp < hi && Item(m, ptr, hi, tp)
    requires |m| == mem.Length && hp + (hi - ptr) <= |m| && (hi <= hp || hp + (hi - ptr) <= ptr)
    requires end == tp - ptr + hp && MovedTo(m, ptr, hi, mem[..], hp, tp)
    requires forall p :: 0 <= p < mem.Length && !(hp <= p < hp + (hi - ptr)) ==> mem[p] == m[p]
    modifies mem
    ensures step > 0 && tp + step <= hi && (tp + step < hi ==> Item(m, ptr, hi, tp + step))
    ensures MovedTo(m, ptr, hi, mem[..], hp, tp + step)
    ensures forall p :: 0 <= p < mem.Length && !(hp <= p < hp + (hi - ptr)) ==> mem[p] == m[p]
  {
    WholeItems(m, ptr, hi);
    hide Item, Laid, MovedTo, Offset, Closed;
    NextItem(m, ptr, hi, tp);
    ghost var n := mem[..];
    var val := mem[tp];
    step := Step(val);
    WriteItem(mem, tp, end, Offset(val, ptr, hp), step);
    MovedItem(m, ptr, hi, n, mem[..], hp, tp);
  }

  /** The relocated copy of the block takes exactly sz words and decodes to the same terms. */
  method CopyShallow(mem: array<Word>, ptr: nat, sz: nat, hp: nat) returns (end: nat, res: Word)
    requires ptr + sz <= mem.Length && hp + sz <= mem.Length && (ptr + sz <= hp || hp + sz <= ptr)
    requires Closed(mem[..], ptr, ptr + sz)
    modifies mem
    ensures end == hp + sz && res == Offset(BoxPtr(ptr), ptr, hp)
    ensures SameTerms(old(mem[..]), ptr, ptr + sz, mem[..], hp)
    ensures forall p :: 0 <= p < mem.Length && !(hp <= p < hp + sz) ==> mem[p] == old(mem[p])
  {
    hide Item, Laid, Leads, MovedTo, SameTerms, Offset, Closed, Raw;
    ghost var m := mem[..];
    ghost var hi := ptr + sz;
    WholeItems(m, ptr, hi);
    var tp, left := ptr, sz;
    end := hp;
    Nothing(m, ptr, hi, mem[..], hp);
    while left > 0
      invariant left == hi - tp && ptr <= tp <= hi && end == tp - ptr + hp
      invariant left > 0 ==> Item(m, ptr, hi, tp)
      invariant MovedTo(m, ptr, hi, mem[..], hp, tp)
      invariant forall p :: 0 <= p < mem.Length && !(hp <= p < hp + sz) ==> mem[p] == m[p]
      decreases left
    {
      var step := CopyItem(mem, m, ptr, hi, hp, tp, end);
      tp, end, left := tp + step, end + step, left - step;
    }
    MovedSame(m, ptr, hi, mem[..], hp);
    res := Offset(BoxPtr(ptr), ptr, hp);
  }

  // Copy n data words.
  method CopyData(mem: array<Word>, from: nat, to: nat, n: nat)
    requires from + n <= mem.Length && to + n <= mem.Length && (from + n <= to || to + n <= from)
    modifies mem
    ensures forall p {:trigger mem[p]} :: 0 <= p < mem.Length && !(to <= p < to + n) ==> mem[p] == old(mem[p])
    ensures forall p {:trigger mem[p]} :: to <= p < to + n ==> mem[p] == old(mem[p - to + from])
  {
    for k := 0 to n
      invariant forall p :: 0 <= p < mem.Length && !(to <= p < to + k) ==> mem[p] == old(mem[p])
      invariant forall p :: to <= p < to + k ==> mem[p] == old(mem[p - to + from])
    {
      mem[to + k] := mem[from + k];
    }
  }

  lemma Nothing(m: seq<Word>, lo: nat, hi: nat, n: seq<Word>, dst: nat)
    requires Closed(m, lo, hi) && dst <= |n|
    ensures MovedTo(m, lo, hi, n, dst, lo)
    ensures lo < hi ==> Item(m, lo, hi, lo)
  {
  }

  // ----- the literal mover -----

  // One literal of the module: its own heap block and the term that refers to it.
  datatype Literal = Literal(heap: nat, size: nat, term: Word)

  // The words from p on are still as they were copied.
  ghost predicate Raw(m: seq<Word>, lo: nat, hi: nat, n: seq<Word>, dst: nat, p: nat)
    requires lo <= p <= hi <= |m| && dst + (hi - lo) <= |n|
  {
    forall c :: p - lo + dst <= c < dst + (hi - lo) ==> n[c] == m[c - dst + lo]
  }

  // One word in place; the data behind a thing header is stepped over.
  method FixItem(mem: array<Word>, ghost m: seq<Word>, heap: nat, ghost hi: nat, dst: nat, ghost p: nat, ptr: nat)
    returns (step: nat)
    requires Closed(m, heap, hi) && heap <= p < hi && Item(m, heap, hi, p)
    requires dst + (hi - heap) <= mem.Length && ptr == p - heap + dst
    requires MovedTo(m, heap, hi, mem[..], dst, p) && Raw(m, heap, hi, mem[..], dst, p)
    modifies mem
    ensures step > 0 && p + step <= hi && (p + step < hi ==> Item(m, heap, hi, p + step))
    ensures MovedTo(m, heap, hi, mem[..], dst, p + step) && Raw(m, heap, hi, mem[..], dst, p + step)
    ensures forall c :: 0 <= c < mem.Length && c != ptr ==> mem[c] == old(mem[c])
  {
    WholeItems(m, heap, hi);
    hide Item, Laid, MovedTo, Offset, Closed;
    NextItem(m, heap, hi, p);
    ghost var n := mem[..];
    var val := mem[ptr];
    assert val == m[p];
    mem[ptr] := Offset(val, heap, dst);
    MovedItem(m, heap, hi, n, mem[..], dst, p);
    step := Step(val);
  }

  /** Copy the heap of one literal behind the code and fix it up in place. */
  method MoveLiteral(mem: array<Word>, ghost m: seq<Word>, heap: nat, size: nat, dst: nat) returns (ptr: nat)
    requires heap + size <= mem.Length && dst + size <= mem.Length && (heap + size <= dst || dst + size <= heap)
    requires Closed(m, heap, heap + size) && forall p :: heap <= p < heap + size ==> mem[p] == m[p]
    modifies mem
    ensures ptr == dst + size
    ensures SameTerms(m, heap, heap + size, mem[..], dst)
    ensures forall p :: 0 <= p < mem.Length && !(dst <= p < dst + size) ==> mem[p] == old(mem[p])
  {
    ghost var hi := heap + size;
    WholeItems(m, heap, hi);
    hide Item, Laid, Leads, MovedTo, SameTerms, Offset, Closed, Raw;
    CopyData(mem, heap, dst, size);
    ptr := dst;
    ghost var p := heap;
    AllRaw(m, heap, hi, mem[..], dst);
    Nothing(m, heap, hi, mem[..], dst);
    while ptr < dst + size
      invariant heap <= p <= hi && ptr == p - heap + dst
      invariant p < hi ==> Item(m, heap, hi, p)
      invariant MovedTo(m, heap, hi, mem[..], dst, p) && Raw(m, heap, hi, mem[..], dst, p)
      invariant forall c :: 0 <= c < mem.Length && !(dst <= c < dst + size) ==> mem[c] == old(mem[c])
      decreases hi - p
    {
      var step := FixItem(mem, m, heap, hi, dst, p, ptr);
      ptr, p := ptr + step, p + step;
    }
    MovedSame(m, heap, hi, mem[..], dst);
  }

  lemma AllRaw(m: seq<Word>, lo: nat, hi: nat, n: seq<Word>, dst: nat)
    requires lo <= hi <= |m| && dst + (hi - lo) <= |n|
    requires forall c :: dst <= c < dst + (hi - lo) ==> n[c] == m[c - dst + lo]
    ensures Raw(m, lo, hi, n, dst, lo)
  {
  }

  // Where literal i goes when the first one goes to low.
  function Place(lits: seq<Literal>, low: nat, i: nat): nat
    requires i <= |lits|
  {
    if i == 0 then low else Place(lits, low, i - 1) + lits[i - 1].size
  }

  lemma {:induction false} PlaceMono(lits: seq<Literal>, low: nat, i: nat, j: nat)
    requires i <= j <= |lits|
    ensures low <= Place(lits, low, i) <= Place(lits, low, j)
    decreases j
  {
    if j > 0 {
      if i < j { PlaceMono(lits, low, i, j - 1); } else { PlaceMono(lits, low, i - 1, j - 1); }
    }
  }

  // A term inside an area is kept by what leaves that area alone.
  lemma {:induction false} InsideKept(m: seq<Word>, n: seq<Word>, lo: nat, hi: nat, w: Word, t: Term)
    requires Rep(m, Inside(lo, hi), w, t) && hi <= |m| && hi <= |n|
    requires forall p :: lo <= p < hi ==> n[p] == m[p]
    ensures Rep(n, Inside(lo, hi), w, t)
    decreases t
  {
    match t
    case Imm(_) =>
    case Flat(_, d) =>
      assert n[w.at + 1..w.at + 1 + |d|] == m[w.at + 1..w.at + 1 + |d|];
    case Cons(h, tl) =>
      InsideKept(m, n, lo, hi, m[w.at], h);
      InsideKept(m, n, lo, hi, m[w.at + 1], tl);
    case Tuple(es) =>
      forall j | w.at < j <= w.at + |es| ensures Rep(n, Inside(lo, hi), n[j], es[j - w.at - 1]) {
        InsideKept(m, n, lo, hi, m[j], es[j - w.at - 1]);
      }
  }

  lemma SameKept(m: seq<Word>, lo: nat, hi: nat, n: seq<Word>, n': seq<Word>, dst: nat)
    requires lo <= hi <= |m| && dst + (hi - lo) <= |n| == |n'| && SameTerms(m, lo, hi, n, dst)
    requires forall p :: dst <= p < dst + (hi - lo) ==> n'[p] == n[p]
    ensures SameTerms(m, lo, hi, n', dst)
  {
    hide Rep, Leads;
    forall w, t | Rep(m, Inside(lo, hi), w, t) && Leads(m, lo, hi, w)
      ensures Rep(n', Inside(dst, dst + (hi - lo)), Offset(w, lo, dst), t)
    {
      InsideKept(n, n', dst, dst + (hi - lo), Offset(w, lo, dst), t);
    }
  }

  // Each literal heap is a closed block away from the place the literals go to.
  ghost predicate Literals(m: seq<Word>, lits: seq<Literal>, low: nat) {
    && Place(lits, low, |lits|) <= |m|
    && forall i :: 0 <= i < |lits| ==>
         && lits[i].heap + lits[i].size <= |m| && Closed(m, lits[i].heap, lits[i].heap + lits[i].size)
         && (lits[i].heap + lits[i].size <= low || Place(lits, low, |lits|) <= lits[i].heap)
  }

  // The first k literals have been moved.
  ghost predicate MovedLiterals(m: seq<Word>, lits: seq<Literal>, low: nat, n: seq<Word>, k: nat)
    requires Literals(m, lits, low) && k <= |lits|
  {
    forall i :: 0 <= i < k ==> SameTerms(m, lits[i].heap, lits[i].heap + lits[i].size, n, Place(lits, low, i))
  }

  // Literal i lies behind low and before literal k.
  lemma Between(lits: seq<Literal>, low: nat, i: nat, k: nat)
    requires i < k <= |lits|
    ensures low <= Place(lits, low, i) && Place(lits, low, i + 1) == Place(lits, low, i) + lits[i].size
    ensures Place(lits, low, i + 1) <= Place(lits, low, k)
  {
    PlaceMono(lits, low, 0, i);
    PlaceMono(lits, low, i + 1, k);
  }

  lemma OtherKept(m: seq<Word>, lits: seq<Literal>, low: nat, n: seq<Word>, n': seq<Word>, k: nat, i: nat)
    requires Literals(m, lits, low) && k < |lits| && |n| == |n'| == |m| && i < k && Place(lits, low, k) <= |m|
    requires SameTerms(m, lits[i].heap, lits[i].heap + lits[i].size, n, Place(lits, low, i))
    requires forall p :: low <= p < Place(lits, low, k) ==> n'[p] == n[p]
    ensures SameTerms(m, lits[i].heap, lits[i].heap + lits[i].size, n', Place(lits, low, i))
  {
    hide SameTerms, Closed, Place;
    Between(lits, low, i, k);
    SameKept(m, lits[i].heap, lits[i].heap + lits[i].size, n, n', Place(lits, low, i));
  }

  lemma OthersKept(m: seq<Word>, lits: seq<Literal>, low: nat, n: seq<Word>, n': seq<Word>, k: nat)
    requires Literals(m, lits, low) && k < |lits| && |n| == |n'| == |m| && Place(lits, low, k) <= |m|
    requires MovedLiterals(m, lits, low, n, k)
    requires forall p :: low <= p < Place(lits, low, k) ==> n'[p] == n[p]
    requires SameTerms(m, lits[k].heap, lits[k].heap + lits[k].size, n', Place(lits, low, k))
    ensures MovedLiterals(m, lits, low, n', k + 1)
  {
    hide SameTerms, Place, Closed;
    forall i | 0 <= i < k
      ensures SameTerms(m, lits[i].heap, lits[i].heap + lits[i].size, n', Place(lits, low, i))
    {
      OtherKept(m, lits, low, n, n', k, i);
    }
  }

  /** All literals are packed from low on, without gap or overlap, and each keeps its terms. */
  method MoveLiterals(mem: array<Word>, lits: seq<Literal>, low: nat) returns (end: nat, places: seq<nat>)
    requires Literals(mem[..], lits, low)
    modifies mem
    ensures end == Place(lits, low, |lits|)
    ensures |places| == |lits| && forall i :: 0 <= i < |lits| ==> places[i] == Place(lits, low, i)
    ensures MovedLiterals(old(mem[..]), lits, low, mem[..], |lits|)
    ensures forall p :: 0 <= p < mem.Length && !(low <= p < end) ==> mem[p] == old(mem[p])
  {
    hide SameTerms, Closed, Place, MovedLiterals;
    ghost var m := mem[..];
    end, places := low, [];
    NoneMoved(m, lits, low, m);
    for i := 0 to |lits|
      invariant end == Place(lits, low, i)
      invariant |places| == i && forall j :: 0 <= j < i ==> places[j] == Place(lits, low, j)
      invariant MovedLiterals(m, lits, low, mem[..], i)
      invariant forall p :: 0 <= p < mem.Length && !(low <= p < end) ==> mem[p] == m[p]
    {
      ghost var n := mem[..];
      Between(lits, low, i, |lits|);
      places := places + [end];
      end := MoveLiteral(mem, m, lits[i].heap, lits[i].size, end);
      OthersKept(m, lits, low, n, mem[..], i);
    }
  }

  lemma NoneMoved(m: seq<Word>, lits: seq<Literal>, low: nat, n: seq<Word>)
    requires Literals(m, lits, low)
    ensures Place(lits, low, 0) == low && MovedLiterals(m, lits, low, n, 0)
  {
  }

  // The operands to patch: distinct code words, each holding the number of a literal.
  ghost predicate Patches(m: seq<Word>, lits: seq<Literal>, patches: seq<nat>) {
    && (forall k :: 0 <= k < |patches| ==>
          patches[k] < |m| && m[patches[k]].Immed? && 0 <= m[patches[k]].v < |lits|)
    && (forall j, k :: 0 <= j < k < |patches| ==> patches[j] != patches[k])
  }

  // The moved term of the literal an operand names.
  function Target(lits: seq<Literal>, places: seq<nat>, w: Word): Word {
    if w.Immed? && 0 <= w.v < |lits| && |places| == |lits|
    then Offset(lits[w.v].term, lits[w.v].heap, places[w.v]) else w
  }

  method PatchLiterals(mem: array<Word>, lits: seq<Literal>, places: seq<nat>, patches: seq<nat>)
    requires |places| == |lits| && Patches(mem[..], lits, patches)
    modifies mem
    ensures forall k :: 0 <= k < |patches| ==> mem[patches[k]] == Target(lits, places, old(mem[patches[k]]))
    ensures forall p :: 0 <= p < mem.Length && p !in patches ==> mem[p] == old(mem[p])
  {
    hide Offset;
    for k := 0 to |patches|
      invariant forall j :: 0 <= j < k ==> mem[patches[j]] == Target(lits, places, old(mem[patches[j]]))
      invariant forall j :: k <= j < |patches| ==> mem[patches[j]] == old(mem[patches[j]])
      invariant forall p :: 0 <= p < mem.Length && p !in patches ==> mem[p] == old(mem[p])
    {
      var pos := patches[k];
      var lit := lits[mem[pos].v];
      mem[pos] := Offset(lit.term, lit.heap, places[mem[pos].v]);
    }
  }

  // A term inside an area is inside every larger one.
  lemma {:induction false} Widen(m: seq<Word>, lo: nat, hi: nat, lo': nat, hi': nat, w: Word, t: Term)
    requires Rep(m, Inside(lo, hi), w, t) && lo' <= lo && hi <= hi'
    ensures Rep(m, Inside(lo', hi'), w, t)
    decreases t
  {
    match t
    case Imm(_) =>
    case Flat(_, _) =>
    case Cons(h, tl) =>
      Widen(m, lo, hi, lo', hi', m[w.at], h);
      Widen(m, lo, hi, lo', hi', m[w.at + 1], tl);
    case Tuple(es) =>
      forall j | w.at < j <= w.at + |es| ensures Rep(m, Inside(lo', hi'), m[j], es[j - w.at - 1]) {
        Widen(m, lo, hi, lo', hi', m[j], es[j - w.at - 1]);
      }
  }

  lemma OperandOk(m: seq<Word>, n: seq<Word>, n': seq<Word>, lits: seq<Literal>, low: nat, places: seq<nat>,
                  w: Word, t: Term)
    requires Literals(m, lits, low) && MovedLiterals(m, lits, low, n, |lits|) && |n| == |n'| == |m|
    requires |places| == |lits| && forall i :: 0 <= i < |lits| ==> places[i] == Place(lits, low, i)
    requires forall p :: low <= p < Place(lits, low, |lits|) ==> n'[p] == n[p]
    requires w.Immed? && LiteralIs(m, lits, w.v, t)
    ensures Rep(n', Inside(low, Place(lits, low, |lits|)), Target(lits, places, w), t)
  {
    hide Rep, Leads, Closed, Place, Offset;
    var x := lits[w.v];
    var dst, end := Place(lits, low, w.v), Place(lits, low, |lits|);
    Between(lits, low, w.v, |lits|);
    assert SameTerms(m, x.heap, x.heap + x.size, n, dst);
    InsideKept(n, n', dst, dst + x.size, Offset(x.term, x.heap, dst), t);
    Widen(n', dst, dst + x.size, low, end, Offset(x.term, x.heap, dst), t);
  }

  /** After the literals are placed, every patched operand represents, behind
    * the code, the very term of the literal whose number it held. */
  method PlaceLiterals(mem: array<Word>, lits: seq<Literal>, low: nat, patches: seq<nat>) returns (end: nat)
    requires Literals(mem[..], lits, low) && Patches(mem[..], lits, patches)
    requires forall k :: 0 <= k < |patches| ==> !(low <= patches[k] < Place(lits, low, |lits|))
    modifies mem
    ensures end == Place(lits, low, |lits|)
    ensures forall k, t :: 0 <= k < |patches| && LiteralIs(old(mem[..]), lits, old(mem[patches[k]]).v, t)
              ==> Rep(mem[..], Inside(low, end), mem[patches[k]], t)
    ensures forall p :: 0 <= p < mem.Length && !(low <= p < end) && p !in patches ==> mem[p] == old(mem[p])
  {
    assert Place(lits, low, |lits|) <= mem.Length;
    hide Literals, MovedLiterals, Target, Place, Rep, LiteralIs;
    ghost var m := mem[..];
    var places;
    end, places := MoveLiterals(mem, lits, low);
    ghost var n := mem[..];
    PatchLiterals(mem, lits, places, patches);
    forall p | low <= p < end ensures mem[p] == n[p] {
      assert p !in patches;
    }
    forall k, t | 0 <= k < |patches| && LiteralIs(m, lits, m[patches[k]].v, t)
      ensures Rep(mem[..], Inside(low, end), mem[patches[k]], t)
    {
      OperandOk(m, n, mem[..], lits, low, places, m[patches[k]], t);
      assert mem[patches[k]] == Target(lits, places, m[patches[k]]);
    }
  }

  // Literal i represents the term t.
  ghost predicate LiteralIs(m: seq<Word>, lits: seq<Literal>, i: int, t: Term) {
    && 0 <= i < |lits| && lits[i].heap + lits[i].size <= |m|
    && Rep(m, Inside(lits[i].heap, lits[i].heap + lits[i].size), lits[i].term, t)
    && Leads(m, lits[i].heap, lits[i].heap + lits[i].size, lits[i].term)
  }
}

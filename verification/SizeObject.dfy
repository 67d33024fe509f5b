/** size_object: the flat size of a term, with an explicit stack. */
module SizeObject {
  import opened Terms

  // Word i of the stack represents term i.
  ghost predicate Stacked(m: seq<Word>, ar: Area, stack: seq<Word>, ts: seq<Term>) {
    |stack| == |ts| && forall i :: 0 <= i < |ts| ==> Rep(m, ar, stack[i], ts[i])
  }

  lemma SizeAllSnoc(ts: seq<Term>, t: Term)
    ensures SizeAll(ts + [t]) == SizeAll(ts) + Size(t)
  {
    SizeAllConcat(ts, [t]);
    SizeAllOne(t);
  }

  lemma SizeAllTop(ts: seq<Term>)
    requires ts != []
    ensures SizeAll(ts) == SizeAll(ts[..|ts| - 1]) + Size(ts[|ts| - 1])
  {
    assert ts == ts[..|ts| - 1] + [ts[|ts| - 1]];
    SizeAllSnoc(ts[..|ts| - 1], ts[|ts| - 1]);
  }

  // Push all elements of a tuple but the last that are not immediate.
  method PushElements(mem: array<Word>, ghost ar: Area, at: nat, ghost es: seq<Term>, arity: nat,
                      stack: seq<Word>, ghost ts: seq<Term>)
    returns (pushed: seq<Word>, ghost us: seq<Term>)
    requires arity == |es| > 0 && Rep(mem[..], ar, BoxPtr(at), Tuple(es))
    requires Stacked(mem[..], ar, stack, ts)
    ensures Stacked(mem[..], ar, pushed, us)
    ensures SizeAll(us) == SizeAll(ts) + SizeAll(es[..arity - 1])
  {
    hide Size, SizeAll;
    pushed, us := stack, ts;
    ghost var m := mem[..];
    assert SizeAll(es[..0]) == 0 by { NoTerms(es); }
    for k := 0 to arity - 1
      invariant Stacked(m, ar, pushed, us)
      invariant SizeAll(us) == SizeAll(ts) + SizeAll(es[..k])
    {
      var elem := mem[at + 1 + k];
      assert Rep(m, ar, m[at + 1 + k], es[k]);
      assert es[..k + 1] == es[..k] + [es[k]];
      SizeAllSnoc(es[..k], es[k]);
      if !elem.Immed? {
        SizeAllSnoc(us, es[k]);
        pushed, us := pushed + [elem], us + [es[k]];
      } else {
        PointersOnly(m, ar, elem, es[k]);
      }
    }
  }

  lemma NoTerms(es: seq<Term>)
    ensures SizeAll(es[..0]) == 0
  {
  }

  lemma PointersOnly(m: seq<Word>, ar: Area, w: Word, t: Term)
    requires Rep(m, ar, w, t) && !w.ListPtr? && !w.BoxPtr?
    ensures w.Immed? && Size(t) == 0
  {
  }

  lemma LastElement(es: seq<Term>)
    requires es != []
    ensures SizeAll(es) == SizeAll(es[..|es| - 1]) + Size(es[|es| - 1])
  {
    SizeAllTop(es);
  }

  // What one turn of the loop does with a list cell.
  method EnterList(mem: array<Word>, ghost ar: Area, at: nat, ghost ct: Term, stack: seq<Word>, ghost ts: seq<Term>)
    returns (next: Word, ghost nt: Term, pushed: seq<Word>, ghost us: seq<Term>)
    requires Rep(mem[..], ar, ListPtr(at), ct) && Stacked(mem[..], ar, stack, ts)
    ensures Rep(mem[..], ar, next, nt) && Stacked(mem[..], ar, pushed, us)
    ensures Size(ct) + SizeAll(ts) == 2 + Size(nt) + SizeAll(us)
  {
    hide SizeAll;
    var elem := mem[at];
    pushed, us := stack, ts;
    if !elem.Immed? {
      SizeAllSnoc(ts, ct.hd);
      pushed, us := stack + [elem], ts + [ct.hd];
    } else {
      PointersOnly(mem[..], ar, elem, ct.hd);
    }
    next, nt := mem[at + 1], ct.tl;
  }

  // A boxed object: `pop` when there is nothing inside left to visit.
  method EnterBoxed(mem: array<Word>, ghost ar: Area, at: nat, ghost ct: Term, stack: seq<Word>, ghost ts: seq<Term>)
    returns (words: nat, pop: bool, next: Word, ghost nt: Term, pushed: seq<Word>, ghost us: seq<Term>)
    requires Rep(mem[..], ar, BoxPtr(at), ct) && Stacked(mem[..], ar, stack, ts)
    ensures Stacked(mem[..], ar, pushed, us) && words > 0
    ensures pop ==> us == ts && Size(ct) == words
    ensures !pop ==> Rep(mem[..], ar, next, nt) && Size(ct) + SizeAll(ts) == words + Size(nt) + SizeAll(us)
  {
    hide SizeAll;
    words, pop, next, nt, pushed, us := 1, true, BoxPtr(at), ct, stack, ts;
    match mem[at] {
      case Arity(arity) =>
        words := arity + 1;
        if arity > 0 {
          pushed, us := PushElements(mem, ar, at, ct.elems, arity, stack, ts);
          LastElement(ct.elems);
          assert Rep(mem[..], ar, mem[at + arity], ct.elems[arity - 1]);
          next, nt, pop := mem[at + arity], ct.elems[arity - 1], false;
        } else {
          assert SizeAll(ct.elems) == 0 by { NoTerms(ct.elems); assert ct.elems[..0] == ct.elems; }
        }
      case Thing(_, n) => words := n + 1;
      case _ =>
    }
  }

  /** The size is the one of the represented term, shared parts counted every time. */
  method SizeOf(mem: array<Word>, ghost ar: Area, obj: Word, ghost t: Term) returns (sum: nat)
    requires Rep(mem[..], ar, obj, t)
    ensures sum == Size(t)
  {
    hide SizeAll, Size;
    sum := 0;
    var cur, stack: seq<Word> := obj, [];
    ghost var ct, ts: seq<Term> := t, [];
    assert SizeAll(ts) == 0 by { NoTerms(ts); assert ts[..0] == ts; }
    while true
      invariant Rep(mem[..], ar, cur, ct) && Stacked(mem[..], ar, stack, ts)
      invariant sum + Size(ct) + SizeAll(ts) == Size(t)
      decreases Size(ct) + SizeAll(ts), |ts|
    {
      var pop := true;
      if cur.ListPtr? {
        cur, ct, stack, ts := EnterList(mem, ar, cur.at, ct, stack, ts);
        sum, pop := sum + 2, false;
      } else if cur.BoxPtr? {
        var words, next;
        ghost var nt;
        words, pop, next, nt, stack, ts := EnterBoxed(mem, ar, cur.at, ct, stack, ts);
        sum := sum + words;
        if !pop { cur, ct := next, nt; }
      } else {
        PointersOnly(mem[..], ar, cur, ct);
      }
      if pop {
        if stack == [] { break; }
        SizeAllTop(ts);
        var top := |stack| - 1;
        cur, stack := stack[top], stack[..top];
        ct, ts := ts[top], ts[..top];
      }
    }
  }
}

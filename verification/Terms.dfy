/** Tagged words, terms, and which words of a memory represent which term. */
module Terms {

  // One word of a heap. `Thing` headers belong to flat boxed objects (bignums,
  // floats, references, heap binaries); the words after such a header are data
  // and may look like anything.
  datatype Word =
    | Immed(v: int)
    | ListPtr(at: nat)
    | BoxPtr(at: nat)
    | Arity(n: nat)
    | Thing(kind: nat, n: nat)

  datatype Term =
    | Imm(v: int)
    | Cons(hd: Term, tl: Term)
    | Tuple(elems: seq<Term>)
    | Flat(kind: nat, data: seq<Word>)

  // The number of words a term takes when nothing is shared.
  function Size(t: Term): nat {
    match t
    case Imm(_) => 0
    case Cons(h, tl) => 2 + Size(h) + Size(tl)
    case Tuple(es) => 1 + |es| + SizeAll(es)
    case Flat(_, d) => 1 + |d|
  }

  function SizeAll(ts: seq<Term>): nat {
    if ts == [] then 0 else Size(ts[0]) + SizeAll(ts[1..])
  }

  lemma {:induction false} SizeAllConcat(a: seq<Term>, b: seq<Term>)
    ensures SizeAll(a + b) == SizeAll(a) + SizeAll(b)
  {
    if a == [] {
      assert a + b == b;
    } else {
      assert (a + b)[1..] == a[1..] + b;
      SizeAllConcat(a[1..], b);
    }
  }

  lemma SizeAllOne(t: Term)
    ensures SizeAll([t]) == Size(t)
  {
    assert [t][1..] == [];
  }

  // An area of memory in which the cells of a term may lie: [lo, hi) itself, or
  // everything but [lo, hi) and the single word `res`.
  datatype Area = Inside(lo: nat, hi: nat) | Outside(lo: nat, hi: nat, res: nat)

  predicate Allowed(ar: Area, a: nat, n: nat) {
    match ar
    case Inside(lo, hi) => lo <= a && a + n <= hi
    case Outside(lo, hi, res) => (a + n <= lo || hi <= a) && (a + n <= res || res < a)
  }

  /** Word w of memory m represents the term t, with every cell in the area. */
  ghost predicate Rep(m: seq<Word>, ar: Area, w: Word, t: Term)
    decreases t
  {
    match t
    case Imm(v) => w == Immed(v)
    case Cons(h, tl) =>
      && w.ListPtr? && w.at + 2 <= |m| && Allowed(ar, w.at, 2)
      && Rep(m, ar, m[w.at], h) && Rep(m, ar, m[w.at + 1], tl)
    case Tuple(es) =>
      && w.BoxPtr? && w.at + 1 + |es| <= |m| && Allowed(ar, w.at, 1 + |es|)
      && m[w.at] == Arity(|es|)
      && forall j :: w.at < j <= w.at + |es| ==> Rep(m, ar, m[j], es[j - w.at - 1])
    case Flat(k, d) =>
      && w.BoxPtr? && w.at + 1 + |d| <= |m| && Allowed(ar, w.at, 1 + |d|)
      && m[w.at] == Thing(k, |d|)
      && m[w.at + 1..w.at + 1 + |d|] == d
  }

  // A word represents at most one term.
  lemma {:induction false} RepUnique(m: seq<Word>, ar: Area, br: Area, w: Word, t: Term, u: Term)
    requires Rep(m, ar, w, t) && Rep(m, br, w, u)
    ensures t == u
    decreases t
  {
    match t
    case Imm(_) =>
    case Flat(_, _) =>
    case Cons(h, tl) =>
      RepUnique(m, ar, br, m[w.at], h, u.hd);
      RepUnique(m, ar, br, m[w.at + 1], tl, u.tl);
    case Tuple(es) =>
      forall i | 0 <= i < |es| ensures es[i] == u.elems[i] {
        RepUnique(m, ar, br, m[w.at + 1 + i], es[i], u.elems[i]);
      }
  }
}

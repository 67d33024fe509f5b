/** The breakpoints of one function: a doubly linked ring in which the kind of
  * a node is stored in the node before it, and the kind of the first one in the
  * code word pc[0]; pc[-4] points to the last node, unless a call left at a
  * debug breakpoint. */
module Breakpoints {
  import opened Sequences

  // The breakpoint instructions, of which 2 is meta trace; 0 stands for any of them.
  const TRACE := 1
  const DEBUG := 3
  const COUNT := 4

  predicate IsBreakOp(op: nat) {
    TRACE <= op <= COUNT
  }

  // After a debug breakpoint a call does not come back to the function.
  predicate Passing(op: nat) {
    IsBreakOp(op) && op != DEBUG
  }

  // `made` is the kind the node was allocated for, which decides its size.
  datatype Bp = Bp(next: nat, prev: nat, orig: nat, made: nat, count: int)

  function Succ(i: nat, n: nat): nat {
    if i + 1 < n then i + 1 else 0
  }

  function Pred(i: nat, n: nat): nat
    requires n > 0
  {
    if i > 0 then i - 1 else n - 1
  }

  ghost predicate Distinct(s: seq<nat>) {
    forall i, j :: 0 <= i < j < |s| ==> s[i] != s[j]
  }

  // The nodes of the ring, first to last, and nothing else.
  ghost predicate Nodes(mem: map<nat, Bp>, ring: seq<nat>) {
    Distinct(ring) && 0 !in ring && forall p :: p in mem <==> p in ring
  }

  ghost predicate LinkAt(mem: map<nat, Bp>, ring: seq<nat>, i: nat)
    requires i < |ring|
  {
    ring[i] in mem && mem[ring[i]].next == ring[Succ(i, |ring|)] && mem[ring[i]].prev == ring[Pred(i, |ring|)]
  }

  ghost predicate Links(mem: map<nat, Bp>, ring: seq<nat>) {
    forall i :: 0 <= i < |ring| ==> LinkAt(mem, ring, i)
  }

  // Each node holds the kind of the next one, the last node the instruction of the program.
  ghost predicate Origs(mem: map<nat, Bp>, ring: seq<nat>, kinds: seq<nat>, instr: nat) {
    |kinds| == |ring| && forall i :: 0 <= i < |ring| ==>
      ring[i] in mem && mem[ring[i]].orig == if i + 1 < |ring| then kinds[i + 1] else instr
  }

  // Each node was made for the kind it is used as.
  ghost predicate Typed(mem: map<nat, Bp>, ring: seq<nat>, kinds: seq<nat>) {
    |kinds| == |ring| && forall i :: 0 <= i < |ring| ==> ring[i] in mem && mem[ring[i]].made == kinds[i]
  }

  // ----- inserting -----

  // BpInitAndSpliceNext(bd, i, b) and BpInitAndSplicePrev(bd, i, b), write by write.
  function SpliceNext(mem: map<nat, Bp>, bd: nat, made: nat, i: nat, b: nat): map<nat, Bp>
    requires b in mem && mem[b].next in mem && bd !in mem
  {
    var m0 := mem[bd := Bp(0, b, i, made, 0)];
    var m1 := m0[m0[b].next := m0[m0[b].next].(prev := bd)];
    var m2 := m1[bd := m1[bd].(next := m1[b].next)];
    m2[b := m2[b].(next := bd)]
  }

  function SplicePrev(mem: map<nat, Bp>, bd: nat, made: nat, i: nat, b: nat): map<nat, Bp>
    requires b in mem && mem[b].prev in mem && bd !in mem
  {
    var m0 := mem[bd := Bp(b, 0, i, made, 0)];
    var m1 := m0[m0[b].prev := m0[m0[b].prev].(next := bd)];
    var m2 := m1[bd := m1[bd].(prev := m1[b].prev)];
    m2[b := m2[b].(prev := bd)]
  }

  // What does not belong to the links of a node stays.
  ghost predicate SameData(mem: map<nat, Bp>, m: map<nat, Bp>, q: nat)
    requires q in mem && q in m
  {
    m[q].orig == mem[q].orig && m[q].made == mem[q].made && m[q].count == mem[q].count
  }

  lemma SpliceNextIs(mem: map<nat, Bp>, bd: nat, made: nat, i: nat, b: nat)
    requires b in mem && mem[b].next in mem && bd !in mem
    ensures var m := SpliceNext(mem, bd, made, i, b);
            m.Keys == mem.Keys + {bd} && m[bd] == Bp(mem[b].next, b, i, made, 0)
    ensures forall q :: q in mem ==> SameData(mem, SpliceNext(mem, bd, made, i, b), q)
    ensures forall q :: q in mem ==> SpliceNext(mem, bd, made, i, b)[q].next == (if q == b then bd else mem[q].next)
    ensures forall q :: q in mem ==>
              SpliceNext(mem, bd, made, i, b)[q].prev == (if q == mem[b].next then bd else mem[q].prev)
  {
  }

  lemma SplicePrevIs(mem: map<nat, Bp>, bd: nat, made: nat, i: nat, b: nat)
    requires b in mem && mem[b].prev in mem && bd !in mem
    ensures var m := SplicePrev(mem, bd, made, i, b);
            m.Keys == mem.Keys + {bd} && m[bd] == Bp(b, mem[b].prev, i, made, 0)
    ensures forall q :: q in mem ==> SameData(mem, SplicePrev(mem, bd, made, i, b), q)
    ensures forall q :: q in mem ==> SplicePrev(mem, bd, made, i, b)[q].prev == (if q == b then bd else mem[q].prev)
    ensures forall q :: q in mem ==>
              SplicePrev(mem, bd, made, i, b)[q].next == (if q == mem[b].prev then bd else mem[q].next)
  {
  }

  // The positions between which a node goes in at p.
  function Before(n: nat, p: nat): nat
    requires n > 0
  {
    if p > 0 then p - 1 else n - 1
  }

  function Behind(n: nat, p: nat): nat {
    if p < n then p else 0
  }

  // A new node bd between ring[p - 1] and ring[p].
  ghost predicate Spliced(mem: map<nat, Bp>, m: map<nat, Bp>, ring: seq<nat>, bd: nat, p: nat)
    requires 0 < |ring| && p <= |ring|
  {
    var before, after := ring[Before(|ring|, p)], ring[Behind(|ring|, p)];
    && m.Keys == mem.Keys + {bd} && bd !in mem && m[bd].next == after && m[bd].prev == before
    && (forall q :: q in mem ==> m[q].next == (if q == before then bd else mem[q].next))
    && (forall q :: q in mem ==> m[q].prev == (if q == after then bd else mem[q].prev))
  }

  lemma SplicedLink(mem: map<nat, Bp>, m: map<nat, Bp>, ring: seq<nat>, bd: nat, p: nat, j: nat)
    requires Distinct(ring) && Links(mem, ring) && j < |ring| && p <= |ring| && Spliced(mem, m, ring, bd, p)
    ensures ring[j] in m
    ensures m[ring[j]].next == if j == Before(|ring|, p) then bd else ring[Succ(j, |ring|)]
    ensures m[ring[j]].prev == if j == Behind(|ring|, p) then bd else ring[Pred(j, |ring|)]
  {
    assert LinkAt(mem, ring, j);
  }

  lemma SplicedNext(mem: map<nat, Bp>, m: map<nat, Bp>, ring: seq<nat>, bd: nat, p: nat, i: nat)
    requires Distinct(ring) && Links(mem, ring) && 0 < |ring| && p <= |ring| && Spliced(mem, m, ring, bd, p)
    requires i <= |ring|
    ensures var out := Put(ring, p, bd); out[i] in m && m[out[i]].next == out[Succ(i, |ring| + 1)]
  {
    hide Put, Links;
    PutAt(ring, p, bd, i);
    PutAt(ring, p, bd, Succ(i, |ring| + 1));
    if i != p { SplicedLink(mem, m, ring, bd, p, if i < p then i else i - 1); }
  }

  lemma SplicedPrev(mem: map<nat, Bp>, m: map<nat, Bp>, ring: seq<nat>, bd: nat, p: nat, i: nat)
    requires Distinct(ring) && Links(mem, ring) && 0 < |ring| && p <= |ring| && Spliced(mem, m, ring, bd, p)
    requires i <= |ring|
    ensures var out := Put(ring, p, bd); out[i] in m && m[out[i]].prev == out[Pred(i, |ring| + 1)]
  {
    hide Put, Links;
    PutAt(ring, p, bd, i);
    PutAt(ring, p, bd, Pred(i, |ring| + 1));
    if i != p { SplicedLink(mem, m, ring, bd, p, if i < p then i else i - 1); }
  }

  lemma SplicedLinks(mem: map<nat, Bp>, m: map<nat, Bp>, ring: seq<nat>, bd: nat, p: nat)
    requires Distinct(ring) && Links(mem, ring) && 0 < |ring| && p <= |ring| && Spliced(mem, m, ring, bd, p)
    ensures Links(m, Put(ring, p, bd))
  {
    hide Put, Links, Spliced, Distinct;
    var out := Put(ring, p, bd);
    forall i | 0 <= i < |out|
      ensures LinkAt(m, out, i)
    {
      SplicedNext(mem, m, ring, bd, p, i);
      SplicedPrev(mem, m, ring, bd, p, i);
    }
    AllLinked(m, out);
  }

  lemma SplicedNodes(mem: map<nat, Bp>, m: map<nat, Bp>, ring: seq<nat>, bd: nat, p: nat)
    requires Nodes(mem, ring) && 0 < |ring| && p <= |ring| && bd != 0 && Spliced(mem, m, ring, bd, p)
    ensures Nodes(m, Put(ring, p, bd))
  {
    hide Put;
    PutDistinct(ring, p, bd);
  }

  lemma AllLinked(m: map<nat, Bp>, ring: seq<nat>)
    requires forall i :: 0 <= i < |ring| ==> LinkAt(m, ring, i)
    ensures Links(m, ring)
  {
  }

  lemma PutDistinct(s: seq<nat>, p: nat, x: nat)
    requires Distinct(s) && p <= |s| && x !in s
    ensures Distinct(Put(s, p, x)) && forall q :: q in Put(s, p, x) <==> q in s || q == x
  {
    var out := Put(s, p, x);
    forall i, j | 0 <= i < j < |out| ensures out[i] != out[j] {
      var a, b := if i < p then i else i - 1, if j < p then j else j - 1;
      assert i != p ==> out[i] == s[a];
      assert j != p ==> out[j] == s[b];
    }
    assert s == s[..p] + s[p..];
  }

  // ----- removing -----

  // BpSpliceNext(bd, bd->prev), write by write, and Free(bd).
  function Unlink(mem: map<nat, Bp>, c: nat): map<nat, Bp>
    requires c in mem && mem[c].next in mem && mem[c].prev in mem && mem[mem[c].prev].next == c
  {
    var d := mem[c].prev;
    var e := mem[mem[c].next].prev;
    var m1 := mem[mem[c].next := mem[mem[c].next].(prev := mem[mem[d].next].prev)];
    var m2 := m1[m1[d].next := m1[m1[d].next].(prev := e)];
    var f := m2[c].next;
    var m3 := m2[c := m2[c].(next := m2[d].next)];
    var m4 := m3[d := m3[d].(next := f)];
    m4 - {c}
  }

  lemma UnlinkIs(mem: map<nat, Bp>, c: nat)
    requires c in mem && mem[c].next in mem && mem[c].prev in mem
    requires mem[mem[c].prev].next == c && mem[mem[c].next].prev == c && mem[c].next != c && mem[c].prev != c
    ensures Unlink(mem, c).Keys == mem.Keys - {c}
    ensures forall q :: q in mem && q != c ==> SameData(mem, Unlink(mem, c), q)
    ensures forall q :: q in mem && q != c ==>
              Unlink(mem, c)[q].next == (if q == mem[c].prev then mem[c].next else mem[q].next)
    ensures forall q :: q in mem && q != c ==>
              Unlink(mem, c)[q].prev == (if q == mem[c].next then mem[c].prev else mem[q].prev)
  {
  }

  lemma DropDistinct(s: seq<nat>, k: nat)
    requires Distinct(s) && k < |s|
    ensures Distinct(Drop(s, k)) && forall q :: q in Drop(s, k) <==> q in s && q != s[k]
  {
    var out := Drop(s, k);
    forall i, j | 0 <= i < j < |out| ensures out[i] != out[j] { }
    forall q | q in s && q != s[k] ensures q in out {
      var i :| 0 <= i < |s| && s[i] == q;
      assert i < k ==> out[i] == q;
      assert i > k ==> out[i - 1] == q;
    }
    forall q | q in out ensures q in s && q != s[k] {
      var i :| 0 <= i < |out| && out[i] == q;
      assert q == s[if i < k then i else i + 1];
    }
  }

  // The neighbours of node k.
  lemma Neighbours(mem: map<nat, Bp>, ring: seq<nat>, k: nat)
    requires Distinct(ring) && Links(mem, ring) && k < |ring|
    ensures ring[k] in mem && mem[ring[k]].next == ring[Succ(k, |ring|)] && mem[ring[k]].prev == ring[Pred(k, |ring|)]
    ensures mem[ring[k]].next in mem && mem[ring[k]].prev in mem
    ensures mem[mem[ring[k]].prev].next == ring[k] && mem[mem[ring[k]].next].prev == ring[k]
    ensures |ring| > 1 ==> mem[ring[k]].next != ring[k] && mem[ring[k]].prev != ring[k]
    ensures |ring| == 1 ==> mem[ring[k]].next == ring[k]
  {
    assert LinkAt(mem, ring, k) && LinkAt(mem, ring, Succ(k, |ring|)) && LinkAt(mem, ring, Pred(k, |ring|));
  }

  lemma UnlinkedLink(mem: map<nat, Bp>, ring: seq<nat>, k: nat, j: nat)
    requires Distinct(ring) && Links(mem, ring) && k < |ring| && j < |ring| && j != k
    requires ring[k] in mem && mem[ring[k]].next in mem && mem[ring[k]].prev in mem && mem[mem[ring[k]].prev].next == ring[k]
    ensures ring[j] in Unlink(mem, ring[k])
    ensures Unlink(mem, ring[k])[ring[j]].next
            == if j == Pred(k, |ring|) then ring[Succ(k, |ring|)] else ring[Succ(j, |ring|)]
    ensures Unlink(mem, ring[k])[ring[j]].prev
            == if j == Succ(k, |ring|) then ring[Pred(k, |ring|)] else ring[Pred(j, |ring|)]
    ensures SameData(mem, Unlink(mem, ring[k]), ring[j])
  {
    hide Unlink;
    Neighbours(mem, ring, k);
    Neighbours(mem, ring, j);
    UnlinkIs(mem, ring[k]);
  }

  lemma UnlinkedLinks(mem: map<nat, Bp>, ring: seq<nat>, k: nat)
    requires Distinct(ring) && Links(mem, ring) && k < |ring| && |ring| > 1
    requires ring[k] in mem && mem[ring[k]].next in mem && mem[ring[k]].prev in mem && mem[mem[ring[k]].prev].next == ring[k]
    ensures Links(Unlink(mem, ring[k]), Drop(ring, k))
  {
    hide Links, Unlink, Drop, Distinct;
    var m, out, n := Unlink(mem, ring[k]), Drop(ring, k), |ring| - 1;
    forall i | 0 <= i < n
      ensures LinkAt(m, out, i)
    {
      DropAt(ring, k, i);
      DropAt(ring, k, Succ(i, n));
      DropAt(ring, k, Pred(i, n));
      UnlinkedLink(mem, ring, k, if i < k then i else i + 1);
    }
    AllLinked(m, out);
  }

  lemma UnlinkedNodes(mem: map<nat, Bp>, ring: seq<nat>, k: nat)
    requires Nodes(mem, ring) && Links(mem, ring) && k < |ring| && |ring| > 1
    requires ring[k] in mem && mem[ring[k]].next in mem && mem[ring[k]].prev in mem && mem[mem[ring[k]].prev].next == ring[k]
    ensures Nodes(Unlink(mem, ring[k]), Drop(ring, k))
  {
    hide Unlink, Drop;
    Neighbours(mem, ring, k);
    UnlinkIs(mem, ring[k]);
    DropDistinct(ring, k);
  }

  // ----- the ring after an insertion -----

  // Every old node but `but` holds the instruction it held.
  ghost predicate OrigsKept(mem: map<nat, Bp>, m: map<nat, Bp>, ring: seq<nat>, but: nat) {
    forall i :: 0 <= i < |ring| && ring[i] != but ==> ring[i] in mem && ring[i] in m && m[ring[i]].orig == mem[ring[i]].orig
  }

  lemma FirstOrigs(mem: map<nat, Bp>, m: map<nat, Bp>, ring: seq<nat>, kinds: seq<nat>, instr: nat, bd: nat, op: nat)
    requires ring != [] && Origs(mem, ring, kinds, instr) && bd in m && m[bd].orig == kinds[0] && OrigsKept(mem, m, ring, 0)
    requires 0 !in ring
    ensures Origs(m, Put(ring, 0, bd), Put(kinds, 0, op), instr)
  {
    hide Put;
    var out, ks := Put(ring, 0, bd), Put(kinds, 0, op);
    forall i | 0 <= i < |out| ensures out[i] in m && m[out[i]].orig == if i + 1 < |out| then ks[i + 1] else instr {
      PutAt(ring, 0, bd, i);
      if i + 1 < |out| { PutAt(kinds, 0, op, i + 1); }
    }
  }

  lemma LastOrigs(mem: map<nat, Bp>, m: map<nat, Bp>, ring: seq<nat>, kinds: seq<nat>, instr: nat, bd: nat, op: nat)
    requires ring != [] && Distinct(ring) && Origs(mem, ring, kinds, instr) && bd in m && m[bd].orig == instr
    requires var r := ring[|ring| - 1]; OrigsKept(mem, m, ring, r) && r in m && m[r].orig == op
    ensures Origs(m, Put(ring, |ring|, bd), Put(kinds, |kinds|, op), instr)
  {
    hide Put;
    var n := |ring|;
    var out, ks := Put(ring, n, bd), Put(kinds, n, op);
    forall i | 0 <= i < |out| ensures out[i] in m && m[out[i]].orig == if i + 1 < |out| then ks[i + 1] else instr {
      PutAt(ring, n, bd, i);
      if i + 1 < |out| { PutAt(kinds, n, op, i + 1); }
    }
  }

  lemma DebugOrigs(mem: map<nat, Bp>, m: map<nat, Bp>, ring: seq<nat>, kinds: seq<nat>, instr: nat, bd: nat, op: nat)
    requires |ring| >= 1 && Origs(mem, ring, kinds, instr) && bd in m && m[bd].orig == op && OrigsKept(mem, m, ring, 0)
    requires 0 !in ring
    ensures Origs(m, Put(ring, |ring| - 1, bd), Put(kinds, |kinds|, op), instr)
  {
    hide Put;
    var n := |ring|;
    var out, ks := Put(ring, n - 1, bd), Put(kinds, n, op);
    forall i | 0 <= i < |out| ensures out[i] in m && m[out[i]].orig == if i + 1 < |out| then ks[i + 1] else instr {
      PutAt(ring, n - 1, bd, i);
      if i + 1 < |out| { PutAt(kinds, n, op, i + 1); }
    }
  }

  // A node made for the kind that is put at the same place keeps the ring typed.
  lemma TypedPut(mem: map<nat, Bp>, m: map<nat, Bp>, ring: seq<nat>, kinds: seq<nat>, bd: nat, op: nat, p: nat)
    requires Typed(mem, ring, kinds) && p <= |ring| && bd in m && m[bd].made == op
    requires forall q :: q in mem ==> q in m && m[q].made == mem[q].made
    ensures Typed(m, Put(ring, p, bd), Put(kinds, p, op))
  {
    hide Put;
    forall i | 0 <= i < |ring| + 1
      ensures Put(ring, p, bd)[i] in m && m[Put(ring, p, bd)[i]].made == Put(kinds, p, op)[i]
    {
      PutAt(ring, p, bd, i);
      PutAt(kinds, p, op, i);
    }
  }

  lemma PutOps(kinds: seq<nat>, p: nat, op: nat, instr: nat)
    requires Distinct(kinds) && p <= |kinds| && op !in kinds && instr !in kinds && op != instr
    ensures Distinct(Put(kinds, p, op)) && instr !in Put(kinds, p, op)
  {
    PutDistinct(kinds, p, op);
    forall i | 0 <= i < |kinds| + 1 ensures Put(kinds, p, op)[i] != instr { PutAt(kinds, p, op, i); }
  }

  lemma PutProper(kinds: seq<nat>, p: nat, op: nat, instr: nat)
    requires Proper(kinds, instr) && p <= |kinds| && IsBreakOp(op)
    ensures Proper(Put(kinds, p, op), instr)
  {
    hide Put;
    forall i | 0 <= i < |kinds| + 1 ensures IsBreakOp(Put(kinds, p, op)[i]) { PutAt(kinds, p, op, i); }
  }

  // Splicing after the last node puts the new one between the last and the first.
  lemma NextSpliced(mem: map<nat, Bp>, ring: seq<nat>, bd: nat, made: nat, i: nat, p: nat)
    requires Distinct(ring) && Links(mem, ring) && ring != [] && bd !in mem && (p == 0 || p == |ring|)
    ensures var b := ring[|ring| - 1]; b in mem && mem[b].next in mem
    ensures var m := SpliceNext(mem, bd, made, i, ring[|ring| - 1]);
            && Spliced(mem, m, ring, bd, p) && bd in m && m[bd].orig == i && m[bd].made == made
            && (forall q :: q in mem ==> q in m && SameData(mem, m, q))
  {
    hide SpliceNext, Links;
    Neighbours(mem, ring, |ring| - 1);
    SpliceNextIs(mem, bd, made, i, ring[|ring| - 1]);
  }

  // Splicing before the last node puts the new one second to last.
  lemma PrevSpliced(mem: map<nat, Bp>, ring: seq<nat>, bd: nat, made: nat, i: nat)
    requires Distinct(ring) && Links(mem, ring) && |ring| >= 1 && bd !in mem
    ensures var b := ring[|ring| - 1]; b in mem && mem[b].prev in mem
    ensures var m := SplicePrev(mem, bd, made, i, ring[|ring| - 1]);
            && Spliced(mem, m, ring, bd, |ring| - 1) && bd in m && m[bd].orig == i && m[bd].made == made
            && ring[|ring| - 1] in m && m[ring[|ring| - 1]].prev == bd
            && (forall q :: q in mem ==> q in m && SameData(mem, m, q))
  {
    hide SplicePrev, Links;
    Neighbours(mem, ring, |ring| - 1);
    SplicePrevIs(mem, bd, made, i, ring[|ring| - 1]);
  }

  // Other writes to instructions and kinds leave a splice what it is.
  lemma SplicedSame(mem: map<nat, Bp>, m: map<nat, Bp>, m': map<nat, Bp>, ring: seq<nat>, bd: nat, p: nat, q: nat, op: nat)
    requires 0 < |ring| && p <= |ring| && Spliced(mem, m, ring, bd, p) && q in m && m' == m[q := m[q].(orig := op)]
    ensures Spliced(mem, m', ring, bd, p)
  {
  }

  lemma KeptOrigs(mem: map<nat, Bp>, m: map<nat, Bp>, ring: seq<nat>, but: nat)
    requires forall i :: 0 <= i < |ring| ==> ring[i] in mem
    requires forall q :: q in mem && q != but ==> q in m && m[q].orig == mem[q].orig
    ensures OrigsKept(mem, m, ring, but)
  {
  }

  // All of a ring but its first and last word. The kinds are the ones that pc[0] and the
  // nodes hold when they are read from pc[-4] on.
  ghost predicate Inner(mem: map<nat, Bp>, ring: seq<nat>, kinds: seq<nat>, instr: nat) {
    && Nodes(mem, ring) && Links(mem, ring) && Origs(mem, ring, kinds, instr)
    && Distinct(kinds) && instr !in kinds && !Passing(instr)
  }

  // All nodes are breakpoints and the last one holds an instruction of the program.
  ghost predicate Proper(kinds: seq<nat>, instr: nat) {
    (forall i :: 0 <= i < |kinds| ==> IsBreakOp(kinds[i])) && !IsBreakOp(instr)
  }

  lemma InnerIn(mem: map<nat, Bp>, m: map<nat, Bp>, ring: seq<nat>, kinds: seq<nat>, instr: nat, bd: nat, op: nat,
                p: nat, k: nat)
    requires Inner(mem, ring, kinds, instr) && ring != [] && op != instr && op !in kinds && bd != 0
    requires p <= |ring| && k <= |kinds| && Spliced(mem, m, ring, bd, p)
    requires Origs(m, Put(ring, p, bd), Put(kinds, k, op), instr)
    ensures Inner(m, Put(ring, p, bd), Put(kinds, k, op), instr)
  {
    hide Links, Origs, Put, Spliced;
    SplicedLinks(mem, m, ring, bd, p);
    SplicedNodes(mem, m, ring, bd, p);
    PutOps(kinds, k, op, instr);
  }

  // In front of a ring: pc[0] takes the new kind, the new node the old first kind.
  lemma FirstIn(mem: map<nat, Bp>, ring: seq<nat>, kinds: seq<nat>, instr: nat, bd: nat, op: nat)
    requires Inner(mem, ring, kinds, instr) && ring != [] && op != instr && op !in kinds && bd != 0 && bd !in mem
    ensures var b := ring[|ring| - 1]; b in mem && mem[b].next in mem
    ensures var m := SpliceNext(mem, bd, op, kinds[0], ring[|ring| - 1]);
            && Inner(m, Put(ring, 0, bd), Put(kinds, 0, op), instr)
            && (Typed(mem, ring, kinds) ==> Typed(m, Put(ring, 0, bd), Put(kinds, 0, op)))
  {
    NextSpliced(mem, ring, bd, op, kinds[0], 0);
    assert 0 !in ring;
    hide SpliceNext, Links, Put, Typed, Spliced, Nodes;
    var m := SpliceNext(mem, bd, op, kinds[0], ring[|ring| - 1]);
    KeptOrigs(mem, m, ring, 0);
    FirstOrigs(mem, m, ring, kinds, instr, bd, op);
    InnerIn(mem, m, ring, kinds, instr, bd, op, 0, 0);
    if Typed(mem, ring, kinds) { TypedPut(mem, m, ring, kinds, bd, op, 0); }
  }

  // At the end: the old last node takes the new kind, the new node the instruction.
  lemma LastIn(mem: map<nat, Bp>, ring: seq<nat>, kinds: seq<nat>, instr: nat, bd: nat, op: nat)
    requires Inner(mem, ring, kinds, instr) && ring != [] && op != instr && op !in kinds && bd != 0 && bd !in mem
    ensures var b := ring[|ring| - 1]; b in mem && mem[b].next in mem && mem[b].orig == instr
    ensures var b := ring[|ring| - 1];
            var s := SpliceNext(mem, bd, op, instr, b);
            b in s && (var m := s[b := s[b].(orig := op)];
            && Inner(m, Put(ring, |ring|, bd), Put(kinds, |kinds|, op), instr)
            && (Typed(mem, ring, kinds) ==> Typed(m, Put(ring, |ring|, bd), Put(kinds, |kinds|, op))))
  {
    var n := |ring|;
    var b := ring[n - 1];
    NextSpliced(mem, ring, bd, op, instr, n);
    assert mem[b].orig == instr && Distinct(ring);
    hide SpliceNext, Links, Put, Typed, Spliced, Nodes;
    var s := SpliceNext(mem, bd, op, instr, b);
    var m := s[b := s[b].(orig := op)];
    SplicedSame(mem, s, m, ring, bd, n, b, op);
    KeptOrigs(mem, m, ring, b);
    LastOrigs(mem, m, ring, kinds, instr, bd, op);
    InnerIn(mem, m, ring, kinds, instr, bd, op, n, n);
    if Typed(mem, ring, kinds) { TypedPut(mem, m, ring, kinds, bd, op, n); }
  }

  // Beside a debug breakpoint at the end, or what is taken for one: the new node goes in second to last, but
  // the write meant for the node before it hits the new node, so that the new
  // node is used as the debug breakpoint and the debug node as the new one.
  lemma DebugIn(mem: map<nat, Bp>, ring: seq<nat>, kinds: seq<nat>, instr: nat, bd: nat, op: nat)
    requires Inner(mem, ring, kinds, instr) && EndsInDebug(kinds, instr)
    requires op != instr && op !in kinds && bd != 0 && bd !in mem
    ensures var b := ring[|ring| - 1]; b in mem && mem[b].prev in mem
    ensures var b := ring[|ring| - 1];
            var s := SplicePrev(mem, bd, op, DEBUG, b);
            b in s && s[b].prev in s && (var m := s[s[b].prev := s[s[b].prev].(orig := op)];
            && Inner(m, Put(ring, |ring| - 1, bd), Put(kinds, |kinds|, op), instr)
            && !Typed(m, Put(ring, |ring| - 1, bd), Put(kinds, |kinds|, op)))
  {
    var n := |ring|;
    var b := ring[n - 1];
    PrevSpliced(mem, ring, bd, op, DEBUG);
    assert 0 !in ring;
    hide SplicePrev, Links, Put, Spliced, Nodes;
    var s := SplicePrev(mem, bd, op, DEBUG, b);
    var m := s[bd := s[bd].(orig := op)];
    SplicedSame(mem, s, m, ring, bd, n - 1, bd, op);
    KeptOrigs(mem, m, ring, 0);
    DebugOrigs(mem, m, ring, kinds, instr, bd, op);
    InnerIn(mem, m, ring, kinds, instr, bd, op, n - 1, n);
    PutAt(ring, n - 1, bd, n - 1);
    PutAt(kinds, n, op, n - 1);
  }

  // ----- the ring after a removal -----

  // The node before position k now holds what node k held; the first node has none before it.
  function Rewritten(m: map<nat, Bp>, ring: seq<nat>, k: nat, orig: nat): map<nat, Bp>
    requires k < |ring| && (k > 0 ==> ring[k - 1] in m)
  {
    if k == 0 then m else m[ring[k - 1] := m[ring[k - 1]].(orig := orig)]
  }

  lemma DropOrigs(mem: map<nat, Bp>, m: map<nat, Bp>, ring: seq<nat>, kinds: seq<nat>, instr: nat, k: nat)
    requires Distinct(ring) && Origs(mem, ring, kinds, instr) && k < |ring| && |ring| > 1
    requires forall j :: 0 <= j < |ring| && j != k ==> ring[j] in m && m[ring[j]].orig == mem[ring[j]].orig
    ensures Origs(Rewritten(m, ring, k, mem[ring[k]].orig), Drop(ring, k), Drop(kinds, k), instr)
  {
    hide Drop;
    var m' := Rewritten(m, ring, k, mem[ring[k]].orig);
    var out, ks := Drop(ring, k), Drop(kinds, k);
    forall i | 0 <= i < |out| ensures out[i] in m' && m'[out[i]].orig == if i + 1 < |out| then ks[i + 1] else instr {
      DropAt(ring, k, i);
      if i + 1 < |out| { DropAt(kinds, k, i + 1); }
    }
  }

  lemma DropTyped(mem: map<nat, Bp>, m: map<nat, Bp>, ring: seq<nat>, kinds: seq<nat>, k: nat)
    requires Typed(mem, ring, kinds) && k < |ring|
    requires forall j :: 0 <= j < |ring| && j != k ==> ring[j] in m && m[ring[j]].made == mem[ring[j]].made
    ensures Typed(m, Drop(ring, k), Drop(kinds, k))
  {
    hide Drop;
    forall i | 0 <= i < |ring| - 1 ensures Drop(ring, k)[i] in m && m[Drop(ring, k)[i]].made == Drop(kinds, k)[i] {
      DropAt(ring, k, i);
      DropAt(kinds, k, i);
    }
  }

  lemma DropOps(kinds: seq<nat>, k: nat, instr: nat)
    requires Distinct(kinds) && k < |kinds| && instr !in kinds
    ensures Distinct(Drop(kinds, k)) && instr !in Drop(kinds, k)
    ensures Proper(kinds, instr) ==> Proper(Drop(kinds, k), instr)
  {
    DropDistinct(kinds, k);
    forall i | 0 <= i < |kinds| - 1 ensures Drop(kinds, k)[i] in kinds { DropAt(kinds, k, i); }
  }

  lemma LinksSame(m: map<nat, Bp>, ring: seq<nat>, q: nat, op: nat)
    requires Links(m, ring) && q in m
    ensures Links(m[q := m[q].(orig := op)], ring)
  {
    var m' := m[q := m[q].(orig := op)];
    forall i | 0 <= i < |ring| ensures LinkAt(m', ring, i) { assert LinkAt(m, ring, i); }
  }

  lemma NodesSame(m: map<nat, Bp>, ring: seq<nat>, q: nat, op: nat)
    requires Nodes(m, ring) && q in m
    ensures Nodes(m[q := m[q].(orig := op)], ring)
  {
  }

  lemma UnlinkedData(mem: map<nat, Bp>, ring: seq<nat>, k: nat)
    requires Distinct(ring) && Links(mem, ring) && k < |ring|
    requires ring[k] in mem && mem[ring[k]].next in mem && mem[ring[k]].prev in mem && mem[mem[ring[k]].prev].next == ring[k]
    ensures forall j :: 0 <= j < |ring| && j != k ==>
              ring[j] in mem && ring[j] in Unlink(mem, ring[k]) && SameData(mem, Unlink(mem, ring[k]), ring[j])
  {
    hide Unlink, Links;
    forall j | 0 <= j < |ring| && j != k
      ensures ring[j] in mem && ring[j] in Unlink(mem, ring[k]) && SameData(mem, Unlink(mem, ring[k]), ring[j])
    {
      Neighbours(mem, ring, j);
      UnlinkedLink(mem, ring, k, j);
    }
  }

  // A node that can be taken out, and what it and its neighbours hold.
  lemma CanTakeOut(mem: map<nat, Bp>, ring: seq<nat>, kinds: seq<nat>, instr: nat, k: nat)
    requires Inner(mem, ring, kinds, instr) && k < |ring| && |ring| > 1
    ensures ring[k] in mem && mem[ring[k]].next in mem && mem[ring[k]].prev in mem && mem[mem[ring[k]].prev].next == ring[k]
    ensures mem[ring[k]].prev == ring[Pred(k, |ring|)] && mem[ring[k]].next != ring[k]
    ensures mem[ring[k]].orig == if k + 1 < |ring| then kinds[k + 1] else instr
    ensures k > 0 ==> ring[k - 1] in Unlink(mem, ring[k])
  {
    hide Unlink, Links;
    Neighbours(mem, ring, k);
    if k > 0 { UnlinkedLink(mem, ring, k, k - 1); }
  }

  lemma TakeOut(mem: map<nat, Bp>, ring: seq<nat>, kinds: seq<nat>, instr: nat, k: nat)
    requires Inner(mem, ring, kinds, instr) && k < |ring| && |ring| > 1
    requires ring[k] in mem && mem[ring[k]].next in mem && mem[ring[k]].prev in mem && mem[mem[ring[k]].prev].next == ring[k]
    requires k > 0 ==> ring[k - 1] in Unlink(mem, ring[k])
    ensures Inner(Rewritten(Unlink(mem, ring[k]), ring, k, mem[ring[k]].orig), Drop(ring, k), Drop(kinds, k), instr)
  {
    assert Distinct(ring);
    hide Unlink, Links, Drop, Nodes, Origs, Distinct;
    var u := Unlink(mem, ring[k]);
    UnlinkedData(mem, ring, k);
    UnlinkedNodes(mem, ring, k);
    UnlinkedLinks(mem, ring, k);
    DropOrigs(mem, u, ring, kinds, instr, k);
    DropOps(kinds, k, instr);
    if k > 0 {
      LinksSame(u, Drop(ring, k), ring[k - 1], mem[ring[k]].orig);
      NodesSame(u, Drop(ring, k), ring[k - 1], mem[ring[k]].orig);
    }
  }

  lemma TakeOutTyped(mem: map<nat, Bp>, ring: seq<nat>, kinds: seq<nat>, k: nat)
    requires Distinct(ring) && Links(mem, ring) && k < |ring| && Typed(mem, ring, kinds)
    requires ring[k] in mem && mem[ring[k]].next in mem && mem[ring[k]].prev in mem && mem[mem[ring[k]].prev].next == ring[k]
    requires k > 0 ==> ring[k - 1] in Unlink(mem, ring[k])
    ensures Typed(Rewritten(Unlink(mem, ring[k]), ring, k, mem[ring[k]].orig), Drop(ring, k), Drop(kinds, k))
  {
    hide Unlink, Links, Drop, Distinct, Typed;
    UnlinkedData(mem, ring, k);
    DropTyped(mem, Rewritten(Unlink(mem, ring[k]), ring, k, mem[ring[k]].orig), ring, kinds, k);
  }

  datatype CountOp = SetCount | ResetCount | StopCount

  /** The breakpoint state of one function: pc[0], pc[-4] and the nodes. The ring
    * (first node to last), the kinds of its nodes and the hidden instruction are
    * what the words mean. */
  class Function {
    var pc0: nat
    var r: nat
    var mem: map<nat, Bp>
    var breakpoints: nat
    ghost var ring: seq<nat>
    ghost var kinds: seq<nat>
    ghost var instr: nat
    ghost const program: nat

    // What the words mean, read from pc[-4] on.
    ghost predicate Shaped()
      reads this
    {
      && Inner(mem, ring, kinds, instr) && |kinds| == |ring| && breakpoints == |ring|
      && (if ring == [] then r == 0 && pc0 == instr else r == ring[|ring| - 1] && pc0 == kinds[0])
    }

    // pc[-4] is at the last node.
    ghost predicate Valid()
      reads this
    {
      Shaped() && Proper(kinds, instr) && instr == program
    }

    constructor (word: nat)
      requires !IsBreakOp(word)
      ensures Valid() && ring == [] && kinds == [] && program == word && mem == map[]
    {
      pc0, r, mem, breakpoints := word, 0, map[], 0;
      ring, kinds, instr, program := [], [], word, word;
    }

    /** is_break: the node of the given kind, or NULL; the last node for kind 0. */
    method IsBreak(op: nat) returns (bd: nat)
      requires Shaped() && (ring == [] && op != 0 ==> op != instr)
      ensures op == 0 ==> bd == r
      ensures op != 0 ==> (op in kinds <==> bd != 0)
      ensures op != 0 ==> forall i :: 0 <= i < |kinds| && kinds[i] == op ==> bd == ring[i]
    {
      hide Inner;
      Basics(mem, ring, kinds, instr);
      bd := r;
      if op == 0 { return; }
      if pc0 == op {
        EachNode(mem, ring, kinds, instr, |ring| - 1);
        EachNode(mem, ring, kinds, instr, 0);
        return mem[bd].next;
      }
      if bd == 0 { return; }
      EachNode(mem, ring, kinds, instr, |ring| - 1);
      bd := mem[bd].next;
      ghost var i := 0;
      while bd != r
        invariant i < |ring| && bd == ring[i] && forall j :: 0 <= j <= i ==> kinds[j] != op
        decreases |ring| - i
      {
        EachNode(mem, ring, kinds, instr, i);
        if mem[bd].orig == op {
          EachNode(mem, ring, kinds, instr, i + 1);
          return mem[bd].next;
        }
        bd, i := mem[bd].next, i + 1;
      }
      DistinctLast(ring, i);
      bd := 0;
    }

    // Whether set_function_break makes a new node.
    ghost predicate Inserts(op: nat, countOp: CountOp)
      reads this
    {
      op !in kinds && !(op == COUNT && countOp != SetCount)
    }

    /** set_function_break. `bd` is the address a new node would get. The ring stays a
      * ring with at most one node of each kind; nodes keep being used as what they were
      * made for unless one is added to a ring of two or more that ends in a debug
      * breakpoint, or looks like one that does. */
    method Set(op: nat, countOp: CountOp, bd: nat)
      requires Shaped() && IsBreakOp(op) && op != instr && bd != 0 && bd !in mem
      modifies this
      ensures Shaped() && instr == old(instr) && (old(Valid()) ==> Valid())
      ensures !old(Inserts(op, countOp)) ==> ring == old(ring) && kinds == old(kinds)
      ensures old(Inserts(op, countOp)) ==> bd in ring
      ensures old(Inserts(op, countOp)) ==>
                kinds == Put(old(kinds), if old(kinds) != [] && old(kinds)[0] == DEBUG then 0 else |old(kinds)|, op)
      ensures old(Typed(mem, ring, kinds)) ==>
                (Typed(mem, ring, kinds) <==> !(old(Inserts(op, countOp)) && old(EndsInDebug(kinds, instr))))
    {
      hide Inner, Typed, Put;
      Basics(mem, ring, kinds, instr);
      var found := IsBreak(op);
      if found != 0 {
        if op == COUNT { Recount(op, found, countOp); }
      } else if op == COUNT && countOp != SetCount {
      } else if r == 0 {
        InsertSingle(op, bd);
      } else if pc0 == DEBUG {
        InsertFirst(op, bd);
      } else {
        SecondToLast(mem, ring, kinds, instr);
        if mem[mem[r].prev].orig == DEBUG { InsertBeforeDebug(op, bd); } else { InsertLast(op, bd); }
      }
    }

    method InsertSingle(op: nat, bd: nat)
      requires Shaped() && ring == [] && IsBreakOp(op) && op != instr && bd != 0
      modifies this
      ensures Shaped() && instr == old(instr) && (old(Valid()) ==> Valid())
      ensures ring == [bd] && kinds == Put(old(kinds), 0, op) && Typed(mem, ring, kinds)
    {
      mem, r := map[bd := Bp(bd, bd, pc0, op, 0)], bd;
      pc0 := op;
      ring, kinds := [bd], [op];
      breakpoints := breakpoints + 1;
      Single(bd, instr, op);
    }

    method InsertFirst(op: nat, bd: nat)
      requires Shaped() && ring != [] && kinds[0] == DEBUG && IsBreakOp(op) && op != instr && op !in kinds && bd != 0 && bd !in mem
      modifies this
      ensures Shaped() && instr == old(instr) && (old(Valid()) ==> Valid())
      ensures bd in ring && kinds == Put(old(kinds), 0, op)
      ensures old(Typed(mem, ring, kinds)) ==> Typed(mem, ring, kinds)
    {
      hide Inner, Typed, Put, Proper;
      if Proper(kinds, instr) { PutProper(kinds, 0, op, instr); }
      FirstIn(mem, ring, kinds, instr, bd, op);
      PutEnds(ring, kinds, 0, 0, bd, op);
      mem := SpliceNext(mem, bd, op, pc0, r);
      pc0 := op;
      ring, kinds := Put(ring, 0, bd), Put(kinds, 0, op);
      breakpoints := breakpoints + 1;
    }

    method InsertBeforeDebug(op: nat, bd: nat)
      requires Shaped() && EndsInDebug(kinds, instr) && IsBreakOp(op) && op != instr && op !in kinds && bd != 0 && bd !in mem
      modifies this
      ensures Shaped() && instr == old(instr) && (old(Valid()) ==> Valid())
      ensures bd in ring && kinds == Put(old(kinds), |old(kinds)|, op) && !Typed(mem, ring, kinds)
    {
      hide Inner, Typed, Put, Proper;
      if Proper(kinds, instr) { PutProper(kinds, |kinds|, op, instr); }
      DebugIn(mem, ring, kinds, instr, bd, op);
      PutEnds(ring, kinds, |ring| - 1, |kinds|, bd, op);
      SecondToLast(mem, ring, kinds, instr);
      mem := SplicePrev(mem, bd, op, mem[mem[r].prev].orig, r);
      var prev := mem[r].prev;
      mem := mem[prev := mem[prev].(orig := op)];
      ring, kinds := Put(ring, |ring| - 1, bd), Put(kinds, |kinds|, op);
      breakpoints := breakpoints + 1;
    }

    method InsertLast(op: nat, bd: nat)
      requires Shaped() && ring != [] && IsBreakOp(op) && op != instr && op !in kinds && bd != 0 && bd !in mem
      modifies this
      ensures Shaped() && instr == old(instr) && (old(Valid()) ==> Valid())
      ensures bd in ring && kinds == Put(old(kinds), |old(kinds)|, op)
      ensures old(Typed(mem, ring, kinds)) ==> Typed(mem, ring, kinds)
    {
      hide Inner, Typed, Put, Proper;
      if Proper(kinds, instr) { PutProper(kinds, |kinds|, op, instr); }
      LastIn(mem, ring, kinds, instr, bd, op);
      PutEnds(ring, kinds, |ring|, |kinds|, bd, op);
      mem := SpliceNext(mem, bd, op, mem[r].orig, r);
      mem := mem[r := mem[r].(orig := op)];
      r := bd;
      ring, kinds := Put(ring, |ring|, bd), Put(kinds, |kinds|, op);
      breakpoints := breakpoints + 1;
    }

    // Take node k out of the ring and free it.
    method Remove(bd: nat, ghost k: nat)
      requires Shaped() && k < |ring| && bd == ring[k]
      modifies this
      ensures Shaped() && ring == Drop(old(ring), k) && kinds == Drop(old(kinds), k) && instr == old(instr)
      ensures old(Proper(kinds, instr)) ==> Proper(kinds, instr)
      ensures old(Typed(mem, ring, kinds)) ==> Typed(mem, ring, kinds)
    {
      hide Inner, Typed, Drop, Unlink, Proper;
      EachNode(mem, ring, kinds, instr, k);
      Basics(mem, ring, kinds, instr);
      DropOps(kinds, k, instr);
      if mem[bd].next == bd {
        OnlyNode(mem, ring, kinds, instr, k);
        r, pc0 := 0, mem[bd].orig;
        mem := mem - {bd};
      } else {
        MoreNodes(mem, ring, kinds, instr, k);
        CanTakeOut(mem, ring, kinds, instr, k);
        TakeOut(mem, ring, kinds, instr, k);
        if Typed(mem, ring, kinds) {
          LinksOf(mem, ring, kinds, instr);
          TakeOutTyped(mem, ring, kinds, k);
        }
        DropEnds(ring, kinds, k);
        var prev, orig := mem[bd].prev, mem[bd].orig;
        mem := Unlink(mem, bd);
        if bd == r {
          r := prev;
          mem := mem[prev := mem[prev].(orig := orig)];
        } else if prev == r {
          pc0 := orig;
        } else {
          mem := mem[prev := mem[prev].(orig := orig)];
        }
      }
      breakpoints := breakpoints - 1;
      ring, kinds := Drop(ring, k), Drop(kinds, k);
    }

    /** clear_function_break: the breakpoint of one kind, or for 0 all of them. Clearing all
      * leaves in pc[0] what the node at pc[-4] held, which is the instruction of the program
      * only at the last node. */
    method Clear(op: nat)
      requires Shaped() && (op == 0 || IsBreakOp(op)) && (ring == [] && op != 0 ==> op != instr)
      modifies this
      ensures Shaped() && instr == old(instr) && (old(Valid()) ==> Valid())
      ensures op == 0 ==> ring == [] && r == 0 && pc0 == instr
      ensures op == 0 && old(r) != 0 ==> old(r) in old(mem) && pc0 == old(mem)[old(r)].orig
      ensures op == 0 ==> (pc0 == program <==> old(instr) == program)
      ensures op != 0 && op !in old(kinds) ==> ring == old(ring) && kinds == old(kinds)
      ensures op != 0 ==> forall k :: 0 <= k < |old(kinds)| && old(kinds)[k] == op ==>
                            ring == Drop(old(ring), k) && kinds == Drop(old(kinds), k)
      ensures old(Typed(mem, ring, kinds)) ==> Typed(mem, ring, kinds)
    {
      hide Inner, Typed, Drop, Proper;
      Basics(mem, ring, kinds, instr);
      if ring != [] { EachNode(mem, ring, kinds, instr, |ring| - 1); }
      var bd := IsBreak(op);
      while bd != 0
        invariant Shaped() && instr == old(instr) && (old(Proper(kinds, instr)) ==> Proper(kinds, instr))
        invariant old(Typed(mem, ring, kinds)) ==> Typed(mem, ring, kinds)
        invariant op == 0 ==> bd == r
        invariant op != 0 ==> (op in kinds <==> bd != 0)
        invariant op != 0 ==> forall i :: 0 <= i < |kinds| && kinds[i] == op ==> bd == ring[i]
        invariant op != 0 && (op in kinds || op !in old(kinds)) ==> ring == old(ring) && kinds == old(kinds)
        invariant op != 0 && op !in kinds ==> forall k :: 0 <= k < |old(kinds)| && old(kinds)[k] == op ==>
                                                ring == Drop(old(ring), k) && kinds == Drop(old(kinds), k)
        decreases |ring|
      {
        ghost var k := |ring| - 1;
        if op != 0 { k :| 0 <= k < |kinds| && kinds[k] == op; }
        Basics(mem, ring, kinds, instr);
        assert op != 0 ==> op != instr;
        Remove(bd, k);
        if op != 0 { Dropped(old(kinds), k, op); }
        bd := IsBreak(op);
      }
      Basics(mem, ring, kinds, instr);
    }

    // One breakpoint instruction (ErtsCountBreak and ErtsBreakSkip): node i follows pc[-4].
    method Break(op: nat, ghost was: map<nat, Bp>, ghost i: nat) returns (next: nat)
      requires Inner(mem, ring, kinds, instr) && i < |ring| && op == kinds[i]
      requires r == ring[if i == 0 then |ring| - 1 else i - 1] && Counted(was, mem, ring, kinds, i)
      modifies `r, `mem
      ensures Inner(mem, ring, kinds, instr) && r == ring[i]
      ensures next == if i + 1 < |ring| then kinds[i + 1] else instr
      ensures Counted(was, mem, ring, kinds, i + 1)
    {
      hide Inner;
      Basics(mem, ring, kinds, instr);
      EachNode(mem, ring, kinds, instr, if i == 0 then |ring| - 1 else i - 1);
      EachNode(mem, ring, kinds, instr, i);
      r := mem[r].next;
      next := mem[r].orig;
      if op == COUNT && mem[r].count >= 0 {
        CountOnly(mem, ring, kinds, instr, r, mem[r].count + 1);
        mem := mem[r := mem[r].(count := mem[r].count + 1)];
      }
    }

    /** One call of the function: each breakpoint instruction finds its node behind pc[-4],
      * moves pc[-4] there and goes on with the instruction the node holds; a debug
      * breakpoint leaves the function instead and moves nothing. The nodes behind pc[-4]
      * up to there are visited once, in order, and the next call starts behind them: it
      * reads the ring turned by as many nodes. pc[-4] is back where it was if and only if
      * that is none or all of them. */
    method Pass() returns (seen: seq<nat>, op: nat)
      requires Shaped()
      modifies `r, `mem, `ring, `kinds, `instr
      ensures Shaped()
      ensures var n := Stop(old(kinds));
              && seen == old(kinds)[..n] && op == (if n < |old(kinds)| then old(kinds)[n] else old(instr))
              && |old(ring)| == |old(kinds)| && Counted(old(mem), mem, old(ring), old(kinds), n)
              && ring == Turn(old(ring), n) && kinds == TurnKinds(old(kinds), old(instr), n)
              && instr == TurnInstr(old(kinds), old(instr), n)
              && (r == old(r) <==> n == 0 || n == |old(kinds)|)
              && (old(Valid()) ==> (Valid() <==> r == old(r)))
    {
      hide Inner, Counted, Turn, TurnKinds, TurnInstr;
      Basics(mem, ring, kinds, instr);
      NoneCounted(mem, ring, kinds, instr);
      StopAt(kinds);
      seen, op := [], pc0;
      ghost var i := 0;
      while Passing(op)
        invariant ring == old(ring) && kinds == old(kinds) && instr == old(instr)
        invariant Inner(mem, ring, kinds, instr) && i <= Stop(kinds)
        invariant ring != [] ==> r == ring[if i == 0 then |ring| - 1 else i - 1]
        invariant ring == [] ==> r == 0
        invariant op == if i < |ring| then kinds[i] else instr
        invariant seen == kinds[..i] && Counted(old(mem), mem, ring, kinds, i)
        decreases |ring| - i
      {
        seen := seen + [op];
        op := Break(op, old(mem), i);
        i := i + 1;
      }
      Turned(mem, ring, kinds, instr, i);
      TurnedAway(ring, kinds, instr, i);
      ring, kinds, instr := Turn(ring, i), TurnKinds(kinds, instr, i), TurnInstr(kinds, instr, i);
    }

    /** With a debug breakpoint behind other nodes only every other call reaches it. The
      * second of two calls runs one breakpoint instruction, on the debug node, and skips
      * the rest. */
    method TwoCalls() returns (seen: seq<nat>, op: nat, seen': seq<nat>, op': nat)
      requires Valid() && EndsInDebug(kinds, instr)
      modifies `r, `mem, `ring, `kinds, `instr
      ensures Valid() && ring == old(ring) && kinds == old(kinds)
      ensures seen == kinds[..|kinds| - 1] && op == DEBUG
      ensures seen' == [kinds[0]] && op' == program
    {
      hide Inner, Counted, Turn, TurnKinds, TurnInstr;
      Basics(mem, ring, kinds, instr);
      TurnTwice(ring, kinds, instr);
      seen, op := Pass();
      seen', op' := Pass();
    }

    // Stop or reset the counter of a call count breakpoint that is already there.
    method Recount(op: nat, bd: nat, countOp: CountOp)
      requires Shaped() && op in kinds && forall i :: 0 <= i < |kinds| && kinds[i] == op ==> bd == ring[i]
      modifies `mem
      ensures Shaped() && (old(Typed(mem, ring, kinds)) <==> Typed(mem, ring, kinds))
      ensures bd in old(mem) && mem == old(mem)[bd := old(mem)[bd].(count :=
                if countOp != StopCount then 0
                else if old(mem)[bd].count >= 0 then 0 - old(mem)[bd].count - 1 else old(mem)[bd].count)]
    {
      hide Inner, Typed;
      ghost var i :| 0 <= i < |kinds| && kinds[i] == op;
      EachNode(mem, ring, kinds, instr, i);
      var n := mem[bd].count;
      if countOp == StopCount {
        if n >= 0 { n := 0 - n - 1; }
      } else {
        n := 0;
      }
      CountOnly(mem, ring, kinds, instr, bd, n);
      mem := mem[bd := mem[bd].(count := n)];
    }
  }

  /** A function with a call count and then a debug breakpoint: the first call stops in
    * the debugger, the second runs through, and if all breakpoints are cleared after a
    * third one, the debug breakpoint stays in pc[0] without a node. */
  method CountThenDebug(word: nat, a: nat, b: nat) returns (op: nat, op': nat, left: nat)
    requires !IsBreakOp(word) && a != 0 && b != 0 && a != b
    ensures op == DEBUG && op' == word && left == DEBUG
  {
    hide Inner, Typed, Counted, Turn, TurnKinds, TurnInstr;
    var f := new Function(word);
    f.Set(COUNT, SetCount, a);
    OnlyKey(f.mem, f.ring, f.kinds, f.instr, a);
    f.Set(DEBUG, SetCount, b);
    var seen, seen';
    Basics(f.mem, f.ring, f.kinds, f.instr);
    TurnTwice(f.ring, f.kinds, f.instr);
    seen, op, seen', op' := f.TwoCalls();
    var s, o := f.Pass();
    f.Clear(0);
    left := f.pc0;
  }

  lemma OnlyKey(mem: map<nat, Bp>, ring: seq<nat>, kinds: seq<nat>, instr: nat, a: nat)
    requires Inner(mem, ring, kinds, instr) && |kinds| == 1 && a in ring
    ensures forall b :: b in mem <==> b == a
  {
    assert ring == [a];
  }

  // The counters of the first n nodes have gone up by one, where they count.
  ghost predicate Counted(was: map<nat, Bp>, now: map<nat, Bp>, ring: seq<nat>, kinds: seq<nat>, n: nat) {
    && now.Keys == was.Keys && n <= |ring| == |kinds|
    && forall i :: 0 <= i < |ring| && ring[i] in was ==>
         now[ring[i]] == was[ring[i]].(count :=
           if i < n && kinds[i] == COUNT && was[ring[i]].count >= 0 then was[ring[i]].count + 1 else was[ring[i]].count)
  }

  lemma NoneCounted(mem: map<nat, Bp>, ring: seq<nat>, kinds: seq<nat>, instr: nat)
    requires Inner(mem, ring, kinds, instr)
    ensures Counted(mem, mem, ring, kinds, 0)
  {
  }

  // ----- a call -----

  // Where a call stops: at the first word that does not go on to the next node.
  ghost function Stop(kinds: seq<nat>): (n: nat)
    ensures n <= |kinds|
  {
    if kinds == [] || !Passing(kinds[0]) then 0 else 1 + Stop(kinds[1..])
  }

  lemma {:induction false} StopAt(kinds: seq<nat>)
    ensures forall i :: 0 <= i < Stop(kinds) ==> Passing(kinds[i])
    ensures Stop(kinds) < |kinds| ==> !Passing(kinds[Stop(kinds)])
  {
    if kinds != [] && Passing(kinds[0]) {
      StopAt(kinds[1..]);
      forall i | 0 <= i < Stop(kinds) ensures Passing(kinds[i]) {
        if i > 0 { assert kinds[i] == kinds[1..][i - 1]; }
      }
    }
  }

  lemma StopIs(kinds: seq<nat>, n: nat)
    requires n <= |kinds| && (forall i :: 0 <= i < n ==> Passing(kinds[i])) && (n < |kinds| ==> !Passing(kinds[n]))
    ensures Stop(kinds) == n
  {
    StopAt(kinds);
  }

  // The ring as it is read when pc[-4] has moved on by n nodes. pc[0] stays what it was.
  ghost function Turn(s: seq<nat>, n: nat): (t: seq<nat>)
    requires n <= |s|
    ensures |t| == |s|
  {
    s[n..] + s[..n]
  }

  lemma TurnAt(s: seq<nat>, n: nat, i: nat)
    requires n <= |s| && i < |s|
    ensures Turn(s, n)[i] == s[if i + n < |s| then i + n else i + n - |s|]
  {
  }

  // The words that the nodes hold.
  ghost function Words(kinds: seq<nat>, instr: nat): (w: seq<nat>)
    ensures |w| == |kinds|
  {
    if kinds == [] then [] else kinds[1..] + [instr]
  }

  ghost function TurnKinds(kinds: seq<nat>, instr: nat, n: nat): (t: seq<nat>)
    requires n <= |kinds|
    ensures |t| == |kinds|
  {
    if kinds == [] then [] else [kinds[0]] + Turn(Words(kinds, instr), n)[..|kinds| - 1]
  }

  ghost function TurnInstr(kinds: seq<nat>, instr: nat, n: nat): nat
    requires n <= |kinds|
  {
    if kinds == [] then instr else Turn(Words(kinds, instr), n)[|kinds| - 1]
  }

  lemma TurnedNodes(mem: map<nat, Bp>, ring: seq<nat>, n: nat)
    requires Nodes(mem, ring) && n <= |ring|
    ensures Nodes(mem, Turn(ring, n))
  {
    var t := Turn(ring, n);
    assert forall q :: q in t <==> q in ring;
    forall i, j | 0 <= i < j < |t| ensures t[i] != t[j] {
      TurnAt(ring, n, i);
      TurnAt(ring, n, j);
    }
  }

  lemma TurnedLinks(mem: map<nat, Bp>, ring: seq<nat>, n: nat)
    requires Links(mem, ring) && n <= |ring|
    ensures Links(mem, Turn(ring, n))
  {
    hide Turn;
    var t := Turn(ring, n);
    forall i | 0 <= i < |t| ensures LinkAt(mem, t, i) {
      TurnAt(ring, n, i);
      TurnAt(ring, n, Succ(i, |t|));
      TurnAt(ring, n, Pred(i, |t|));
      assert LinkAt(mem, ring, if i + n < |ring| then i + n else i + n - |ring|);
    }
  }

  lemma TurnedOrigs(mem: map<nat, Bp>, ring: seq<nat>, kinds: seq<nat>, instr: nat, n: nat)
    requires Origs(mem, ring, kinds, instr) && n <= |ring|
    ensures Origs(mem, Turn(ring, n), TurnKinds(kinds, instr, n), TurnInstr(kinds, instr, n))
  {
    hide Turn;
    var t, w := Turn(ring, n), Words(kinds, instr);
    forall i | 0 <= i < |t|
      ensures t[i] in mem && mem[t[i]].orig == Turn(w, n)[i]
    {
      TurnAt(ring, n, i);
      TurnAt(w, n, i);
    }
  }

  lemma TurnedKinds(kinds: seq<nat>, instr: nat, n: nat)
    requires Distinct(kinds) && instr !in kinds && kinds != [] && n <= |kinds|
    ensures Distinct(TurnKinds(kinds, instr, n)) && TurnInstr(kinds, instr, n) !in TurnKinds(kinds, instr, n)
  {
    hide Turn;
    var w := Words(kinds, instr);
    var u := Turn(w, n);
    forall i | 0 <= i < |u| ensures u[i] != kinds[0] { TurnAt(w, n, i); }
    forall i, j | 0 <= i < j < |u| ensures u[i] != u[j] {
      TurnAt(w, n, i);
      TurnAt(w, n, j);
    }
  }

  /** A call that stops behind n nodes leaves a ring that is well formed as the next call
    * reads it. */
  lemma Turned(mem: map<nat, Bp>, ring: seq<nat>, kinds: seq<nat>, instr: nat, n: nat)
    requires Inner(mem, ring, kinds, instr) && n <= |ring| && !Passing(if n < |kinds| then kinds[n] else instr)
    ensures |ring| == |kinds| && Inner(mem, Turn(ring, n), TurnKinds(kinds, instr, n), TurnInstr(kinds, instr, n))
    ensures ring != [] ==> Turn(ring, n)[|ring| - 1] == ring[if n == 0 then |ring| - 1 else n - 1]
    ensures ring != [] ==> TurnKinds(kinds, instr, n)[0] == kinds[0]
    ensures ring == [] ==> TurnInstr(kinds, instr, n) == instr
  {
    hide Nodes, Links, Origs, Distinct, Turn;
    OrigsLength(mem, ring, kinds, instr);
    TurnedNodes(mem, ring, n);
    TurnedLinks(mem, ring, n);
    TurnedOrigs(mem, ring, kinds, instr, n);
    if ring != [] {
      TurnedKinds(kinds, instr, n);
      TurnAt(ring, n, |ring| - 1);
      TurnAt(Words(kinds, instr), n, |ring| - 1);
    }
  }

  lemma TurnedAway(ring: seq<nat>, kinds: seq<nat>, instr: nat, n: nat)
    requires |ring| == |kinds| && Distinct(ring) && n <= |kinds| && !Passing(if n < |kinds| then kinds[n] else instr)
    ensures n == 0 || n == |kinds| ==> TurnKinds(kinds, instr, n) == kinds && TurnInstr(kinds, instr, n) == instr
    ensures Proper(kinds, instr) ==> (Proper(TurnKinds(kinds, instr, n), TurnInstr(kinds, instr, n)) <==> n == 0 || n == |kinds|)
    ensures 0 < n < |kinds| ==> ring[n - 1] != ring[|ring| - 1]
  {
    if 0 < n < |kinds| { assert TurnInstr(kinds, instr, n) == kinds[n]; }
  }

  lemma OrigsLength(mem: map<nat, Bp>, ring: seq<nat>, kinds: seq<nat>, instr: nat)
    requires Origs(mem, ring, kinds, instr)
    ensures |ring| == |kinds|
  {
  }

  /** Past all nodes but a debug breakpoint at the end, and then past one: back to where it was. */
  lemma TurnTwice(ring: seq<nat>, kinds: seq<nat>, instr: nat)
    requires |ring| == |kinds| && EndsInDebug(kinds, instr) && Distinct(kinds) && Proper(kinds, instr)
    ensures var n := |kinds| - 1;
            var kinds', instr' := TurnKinds(kinds, instr, n), TurnInstr(kinds, instr, n);
            && Stop(kinds) == n && instr' == DEBUG && Stop(kinds') == 1
            && kinds'[..1] == [kinds[0]] && kinds'[1] == instr
            && Turn(Turn(ring, n), 1) == ring && TurnKinds(kinds', instr', 1) == kinds && TurnInstr(kinds', instr', 1) == instr
  {
    var n := |kinds| - 1;
    StopIs(kinds, n);
    var w := Words(kinds, instr);
    assert Turn(w, n) == [instr] + kinds[1..];
    var kinds', instr' := TurnKinds(kinds, instr, n), TurnInstr(kinds, instr, n);
    assert kinds' == [kinds[0]] + ([instr] + kinds[1..])[..n] && instr' == DEBUG;
    StopIs(kinds', 1);
    assert Words(kinds', instr') == [instr] + kinds[1..];
    assert Turn(Words(kinds', instr'), 1) == kinds[1..] + [instr];
  }

  // The node before the last one holds a debug breakpoint.
  ghost predicate EndsInDebug(kinds: seq<nat>, instr: nat) {
    kinds != [] && kinds[0] != DEBUG && (if |kinds| >= 2 then kinds[|kinds| - 1] else instr) == DEBUG
  }

  lemma Basics(mem: map<nat, Bp>, ring: seq<nat>, kinds: seq<nat>, instr: nat)
    requires Inner(mem, ring, kinds, instr)
    ensures Distinct(ring) && Distinct(kinds) && instr !in kinds && !Passing(instr) && |ring| == |kinds|
    ensures forall i :: 0 <= i < |ring| ==> ring[i] != 0
  {
    forall i | 0 <= i < |ring| ensures ring[i] != 0 { assert ring[i] in ring; }
  }

  lemma OnlyNode(mem: map<nat, Bp>, ring: seq<nat>, kinds: seq<nat>, instr: nat, k: nat)
    requires Inner(mem, ring, kinds, instr) && k < |ring| && ring[k] in mem && mem[ring[k]].next == ring[k]
    ensures |ring| == 1 && Drop(ring, k) == [] && Drop(kinds, k) == []
    ensures Inner(mem - {ring[k]}, [], [], instr) && Typed(mem - {ring[k]}, [], [])
  {
    hide Drop;
    Neighbours(mem, ring, k);
    assert ring == [ring[0]];
  }

  lemma MoreNodes(mem: map<nat, Bp>, ring: seq<nat>, kinds: seq<nat>, instr: nat, k: nat)
    requires Inner(mem, ring, kinds, instr) && k < |ring| && ring[k] in mem && mem[ring[k]].next != ring[k]
    ensures |ring| > 1
  {
    Neighbours(mem, ring, k);
  }

  lemma LinksOf(mem: map<nat, Bp>, ring: seq<nat>, kinds: seq<nat>, instr: nat)
    requires Inner(mem, ring, kinds, instr)
    ensures Links(mem, ring) && Distinct(ring)
  {
  }

  lemma DropEnds(ring: seq<nat>, kinds: seq<nat>, k: nat)
    requires |ring| == |kinds| > 1 && k < |ring|
    ensures Drop(ring, k)[|ring| - 2] == if k == |ring| - 1 then ring[|ring| - 2] else ring[|ring| - 1]
    ensures Drop(kinds, k)[0] == if k == 0 then kinds[1] else kinds[0]
  {
  }

  lemma Dropped(kinds: seq<nat>, k: nat, op: nat)
    requires Distinct(kinds) && k < |kinds| && kinds[k] == op
    ensures op !in Drop(kinds, k)
  {
    DropDistinct(kinds, k);
  }

  lemma EachNode(mem: map<nat, Bp>, ring: seq<nat>, kinds: seq<nat>, instr: nat, i: nat)
    requires Inner(mem, ring, kinds, instr) && i < |ring|
    ensures ring[i] in mem && ring[i] != 0 && mem[ring[i]].next == ring[Succ(i, |ring|)]
    ensures mem[ring[i]].orig == if i + 1 < |ring| then kinds[i + 1] else instr
  {
    assert LinkAt(mem, ring, i);
    assert ring[i] in ring;
  }

  lemma DistinctLast(ring: seq<nat>, i: nat)
    requires Distinct(ring) && i < |ring| && ring[i] == ring[|ring| - 1]
    ensures i == |ring| - 1
  {
  }

  lemma Single(bd: nat, instr: nat, op: nat)
    requires bd != 0 && op != instr && !Passing(instr)
    ensures Inner(map[bd := Bp(bd, bd, instr, op, 0)], [bd], [op], instr)
    ensures Typed(map[bd := Bp(bd, bd, instr, op, 0)], [bd], [op])
  {
    assert LinkAt(map[bd := Bp(bd, bd, instr, op, 0)], [bd], 0);
  }

  lemma PutEnds(ring: seq<nat>, kinds: seq<nat>, p: nat, k: nat, bd: nat, op: nat)
    requires |ring| == |kinds| > 0 && p <= |ring| && k <= |kinds|
    ensures Put(ring, p, bd)[|ring|] == if p == |ring| then bd else ring[|ring| - 1]
    ensures Put(kinds, k, op)[0] == if k == 0 then op else kinds[0]
    ensures bd in Put(ring, p, bd)
  {
    assert Put(ring, p, bd)[p] == bd;
  }

  lemma SecondToLast(mem: map<nat, Bp>, ring: seq<nat>, kinds: seq<nat>, instr: nat)
    requires Inner(mem, ring, kinds, instr) && ring != [] && kinds[0] != DEBUG
    ensures var r := ring[|ring| - 1];
            && r in mem && mem[r].prev in mem && mem[r].orig == instr
            && (mem[mem[r].prev].orig == DEBUG <==> EndsInDebug(kinds, instr))
  {
    var n := |ring|;
    assert LinkAt(mem, ring, n - 1);
    if n >= 2 { EachNode(mem, ring, kinds, instr, n - 2); }
  }

  lemma CountOnly(mem: map<nat, Bp>, ring: seq<nat>, kinds: seq<nat>, instr: nat, bd: nat, n: int)
    requires Inner(mem, ring, kinds, instr) && bd in mem
    ensures var m := mem[bd := mem[bd].(count := n)];
            Inner(m, ring, kinds, instr) && (Typed(mem, ring, kinds) <==> Typed(m, ring, kinds))
  {
    hide Distinct;
    var m := mem[bd := mem[bd].(count := n)];
    assert Links(m, ring) by {
      forall i | 0 <= i < |ring| ensures LinkAt(m, ring, i) { assert LinkAt(mem, ring, i); }
    }
    assert Origs(m, ring, kinds, instr);
  }
}

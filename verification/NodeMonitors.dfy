/** Subscriptions to node events: a doubly linked list of entries in which the
  * entries of one process lie next to each other, and each process points to
  * its first one. An entry counts equal subscriptions in 16 bits. */
module NodeMonitors {
  import opened Sequences

  const MAX_NO := 0xFFFF
  const HIDDEN := 2

  // An entry; 0 is the null pointer.
  datatype Mon = Mon(prev: nat, next: nat, proc: nat, opts: nat, no: nat)

  // What an entry says, without its links.
  datatype Entry = Entry(proc: nat, opts: nat, no: nat)

  // ----- the list as a sequence of entries -----

  // How many subscriptions process p holds with the given options.
  function Count(es: seq<Entry>, p: nat, opts: nat): nat {
    if es == [] then 0
    else (if es[0].proc == p && es[0].opts == opts then es[0].no else 0) + Count(es[1..], p, opts)
  }

  lemma {:induction false} CountConcat(a: seq<Entry>, b: seq<Entry>, p: nat, opts: nat)
    ensures Count(a + b, p, opts) == Count(a, p, opts) + Count(b, p, opts)
  {
    if a == [] {
      assert a + b == b;
    } else {
      assert (a + b)[1..] == a[1..] + b;
      CountConcat(a[1..], b, p, opts);
    }
  }

  function One(e: Entry, p: nat, opts: nat): nat {
    if e.proc == p && e.opts == opts then e.no else 0
  }

  lemma CountPut(es: seq<Entry>, k: nat, e: Entry, p: nat, opts: nat)
    requires k <= |es|
    ensures Count(Put(es, k, e), p, opts) == Count(es, p, opts) + One(e, p, opts)
  {
    assert es == es[..k] + es[k..];
    CountConcat(es[..k], es[k..], p, opts);
    CountConcat(es[..k] + [e], es[k..], p, opts);
    CountConcat(es[..k], [e], p, opts);
    assert [e][1..] == [];
  }

  lemma CountDrop(es: seq<Entry>, k: nat, p: nat, opts: nat)
    requires k < |es|
    ensures Count(es, p, opts) == Count(Drop(es, k), p, opts) + One(es[k], p, opts)
  {
    var rest := Drop(es, k);
    assert Put(rest, k, es[k]) == es;
    CountPut(rest, k, es[k], p, opts);
  }

  lemma CountSet(es: seq<Entry>, k: nat, e: Entry, p: nat, opts: nat)
    requires k < |es|
    ensures Count(es[k := e], p, opts) == Count(es, p, opts) - One(es[k], p, opts) + One(e, p, opts)
  {
    assert Drop(es[k := e], k) == Drop(es, k);
    CountDrop(es, k, p, opts);
    CountDrop(es[k := e], k, p, opts);
  }

  lemma {:induction false} CountNone(es: seq<Entry>, p: nat, opts: nat)
    requires forall i :: 0 <= i < |es| ==> !(es[i].proc == p && es[i].opts == opts)
    ensures Count(es, p, opts) == 0
  {
    if es != [] { CountNone(es[1..], p, opts); }
  }

  // The entries of a process lie next to each other.
  ghost predicate Together(es: seq<Entry>) {
    forall i, j, k :: 0 <= i < j < k < |es| && es[i].proc == es[k].proc ==> es[j].proc == es[i].proc
  }

  // Entry i is the first one of its process.
  ghost predicate Starts(es: seq<Entry>, i: nat)
    requires i < |es|
  {
    i == 0 || es[i - 1].proc != es[i].proc
  }

  // Every entry counts something, and what it counts fits 16 bits.
  ghost predicate Counted(es: seq<Entry>) {
    forall i :: 0 <= i < |es| ==> 0 < es[i].no <= MAX_NO
  }

  lemma TogetherPut(es: seq<Entry>, k: nat, e: Entry)
    requires Together(es) && 0 < k <= |es| && es[k - 1].proc == e.proc
    ensures Together(Put(es, k, e))
  {
    var out := Put(es, k, e);
    forall i, j, l | 0 <= i < j < l < |out| && out[i].proc == out[l].proc ensures out[j].proc == out[i].proc {
      var a, b, c := if i < k then i else i - 1, if j < k then j else j - 1, if l < k then l else l - 1;
      assert out[i].proc == es[a].proc && out[j].proc == es[b].proc && out[l].proc == es[c].proc;
    }
  }

  lemma TogetherAppend(es: seq<Entry>, e: Entry)
    requires Together(es) && forall i :: 0 <= i < |es| ==> es[i].proc != e.proc
    ensures Together(es + [e])
  {
  }

  lemma TogetherDrop(es: seq<Entry>, k: nat)
    requires Together(es) && k < |es|
    ensures Together(Drop(es, k))
  {
    var out := Drop(es, k);
    forall i, j, l | 0 <= i < j < l < |out| && out[i].proc == out[l].proc ensures out[j].proc == out[i].proc {
      var a, b, c := if i < k then i else i + 1, if j < k then j else j + 1, if l < k then l else l + 1;
      assert out[i] == es[a] && out[j] == es[b] && out[l] == es[c];
    }
  }

  // ----- the linked list -----

  ghost predicate LinkAt(mem: map<nat, Mon>, list: seq<nat>, i: nat)
    requires i < |list|
  {
    && list[i] in mem
    && mem[list[i]].prev == (if i > 0 then list[i - 1] else 0)
    && mem[list[i]].next == (if i + 1 < |list| then list[i + 1] else 0)
  }

  ghost predicate Links(mem: map<nat, Mon>, list: seq<nat>) {
    forall i :: 0 <= i < |list| ==> LinkAt(mem, list, i)
  }

  ghost predicate Nodes(mem: map<nat, Mon>, list: seq<nat>) {
    && (forall i, j :: 0 <= i < j < |list| ==> list[i] != list[j])
    && (forall i :: 0 <= i < |list| ==> list[i] != 0)
    && (forall p :: p in mem <==> p in list)
  }

  function EntryOf(x: Mon): Entry {
    Entry(x.proc, x.opts, x.no)
  }

  function Entries(mem: map<nat, Mon>, list: seq<nat>): (es: seq<Entry>)
    requires forall i :: 0 <= i < |list| ==> list[i] in mem
    ensures |es| == |list| && forall i :: 0 <= i < |list| ==> es[i] == EntryOf(mem[list[i]])
  {
    seq(|list|, i requires 0 <= i < |list| => EntryOf(mem[list[i]]))
  }

  // The neighbours of position k.
  function Before(list: seq<nat>, k: nat): nat
    requires k <= |list|
  {
    if k > 0 then list[k - 1] else 0
  }

  function At(list: seq<nat>, k: nat): nat
    requires k <= |list|
  {
    if k < |list| then list[k] else 0
  }

  // x has been linked in between positions k - 1 and k; nothing else has changed.
  ghost predicate Linked(mem: map<nat, Mon>, m: map<nat, Mon>, list: seq<nat>, k: nat, x: nat)
    requires k <= |list|
  {
    && m.Keys == mem.Keys + {x} && x !in mem && m[x].prev == Before(list, k) && m[x].next == At(list, k)
    && (forall q :: q in mem ==> m[q].next == (if k > 0 && q == list[k - 1] then x else mem[q].next))
    && (forall q :: q in mem ==> m[q].prev == (if k < |list| && q == list[k] then x else mem[q].prev))
    && (forall q :: q in mem ==> EntryOf(m[q]) == EntryOf(mem[q]))
  }

  lemma LinkedOne(mem: map<nat, Mon>, m: map<nat, Mon>, list: seq<nat>, k: nat, x: nat, j: nat)
    requires Nodes(mem, list) && Links(mem, list) && k <= |list| && j < |list| && Linked(mem, m, list, k, x)
    ensures list[j] in m
    ensures m[list[j]].prev == if j == k then x else Before(list, j)
    ensures m[list[j]].next == if j + 1 == k then x else At(list, j + 1)
  {
    assert LinkAt(mem, list, j);
  }

  lemma LinkedLinks(mem: map<nat, Mon>, m: map<nat, Mon>, list: seq<nat>, k: nat, x: nat)
    requires Nodes(mem, list) && Links(mem, list) && k <= |list| && Linked(mem, m, list, k, x)
    ensures Links(m, Put(list, k, x))
  {
    hide Put, Links, Nodes;
    var out := Put(list, k, x);
    forall i | 0 <= i < |out| ensures LinkAt(m, out, i) {
      PutAt(list, k, x, i);
      if i > 0 { PutAt(list, k, x, i - 1); }
      if i + 1 < |out| { PutAt(list, k, x, i + 1); }
      if i != k { LinkedOne(mem, m, list, k, x, if i < k then i else i - 1); }
    }
    AllLinked(m, out);
  }

  lemma AllLinked(m: map<nat, Mon>, list: seq<nat>)
    requires forall i :: 0 <= i < |list| ==> LinkAt(m, list, i)
    ensures Links(m, list)
  {
  }

  lemma LinkedNodes(mem: map<nat, Mon>, m: map<nat, Mon>, list: seq<nat>, k: nat, x: nat)
    requires Nodes(mem, list) && k <= |list| && x != 0 && m.Keys == mem.Keys + {x} && x !in mem
    ensures Nodes(m, Put(list, k, x))
  {
    hide Put;
    var out := Put(list, k, x);
    forall i, j | 0 <= i < j < |out| ensures out[i] != out[j] {
      PutAt(list, k, x, i);
      PutAt(list, k, x, j);
    }
    forall i | 0 <= i < |out| ensures out[i] != 0 { PutAt(list, k, x, i); }
    PutHas(list, k, x);
  }

  lemma PutHas(list: seq<nat>, k: nat, x: nat)
    requires k <= |list|
    ensures forall q :: q in Put(list, k, x) <==> q in list || q == x
  {
    assert list == list[..k] + list[k..];
  }

  // Node k has been taken out.
  ghost predicate Unlinked(mem: map<nat, Mon>, m: map<nat, Mon>, list: seq<nat>, k: nat)
    requires k < |list|
  {
    && m.Keys == mem.Keys - {list[k]}
    && (forall q :: q in mem && q != list[k] ==> m[q].next == (if k > 0 && q == list[k - 1] then At(list, k + 1) else mem[q].next))
    && (forall q :: q in mem && q != list[k] ==>
          m[q].prev == (if k + 1 < |list| && q == list[k + 1] then Before(list, k) else mem[q].prev))
    && (forall q :: q in mem && q != list[k] ==> EntryOf(m[q]) == EntryOf(mem[q]))
  }

  lemma UnlinkedOne(mem: map<nat, Mon>, m: map<nat, Mon>, list: seq<nat>, k: nat, j: nat)
    requires Nodes(mem, list) && Links(mem, list) && k < |list| && j < |list| && j != k && Unlinked(mem, m, list, k)
    ensures list[j] in m
    ensures m[list[j]].prev == if j == k + 1 then Before(list, k) else Before(list, j)
    ensures m[list[j]].next == if j + 1 == k then At(list, k + 1) else At(list, j + 1)
  {
    assert LinkAt(mem, list, j);
  }

  lemma UnlinkedLinks(mem: map<nat, Mon>, m: map<nat, Mon>, list: seq<nat>, k: nat)
    requires Nodes(mem, list) && Links(mem, list) && k < |list| && Unlinked(mem, m, list, k)
    ensures Links(m, Drop(list, k))
  {
    hide Drop, Links, Nodes;
    var out := Drop(list, k);
    forall i | 0 <= i < |out| ensures LinkAt(m, out, i) {
      DropAt(list, k, i);
      if i > 0 { DropAt(list, k, i - 1); }
      if i + 1 < |out| { DropAt(list, k, i + 1); }
      UnlinkedOne(mem, m, list, k, if i < k then i else i + 1);
    }
    AllLinked(m, out);
  }

  lemma UnlinkedNodes(mem: map<nat, Mon>, m: map<nat, Mon>, list: seq<nat>, k: nat)
    requires Nodes(mem, list) && k < |list| && m.Keys == mem.Keys - {list[k]}
    ensures Nodes(m, Drop(list, k))
  {
    hide Drop;
    var out := Drop(list, k);
    forall i, j | 0 <= i < j < |out| ensures out[i] != out[j] {
      DropAt(list, k, i);
      DropAt(list, k, j);
    }
    forall i | 0 <= i < |out| ensures out[i] != 0 { DropAt(list, k, i); }
    forall q ensures q in out <==> q in list && q != list[k] { DropHas(list, k, q); }
  }

  lemma DropHas(list: seq<nat>, k: nat, q: nat)
    requires k < |list| && forall i, j :: 0 <= i < j < |list| ==> list[i] != list[j]
    ensures q in Drop(list, k) <==> q in list && q != list[k]
  {
    var out := Drop(list, k);
    if q in list && q != list[k] {
      var i :| 0 <= i < |list| && list[i] == q;
      assert q == out[if i < k then i else i - 1];
    }
    if q in out {
      var i :| 0 <= i < |out| && out[i] == q;
      assert q == list[if i < k then i else i + 1];
    }
  }

  // ----- entries and first entries -----

  ghost predicate Known(mem: map<nat, Mon>, list: seq<nat>) {
    forall i :: 0 <= i < |list| ==> list[i] in mem
  }

  lemma EntriesPut(mem: map<nat, Mon>, m: map<nat, Mon>, list: seq<nat>, k: nat, x: nat)
    requires Known(mem, list) && k <= |list| && x in m && (forall q :: q in mem ==> q in m && EntryOf(m[q]) == EntryOf(mem[q]))
    ensures Known(m, Put(list, k, x))
    ensures Entries(m, Put(list, k, x)) == Put(Entries(mem, list), k, EntryOf(m[x]))
  {
    hide Put;
    forall i | 0 <= i <= |list| ensures Put(list, k, x)[i] in m { PutAt(list, k, x, i); }
    var es, out := Put(Entries(mem, list), k, EntryOf(m[x])), Entries(m, Put(list, k, x));
    forall i | 0 <= i <= |list| ensures out[i] == es[i] {
      PutAt(list, k, x, i);
      PutAt(Entries(mem, list), k, EntryOf(m[x]), i);
    }
  }

  lemma EntriesDrop(mem: map<nat, Mon>, m: map<nat, Mon>, list: seq<nat>, k: nat)
    requires Nodes(mem, list) && Known(mem, list) && k < |list|
    requires forall q :: q in mem && q != list[k] ==> q in m && EntryOf(m[q]) == EntryOf(mem[q])
    ensures Known(m, Drop(list, k))
    ensures Entries(m, Drop(list, k)) == Drop(Entries(mem, list), k)
  {
    hide Drop;
    forall i | 0 <= i < |list| - 1 ensures Drop(list, k)[i] in m { DropAt(list, k, i); }
    var es, out := Drop(Entries(mem, list), k), Entries(m, Drop(list, k));
    forall i | 0 <= i < |list| - 1 ensures out[i] == es[i] {
      DropAt(list, k, i);
      DropAt(Entries(mem, list), k, i);
    }
  }

  // Every process with an entry points to its first one; no other process points anywhere.
  ghost predicate FirstOk(list: seq<nat>, es: seq<Entry>, first: map<nat, nat>) {
    && |es| == |list|
    && (forall i {:trigger Starts(es, i)} ::
          0 <= i < |es| && Starts(es, i) ==> es[i].proc in first && first[es[i].proc] == list[i])
    && (forall p :: p in first ==> HasStart(es, p))
  }

  ghost predicate HasStart(es: seq<Entry>, p: nat) {
    exists i {:trigger Starts(es, i)} :: 0 <= i < |es| && Starts(es, i) && es[i].proc == p
  }

  lemma SameBlock(es: seq<Entry>, i: nat, j: nat)
    requires Together(es) && i < j < |es| && es[i].proc == es[j].proc
    ensures es[j - 1].proc == es[j].proc
  {
  }

  // A process has one first entry.
  lemma OneStart(es: seq<Entry>, i: nat, j: nat)
    requires Together(es) && i < |es| && j < |es| && Starts(es, i) && Starts(es, j) && es[i].proc == es[j].proc
    ensures i == j
  {
    if i < j { SameBlock(es, i, j); } else if j < i { SameBlock(es, j, i); }
  }

  // A process that points nowhere has no entry.
  lemma {:induction false} NoEntry(list: seq<nat>, es: seq<Entry>, first: map<nat, nat>, p: nat, i: nat)
    requires FirstOk(list, es, first) && p !in first && i < |es|
    ensures es[i].proc != p
  {
    if es[i].proc == p && !Starts(es, i) { NoEntry(list, es, first, p, i - 1); }
  }

  lemma FirstAppend(list: seq<nat>, es: seq<Entry>, first: map<nat, nat>, e: Entry, x: nat)
    requires FirstOk(list, es, first) && e.proc !in first
    ensures FirstOk(Put(list, |list|, x), Put(es, |es|, e), first[e.proc := x])
  {
    var l, out, f, n := Put(list, |list|, x), Put(es, |es|, e), first[e.proc := x], |es|;
    forall i | 0 <= i < |out| && Starts(out, i) ensures out[i].proc in f && f[out[i].proc] == l[i] {
      if i < n { assert Starts(es, i); }
    }
    forall p | p in f ensures HasStart(out, p) {
      if p == e.proc {
        if n > 0 { NoEntry(list, es, first, p, n - 1); }
        assert Starts(out, n) && out[n].proc == p;
      } else {
        assert HasStart(es, p);
        var i :| 0 <= i < |es| && Starts(es, i) && es[i].proc == p;
        assert Starts(out, i);
      }
    }
  }

  // Behind an entry of the same process nothing starts, and nothing else changes.
  lemma StartsPut(es: seq<Entry>, k: nat, e: Entry, i: nat)
    requires 0 < k <= |es| && es[k - 1].proc == e.proc && i <= |es|
    ensures i == k ==> !Starts(Put(es, k, e), i)
    ensures i < k ==> (Starts(Put(es, k, e), i) <==> Starts(es, i))
    ensures i > k ==> (Starts(Put(es, k, e), i) <==> Starts(es, i - 1))
  {
    hide Put;
    PutAt(es, k, e, i);
    if i > 0 { PutAt(es, k, e, i - 1); }
  }

  // Without entry k the next one starts its process if k did.
  lemma StartsDrop(es: seq<Entry>, k: nat, i: nat)
    requires Together(es) && k < |es| && i + 1 < |es|
    ensures i < k ==> (Starts(Drop(es, k), i) <==> Starts(es, i))
    ensures i > k ==> (Starts(Drop(es, k), i) <==> Starts(es, i + 1))
    ensures i == k ==> (Starts(Drop(es, k), i) <==>
                        Starts(es, k + 1) || (Starts(es, k) && es[k].proc == es[k + 1].proc))
  {
    hide Drop;
    DropAt(es, k, i);
    if i > 0 { DropAt(es, k, i - 1); }
  }

  // Inserting behind an entry of the same process changes no first entry.
  lemma FirstPut(list: seq<nat>, es: seq<Entry>, first: map<nat, nat>, k: nat, e: Entry, x: nat)
    requires FirstOk(list, es, first) && 0 < k <= |es| && es[k - 1].proc == e.proc
    ensures FirstOk(Put(list, k, x), Put(es, k, e), first)
  {
    hide Starts, Put;
    var l, out := Put(list, k, x), Put(es, k, e);
    forall i | 0 <= i < |out| && Starts(out, i) ensures out[i].proc in first && first[out[i].proc] == l[i] {
      StartsPut(es, k, e, i);
      PutAt(es, k, e, i);
      PutAt(list, k, x, i);
    }
    forall p | p in first ensures HasStart(out, p) {
      assert HasStart(es, p);
      var j :| 0 <= j < |es| && Starts(es, j) && es[j].proc == p;
      var i := if j < k then j else j + 1;
      StartsPut(es, k, e, i);
      PutAt(es, k, e, i);
    }
  }

  lemma FirstSet(list: seq<nat>, es: seq<Entry>, first: map<nat, nat>, k: nat, e: Entry)
    requires FirstOk(list, es, first) && k < |es| && es[k].proc == e.proc
    ensures FirstOk(list, es[k := e], first)
  {
    var out := es[k := e];
    forall i | 0 <= i < |out| && Starts(out, i) ensures out[i].proc in first && first[out[i].proc] == list[i] {
      assert Starts(es, i);
    }
    forall p | p in first ensures HasStart(out, p) {
      assert HasStart(es, p);
      var j :| 0 <= j < |es| && Starts(es, j) && es[j].proc == p;
      assert Starts(out, j);
    }
  }

  // c_p->nodes_monitors after entry k has been freed.
  function FirstAfter(list: seq<nat>, es: seq<Entry>, first: map<nat, nat>, k: nat): map<nat, nat>
    requires k < |es| == |list| && es[k].proc in first
  {
    var p := es[k].proc;
    if first[p] != list[k] then first
    else if k + 1 < |es| && es[k + 1].proc == p then first[p := list[k + 1]]
    else first - {p}
  }

  lemma FirstDrop(list: seq<nat>, es: seq<Entry>, first: map<nat, nat>, k: nat)
    requires FirstOk(list, es, first) && Together(es) && k < |es|
    requires forall i, j :: 0 <= i < j < |list| ==> list[i] != list[j]
    requires es[k].proc in first
    ensures FirstOk(Drop(list, k), Drop(es, k), FirstAfter(list, es, first, k))
  {
    FirstDropStarts(list, es, first, k);
    FirstDropHas(list, es, first, k);
  }

  // The first entry is the one the process points to.
  lemma StartIs(list: seq<nat>, es: seq<Entry>, first: map<nat, nat>, k: nat)
    requires FirstOk(list, es, first) && Together(es) && k < |es|
    requires forall i, j :: 0 <= i < j < |list| ==> list[i] != list[j]
    requires es[k].proc in first
    ensures first[es[k].proc] == list[k] <==> Starts(es, k)
  {
    assert HasStart(es, es[k].proc);
    var i :| 0 <= i < |es| && Starts(es, i) && es[i].proc == es[k].proc;
    if first[es[k].proc] == list[k] { assert i == k; }
  }

  lemma FirstDropStarts(list: seq<nat>, es: seq<Entry>, first: map<nat, nat>, k: nat)
    requires FirstOk(list, es, first) && Together(es) && k < |es|
    requires forall i, j :: 0 <= i < j < |list| ==> list[i] != list[j]
    requires es[k].proc in first
    ensures var l, out, f := Drop(list, k), Drop(es, k), FirstAfter(list, es, first, k);
            forall i {:trigger Starts(out, i)} :: 0 <= i < |out| && Starts(out, i) ==> out[i].proc in f && f[out[i].proc] == l[i]
  {
    hide Starts, Drop, Together;
    var l, out, f := Drop(list, k), Drop(es, k), FirstAfter(list, es, first, k);
    StartIs(list, es, first, k);
    forall i | 0 <= i < |out| && Starts(out, i) ensures out[i].proc in f && f[out[i].proc] == l[i] {
      StartsDrop(es, k, i);
      DropAt(es, k, i);
      DropAt(list, k, i);
      var j := if i < k then i else i + 1;
      if Starts(es, j) && Starts(es, k) && es[j].proc == es[k].proc { OneStart(es, j, k); }
    }
  }

  lemma FirstDropHas(list: seq<nat>, es: seq<Entry>, first: map<nat, nat>, k: nat)
    requires FirstOk(list, es, first) && Together(es) && k < |es|
    requires forall i, j :: 0 <= i < j < |list| ==> list[i] != list[j]
    requires es[k].proc in first
    ensures forall p :: p in FirstAfter(list, es, first, k) ==> HasStart(Drop(es, k), p)
  {
    hide Starts, Drop, Together;
    var out, f := Drop(es, k), FirstAfter(list, es, first, k);
    StartIs(list, es, first, k);
    forall p | p in f ensures HasStart(out, p) {
      assert HasStart(es, p);
      var j :| 0 <= j < |es| && Starts(es, j) && es[j].proc == p;
      var i := if j <= k then j else j - 1;
      StartsDrop(es, k, i);
      DropAt(es, k, i);
    }
  }

  // ----- the whole structure -----

  ghost predicate Good(mem: map<nat, Mon>, list: seq<nat>, first: map<nat, nat>) {
    && Nodes(mem, list) && Links(mem, list) && Known(mem, list)
    && Together(Entries(mem, list)) && Counted(Entries(mem, list)) && FirstOk(list, Entries(mem, list), first)
  }

  lemma CountedPut(es: seq<Entry>, k: nat, e: Entry)
    requires Counted(es) && k <= |es| && 0 < e.no <= MAX_NO
    ensures Counted(Put(es, k, e))
  {
    hide Put;
    forall i | 0 <= i <= |es| ensures 0 < Put(es, k, e)[i].no <= MAX_NO { PutAt(es, k, e, i); }
  }

  lemma CountedDrop(es: seq<Entry>, k: nat)
    requires Counted(es) && k < |es|
    ensures Counted(Drop(es, k))
  {
    hide Drop;
    forall i | 0 <= i < |es| - 1 ensures 0 < Drop(es, k)[i].no <= MAX_NO { DropAt(es, k, i); }
  }

  lemma GoodPut(mem: map<nat, Mon>, m: map<nat, Mon>, list: seq<nat>, first: map<nat, nat>, k: nat, x: nat)
    requires Good(mem, list, first) && 0 < k <= |list| && x != 0 && Linked(mem, m, list, k, x)
    requires Entries(mem, list)[k - 1].proc == m[x].proc && 0 < m[x].no <= MAX_NO
    ensures Good(m, Put(list, k, x), first)
    ensures Entries(m, Put(list, k, x)) == Put(Entries(mem, list), k, EntryOf(m[x]))
  {
    hide Put, Nodes, Links, Entries, FirstOk, Together, Counted;
    EntriesPut(mem, m, list, k, x);
    LinkedLinks(mem, m, list, k, x);
    LinkedNodes(mem, m, list, k, x);
    var es := Entries(mem, list);
    TogetherPut(es, k, EntryOf(m[x]));
    CountedPut(es, k, EntryOf(m[x]));
    FirstPut(list, es, first, k, EntryOf(m[x]), x);
  }

  lemma PutLast(es: seq<Entry>, e: Entry)
    ensures Put(es, |es|, e) == es + [e]
  {
  }

  lemma DistinctNodes(mem: map<nat, Mon>, list: seq<nat>)
    requires Nodes(mem, list)
    ensures forall i, j :: 0 <= i < j < |list| ==> list[i] != list[j]
  {
  }

  lemma GoodAppend(mem: map<nat, Mon>, m: map<nat, Mon>, list: seq<nat>, first: map<nat, nat>, x: nat)
    requires Good(mem, list, first) && x != 0 && Linked(mem, m, list, |list|, x)
    requires m[x].proc !in first && 0 < m[x].no <= MAX_NO
    ensures Good(m, Put(list, |list|, x), first[m[x].proc := x])
    ensures Entries(m, Put(list, |list|, x)) == Put(Entries(mem, list), |list|, EntryOf(m[x]))
  {
    var n := |list|;
    EntriesPut(mem, m, list, n, x);
    hide Put, Nodes, Links, Entries, FirstOk, Counted, Together;
    LinkedLinks(mem, m, list, n, x);
    LinkedNodes(mem, m, list, n, x);
    var es := Entries(mem, list);
    forall i | 0 <= i < |es| ensures es[i].proc != m[x].proc { NoEntry(list, es, first, m[x].proc, i); }
    TogetherAppend(es, EntryOf(m[x]));
    PutLast(es, EntryOf(m[x]));
    CountedPut(es, n, EntryOf(m[x]));
    FirstAppend(list, es, first, EntryOf(m[x]), x);
  }

  lemma GoodDrop(mem: map<nat, Mon>, m: map<nat, Mon>, list: seq<nat>, first: map<nat, nat>, k: nat)
    requires Good(mem, list, first) && k < |list| && Unlinked(mem, m, list, k)
    requires Entries(mem, list)[k].proc in first
    ensures Good(m, Drop(list, k), FirstAfter(list, Entries(mem, list), first, k))
    ensures Entries(m, Drop(list, k)) == Drop(Entries(mem, list), k)
  {
    hide Drop, Links, Entries, FirstOk, Together, Counted, Nodes;
    EntriesDrop(mem, m, list, k);
    UnlinkedNodes(mem, m, list, k);
    DistinctNodes(mem, list);
    UnlinkedLinks(mem, m, list, k);
    var es := Entries(mem, list);
    TogetherDrop(es, k);
    CountedDrop(es, k);
    FirstDrop(list, es, first, k);
  }

  // Changing a count changes no link.
  lemma SetLinks(mem: map<nat, Mon>, list: seq<nat>, x: nat, n: nat)
    requires Links(mem, list) && Nodes(mem, list) && x in mem
    ensures var m := mem[x := mem[x].(no := n)]; Links(m, list) && Nodes(m, list)
  {
    var m := mem[x := mem[x].(no := n)];
    forall i | 0 <= i < |list| ensures LinkAt(m, list, i) { assert LinkAt(mem, list, i); }
  }

  lemma SetEntries(mem: map<nat, Mon>, list: seq<nat>, k: nat, n: nat)
    requires Nodes(mem, list) && Known(mem, list) && k < |list|
    ensures var m := mem[list[k] := mem[list[k]].(no := n)];
            Known(m, list) && Entries(m, list) == Entries(mem, list)[k := Entries(mem, list)[k].(no := n)]
  {
  }

  lemma GoodSet(mem: map<nat, Mon>, list: seq<nat>, first: map<nat, nat>, k: nat, n: nat)
    requires Good(mem, list, first) && k < |list| && 0 < n <= MAX_NO
    ensures var m := mem[list[k] := mem[list[k]].(no := n)];
            && Good(m, list, first)
            && Entries(m, list) == Entries(mem, list)[k := Entries(mem, list)[k].(no := n)]
  {
    SetEntries(mem, list, k, n);
    hide Entries, Nodes, Links, FirstOk;
    var es := Entries(mem, list);
    SetLinks(mem, list, list[k], n);
    FirstSet(list, es, first, k, es[k].(no := n));
  }

  // The process of an entry has a first entry.
  lemma {:induction false} Pointed(list: seq<nat>, es: seq<Entry>, first: map<nat, nat>, i: nat)
    requires FirstOk(list, es, first) && i < |es|
    ensures es[i].proc in first
  {
    if !Starts(es, i) { Pointed(list, es, first, i - 1); }
  }

  lemma ListEnds(mem: map<nat, Mon>, list: seq<nat>, k: nat)
    requires Nodes(mem, list) && Links(mem, list) && k < |list|
    ensures list[k] in mem && list[k] != 0 && mem[list[k]].prev == Before(list, k) && mem[list[k]].next == At(list, k + 1)
    ensures k > 0 ==> list[k - 1] != 0 && list[k - 1] in mem
    ensures k + 1 < |list| ==> list[k + 1] != 0 && list[k + 1] in mem
    ensures forall j :: 0 <= j < |list| && list[j] == list[k] ==> j == k
  {
    assert LinkAt(mem, list, k);
    if k > 0 { assert LinkAt(mem, list, k - 1); }
    if k + 1 < |list| { assert LinkAt(mem, list, k + 1); }
  }

  // What a node event of the given type sends to a holder of these options.
  predicate Wants(opts: nat, visible: bool) {
    if opts == 0 then visible
    else if !visible then opts / HIDDEN % 2 == 1
    else opts % 4 == 0 || opts % 2 == 1
  }

  // A message to one process about the subscription with these options.
  datatype Msg = Msg(proc: nat, opts: nat)

  function Sent(msgs: seq<Msg>, p: nat, opts: nat): nat {
    if msgs == [] then 0 else (if msgs[0] == Msg(p, opts) then 1 else 0) + Sent(msgs[1..], p, opts)
  }

  lemma {:induction false} SentConcat(a: seq<Msg>, b: seq<Msg>, p: nat, opts: nat)
    ensures Sent(a + b, p, opts) == Sent(a, p, opts) + Sent(b, p, opts)
  {
    if a == [] {
      assert a + b == b;
    } else {
      assert (a + b)[1..] == a[1..] + b;
      SentConcat(a[1..], b, p, opts);
    }
  }

  /** All subscriptions to node events. `first` is the nodes_monitors field of the
    * processes that have one. */
  class Monitors {
    var mem: map<nat, Mon>
    var head: nat
    var end: nat
    var first: map<nat, nat>
    ghost var list: seq<nat>

    ghost predicate Valid()
      reads this
    {
      Good(mem, list, first) && head == At(list, 0) && end == Before(list, |list|)
    }

    ghost function Held(p: nat, opts: nat): nat
      reads this
      requires Valid()
    {
      Count(Entries(mem, list), p, opts)
    }

    constructor ()
      ensures Valid() && list == [] && first == map[]
    {
      mem, head, end, first := map[], 0, 0, map[];
      list := [];
    }

    // The entry of p with these options or, if there is none, the last entry of p.
    method FindEntry(p: nat, opts: nat) returns (x: nat, ghost k: nat)
      requires Valid() && p in first
      ensures k < |list| && x == list[k] && x in mem && mem[x].proc == p
      ensures mem[x].opts == opts || k + 1 == |list| || Entries(mem, list)[k + 1].proc != p
      ensures mem[x].opts == opts <==> Held(p, opts) > 0
    {
      hide Good, Entries, Count, Cleared, FromHere, Nodes, Links, Starts, Together;
      k := StartOf(mem, list, first, p);
      x := first[p];
      GoodLists(mem, list, first);
      ListEnds(mem, list, k);
      ghost var es := Entries(mem, list);
      GoodTogether(mem, list, first);
      EntryAt(mem, list, k);
      AtStart(es, k, p, opts, false);
      while mem[x].opts != opts && mem[x].next != 0 && mem[mem[x].next].proc == p
        invariant k < |list| && x == list[k] && x in mem && mem[x].proc == p && es[k] == EntryOf(mem[x])
        invariant mem[x].next == At(list, k + 1) && (mem[x].next != 0 ==> mem[x].next in mem && k + 1 < |list|)
        invariant Cleared(es, k, p, opts, false) && FromHere(es, k, p)
        decreases |list| - k
      {
        NextCleared(es, k, p, opts, false);
        k, x := k + 1, mem[x].next;
        ListEnds(mem, list, k);
        EntryAt(mem, list, k);
      }
      ListEnds(mem, list, k);
      if k + 1 < |list| { EntryAt(mem, list, k + 1); }
      CountRange(mem, list, first, k);
      LastLooked(es, k, p, opts);
    }

    // Link a new entry in behind entry k, which is of the same process.
    method LinkAfter(x: nat, ghost k: nat, id: nat, opts: nat, no: nat)
      requires Valid() && k < |list| && x == list[k] && id != 0 && id !in mem && 0 < no <= MAX_NO
      modifies `mem, `end, `list
      ensures Valid() && list == Put(old(list), k + 1, id) && old(Known(mem, list)) && x in old(mem)
      ensures Entries(mem, list) == Put(old(Entries(mem, list)), k + 1, Entry(old(mem)[x].proc, opts, no))
    {
      hide Good, Entries, BehindOf, Put;
      GoodLists(mem, list, first);
      ListEnds(mem, list, k);
      LinkedIn(mem, list, k, id, opts, no);
      EntryAt(mem, list, k);
      GoodPut(mem, BehindOf(mem, x, id, opts, no), list, first, k + 1, id);
      PutEnds(list, k + 1, id);
      if mem[x].next == 0 { end := id; }
      mem := BehindOf(mem, x, id, opts, no);
      list := Put(list, k + 1, id);
    }

    // Link the first entry of a process in at the end.
    method Append(p: nat, id: nat, opts: nat)
      requires Valid() && p !in first && id != 0 && id !in mem
      modifies this
      ensures Valid() && list == Put(old(list), |old(list)|, id) && old(Known(mem, list))
      ensures Entries(mem, list) == Put(old(Entries(mem, list)), |old(list)|, Entry(p, opts, 1))
    {
      hide Good, Entries, AtEnd, Put;
      GoodLists(mem, list, first);
      if list != [] { ListEnds(mem, list, |list| - 1); ListEnds(mem, list, 0); }
      LinkedLast(mem, list, id, p, opts);
      GoodAppend(mem, AtEnd(mem, end, id, p, opts), list, first, id);
      PutEnds(list, |list|, id);
      mem := AtEnd(mem, end, id, p, opts);
      if end == 0 { head := id; }
      end := id;
      first := first[p := id];
      list := Put(list, |list|, id);
    }

    /** insert_nodes_monitor: one subscription more, of process p with these options; all
      * others stay. When the 16-bit count of an entry wraps, what it counted moves to a
      * new entry behind it. `id` is the address a new entry would get. */
    method Insert(p: nat, opts: nat, id: nat) returns (res: bool)
      requires Valid() && id != 0 && id !in mem
      modifies this
      ensures Valid()
      ensures forall q, o :: Held(q, o) == old(Held(q, o)) + (if q == p && o == opts then 1 else 0)
      ensures res <==> old(Held(p, opts)) > 0
    {
      hide Good, Entries, Count, Put;
      GoodLists(mem, list, first);
      ghost var es := Entries(mem, list);
      res := false;
      if p !in first {
        NoEntries(mem, list, first, p, opts, false);
        AllCleared(es, |es|, p, opts, false, opts);
        Append(p, id, opts);
        CountPuts(es, |es|, Entry(p, opts, 1));
      } else {
        ghost var k;
        var x;
        x, k := FindEntry(p, opts);
        if mem[x].opts != opts {
          LinkAfter(x, k, id, opts, 1);
          CountPuts(es, k + 1, Entry(p, opts, 1));
        } else {
          res := true;
          Bump(x, k, id);
        }
      }
    }

    // Take entry k out of the list and free it.
    method Unlink(x: nat, ghost k: nat) returns (next: nat)
      requires Valid() && k < |list| && x == list[k]
      modifies this
      ensures Valid() && list == Drop(old(list), k) && old(Known(mem, list)) && Known(mem, list)
      ensures Entries(mem, list) == Drop(old(Entries(mem, list)), k)
      ensures next == At(list, k) && (next != 0 <==> k < |list|) && (next != 0 ==> next in mem)
    {
      hide Good, Entries, Without, Drop, Nodes, Links;
      TakenOut(mem, list, first, k);
      DropEnds(list, k);
      var prev, p := mem[x].prev, mem[x].proc;
      next := mem[x].next;
      if prev == 0 { head := next; }
      if next == 0 { end := prev; }
      if first[p] == x {
        first := if next != 0 && mem[next].proc == p then first[p := next] else first - {p};
      }
      mem := Without(mem, x);
      list := Drop(list, k);
      GoodLists(mem, list, first);
      if k < |list| { ListEnds(mem, list, k); }
    }

    // The sweep of Remove stands at entry i: what lies before it is cleared of what is to go.
    ghost predicate Sweeping(es0: seq<Entry>, i: nat, nmp: nat, p: nat, opts: nat, all: bool, res: bool)
      reads this
    {
      && Valid() && Known(mem, list) && i <= |list| && nmp == At(list, i) && (nmp != 0 ==> nmp in mem)
      && (nmp != 0 <==> i < |list|)
      && Cleared(Entries(mem, list), i, p, opts, all) && FromHere(Entries(mem, list), i, p)
      && Kept(es0, Entries(mem, list), p, opts, all, res)
    }

    // One turn of the loop: step over the entry or take it out.
    method RemoveOne(ghost es0: seq<Entry>, ghost i: nat, nmp: nat, p: nat, opts: nat, all: bool, res: bool)
      returns (nmp': nat, ghost i': nat, res': bool)
      requires Sweeping(es0, i, nmp, p, opts, all, res) && nmp != 0 && mem[nmp].proc == p
      modifies this
      ensures Sweeping(es0, i', nmp', p, opts, all, res')
      ensures |list| - i' < old(|list|) - i
    {
      hide Good, Entries, Count, Drop, Cleared, FromHere, Kept, Nodes, Links;
      GoodLists(mem, list, first);
      ListEnds(mem, list, i);
      EntryAt(mem, list, i);
      ghost var es := Entries(mem, list);
      nmp', i', res' := nmp, i, res;
      if !all && mem[nmp].opts != opts {
        nmp' := mem[nmp].next;
        NextCleared(es, i, p, opts, all);
        i' := i + 1;
        if i' < |list| { ListEnds(mem, list, i'); }
      } else {
        CountRange(mem, list, first, i);
        KeptDrop(es0, es, i, p, opts, all, res);
        DropCleared(es, i, p, opts, all);
        res' := true;
        nmp' := Unlink(nmp, i);
      }
    }

    /** remove_nodes_monitors: all subscriptions of p, or those with these options, are
      * gone; all others stay. It says whether there were any. */
    method Remove(p: nat, opts: nat, all: bool) returns (res: bool)
      requires Valid()
      modifies this
      ensures Valid()
      ensures forall q, o :: Held(q, o) == if q == p && (all || o == opts) then 0 else old(Held(q, o))
      ensures res ==> exists o :: (all || o == opts) && old(Held(p, o)) > 0
      ensures !res ==> forall o :: all || o == opts ==> old(Held(p, o)) == 0
    {
      hide Good, Entries, Count, Drop, Cleared, FromHere, Kept, Nodes, Links;
      GoodLists(mem, list, first);
      res := false;
      ghost var i: nat := |list|;
      var nmp := 0;
      if p in first {
        nmp := first[p];
        i := StartOf(mem, list, first, p);
        GoodTogether(mem, list, first);
        EntryAt(mem, list, i);
        AtStart(Entries(mem, list), i, p, opts, all);
      } else {
        NoEntries(mem, list, first, p, opts, all);
      }
      ghost var es0 := Entries(mem, list);
      KeptSelf(es0, p, opts, all);
      while nmp != 0 && mem[nmp].proc == p
        invariant Sweeping(es0, i, nmp, p, opts, all, res)
        decreases |list| - i
      {
        nmp, i, res := RemoveOne(es0, i, nmp, p, opts, all, res);
      }
      GoodLists(mem, list, first);
      if i < |list| { EntryAt(mem, list, i); }
      forall o | all || o == opts ensures Count(Entries(mem, list), p, o) == 0 {
        AllCleared(Entries(mem, list), i, p, opts, all, o);
      }
      KeptMeans(es0, Entries(mem, list), p, opts, all, res);
      if res {
        ghost var o :| (all || o == opts) && Count(es0, p, o) > 0;
        assert old(Held(p, o)) > 0;
      }
    }

    /** send_nodes_mon_msgs: for each process and option set, as many messages as it holds
      * subscriptions if these want the type of the node, and none otherwise. */
    method SendMsgs(visible: bool) returns (msgs: seq<Msg>)
      requires Valid()
      ensures forall p, o :: Sent(msgs, p, o) == if Wants(o, visible) then Held(p, o) else 0
    {
      hide Good, Entries, Count, Sent;
      GoodLists(mem, list, first);
      ghost var es, i := Entries(mem, list), 0;
      var nmp := head;
      msgs := [];
      NothingYet(es);
      if list != [] { ListEnds(mem, list, 0); }
      while nmp != 0
        invariant i <= |list| && nmp == At(list, i) && (nmp != 0 <==> i < |list|)
        invariant forall p, o :: Sent(msgs, p, o) == if Wants(o, visible) then Count(es[..i], p, o) else 0
        decreases |list| - i
      {
        ListEnds(mem, list, i);
        EntryAt(mem, list, i);
        CountNext(es, i);
        if Wants(mem[nmp].opts, visible) {
          var more := Repeat(mem[nmp].proc, mem[nmp].opts, mem[nmp].no);
          forall p, o ensures Sent(msgs + more, p, o) == Sent(msgs, p, o) + Sent(more, p, o) { SentConcat(msgs, more, p, o); }
          msgs := msgs + more;
        }
        nmp, i := mem[nmp].next, i + 1;
        if i < |list| { ListEnds(mem, list, i); }
      }
      assert es[..i] == es;
    }

    // The inner loop: one message per subscription the entry counts.
    method Repeat(proc: nat, opts: nat, no: nat) returns (msgs: seq<Msg>)
      ensures forall p, o :: Sent(msgs, p, o) == if p == proc && o == opts then no else 0
    {
      msgs := [];
      for i := 0 to no
        invariant forall p, o :: Sent(msgs, p, o) == if p == proc && o == opts then i else 0
      {
        forall p, o ensures Sent(msgs + [Msg(proc, opts)], p, o) == Sent(msgs, p, o) + (if p == proc && o == opts then 1 else 0) {
          SentConcat(msgs, [Msg(proc, opts)], p, o);
          assert [Msg(proc, opts)][1..] == [];
        }
        msgs := msgs + [Msg(proc, opts)];
      }
    }

    // Count one more at entry k.
    method Bump(x: nat, ghost k: nat, id: nat)
      requires Valid() && k < |list| && x == list[k] && x in mem && id != 0 && id !in mem
      modifies `mem, `end, `list
      ensures Valid()
      ensures forall q, o :: Held(q, o) == old(Held(q, o)) + (if q == old(mem)[x].proc && o == old(mem)[x].opts then 1 else 0)
    {
      hide Good, Entries, Count, Put;
      GoodLists(mem, list, first);
      EntryAt(mem, list, k);
      CountRange(mem, list, first, k);
      ghost var es := Entries(mem, list);
      var no, opts := mem[x].no, mem[x].opts;
      var inc := (no + 1) % (MAX_NO + 1);
      GoodSet(mem, list, first, k, if inc == 0 then 1 else inc);
      if inc == 0 {
        mem := mem[x := mem[x].(no := 1)];
        ghost var mid := Entries(mem, list);
        LinkAfter(x, k, id, opts, no);
        CountSets(es, k, 1);
        CountPuts(mid, k + 1, Entry(es[k].proc, opts, no));
      } else {
        mem := mem[x := mem[x].(no := inc)];
        CountSets(es, k, inc);
      }
    }
  }

  // An entry taken out, write by write.
  function Without(mem: map<nat, Mon>, x: nat): map<nat, Mon>
    requires x in mem && (mem[x].next != 0 ==> mem[x].next in mem) && (mem[x].prev != 0 ==> mem[x].prev in mem)
  {
    var prev, next := mem[x].prev, mem[x].next;
    var m1 := if prev != 0 then mem[prev := mem[prev].(next := next)] else mem;
    var m2 := if next != 0 then m1[next := m1[next].(prev := prev)] else m1;
    m2 - {x}
  }

  lemma WithoutIs(mem: map<nat, Mon>, x: nat)
    requires x in mem && (mem[x].next != 0 ==> mem[x].next in mem) && (mem[x].prev != 0 ==> mem[x].prev in mem)
    requires mem[x].next != x && mem[x].prev != x && (mem[x].next != 0 ==> mem[x].next != mem[x].prev) && 0 !in mem
    ensures var m, prev, next := Without(mem, x), mem[x].prev, mem[x].next;
            && m.Keys == mem.Keys - {x}
            && (forall q :: q in mem && q != x ==> EntryOf(m[q]) == EntryOf(mem[q]))
            && (forall q :: q in mem && q != x ==> m[q].next == if q == prev then next else mem[q].next)
            && (forall q :: q in mem && q != x ==> m[q].prev == if q == next then prev else mem[q].prev)
  {
  }

  lemma NoNull(mem: map<nat, Mon>, list: seq<nat>)
    requires Nodes(mem, list)
    ensures 0 !in mem
  {
  }

  lemma UnlinkedIn(mem: map<nat, Mon>, list: seq<nat>, k: nat)
    requires Nodes(mem, list) && Links(mem, list) && k < |list|
    ensures var x := list[k];
            x in mem && (mem[x].next != 0 ==> mem[x].next in mem) && (mem[x].prev != 0 ==> mem[x].prev in mem)
    ensures Unlinked(mem, Without(mem, list[k]), list, k)
  {
    hide Links, Nodes, Without;
    NoNull(mem, list);
    ListEnds(mem, list, k);
    if k > 0 { ListEnds(mem, list, k - 1); }
    if k + 1 < |list| { ListEnds(mem, list, k + 1); }
    WithoutIs(mem, list[k]);
  }

  // What the process of entry k points to when the entry is freed.
  lemma FirstIs(mem: map<nat, Mon>, list: seq<nat>, first: map<nat, nat>, k: nat)
    requires Nodes(mem, list) && Links(mem, list) && Known(mem, list) && k < |list|
    requires Entries(mem, list)[k].proc in first
    ensures var x := list[k];
            var next, p := mem[x].next, mem[x].proc;
            && p in first && (next != 0 ==> next in mem)
            && FirstAfter(list, Entries(mem, list), first, k)
               == if first[p] == x then (if next != 0 && mem[next].proc == p then first[p := next] else first - {p}) else first
  {
    hide Links, Nodes;
    ListEnds(mem, list, k);
  }

  // What the process of x points to once x is freed.
  function Repointed(mem: map<nat, Mon>, first: map<nat, nat>, x: nat): map<nat, nat>
    requires x in mem && mem[x].proc in first && (mem[x].next != 0 ==> mem[x].next in mem)
  {
    var next, p := mem[x].next, mem[x].proc;
    if first[p] != x then first
    else if next != 0 && mem[next].proc == p then first[p := next]
    else first - {p}
  }

  // Freeing entry k leaves a good list.
  lemma TakenOut(mem: map<nat, Mon>, list: seq<nat>, first: map<nat, nat>, k: nat)
    requires Good(mem, list, first) && k < |list|
    ensures Known(mem, list) && list[k] in mem && list[k] != 0
    ensures mem[list[k]].prev == Before(list, k) && mem[list[k]].next == At(list, k + 1)
    ensures mem[list[k]].proc in first && (mem[list[k]].next != 0 ==> mem[list[k]].next in mem)
    ensures mem[list[k]].prev != 0 ==> mem[list[k]].prev in mem
    ensures k > 0 ==> list[k - 1] != 0
    ensures k + 1 < |list| ==> list[k + 1] != 0
    ensures list[0] != 0 && list[|list| - 1] != 0
    ensures Good(Without(mem, list[k]), Drop(list, k), Repointed(mem, first, list[k]))
    ensures Known(Without(mem, list[k]), Drop(list, k))
    ensures Entries(Without(mem, list[k]), Drop(list, k)) == Drop(Entries(mem, list), k)
  {
    hide Good, Entries, Without, Drop, FirstAfter, Nodes, Links, Unlinked;
    GoodLists(mem, list, first);
    ListEnds(mem, list, k);
    ListEnds(mem, list, 0);
    ListEnds(mem, list, |list| - 1);
    UnlinkedIn(mem, list, k);
    HasFirst(mem, list, first, k);
    GoodDrop(mem, Without(mem, list[k]), list, first, k);
    FirstIs(mem, list, first, k);
    GoodLists(Without(mem, list[k]), Drop(list, k), Repointed(mem, first, list[k]));
  }

  lemma DropEnds(list: seq<nat>, k: nat)
    requires k < |list|
    ensures At(Drop(list, k), 0) == if k == 0 then At(list, 1) else list[0]
    ensures Before(Drop(list, k), |list| - 1) == if k + 1 == |list| then Before(list, k) else list[|list| - 1]
    ensures At(Drop(list, k), k) == At(list, k + 1)
  {
  }

  lemma CountDrops(es: seq<Entry>, k: nat)
    requires k < |es|
    ensures forall q, o :: Count(es, q, o) == Count(Drop(es, k), q, o) + One(es[k], q, o)
  {
    forall q, o ensures Count(es, q, o) == Count(Drop(es, k), q, o) + One(es[k], q, o) { CountDrop(es, k, q, o); }
  }

  // ----- removing the entries of a process -----

  // Before position i nothing is left to remove.
  ghost predicate Cleared(es: seq<Entry>, i: nat, p: nat, opts: nat, all: bool) {
    i <= |es| && forall j :: 0 <= j < i ==> !(es[j].proc == p && (all || es[j].opts == opts))
  }

  // From position i on the entries of p come first.
  ghost predicate FromHere(es: seq<Entry>, i: nat, p: nat) {
    forall j, k :: i <= j < k < |es| && es[k].proc == p ==> es[j].proc == p
  }

  lemma AtStart(es: seq<Entry>, i: nat, p: nat, opts: nat, all: bool)
    requires Together(es) && i < |es| && Starts(es, i) && es[i].proc == p
    ensures Cleared(es, i, p, opts, all) && FromHere(es, i, p)
  {
    forall j | 0 <= j < i ensures es[j].proc != p {
      if es[j].proc == p { SameBlock(es, j, i); }
    }
  }

  lemma NextCleared(es: seq<Entry>, i: nat, p: nat, opts: nat, all: bool)
    requires Cleared(es, i, p, opts, all) && FromHere(es, i, p) && i < |es| && !all && es[i].opts != opts
    ensures Cleared(es, i + 1, p, opts, all) && FromHere(es, i + 1, p)
  {
  }

  lemma DropCleared(es: seq<Entry>, i: nat, p: nat, opts: nat, all: bool)
    requires Cleared(es, i, p, opts, all) && FromHere(es, i, p) && i < |es|
    ensures Cleared(Drop(es, i), i, p, opts, all) && FromHere(Drop(es, i), i, p)
  {
    var out := Drop(es, i);
    forall j | 0 <= j < i ensures out[j] == es[j] { }
    forall j | i <= j < |out| ensures out[j] == es[j + 1] { }
  }

  // Only subscriptions that are to go have gone, and `res` tells whether any has.
  ghost predicate Kept(es0: seq<Entry>, es: seq<Entry>, p: nat, opts: nat, all: bool, res: bool) {
    && (forall q, o :: Count(es, q, o) <= Count(es0, q, o))
    && (forall q, o :: !(q == p && (all || o == opts)) ==> Count(es, q, o) == Count(es0, q, o))
    && (!res ==> forall q, o :: Count(es, q, o) == Count(es0, q, o))
    && (res ==> exists o :: (all || o == opts) && Count(es0, p, o) > 0)
  }

  lemma KeptSelf(es: seq<Entry>, p: nat, opts: nat, all: bool)
    ensures Kept(es, es, p, opts, all, false)
  {
  }

  lemma KeptDrop(es0: seq<Entry>, es: seq<Entry>, i: nat, p: nat, opts: nat, all: bool, res: bool)
    requires Kept(es0, es, p, opts, all, res) && i < |es| && es[i].proc == p && (all || es[i].opts == opts) && es[i].no > 0
    ensures Kept(es0, Drop(es, i), p, opts, all, true)
  {
    hide Count, Drop;
    CountDrops(es, i);
    assert Count(es, p, es[i].opts) > 0 && Count(es0, p, es[i].opts) > 0;
  }

  lemma KeptMeans(es0: seq<Entry>, es: seq<Entry>, p: nat, opts: nat, all: bool, res: bool)
    requires Kept(es0, es, p, opts, all, res) && forall o :: all || o == opts ==> Count(es, p, o) == 0
    ensures forall q, o :: Count(es, q, o) == if q == p && (all || o == opts) then 0 else Count(es0, q, o)
    ensures res ==> exists o :: (all || o == opts) && Count(es0, p, o) > 0
    ensures !res ==> forall o :: all || o == opts ==> Count(es0, p, o) == 0
  {
    hide Count;
  }

  // The walk ends where p has no further entry, so nothing is left at all.
  lemma AllCleared(es: seq<Entry>, i: nat, p: nat, opts: nat, all: bool, o: nat)
    requires Cleared(es, i, p, opts, all) && FromHere(es, i, p) && (i == |es| || es[i].proc != p) && (all || o == opts)
    ensures Count(es, p, o) == 0
  {
    CountNone(es, p, o);
  }

  // The entry at which a search for options ends tells whether there are any.
  lemma LastLooked(es: seq<Entry>, k: nat, p: nat, opts: nat)
    requires Cleared(es, k, p, opts, false) && FromHere(es, k, p) && k < |es| && es[k].proc == p && es[k].no > 0
    requires es[k].opts == opts || k + 1 == |es| || es[k + 1].proc != p
    ensures es[k].opts == opts <==> Count(es, p, opts) > 0
  {
    hide Count, Cleared, FromHere, Drop;
    if es[k].opts == opts {
      CountDrop(es, k, p, opts);
    } else {
      NextCleared(es, k, p, opts, false);
      AllCleared(es, k + 1, p, opts, false, opts);
    }
  }

  lemma EntryAt(mem: map<nat, Mon>, list: seq<nat>, k: nat)
    requires Known(mem, list) && k < |list|
    ensures Entries(mem, list)[k] == EntryOf(mem[list[k]])
  {
  }

  lemma CountRange(mem: map<nat, Mon>, list: seq<nat>, first: map<nat, nat>, k: nat)
    requires Good(mem, list, first) && k < |list|
    ensures list[k] in mem && 0 < mem[list[k]].no <= MAX_NO
  {
    EntryAt(mem, list, k);
  }

  lemma CountPuts(es: seq<Entry>, k: nat, e: Entry)
    requires k <= |es|
    ensures forall q, o :: Count(Put(es, k, e), q, o) == Count(es, q, o) + One(e, q, o)
  {
    forall q, o ensures Count(Put(es, k, e), q, o) == Count(es, q, o) + One(e, q, o) { CountPut(es, k, e, q, o); }
  }

  lemma CountSets(es: seq<Entry>, k: nat, n: nat)
    requires k < |es|
    ensures forall q, o :: Count(es[k := es[k].(no := n)], q, o)
                           == Count(es, q, o) + (if es[k].proc == q && es[k].opts == o then n - es[k].no else 0)
  {
    forall q, o ensures Count(es[k := es[k].(no := n)], q, o)
                        == Count(es, q, o) + (if es[k].proc == q && es[k].opts == o then n - es[k].no else 0)
    {
      CountSet(es, k, es[k].(no := n), q, o);
    }
  }

  // A new entry linked in behind x, write by write.
  function BehindOf(mem: map<nat, Mon>, x: nat, id: nat, opts: nat, no: nat): map<nat, Mon>
    requires x in mem && (mem[x].next != 0 ==> mem[x].next in mem)
  {
    var next := mem[x].next;
    var m1 := mem[id := Mon(x, next, mem[x].proc, opts, no)];
    var m2 := m1[x := m1[x].(next := id)];
    if next != 0 then m2[next := m2[next].(prev := id)] else m2
  }

  lemma LinkedIn(mem: map<nat, Mon>, list: seq<nat>, k: nat, id: nat, opts: nat, no: nat)
    requires Nodes(mem, list) && Links(mem, list) && k < |list| && id !in mem
    ensures list[k] in mem && (mem[list[k]].next != 0 ==> mem[list[k]].next in mem)
    ensures var m := BehindOf(mem, list[k], id, opts, no);
            Linked(mem, m, list, k + 1, id) && EntryOf(m[id]) == Entry(mem[list[k]].proc, opts, no)
  {
    ListEnds(mem, list, k);
    hide Links, Nodes;
  }

  // A new entry linked in at the end.
  function AtEnd(mem: map<nat, Mon>, end: nat, id: nat, p: nat, opts: nat): map<nat, Mon>
    requires end != 0 ==> end in mem
  {
    var m1 := mem[id := Mon(end, 0, p, opts, 1)];
    if end != 0 then m1[end := m1[end].(next := id)] else m1
  }

  lemma LinkedLast(mem: map<nat, Mon>, list: seq<nat>, id: nat, p: nat, opts: nat)
    requires Nodes(mem, list) && Links(mem, list) && id !in mem
    ensures Before(list, |list|) != 0 ==> Before(list, |list|) in mem
    ensures var m := AtEnd(mem, Before(list, |list|), id, p, opts);
            Linked(mem, m, list, |list|, id) && EntryOf(m[id]) == Entry(p, opts, 1)
  {
    if list != [] { ListEnds(mem, list, |list| - 1); }
    hide Links, Nodes;
  }

  lemma PutEnds(list: seq<nat>, k: nat, x: nat)
    requires k <= |list|
    ensures At(Put(list, k, x), 0) == if k == 0 then x else list[0]
    ensures Before(Put(list, k, x), |list| + 1) == if k == |list| then x else list[|list| - 1]
  {
  }

  lemma HasFirst(mem: map<nat, Mon>, list: seq<nat>, first: map<nat, nat>, k: nat)
    requires Good(mem, list, first) && k < |list|
    ensures Known(mem, list) && Entries(mem, list)[k].proc in first
  {
    Pointed(list, Entries(mem, list), first, k);
  }

  lemma GoodTogether(mem: map<nat, Mon>, list: seq<nat>, first: map<nat, nat>)
    requires Good(mem, list, first)
    ensures Known(mem, list) && Together(Entries(mem, list))
  {
  }

  lemma NoEntries(mem: map<nat, Mon>, list: seq<nat>, first: map<nat, nat>, p: nat, opts: nat, all: bool)
    requires Good(mem, list, first) && p !in first
    ensures Known(mem, list) && Cleared(Entries(mem, list), |list|, p, opts, all) && FromHere(Entries(mem, list), |list|, p)
  {
    var es := Entries(mem, list);
    forall j | 0 <= j < |es| ensures es[j].proc != p { NoEntry(list, es, first, p, j); }
  }

  lemma NothingYet(es: seq<Entry>)
    ensures forall p, o :: Count(es[..0], p, o) == 0
    ensures forall p, o :: Sent([], p, o) == 0
  {
  }

  lemma CountNext(es: seq<Entry>, i: nat)
    requires i < |es|
    ensures forall p, o :: Count(es[..i + 1], p, o) == Count(es[..i], p, o) + One(es[i], p, o)
  {
    assert es[..i + 1] == Put(es[..i], i, es[i]);
    forall p, o ensures Count(es[..i + 1], p, o) == Count(es[..i], p, o) + One(es[i], p, o) {
      CountPut(es[..i], i, es[i], p, o);
    }
  }

  lemma GoodLists(mem: map<nat, Mon>, list: seq<nat>, first: map<nat, nat>)
    requires Good(mem, list, first)
    ensures Nodes(mem, list) && Links(mem, list) && Known(mem, list)
  {
  }

  lemma StartOf(mem: map<nat, Mon>, list: seq<nat>, first: map<nat, nat>, p: nat) returns (k: nat)
    requires Good(mem, list, first) && p in first
    ensures k < |list| && first[p] == list[k] && list[k] in mem && mem[list[k]].proc == p
    ensures Known(mem, list) && Starts(Entries(mem, list), k)
  {
    var es := Entries(mem, list);
    assert HasStart(es, p);
    k :| 0 <= k < |es| && Starts(es, k) && es[k].proc == p;
  }
}

/** The table of catch entries: one array that holds a free list and, for each
  * loaded module, the list of its catches, all linked through the same field. */
module Catches {
  import opened Sequences
  const TABSIZ := 16 * 1024
  const NIL: int := -1

  datatype Slot = Slot(cp: nat, cdr: int)

  /** The slots ps, in order, make up the list that starts at head. */
  ghost predicate Chain(table: seq<Slot>, head: int, ps: seq<nat>)
    decreases |ps|
  {
    if ps == [] then head == NIL
    else head == ps[0] && ps[0] < |table| && Chain(table, table[ps[0]].cdr, ps[1..])
  }

  lemma {:induction false} ChainKept(table: seq<Slot>, table': seq<Slot>, head: int, ps: seq<nat>)
    requires Chain(table, head, ps) && |table| == |table'|
    requires forall k :: 0 <= k < |ps| && ps[k] < |table| ==> table'[ps[k]].cdr == table[ps[k]].cdr
    ensures Chain(table', head, ps)
    decreases |ps|
  {
    if ps != [] { ChainKept(table, table', table[ps[0]].cdr, ps[1..]); }
  }

  lemma {:induction false} ChainIn(table: seq<Slot>, head: int, ps: seq<nat>)
    requires Chain(table, head, ps)
    ensures forall k :: 0 <= k < |ps| ==> ps[k] < |table|
    decreases |ps|
  {
    if ps != [] { ChainIn(table, table[ps[0]].cdr, ps[1..]); }
  }

  function Head(ps: seq<nat>): int {
    if ps == [] then NIL else ps[0]
  }

  ghost predicate Chained(table: seq<Slot>, lists: seq<seq<nat>>) {
    forall l :: 0 <= l < |lists| ==> Chain(table, Head(lists[l]), lists[l])
  }

  // Exactly the slots below the high mark are on a list.
  ghost predicate Covers(lists: seq<seq<nat>>, highMark: nat) {
    forall i: nat :: On(lists, i) <==> i < highMark
  }

  // Move the first element of list a to the front of list b.
  function Moved(lists: seq<seq<nat>>, a: nat, b: nat): seq<seq<nat>>
    requires a < |lists| && b < |lists| && a != b && lists[a] != []
  {
    lists[a := lists[a][1..]][b := [lists[a][0]] + lists[b]]
  }

  lemma MovedApart(lists: seq<seq<nat>>, a: nat, b: nat)
    requires Apart(lists) && a < |lists| && b < |lists| && a != b && lists[a] != []
    ensures Apart(Moved(lists, a, b))
  {
    var out := Moved(lists, a, b);
    forall l, k, l', k' | 0 <= l < |out| && 0 <= l' < |out| && 0 <= k < |out[l]| && 0 <= k' < |out[l']|
      && out[l][k] == out[l'][k']
      ensures l == l' && k == k'
    {
      var (u, i) := Origin(lists, a, b, l, k);
      var (u', i') := Origin(lists, a, b, l', k');
      assert lists[u][i] == lists[u'][i'];
    }
  }

  // Where an element of the moved lists came from.
  function Origin(lists: seq<seq<nat>>, a: nat, b: nat, l: nat, k: nat): (o: (nat, nat))
    requires a < |lists| && b < |lists| && a != b && lists[a] != []
    requires l < |lists| && k < |Moved(lists, a, b)[l]|
    ensures o.0 < |lists| && o.1 < |lists[o.0]| && lists[o.0][o.1] == Moved(lists, a, b)[l][k]
  {
    if l == a then (a, k + 1) else if l == b then (if k == 0 then (a, 0) else (b, k - 1)) else (l, k)
  }

  lemma MovedOn(lists: seq<seq<nat>>, a: nat, b: nat, i: nat)
    requires a < |lists| && b < |lists| && a != b && lists[a] != []
    ensures On(Moved(lists, a, b), i) <==> On(lists, i)
  {
    var out := Moved(lists, a, b);
    if On(lists, i) {
      var l, k :| 0 <= l < |lists| && 0 <= k < |lists[l]| && lists[l][k] == i;
      if l == a && k == 0 { assert out[b][0] == i; }
      else if l == a { assert out[a][k - 1] == i; }
      else if l == b { assert out[b][k + 1] == i; }
      else { assert out[l][k] == i; }
    }
    if On(out, i) {
      var l, k :| 0 <= l < |out| && 0 <= k < |out[l]| && out[l][k] == i;
      var (u, j) := Origin(lists, a, b, l, k);
      assert lists[u][j] == i;
    }
  }

  // Relinking the moved slot makes the lists of the new table.
  lemma MovedChained(table: seq<Slot>, lists: seq<seq<nat>>, a: nat, b: nat, table': seq<Slot>)
    requires Chained(table, lists) && Apart(lists) && a < |lists| && b < |lists| && a != b && lists[a] != []
    requires |table'| == |table| && lists[a][0] < |table| && table'[lists[a][0]].cdr == Head(lists[b])
    requires forall p :: 0 <= p < |table| && p != lists[a][0] ==> table'[p].cdr == table[p].cdr
    ensures Chained(table', Moved(lists, a, b))
    ensures table[lists[a][0]].cdr == Head(lists[a][1..])
  {
    hide Chain;
    var out, s := Moved(lists, a, b), lists[a][0];
    ChainStep(table, lists[a]);
    forall l | 0 <= l < |out| ensures Chain(table', Head(out[l]), out[l]) {
      var ps := if l == a then lists[a][1..] else lists[l];
      assert Chain(table, Head(ps), ps);
      forall k | 0 <= k < |ps| ensures ps[k] != s {
        if l == a { assert ps[k] == lists[a][k + 1]; } else { assert ps[k] == lists[l][k]; }
      }
      ChainKept(table, table', Head(ps), ps);
      if l == b { ChainCons(table', s, lists[b]); }
    }
  }

  lemma ChainStep(table: seq<Slot>, ps: seq<nat>)
    requires ps != [] && Chain(table, Head(ps), ps)
    ensures ps[0] < |table| && Chain(table, Head(ps[1..]), ps[1..]) && table[ps[0]].cdr == Head(ps[1..])
  {
  }

  lemma ChainCons(table: seq<Slot>, s: nat, ps: seq<nat>)
    requires s < |table| && table[s].cdr == Head(ps) && Chain(table, Head(ps), ps)
    ensures Chain(table, Head([s] + ps), [s] + ps)
  {
    assert ([s] + ps)[1..] == ps;
  }

  // A slot that was on no list becomes the first of list b.
  lemma AddedOk(table: seq<Slot>, lists: seq<seq<nat>>, s: nat, b: nat, table': seq<Slot>)
    requires Chained(table, lists) && Apart(lists) && b < |lists| && Covers(lists, s)
    requires s < |table| == |table'| && table'[s].cdr == Head(lists[b])
    requires forall p :: 0 <= p < |table| && p != s ==> table'[p].cdr == table[p].cdr
    ensures Chained(table', lists[b := [s] + lists[b]]) && Apart(lists[b := [s] + lists[b]])
    ensures Covers(lists[b := [s] + lists[b]], s + 1)
  {
    hide Chain;
    var out := lists[b := [s] + lists[b]];
    forall l | 0 <= l < |out| ensures Chain(table', Head(out[l]), out[l]) {
      assert Chain(table, Head(lists[l]), lists[l]);
      forall k | 0 <= k < |lists[l]| ensures lists[l][k] != s { assert On(lists, lists[l][k]); }
      ChainKept(table, table', Head(lists[l]), lists[l]);
      if l == b { ChainCons(table', s, lists[b]); }
    }
    AddedApart(lists, s, b);
    forall i: nat ensures On(out, i) <==> i < s + 1 { AddedOn(lists, s, b, i); }
  }

  lemma AddedApart(lists: seq<seq<nat>>, s: nat, b: nat)
    requires Apart(lists) && b < |lists| && !On(lists, s)
    ensures Apart(lists[b := [s] + lists[b]])
  {
    var out := lists[b := [s] + lists[b]];
    forall l, k, l', k' | 0 <= l < |out| && 0 <= l' < |out| && 0 <= k < |out[l]| && 0 <= k' < |out[l']|
      && out[l][k] == out[l'][k']
      ensures l == l' && k == k'
    {
      var i, i' := if l == b then k - 1 else k, if l' == b then k' - 1 else k';
      if i >= 0 { assert out[l][k] == lists[l][i]; }
      if i' >= 0 { assert out[l'][k'] == lists[l'][i']; }
    }
  }

  lemma AddedOn(lists: seq<seq<nat>>, s: nat, b: nat, i: nat)
    requires b < |lists|
    ensures On(lists[b := [s] + lists[b]], i) <==> On(lists, i) || i == s
  {
    var out := lists[b := [s] + lists[b]];
    if On(lists, i) {
      var l, k :| 0 <= l < |lists| && 0 <= k < |lists[l]| && lists[l][k] == i;
      assert out[l][if l == b then k + 1 else k] == i;
    }
    assert out[b][0] == s;
    if On(out, i) && i != s {
      var l, k :| 0 <= l < |out| && 0 <= k < |out[l]| && out[l][k] == i;
      assert lists[l][if l == b then k - 1 else k] == i;
    }
  }

  // The free list after the slots of a module have gone there one by one.
  function Freed(free: seq<nat>, ps: seq<nat>): seq<nat>
    decreases |ps|
  {
    if ps == [] then free else Freed([ps[0]] + free, ps[1..])
  }

  lemma MovedKeeps(lists: seq<seq<nat>>, a: nat, b: nat, highMark: nat)
    requires Apart(lists) && Covers(lists, highMark) && a < |lists| && b < |lists| && a != b && lists[a] != []
    ensures Apart(Moved(lists, a, b)) && Covers(Moved(lists, a, b), highMark)
  {
    MovedApart(lists, a, b);
    forall i: nat ensures On(Moved(lists, a, b), i) <==> i < highMark { MovedOn(lists, a, b, i); }
  }

  // A slot of the free list is on no other list.
  lemma NotLive(lists: seq<seq<nat>>)
    requires Apart(lists) && |lists| > 0 && lists[0] != []
    ensures forall l, k :: 0 < l < |lists| && 0 <= k < |lists[l]| ==> lists[l][k] != lists[0][0]
  {
  }

  // A slot at the high mark is on no list.
  lemma BeyondMark(lists: seq<seq<nat>>, i: nat)
    requires Covers(lists, i)
    ensures forall l, k :: 0 <= l < |lists| && 0 <= k < |lists[l]| ==> lists[l][k] != i
  {
    forall l, k | 0 <= l < |lists| && 0 <= k < |lists[l]| ensures lists[l][k] != i {
      assert On(lists, lists[l][k]);
    }
  }

  lemma FirstSlot(table: seq<Slot>, lists: seq<seq<nat>>, m: nat)
    requires Chained(table, lists) && m < |lists| && Head(lists[m]) != NIL
    ensures lists[m] != [] && lists[m][0] < |table| && Head(lists[m]) == lists[m][0]
    ensures table[lists[m][0]].cdr == Head(lists[m][1..])
  {
    ChainStep(table, lists[m]);
  }

  // The slots of one list are different.
  lemma OwnSlots(lists: seq<seq<nat>>, m: nat)
    requires Apart(lists) && m < |lists|
    ensures forall j, k :: 0 <= j < k < |lists[m]| ==> lists[m][j] != lists[m][k]
  {
  }

  lemma SlotsIn(table: seq<Slot>, lists: seq<seq<nat>>, m: nat)
    requires Chained(table, lists) && m < |lists|
    ensures forall k :: 0 <= k < |lists[m]| ==> lists[m][k] < |table|
  {
    ChainIn(table, Head(lists[m]), lists[m]);
  }

  /** The catch table. `lists` holds the free list and then one list per module. */
  class CatchTable {
    const table: array<Slot>
    var freeList: int
    var highMark: nat
    ghost var lists: seq<seq<nat>>

    ghost predicate Valid()
      reads this, table
    {
      && table.Length == TABSIZ && highMark <= TABSIZ && |lists| > 0 && freeList == Head(lists[0])
      && Chained(table[..], lists) && Apart(lists) && Covers(lists, highMark)
    }

    // beam_catches_init: the table itself is left as it is.
    constructor (modules: nat)
      ensures Valid() && fresh(table) && lists == seq(modules + 1, _ => [])
    {
      table := new Slot[TABSIZ];
      freeList, highMark := NIL, 0;
      lists := seq(modules + 1, _ => []);
    }

    /** beam_catches_cons: put a catch in front of the list of module m. It takes a slot
      * that no module uses; there is none exactly if the table is full of live ones. */
    method Cons(cp: nat, cdr: int, ghost m: nat) returns (ok: bool, i: nat)
      requires Valid() && 0 < m < |lists| && cdr == Head(lists[m])
      modifies this, table
      ensures Valid()
      ensures ok <==> old(lists)[0] != [] || old(highMark) < TABSIZ
      ensures !ok ==> lists == old(lists) && table[..] == old(table[..])
      ensures ok ==> |lists| == |old(lists)| && lists[m] == [i] + old(lists)[m] && i < TABSIZ && table[i].cp == cp
      ensures ok ==> forall l :: 0 < l < |lists| && l != m ==> lists[l] == old(lists)[l]
      ensures ok ==> forall l, k :: 0 < l < |old(lists)| && 0 <= k < |old(lists)[l]| ==> old(lists)[l][k] != i
      ensures ok ==> forall p :: 0 <= p < TABSIZ && p != i ==> table[p].cp == old(table[p].cp)
    {
      hide Chained, Apart, Covers;
      ghost var was, ls := table[..], lists;
      i := 0;
      ok := true;
      if freeList >= 0 {
        i := freeList;
        FreeSlot();
        freeList := table[i].cdr;
        table[i] := Slot(cp, cdr);
        lists := Moved(ls, 0, m);
        MovedChained(was, ls, 0, m, table[..]);
        MovedKeeps(ls, 0, m, highMark);
        NotLive(ls);
      } else if highMark < TABSIZ {
        i := highMark;
        highMark := i + 1;
        table[i] := Slot(cp, cdr);
        lists := ls[m := [i] + ls[m]];
        AddedOk(was, ls, i, m, table[..]);
        BeyondMark(ls, i);
      } else {
        ok := false;
      }
    }

    lemma FreeSlot()
      requires Valid() && freeList >= 0
      ensures lists[0] != [] && freeList == lists[0][0] && lists[0][0] < TABSIZ
    {
      ChainStep(table[..], lists[0]);
    }

    // beam_catches_car, which aborts on an index outside the table.
    method Car(i: nat) returns (ok: bool, cp: nat)
      requires Valid()
      ensures ok <==> i < TABSIZ
      ensures ok ==> cp == table[i].cp
    {
      ok := i < TABSIZ;
      cp := if ok then table[i].cp else 0;
    }

    /** beam_catches_delmod: all slots of module m, and no others, go to the free list. It
      * aborts when it meets a catch that is not in the module's code. */
    method Delmod(head: int, code: nat, bytes: nat, ghost m: nat) returns (ok: bool)
      requires Valid() && 0 < m < |lists| && head == Head(lists[m])
      modifies this, table
      ensures ok <==> forall i :: i in old(lists)[m] && i < TABSIZ ==> old(table[..])[i].cp - code < bytes
      ensures Valid() && |lists| == |old(lists)|
      ensures ok ==> lists[m] == [] && lists[0] == Freed(old(lists)[0], old(lists)[m])
      ensures ok ==> forall p :: p in old(lists)[m] && p < TABSIZ ==> table[p].cp == 0
      ensures forall l :: 0 < l < |lists| && l != m ==> lists[l] == old(lists)[l]
      ensures forall p :: 0 <= p < TABSIZ && p !in old(lists)[m] ==> table[p].cp == old(table[p].cp)
    {
      hide Chained, Apart, Covers, Chain;
      var i := head;
      ghost var n := 0;
      ghost var ps := lists[m];
      OwnSlots(lists, m);
      SlotsIn(table[..], lists, m);
      assert ps[0..] == ps;
      while i != NIL
        invariant Valid() && |lists| == |old(lists)| && n <= |ps|
        invariant lists[m] == ps[n..] && i == Head(lists[m])
        invariant Freed(lists[0], lists[m]) == Freed(old(lists)[0], ps)
        invariant forall l :: 0 < l < |lists| && l != m ==> lists[l] == old(lists)[l]
        invariant forall p :: 0 <= p < TABSIZ && p !in ps[..n] ==> table[p].cp == old(table[p].cp)
        invariant forall i :: i in ps[..n] && i < TABSIZ ==> old(table[..])[i].cp - code < bytes
        invariant forall i :: i in ps[..n] && i < TABSIZ ==> table[i].cp == 0
        decreases |ps| - n
      {
        FirstSlot(table[..], lists, m);
        if table[i].cp - code >= bytes {
          return false;
        }
        ghost var was, ls := table[..], lists;
        var cdr := table[i].cdr;
        table[i] := Slot(0, freeList);
        freeList := i;
        MovedChained(was, ls, m, 0, table[..]);
        MovedKeeps(ls, m, 0, highMark);
        lists := Moved(ls, m, 0);
        assert ps[..n + 1] == ps[..n] + [ps[n]];
        i, n := cdr, n + 1;
      }
      assert ps[n..] == [] && ps[..n] == ps;
      ok := true;
    }
  }
}

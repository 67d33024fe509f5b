/** Loaded code: which areas belong to which module, the table of address ranges
  * that is searched for the function a program counter is in, and the total size. */
module CodeIndex {
  import opened Sequences

  // The code of one load of a module: [start, start + size), and the addresses of
  // its functions followed by the address where the last one ends.
  datatype Area = Area(start: nat, size: nat, funs: seq<nat>)

  ghost predicate WfArea(a: Area) {
    && |a.funs| > 0 && a.start < a.funs[0] && a.funs[|a.funs| - 1] < a.start + a.size
    && forall i, j :: 0 <= i < j < |a.funs| ==> a.funs[i] < a.funs[j]
  }

  datatype Maybe<T> = Nothing | Just(value: T)

  // Current and old code of a module.
  datatype Module = Module(code: Maybe<Area>, retired: Maybe<Area>)

  // The areas in address order, none overlapping the next.
  ghost predicate Ordered(ranges: seq<Area>) {
    && (forall i :: 0 <= i < |ranges| ==> WfArea(ranges[i]))
    && (forall i, j :: 0 <= i < j < |ranges| ==> ranges[i].start + ranges[i].size <= ranges[j].start)
  }

  function Sizes(ranges: seq<Area>): nat {
    if ranges == [] then 0 else ranges[0].size + Sizes(ranges[1..])
  }

  lemma {:induction false} SizesConcat(a: seq<Area>, b: seq<Area>)
    ensures Sizes(a + b) == Sizes(a) + Sizes(b)
  {
    if a == [] {
      assert a + b == b;
    } else {
      assert (a + b)[1..] == a[1..] + b;
      SizesConcat(a[1..], b);
    }
  }

  lemma SizesPut(rs: seq<Area>, i: nat, a: Area)
    requires i <= |rs|
    ensures Sizes(Put(rs, i, a)) == Sizes(rs) + a.size
  {
    assert rs == rs[..i] + rs[i..];
    SizesConcat(rs[..i], rs[i..]);
    SizesConcat(rs[..i] + [a], rs[i..]);
    SizesConcat(rs[..i], [a]);
    assert [a][1..] == [];
  }

  lemma SizesDrop(rs: seq<Area>, i: nat)
    requires i < |rs|
    ensures Sizes(Drop(rs, i)) + rs[i].size == Sizes(rs)
  {
    assert rs == Put(Drop(rs, i), i, rs[i]);
    SizesPut(Drop(rs, i), i, rs[i]);
  }

  // Two areas have no address in common.
  predicate Disjoint(a: Area, b: Area) {
    a.start + a.size <= b.start || b.start + b.size <= a.start
  }

  lemma PutOrdered(rs: seq<Area>, i: nat, a: Area)
    requires Ordered(rs) && WfArea(a) && i <= |rs| && forall j :: 0 <= j < |rs| ==> Disjoint(a, rs[j])
    requires forall j :: 0 <= j < i ==> rs[j].start < a.start
    requires forall j :: i <= j < |rs| ==> a.start <= rs[j].start
    ensures Ordered(Put(rs, i, a))
  {
    hide WfArea;
    var out := Put(rs, i, a);
    forall j, k | 0 <= j < k < |out| ensures out[j].start + out[j].size <= out[k].start {
      var u, v := if j < i then j else j - 1, if k < i then k else k - 1;
      assert j != i ==> out[j] == rs[u];
      assert k != i ==> out[k] == rs[v];
      if j == i { NotEmpty(rs[v]); }
      if k == i { NotEmpty(a); }
    }
  }

  lemma NotEmpty(a: Area)
    requires WfArea(a)
    ensures a.size > 0
  {
  }

  lemma PutHas(rs: seq<Area>, i: nat, a: Area)
    requires i <= |rs|
    ensures forall x :: x in Put(rs, i, a) <==> x in rs || x == a
  {
    assert rs == rs[..i] + rs[i..];
  }

  lemma DropOrdered(rs: seq<Area>, i: nat)
    requires Ordered(rs) && i < |rs|
    ensures Ordered(Drop(rs, i))
  {
    hide WfArea;
    var out := Drop(rs, i);
    forall j, k | 0 <= j < k < |out| ensures out[j].start + out[j].size <= out[k].start {
      var u, v := if j < i then j else j + 1, if k < i then k else k + 1;
      assert out[j] == rs[u] && out[k] == rs[v];
    }
  }

  lemma Different(rs: seq<Area>, i: nat, k: nat)
    requires Ordered(rs) && i < |rs| && k < |rs| && i != k
    ensures rs[i] != rs[k]
  {
    NotEmpty(rs[i]);
    NotEmpty(rs[k]);
  }

  lemma DropHas(rs: seq<Area>, i: nat, x: Area)
    requires Ordered(rs) && i < |rs|
    ensures x in Drop(rs, i) <==> x in rs && x != rs[i]
  {
    hide Ordered;
    var out := Drop(rs, i);
    if x in rs && x != rs[i] {
      var j :| 0 <= j < |rs| && rs[j] == x;
      assert x == out[if j < i then j else j - 1];
    }
    if x in out {
      var j :| 0 <= j < |out| && out[j] == x;
      var k := if j < i then j else j + 1;
      assert x == rs[k];
      Different(rs, i, k);
    }
  }

  // ----- who owns what -----

  // The area in one of the two places of a module.
  function Place(mods: map<nat, Module>, m: nat, past: bool): Maybe<Area> {
    if m !in mods then Nothing else if past then mods[m].retired else mods[m].code
  }

  // The table holds exactly the current and old areas, each owned by one place.
  ghost predicate Owned(mods: map<nat, Module>, ranges: seq<Area>) {
    && (forall m, o :: Place(mods, m, o).Just? ==> Place(mods, m, o).value in ranges)
    && (forall a :: a in ranges ==> HasOwner(mods, a))
    && (forall m, o, m', o' :: Place(mods, m, o).Just? && Place(mods, m, o) == Place(mods, m', o') ==> m == m' && o == o')
  }

  ghost predicate HasOwner(mods: map<nat, Module>, a: Area) {
    exists m, o :: Place(mods, m, o) == Just(a)
  }

  lemma LoadOwned(mods: map<nat, Module>, ranges: seq<Area>, m: nat, a: Area, ranges': seq<Area>)
    requires Owned(mods, ranges) && Place(mods, m, false) == Nothing && a !in ranges
    requires forall x :: x in ranges' <==> x in ranges || x == a
    ensures Owned(mods[m := Module(Just(a), Place(mods, m, true))], ranges')
  {
    var mods' := mods[m := Module(Just(a), Place(mods, m, true))];
    assert forall k, o :: Place(mods', k, o) == if k == m && !o then Just(a) else Place(mods, k, o);
    forall x | x in ranges' ensures HasOwner(mods', x) {
      if x == a {
        assert Place(mods', m, false) == Just(a);
      } else {
        assert HasOwner(mods, x);
        var k, o :| Place(mods, k, o) == Just(x);
        assert Place(mods', k, o) == Just(x);
      }
    }
  }

  // delete_code: the current code becomes the old code.
  lemma RetireOwned(mods: map<nat, Module>, ranges: seq<Area>, m: nat)
    requires Owned(mods, ranges) && Place(mods, m, true) == Nothing
    ensures Owned(mods[m := Module(Nothing, Place(mods, m, false))], ranges)
  {
    var mods' := mods[m := Module(Nothing, Place(mods, m, false))];
    assert forall k, o :: Place(mods', k, o)
                          == if k == m then (if o then Place(mods, m, false) else Nothing) else Place(mods, k, o);
    forall x | x in ranges ensures HasOwner(mods', x) {
      assert HasOwner(mods, x);
      var k, o :| Place(mods, k, o) == Just(x);
      assert Place(mods', k, if k == m then true else o) == Just(x);
    }
  }

  lemma PurgeOwned(mods: map<nat, Module>, ranges: seq<Area>, m: nat, a: Area, ranges': seq<Area>)
    requires Owned(mods, ranges) && m in mods && mods[m].retired == Just(a)
    requires forall x :: x in ranges' <==> x in ranges && x != a
    ensures Owned(mods[m := mods[m].(retired := Nothing)], ranges')
  {
    var mods' := mods[m := mods[m].(retired := Nothing)];
    assert Place(mods, m, true) == Just(a);
    assert forall k, o :: Place(mods', k, o) == if k == m && o then Nothing else Place(mods, k, o);
    forall x | x in ranges' ensures HasOwner(mods', x) {
      assert HasOwner(mods, x);
      var k, o :| Place(mods, k, o) == Just(x);
      assert Place(mods', k, o) == Just(x);
    }
  }

  // ----- searching -----

  // pc is in function k of the area.
  ghost predicate InFunction(a: Area, k: nat, pc: nat) {
    k + 1 < |a.funs| && a.funs[k] <= pc < a.funs[k + 1]
  }

  /** What find_function_from_pc is for: the function whose code pc is in, if any. */
  ghost predicate Finds(ranges: seq<Area>, pc: nat, f: Maybe<nat>) {
    match f
    case Just(at) => exists i: nat, k: nat :: i < |ranges| && InFunction(ranges[i], k, pc) && ranges[i].funs[k] == at
    case Nothing => forall i, k: nat :: 0 <= i < |ranges| ==> !InFunction(ranges[i], k, pc)
  }

  // Functions lie strictly inside their area.
  lemma Strictly(a: Area, k: nat, pc: nat)
    requires WfArea(a) && InFunction(a, k, pc)
    ensures a.start < pc < a.start + a.size
  {
    assert a.start < a.funs[0] <= a.funs[k];
    assert a.funs[k + 1] <= a.funs[|a.funs| - 1];
  }

  lemma NextAtMost(a: Area, k: nat, l: nat)
    requires WfArea(a) && k < l < |a.funs|
    ensures a.funs[k + 1] <= a.funs[l]
  {
  }

  /** At most one function contains pc. */
  lemma FindsOne(ranges: seq<Area>, pc: nat, i: nat, k: nat, j: nat, l: nat)
    requires Ordered(ranges) && i < |ranges| && j < |ranges|
    requires InFunction(ranges[i], k, pc) && InFunction(ranges[j], l, pc)
    ensures i == j && k == l
  {
    Strictly(ranges[i], k, pc);
    Strictly(ranges[j], l, pc);
    assert i == j;
    if k < l { NextAtMost(ranges[i], k, l); } else if l < k { NextAtMost(ranges[i], l, k); }
  }

  // The inner search: over the function table of one area.
  method FindInArea(a: Area, pc: nat) returns (f: Maybe<nat>)
    requires WfArea(a)
    ensures Finds([a], pc, f)
  {
    var low, high := 0, |a.funs| - 1;
    while low < high
      invariant 0 <= low <= high < |a.funs|
      invariant forall k: nat :: k < low || high <= k ==> !InFunction(a, k, pc)
      decreases high - low
    {
      var mid := low + (high - low) / 2;
      if pc < a.funs[mid] {
        high := mid;
      } else if pc < a.funs[mid + 1] {
        assert InFunction([a][0], mid, pc);
        return Just(a.funs[mid]);
      } else {
        low := mid + 1;
      }
    }
    f := Nothing;
  }

  // pc is outside every area but one.
  lemma OnlyHere(ranges: seq<Area>, i: nat, pc: nat, f: Maybe<nat>)
    requires Ordered(ranges) && i < |ranges| && Finds([ranges[i]], pc, f)
    requires ranges[i].start <= pc <= ranges[i].start + ranges[i].size
    ensures Finds(ranges, pc, f)
  {
    if f.Just? {
      var j: nat, k: nat :| j < |[ranges[i]]| && InFunction([ranges[i]][j], k, pc) && [ranges[i]][j].funs[k] == f.value;
      assert InFunction(ranges[i], k, pc);
    } else {
      assert forall k: nat :: !InFunction([ranges[i]][0], k, pc);
      forall j, k: nat | 0 <= j < |ranges| ensures !InFunction(ranges[j], k, pc) {
        if j != i && InFunction(ranges[j], k, pc) { Strictly(ranges[j], k, pc); }
      }
    }
  }

  /** All loaded code. */
  class CodeTable {
    var mods: map<nat, Module>
    var ranges: seq<Area>
    var mid: nat
    var total: nat

    ghost predicate Valid()
      reads this
    {
      && Ordered(ranges) && Owned(mods, ranges) && total == Sizes(ranges)
      && (ranges != [] ==> mid < |ranges|)
    }

    constructor ()
      ensures Valid() && ranges == [] && total == 0 && mods == map[]
    {
      mods, ranges, mid, total := map[], [], 0, 0;
    }

    /** find_function_from_pc: whatever area the search starts at, the result is the
      * function that contains pc. A hit is where the next search starts. */
    method FindFunction(pc: nat) returns (f: Maybe<nat>)
      requires Valid()
      modifies `mid
      ensures Valid() && Finds(ranges, pc, f)
    {
      hide Owned, Sizes, WfArea;
      var low, high, m := 0, |ranges|, mid;
      while low < high
        invariant mid == old(mid) && 0 <= low <= high <= |ranges| && (low < high ==> low <= m < high)
        invariant forall i, k: nat :: 0 <= i < low ==> !InFunction(ranges[i], k, pc)
        invariant forall i, k: nat :: high <= i < |ranges| ==> !InFunction(ranges[i], k, pc)
        decreases high - low
      {
        var a := ranges[m];
        if pc < a.start {
          high := m;
          Above(ranges, m, pc);
        } else if pc > a.start + a.size {
          low := m + 1;
          Below(ranges, m, pc);
        } else {
          f := FindInArea(a, pc);
          OnlyHere(ranges, m, pc, f);
          if f.Just? { mid := m; }
          return;
        }
        m := low + (high - low) / 2;
      }
      f := Nothing;
    }

    /** insert_new_code: refused when the module has both current and old code; otherwise
      * current code, if any, becomes old, and the new area is entered in the table. */
    method Load(m: nat, a: Area) returns (ok: bool)
      requires Valid() && WfArea(a) && forall j :: 0 <= j < |ranges| ==> Disjoint(a, ranges[j])
      modifies this
      ensures Valid()
      ensures ok <==> !(Place(old(mods), m, false).Just? && Place(old(mods), m, true).Just?)
      ensures !ok ==> ranges == old(ranges) && total == old(total)
      ensures !ok ==> forall k, o :: Place(mods, k, o) == Place(old(mods), k, o)
      ensures ok ==> total == old(total) + a.size && forall x :: x in ranges <==> x in old(ranges) || x == a
      ensures ok ==> Place(mods, m, false) == Just(a)
      ensures ok ==> Place(mods, m, true) == (if Place(old(mods), m, true).Just? then Place(old(mods), m, true)
                                              else Place(old(mods), m, false))
      ensures ok ==> forall k, o :: k != m ==> Place(mods, k, o) == Place(old(mods), k, o)
    {
      hide Ordered, Owned, Sizes, WfArea;
      NewArea(ranges, a);
      ok := MakeCurrentOld(m);
      if ok {
        var rs, i := InsertRange(a);
        LoadOwned(mods, ranges, m, a, rs);
        SizesPut(ranges, i, a);
        total := total + a.size;
        mods := mods[m := Module(Just(a), Place(mods, m, true))];
        ranges := rs;
        mid := |ranges| / 2;
      }
    }

    // beam_make_current_old, with erts_put_module and delete_code.
    method MakeCurrentOld(m: nat) returns (ok: bool)
      requires Valid()
      modifies `mods
      ensures Valid()
      ensures ok <==> !(Place(old(mods), m, false).Just? && Place(old(mods), m, true).Just?)
      ensures !ok ==> forall k, o :: Place(mods, k, o) == Place(old(mods), k, o)
      ensures ok ==> Place(mods, m, false) == Nothing
      ensures ok ==> Place(mods, m, true) == (if Place(old(mods), m, true).Just? then Place(old(mods), m, true)
                                              else Place(old(mods), m, false))
      ensures ok ==> forall k, o :: k != m ==> Place(mods, k, o) == Place(old(mods), k, o)
    {
      hide Ordered, Owned, Sizes;
      var modp := if m in mods then mods[m] else Module(Nothing, Nothing);
      if modp.code.Just? && modp.retired.Just? { return false; }
      if modp.retired == Nothing {
        RetireOwned(mods, ranges, m);
        mods := mods[m := Module(Nothing, modp.code)];
      }
      ok := true;
    }

    // Shift the ranges at or above the new area up by one.
    method InsertRange(a: Area) returns (rs: seq<Area>, ghost i: nat)
      requires Valid() && WfArea(a) && forall j :: 0 <= j < |ranges| ==> Disjoint(a, ranges[j])
      ensures i <= |ranges| && rs == Put(ranges, i, a) && Ordered(rs)
      ensures forall x :: x in rs <==> x in ranges || x == a
    {
      hide Owned, Sizes, WfArea;
      rs := ranges + [a];
      var n := |ranges|;
      while n > 0 && !(a.start > rs[n - 1].start)
        invariant 0 <= n <= |ranges| && |rs| == |ranges| + 1
        invariant rs[..n] == ranges[..n] && rs[n + 1..] == ranges[n..]
        invariant forall j :: n <= j < |ranges| ==> a.start <= ranges[j].start
        decreases n
      {
        assert rs[n - 1] == ranges[..n][n - 1] == ranges[n - 1];
        rs := rs[n := rs[n - 1]];
        n := n - 1;
        assert ranges[n..] == [ranges[n]] + ranges[n + 1..];
      }
      if n > 0 { assert rs[n - 1] == ranges[..n][n - 1]; }
      rs := rs[n := a];
      i := n;
      assert rs == rs[..n] + [a] + rs[n + 1..];
      PutOrdered(ranges, n, a);
      PutHas(ranges, n, a);
    }

    /** delete_module: refused for an unknown module or when old code exists. */
    method Delete(m: nat) returns (ok: bool)
      requires Valid()
      modifies `mods
      ensures Valid()
      ensures ok <==> m in old(mods) && Place(old(mods), m, true) == Nothing
      ensures !ok ==> mods == old(mods)
      ensures ok ==> mods == old(mods)[m := Module(Nothing, Place(old(mods), m, false))]
    {
      hide Ordered, Owned, Sizes;
      if m !in mods || mods[m].retired.Just? { return false; }
      RetireOwned(mods, ranges, m);
      mods := mods[m := Module(Nothing, mods[m].code)];
      ok := true;
    }

    /** purge_module: the old code, if there is any, leaves the table. */
    method Purge(m: nat) returns (ok: bool)
      requires Valid()
      modifies this
      ensures Valid()
      ensures ok <==> Place(old(mods), m, true).Just?
      ensures !ok ==> mods == old(mods) && ranges == old(ranges) && total == old(total)
      ensures ok ==> mods == old(mods)[m := old(mods)[m].(retired := Nothing)]
      ensures ok ==> total == old(total) - Place(old(mods), m, true).value.size
      ensures ok ==> forall x :: x in ranges <==> x in old(ranges) && x != Place(old(mods), m, true).value
    {
      hide Owned, Sizes, WfArea;
      if m !in mods || mods[m].retired == Nothing { return false; }
      var a := mods[m].retired.value;
      OwnedIn(mods, ranges, m);
      var i := 0;
      while ranges[i].start != a.start
        invariant 0 <= i < |ranges| && a in ranges[i..]
        decreases |ranges| - i
      {
        assert ranges[i..] == [ranges[i]] + ranges[i + 1..];
        i := i + 1;
      }
      SameStart(ranges, i, a);
      SizesDrop(ranges, i);
      DropOrdered(ranges, i);
      forall x ensures x in Drop(ranges, i) <==> x in ranges && x != a { DropHas(ranges, i, x); }
      PurgeOwned(mods, ranges, m, a, Drop(ranges, i));
      total := total - a.size;
      mods := mods[m := mods[m].(retired := Nothing)];
      ranges := Drop(ranges, i);
      mid := |ranges| / 2;
      ok := true;
    }
  }

  lemma Above(ranges: seq<Area>, m: nat, pc: nat)
    requires Ordered(ranges) && m < |ranges| && pc < ranges[m].start
    ensures forall i, k: nat :: m <= i < |ranges| ==> !InFunction(ranges[i], k, pc)
  {
    forall i, k: nat | m <= i < |ranges| ensures !InFunction(ranges[i], k, pc) {
      if InFunction(ranges[i], k, pc) { Strictly(ranges[i], k, pc); }
    }
  }

  lemma Below(ranges: seq<Area>, m: nat, pc: nat)
    requires Ordered(ranges) && m < |ranges| && pc > ranges[m].start + ranges[m].size
    ensures forall i, k: nat :: 0 <= i <= m ==> !InFunction(ranges[i], k, pc)
  {
    forall i, k: nat | 0 <= i <= m ensures !InFunction(ranges[i], k, pc) {
      if InFunction(ranges[i], k, pc) { Strictly(ranges[i], k, pc); }
    }
  }

  lemma NewArea(ranges: seq<Area>, a: Area)
    requires WfArea(a) && forall j :: 0 <= j < |ranges| ==> Disjoint(a, ranges[j])
    ensures a !in ranges
  {
  }

  lemma OwnedIn(mods: map<nat, Module>, ranges: seq<Area>, m: nat)
    requires Owned(mods, ranges) && m in mods && mods[m].retired.Just?
    ensures mods[m].retired.value in ranges && ranges != []
  {
    assert Place(mods, m, true) == mods[m].retired;
  }

  // No two areas start at the same address.
  lemma SameStart(ranges: seq<Area>, i: nat, a: Area)
    requires Ordered(ranges) && i < |ranges| && a in ranges && ranges[i].start == a.start
    ensures ranges[i] == a
  {
    var j :| 0 <= j < |ranges| && ranges[j] == a;
    NotEmpty(ranges[i]);
    NotEmpty(ranges[j]);
  }
}

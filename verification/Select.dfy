/** Multi-way selects: the source form is an association list of keys and
  * labels; the loader turns it into a jump table, a sorted table, a chain of
  * two selects or a table of bignums, and the emulator searches that. */
module Select {
  import opened Integers

  // Machine words.
  const W: nat := 0x1_0000_0000_0000_0000

  // An int stored in a Uint.
  function U(x: int): nat {
    x % W
  }

  // make_small: four tag bits below the value.
  function Tagged(v: int): nat {
    U(16 * v + 15)
  }

  // signed_val of a tagged small.
  function SignedVal(w: nat): int {
    if w < W / 2 then w / 16 else (w - W) / 16
  }

  datatype Key =
    | IntKey(v: int)                          // TAG_i
    | AtomKey(word: nat)                      // TAG_a
    | BigKey(hdr: nat, digits: seq<nat>)      // TAG_q, a bignum literal

  // A bignum header: the number of digits above the six tag bits, which tell the sign.
  predicate BigHeader(hdr: nat, digits: seq<nat>) {
    hdr / 64 == |digits| && |digits| > 0 && (hdr % 64 == 0x08 || hdr % 64 == 0x0C)
  }

  predicate ValidKey(k: Key) {
    match k
    case IntKey(v) => IsSmall(v)
    case AtomKey(w) => w < W && w % 64 == 0x0B
    case BigKey(h, ds) => BigHeader(h, ds)
  }

  datatype Entry = Entry(key: Key, target: nat)

  // What a register may hold: an immediate word, or a pointer word to a bignum,
  // to a tuple or to something else.
  datatype Value =
    | Immediate(word: nat)
    | Bignum(word: nat, hdr: nat, digits: seq<nat>)
    | TupleVal(word: nat, arity: nat)
    | Other(word: nat)

  predicate ValidValue(x: Value) {
    && x.word < W
    && (x.Immediate? <==> x.word % 4 == 3)
    && (x.Bignum? ==> BigHeader(x.hdr, x.digits))
  }

  predicate Matches(k: Key, x: Value) {
    match k
    case IntKey(v) => x == Immediate(Tagged(v))
    case AtomKey(w) => x == Immediate(w)
    case BigKey(h, ds) => x.Bignum? && x.hdr == h && x.digits == ds
  }

  predicate ValidEntries(es: seq<Entry>) {
    forall i :: 0 <= i < |es| ==> ValidKey(es[i].key)
  }

  predicate Distinct(es: seq<Entry>) {
    forall i, j :: 0 <= i < j < |es| ==> es[i].key != es[j].key
  }

  /** What a select means: the label of the first entry whose key matches, or fail. */
  function Lookup(es: seq<Entry>, x: Value, fail: nat): nat {
    if es == [] then fail
    else if Matches(es[0].key, x) then es[0].target
    else Lookup(es[1..], x, fail)
  }

  lemma {:induction false} LookupHit(es: seq<Entry>, x: Value, fail: nat, i: nat)
    requires i < |es| && Matches(es[i].key, x)
    requires forall j :: 0 <= j < i ==> !Matches(es[j].key, x)
    ensures Lookup(es, x, fail) == es[i].target
  {
    if i > 0 {
      assert !Matches(es[0].key, x);
      LookupHit(es[1..], x, fail, i - 1);
    }
  }

  lemma {:induction false} LookupMiss(es: seq<Entry>, x: Value, fail: nat)
    requires forall j :: 0 <= j < |es| ==> !Matches(es[j].key, x)
    ensures Lookup(es, x, fail) == fail
  {
    if es != [] { LookupMiss(es[1..], x, fail); }
  }

  lemma SignedTagged(v: int)
    requires IsSmall(v)
    ensures SignedVal(Tagged(v)) == v && Tagged(v) % 16 == 15 && Tagged(v) < W
  {
    if v < 0 { assert Tagged(v) == 16 * v + 15 + W; } else { assert Tagged(v) == 16 * v + 15; }
  }

  // Different keys match different values.
  lemma OneMatch(k: Key, l: Key, x: Value)
    requires ValidKey(k) && ValidKey(l) && Matches(k, x) && Matches(l, x)
    ensures k == l
  {
    if k.IntKey? { SignedTagged(k.v); }
    if l.IntKey? { SignedTagged(l.v); }
  }

  /** In a list of distinct keys the order does not matter. */
  lemma LookupIs(es: seq<Entry>, x: Value, fail: nat, i: nat)
    requires ValidEntries(es) && Distinct(es) && i < |es| && Matches(es[i].key, x)
    ensures Lookup(es, x, fail) == es[i].target
  {
    forall j | 0 <= j < i ensures !Matches(es[j].key, x) {
      if Matches(es[j].key, x) { OneMatch(es[i].key, es[j].key, x); }
    }
    LookupHit(es, x, fail, i);
  }

  // ----- jump tables -----

  predicate AllInts(es: seq<Entry>) {
    forall i :: 0 <= i < |es| ==> es[i].key.IntKey?
  }

  // The range of the keys, compared as unsigned words.
  method KeyRange(es: seq<Entry>) returns (min: nat, max: nat)
    requires |es| > 0 && AllInts(es)
    ensures forall i :: 0 <= i < |es| ==> min <= U(es[i].key.v) <= max
    ensures exists i :: 0 <= i < |es| && U(es[i].key.v) == min
    ensures exists i :: 0 <= i < |es| && U(es[i].key.v) == max
  {
    min, max := U(es[0].key.v), U(es[0].key.v);
    ghost var lo, hi := 0, 0;
    for i := 1 to |es|
      invariant 0 <= lo < i && 0 <= hi < i && U(es[lo].key.v) == min && U(es[hi].key.v) == max
      invariant forall j :: 0 <= j < i ==> min <= U(es[j].key.v) <= max
    {
      var v := U(es[i].key.v);
      if v < min { min, lo := v, i; } else if max < v { max, hi := v, i; }
    }
  }

  /** use_jump_tab: whether a jump table of at most two words per key would do. */
  method UseJumpTab(es: seq<Entry>) returns (ok: bool)
    requires ValidEntries(es)
    ensures ok <==> |es| > 0 && AllInts(es)
                    && forall i, j :: 0 <= i < |es| && 0 <= j < |es| ==> U(es[j].key.v) - U(es[i].key.v) <= 2 * |es|
  {
    if |es| == 0 { return false; }
    for i := 0 to |es|
      invariant forall j :: 0 <= j < i ==> es[j].key.IntKey?
    {
      if !es[i].key.IntKey? { return false; }
    }
    var min, max := KeyRange(es);
    ok := max - min <= 2 * |es|;
  }

  // i_jump_on_val and i_jump_on_val_zero: index the table with the untagged value.
  function JumpOnVal(x: Value, min: nat, table: seq<nat>, fail: nat): nat {
    if x.Immediate? && x.word % 16 == 15 then
      var index := U(SignedVal(x.word) - min);
      if index < |table| then table[index] else fail
    else fail
  }

  // The table after the first k entries have been stored.
  ghost predicate TableOk(es: seq<Entry>, k: nat, min: nat, table: seq<nat>, fail: nat)
    requires k <= |es| && AllInts(es)
  {
    && (forall i :: 0 <= i < k ==> min <= U(es[i].key.v) < min + |table| && table[U(es[i].key.v) - min] == es[i].target)
    && (forall c :: 0 <= c < |table| && table[c] != fail ==> Stored(es, k, min, c))
  }

  ghost predicate Stored(es: seq<Entry>, k: nat, min: nat, c: nat)
    requires k <= |es| && AllInts(es)
  {
    exists i :: 0 <= i < k && U(es[i].key.v) == min + c
  }

  lemma SameWord(v: int, u: int)
    requires IsSmall(v) && IsSmall(u) && U(v) == U(u)
    ensures v == u
  {
  }

  lemma StoreEntry(es: seq<Entry>, k: nat, min: nat, table: seq<nat>, table': seq<nat>, fail: nat)
    requires k < |es| && AllInts(es) && ValidEntries(es) && Distinct(es)
    requires TableOk(es, k, min, table, fail) && min <= U(es[k].key.v) < min + |table|
    requires table' == table[U(es[k].key.v) - min := es[k].target]
    ensures TableOk(es, k + 1, min, table', fail)
  {
    hide U;
    var at := U(es[k].key.v) - min;
    forall i | 0 <= i < k ensures U(es[i].key.v) - min != at {
      if U(es[i].key.v) == U(es[k].key.v) { SameWord(es[i].key.v, es[k].key.v); }
    }
    forall c | 0 <= c < |table'| && table'[c] != fail ensures Stored(es, k + 1, min, c) {
      if c != at {
        assert Stored(es, k, min, c);
        var i :| 0 <= i < k && U(es[i].key.v) == min + c;
      }
    }
  }

  /** gen_jump_tab. */
  method GenJumpTab(es: seq<Entry>, fail: nat) returns (min: nat, table: seq<nat>)
    requires |es| > 0 && AllInts(es) && ValidEntries(es) && Distinct(es)
    ensures |table| > 0 && TableOk(es, |es|, min, table, fail)
  {
    hide U, TableOk;
    var max;
    min, max := KeyRange(es);
    var tab := new nat[max - min + 1](_ => fail);
    Empty(es, min, tab[..], fail);
    for k := 0 to |es|
      invariant TableOk(es, k, min, tab[..], fail)
    {
      ghost var was := tab[..];
      tab[U(es[k].key.v) - min] := es[k].target;
      StoreEntry(es, k, min, was, tab[..], fail);
    }
    table := tab[..];
  }

  lemma Empty(es: seq<Entry>, min: nat, table: seq<nat>, fail: nat)
    requires AllInts(es) && forall c :: 0 <= c < |table| ==> table[c] == fail
    ensures TableOk(es, 0, min, table, fail)
  {
  }

  lemma IndexOf(v: int, min: nat, u: int, n: nat)
    requires IsSmall(v) && IsSmall(u) && min <= U(u) < min + n
    ensures U(v) == U(u) ==> U(v - min) == U(u) - min
    ensures U(v - min) < n && U(v - min) == U(u) - min ==> v == u
  {
  }

  lemma SmallWord(w: nat)
    requires w < W && w % 16 == 15
    ensures IsSmall(SignedVal(w)) && Tagged(SignedVal(w)) == w
  {
  }

  lemma JumpHit(es: seq<Entry>, min: nat, table: seq<nat>, fail: nat, x: Value, i: nat)
    requires AllInts(es) && ValidEntries(es) && TableOk(es, |es|, min, table, fail)
    requires i < |es| && Matches(es[i].key, x)
    ensures JumpOnVal(x, min, table, fail) == es[i].target
  {
    hide U, SignedVal, Tagged;
    SignedTagged(es[i].key.v);
    IndexOf(es[i].key.v, min, es[i].key.v, |table|);
  }

  // A stored entry that the value selects is one that it matches.
  lemma StoredMatches(es: seq<Entry>, min: nat, n: nat, x: Value) returns (i: nat)
    requires AllInts(es) && ValidEntries(es) && ValidValue(x) && x.Immediate? && x.word % 16 == 15
    requires U(SignedVal(x.word) - min) < n && Stored(es, |es|, min, U(SignedVal(x.word) - min))
    ensures i < |es| && Matches(es[i].key, x)
  {
    hide U, SignedVal, Tagged;
    var v := SignedVal(x.word);
    i :| 0 <= i < |es| && U(es[i].key.v) == min + U(v - min);
    SmallWord(x.word);
    IndexOf(v, min, es[i].key.v, n);
  }

  lemma JumpMiss(es: seq<Entry>, min: nat, table: seq<nat>, fail: nat, x: Value)
    requires AllInts(es) && ValidEntries(es) && ValidValue(x) && TableOk(es, |es|, min, table, fail)
    requires forall i :: 0 <= i < |es| ==> !Matches(es[i].key, x)
    ensures JumpOnVal(x, min, table, fail) == fail
  {
    hide U, SignedVal, Tagged, Matches, Stored;
    if x.Immediate? && x.word % 16 == 15 {
      var c := U(SignedVal(x.word) - min);
      if c < |table| && table[c] != fail {
        var i := StoredMatches(es, min, |table|, x);
      }
    }
  }

  /** The jump table finds what the association list says. */
  lemma JumpIsLookup(es: seq<Entry>, min: nat, table: seq<nat>, fail: nat, x: Value)
    requires AllInts(es) && ValidEntries(es) && Distinct(es) && ValidValue(x)
    requires TableOk(es, |es|, min, table, fail)
    ensures JumpOnVal(x, min, table, fail) == Lookup(es, x, fail)
  {
    hide JumpOnVal, Lookup, TableOk;
    if i :| 0 <= i < |es| && Matches(es[i].key, x) {
      LookupIs(es, x, fail, i);
      JumpHit(es, min, table, fail, x, i);
    } else {
      LookupMiss(es, x, fail);
      JumpMiss(es, min, table, fail, x);
    }
  }

  // ----- sorted tables -----

  // An operand pair on its way into the code: what qsort compares, the words
  // the key takes in the code, and the label.
  datatype Row = Row(rank: int, words: seq<nat>, target: nat)

  ghost predicate Ascending(rows: seq<Row>) {
    forall i, j :: 0 <= i < j < |rows| ==> rows[i].rank <= rows[j].rank
  }

  // The first place not below r.
  function Position(rows: seq<Row>, r: Row): (p: nat)
    ensures p <= |rows| && forall i :: 0 <= i < p ==> rows[i].rank < r.rank
    ensures p < |rows| ==> rows[p].rank >= r.rank
  {
    if rows == [] || r.rank <= rows[0].rank then 0 else 1 + Position(rows[1..], r)
  }

  function Insert(rows: seq<Row>, r: Row): (out: seq<Row>) {
    var p := Position(rows, r);
    rows[..p] + [r] + rows[p..]
  }

  lemma InsertSorts(rows: seq<Row>, r: Row)
    requires Ascending(rows)
    ensures Ascending(Insert(rows, r))
  {
    var p := Position(rows, r);
    var out := Insert(rows, r);
    forall i, j | 0 <= i < j < |out| ensures out[i].rank <= out[j].rank {
      var a, b := if i < p then i else i - 1, if j < p then j else j - 1;
      assert i != p ==> out[i] == rows[a];
      assert j != p ==> out[j] == rows[b];
    }
  }

  lemma InsertKeeps(rows: seq<Row>, r: Row)
    ensures multiset(Insert(rows, r)) == multiset(rows) + multiset{r}
  {
    var p := Position(rows, r);
    assert rows == rows[..p] + rows[p..];
  }

  /** qsort: the same rows in ascending order. */
  function Qsort(rows: seq<Row>): (out: seq<Row>)
    ensures |out| == |rows|
  {
    if rows == [] then [] else Insert(Qsort(rows[1..]), rows[0])
  }

  lemma {:induction false} QsortSorts(rows: seq<Row>)
    ensures Ascending(Qsort(rows)) && multiset(Qsort(rows)) == multiset(rows)
  {
    if rows != [] {
      QsortSorts(rows[1..]);
      InsertSorts(Qsort(rows[1..]), rows[0]);
      InsertKeeps(Qsort(rows[1..]), rows[0]);
      assert rows == [rows[0]] + rows[1..];
    }
  }

  lemma QsortRows(rows: seq<Row>, r: Row)
    ensures r in Qsort(rows) <==> r in rows
  {
    QsortSorts(rows);
    assert r in multiset(Qsort(rows)) <==> r in multiset(rows);
  }

  ghost predicate Strict(rows: seq<Row>) {
    forall i, j :: 0 <= i < j < |rows| ==> rows[i].rank < rows[j].rank
  }

  // Rows of different rank come out in strictly ascending order.
  lemma {:induction false} QsortStrict(rows: seq<Row>)
    requires forall i, j :: 0 <= i < j < |rows| ==> rows[i].rank != rows[j].rank
    ensures Strict(Qsort(rows))
  {
    if rows != [] {
      var rest := Qsort(rows[1..]);
      QsortStrict(rows[1..]);
      forall q | q in rest ensures q.rank != rows[0].rank {
        QsortRows(rows[1..], q);
      }
      InsertStrict(rest, rows[0]);
    }
  }

  lemma InsertStrict(rows: seq<Row>, r: Row)
    requires Strict(rows) && forall q :: q in rows ==> q.rank != r.rank
    ensures Strict(Insert(rows, r))
  {
    var p := Position(rows, r);
    var out := Insert(rows, r);
    forall i, j | 0 <= i < j < |out| ensures out[i].rank < out[j].rank {
      var a, b := if i < p then i else i - 1, if j < p then j else j - 1;
      assert i != p ==> out[i] == rows[a];
      assert j != p ==> out[j] == rows[b];
      if i == p { assert rows[p] in rows && rows[p].rank > r.rank; }
    }
  }

  // The operand pair of an entry in gen_select_val: sorted by the operand value,
  // emitted as a term.
  function RowOf(e: Entry): Row {
    match e.key
    case IntKey(v) => Row(U(v), [Tagged(v)], e.target)
    case AtomKey(w) => Row(w, [w], e.target)
    case BigKey(h, ds) => Row(0 - h, [h] + ds, e.target)
  }

  function RowsOf(es: seq<Entry>): (rows: seq<Row>)
    ensures |rows| == |es| && forall i :: 0 <= i < |es| ==> rows[i] == RowOf(es[i])
  {
    seq(|es|, i requires 0 <= i < |es| => RowOf(es[i]))
  }

  // The words of a sorted table of single-word keys.
  function Emit(rows: seq<Row>): seq<nat> {
    if rows == [] then [] else rows[0].words + [rows[0].target] + Emit(rows[1..])
  }

  // One word per key, in strictly ascending order.
  ghost predicate Increasing(rows: seq<Row>) {
    && (forall i :: 0 <= i < |rows| ==> |rows[i].words| == 1)
    && (forall i, j :: 0 <= i < j < |rows| ==> rows[i].words[0] < rows[j].words[0])
  }

  lemma {:induction false} EmitAt(rows: seq<Row>, i: nat)
    requires i < |rows| && forall j :: 0 <= j < |rows| ==> |rows[j].words| == 1
    ensures |Emit(rows)| == 2 * |rows| && Emit(rows)[2 * i] == rows[i].words[0] && Emit(rows)[2 * i + 1] == rows[i].target
  {
    EmitLength(rows);
    var head := rows[0].words + [rows[0].target];
    if i > 0 {
      EmitAt(rows[1..], i - 1);
      assert Emit(rows) == head + Emit(rows[1..]);
      assert Emit(rows)[2 * i] == Emit(rows[1..])[2 * (i - 1)];
      assert Emit(rows)[2 * i + 1] == Emit(rows[1..])[2 * (i - 1) + 1];
    }
  }

  lemma {:induction false} EmitLength(rows: seq<Row>)
    requires forall j :: 0 <= j < |rows| ==> |rows[j].words| == 1
    ensures |Emit(rows)| == 2 * |rows|
  {
    if rows != [] { EmitLength(rows[1..]); }
  }

  // What a table of rows selects for the words of a key.
  ghost predicate Selects(rows: seq<Row>, ws: seq<nat>, fail: nat, to: nat) {
    || (exists i :: 0 <= i < |rows| && rows[i].words == ws && to == rows[i].target)
    || ((forall i :: 0 <= i < |rows| ==> rows[i].words != ws) && to == fail)
  }

  // The pairs of words in the code are those of the rows.
  ghost predicate InCode(code: seq<nat>, base: nat, rows: seq<Row>) {
    && base + 2 * |rows| <= |code|
    && forall i :: 0 <= i < |rows| ==>
         rows[i].words == [code[base + 2 * i]] && rows[i].target == code[base + 2 * i + 1]
  }

  /** do_binary_search over the n pairs of words that start at base. */
  method BinarySearch(code: array<nat>, base: nat, n: nat, key: nat, fail: nat, ghost rows: seq<Row>) returns (to: nat)
    requires |rows| == n && InCode(code[..], base, rows) && Increasing(rows)
    ensures Selects(rows, [key], fail, to)
  {
    var low, high := 0, n;
    while high - low > 0
      invariant 0 <= low <= high <= n
      invariant forall i :: 0 <= i < low ==> rows[i].words[0] < key
      invariant forall i :: high <= i < n ==> key < rows[i].words[0]
      decreases high - low
    {
      // Half the distance in bytes, rounded down to whole pairs of 16 bytes.
      var boffset := (high - low) * 16 / 2 / 16;
      var mid := low + boffset;
      var val := code[base + 2 * mid];
      assert rows[mid].words == [val];
      if key < val {
        high := mid;
      } else if key > val {
        low := mid + 1;
      } else {
        return code[base + 2 * mid + 1];
      }
    }
    forall i | 0 <= i < n ensures rows[i].words != [key] {
      assert rows[i].words[0] != key;
    }
    to := fail;
  }

  // All keys are of one type that fits a word.
  predicate Fixed(es: seq<Entry>) {
    AllInts(es) || forall i :: 0 <= i < |es| ==> es[i].key.AtomKey?
  }

  // The order of untagged integers, compared as words, is the order of the terms.
  lemma TagOrder(v: int, u: int)
    requires IsSmall(v) && IsSmall(u) && U(v) < U(u)
    ensures Tagged(v) < Tagged(u)
  {
    if u < 0 { assert Tagged(u) == 16 * u + 15 + W; } else { assert Tagged(u) == 16 * u + 15; }
    if v < 0 { assert Tagged(v) == 16 * v + 15 + W; } else { assert Tagged(v) == 16 * v + 15; }
  }

  lemma RowOrder(d: Entry, e: Entry)
    requires ValidKey(d.key) && ValidKey(e.key) && d.key != e.key && Fixed([d, e])
    requires RowOf(d).rank <= RowOf(e).rank
    ensures RowOf(d).words[0] < RowOf(e).words[0]
  {
    hide U, Tagged;
    assert [d, e][0] == d && [d, e][1] == e;
    if d.key.IntKey? {
      if U(d.key.v) == U(e.key.v) { SameWord(d.key.v, e.key.v); }
      TagOrder(d.key.v, e.key.v);
    }
  }

  lemma RowEntry(es: seq<Entry>, r: Row) returns (a: nat)
    requires r in Qsort(RowsOf(es))
    ensures a < |es| && r == RowOf(es[a])
  {
    QsortRows(RowsOf(es), r);
    a :| 0 <= a < |es| && RowsOf(es)[a] == r;
  }

  lemma EntryRow(es: seq<Entry>, a: nat)
    requires a < |es|
    ensures RowOf(es[a]) in Qsort(RowsOf(es))
  {
    assert RowsOf(es)[a] == RowOf(es[a]);
    QsortRows(RowsOf(es), RowOf(es[a]));
  }

  lemma RankUnique(es: seq<Entry>, i: nat, j: nat)
    requires ValidEntries(es) && Distinct(es) && Fixed(es) && i < j < |es|
    ensures RowOf(es[i]).rank != RowOf(es[j]).rank
  {
    hide U, Tagged;
    if es[i].key.IntKey? && U(es[i].key.v) == U(es[j].key.v) { SameWord(es[i].key.v, es[j].key.v); }
  }

  lemma TableIncreasing(es: seq<Entry>)
    requires ValidEntries(es) && Distinct(es) && Fixed(es)
    ensures Increasing(Qsort(RowsOf(es)))
  {
    hide RowOf, Qsort;
    var rows := Qsort(RowsOf(es));
    forall i, j | 0 <= i < j < |es| ensures RowsOf(es)[i].rank != RowsOf(es)[j].rank { RankUnique(es, i, j); }
    QsortStrict(RowsOf(es));
    forall i | 0 <= i < |rows| ensures |rows[i].words| == 1 {
      var a := RowEntry(es, rows[i]);
      OneWord(es[a]);
    }
    forall i, j | 0 <= i < j < |rows| ensures rows[i].words[0] < rows[j].words[0] {
      var a := RowEntry(es, rows[i]);
      var b := RowEntry(es, rows[j]);
      assert es[a].key != es[b].key by { SameRank(es[a], es[b]); }
      RowOrder(es[a], es[b]);
    }
  }

  lemma SameRank(d: Entry, e: Entry)
    ensures d.key == e.key ==> RowOf(d).rank == RowOf(e).rank
  {
  }

  lemma OneWord(e: Entry)
    requires !e.key.BigKey?
    ensures |RowOf(e).words| == 1
  {
  }

  // A row is selected by the words of a value exactly if its key matches.
  lemma RowMatches(e: Entry, x: Value)
    requires ValidKey(e.key) && ValidValue(x)
    ensures !e.key.BigKey? ==> (RowOf(e).words == [x.word] <==> Matches(e.key, x))
    ensures x.Bignum? && e.key.BigKey? ==> (RowOf(e).words == [x.hdr] + x.digits <==> Matches(e.key, x))
  {
    if e.key.IntKey? { SignedTagged(e.key.v); }
    if e.key.BigKey? && x.Bignum? && RowOf(e).words == [x.hdr] + x.digits {
      assert RowOf(e).words[1..] == e.key.digits && ([x.hdr] + x.digits)[1..] == x.digits;
    }
  }

  lemma SelectedIsLookup(es: seq<Entry>, x: Value, ws: seq<nat>, fail: nat, to: nat)
    requires ValidEntries(es) && Distinct(es) && Selects(Qsort(RowsOf(es)), ws, fail, to)
    requires forall i :: 0 <= i < |es| ==> (RowOf(es[i]).words == ws <==> Matches(es[i].key, x))
    ensures to == Lookup(es, x, fail)
  {
    hide RowOf, Qsort, Matches;
    var rows := Qsort(RowsOf(es));
    if i :| 0 <= i < |rows| && rows[i].words == ws && to == rows[i].target {
      var a := RowEntry(es, rows[i]);
      RowTarget(es[a]);
      LookupIs(es, x, fail, a);
    } else {
      forall a | 0 <= a < |es| ensures !Matches(es[a].key, x) {
        EntryRow(es, a);
      }
      LookupMiss(es, x, fail);
    }
  }

  lemma RowTarget(e: Entry)
    ensures RowOf(e).target == e.target
  {
  }

  /** gen_select_val: the pairs of words that go into the code. */
  function GenSelectVal(es: seq<Entry>): seq<nat> {
    Emit(Qsort(RowsOf(es)))
  }

  // The words of the code from base on.
  ghost predicate CodeHas(code: seq<nat>, base: nat, words: seq<nat>) {
    base + |words| <= |code| && code[base..base + |words|] == words
  }

  lemma CodeRows(code: seq<nat>, base: nat, rows: seq<Row>)
    requires CodeHas(code, base, Emit(rows)) && forall j :: 0 <= j < |rows| ==> |rows[j].words| == 1
    ensures InCode(code, base, rows)
  {
    EmitLength(rows);
    forall i | 0 <= i < |rows|
      ensures rows[i].words == [code[base + 2 * i]] && rows[i].target == code[base + 2 * i + 1]
    {
      EmitAt(rows, i);
      assert code[base..base + |Emit(rows)|][2 * i] == code[base + 2 * i];
      assert code[base..base + |Emit(rows)|][2 * i + 1] == code[base + 2 * i + 1];
    }
  }

  /** i_select_val over the table gen_select_val made. */
  method SelectVal(code: array<nat>, base: nat, ghost es: seq<Entry>, n: nat, x: Value, fail: nat) returns (to: nat)
    requires ValidEntries(es) && Distinct(es) && Fixed(es) && ValidValue(x)
    requires n == |es| && CodeHas(code[..], base, GenSelectVal(es))
    ensures to == Lookup(es, x, fail)
  {
    hide RowOf, Qsort, CodeHas, InCode, Increasing, Selects, Lookup, Matches;
    ghost var rows := Qsort(RowsOf(es));
    TableIncreasing(es);
    assert Increasing(rows) ==> forall j :: 0 <= j < |rows| ==> |rows[j].words| == 1 by { OneWordEach(rows); }
    CodeRows(code[..], base, rows);
    to := BinarySearch(code, base, n, x.word, fail, rows);
    forall i | 0 <= i < |es| ensures RowOf(es[i]).words == [x.word] <==> Matches(es[i].key, x) {
      RowMatches(es[i], x);
    }
    SelectedIsLookup(es, x, [x.word], fail, to);
  }

  lemma OneWordEach(rows: seq<Row>)
    ensures Increasing(rows) ==> forall j :: 0 <= j < |rows| ==> |rows[j].words| == 1
  {
  }

  // ----- tuple arities -----

  datatype ArityEntry = ArityEntry(arity: nat, target: nat)

  function LookupArity(es: seq<ArityEntry>, x: Value, fail: nat): nat {
    if es == [] then fail
    else if x.TupleVal? && x.arity == es[0].arity then es[0].target
    else LookupArity(es[1..], x, fail)
  }

  // gen_select_tuple_arity tags the arities as header words before it sorts them.
  function ArityRows(es: seq<ArityEntry>): (rows: seq<Row>)
    ensures |rows| == |es|
    ensures forall i :: 0 <= i < |es| ==> rows[i] == Row(64 * es[i].arity, [64 * es[i].arity], es[i].target)
  {
    seq(|es|, i requires 0 <= i < |es| => Row(64 * es[i].arity, [64 * es[i].arity], es[i].target))
  }

  predicate DistinctArities(es: seq<ArityEntry>) {
    forall i, j :: 0 <= i < j < |es| ==> es[i].arity != es[j].arity
  }

  lemma ArityIncreasing(es: seq<ArityEntry>)
    requires DistinctArities(es)
    ensures Increasing(Qsort(ArityRows(es)))
  {
    hide Qsort;
    var rows := Qsort(ArityRows(es));
    QsortStrict(ArityRows(es));
    forall i | 0 <= i < |rows| ensures rows[i].words == [rows[i].rank] {
      QsortRows(ArityRows(es), rows[i]);
    }
  }

  lemma {:induction false} LookupArityIs(es: seq<ArityEntry>, x: Value, fail: nat)
    requires DistinctArities(es) && x.TupleVal?
    ensures forall i :: 0 <= i < |es| && es[i].arity == x.arity ==> LookupArity(es, x, fail) == es[i].target
    ensures (forall i :: 0 <= i < |es| ==> es[i].arity != x.arity) ==> LookupArity(es, x, fail) == fail
  {
    if es != [] {
      LookupArityIs(es[1..], x, fail);
      forall i | 0 <= i < |es| && es[i].arity == x.arity ensures LookupArity(es, x, fail) == es[i].target {
        if i > 0 { assert es[1..][i - 1] == es[i]; }
      }
    }
  }

  lemma {:induction false} NotATuple(es: seq<ArityEntry>, x: Value, fail: nat)
    requires !x.TupleVal?
    ensures LookupArity(es, x, fail) == fail
  {
    if es != [] { NotATuple(es[1..], x, fail); }
  }

  lemma SelectedArity(es: seq<ArityEntry>, x: Value, fail: nat, to: nat)
    requires DistinctArities(es) && x.TupleVal? && Selects(Qsort(ArityRows(es)), [64 * x.arity], fail, to)
    ensures to == LookupArity(es, x, fail)
  {
    hide Qsort, LookupArity;
    LookupArityIs(es, x, fail);
    var rows := Qsort(ArityRows(es));
    if i :| 0 <= i < |rows| && rows[i].words == [64 * x.arity] && to == rows[i].target {
      QsortRows(ArityRows(es), rows[i]);
      var a :| 0 <= a < |es| && ArityRows(es)[a] == rows[i];
      assert rows[i].words[0] == 64 * es[a].arity;
    } else {
      forall a | 0 <= a < |es| ensures es[a].arity != x.arity {
        QsortRows(ArityRows(es), ArityRows(es)[a]);
      }
    }
  }

  /** i_select_tuple_arity over the table gen_select_tuple_arity made. */
  method SelectTupleArity(code: array<nat>, base: nat, ghost es: seq<ArityEntry>, n: nat, x: Value, fail: nat)
    returns (to: nat)
    requires DistinctArities(es) && n == |es| && CodeHas(code[..], base, Emit(Qsort(ArityRows(es))))
    ensures to == LookupArity(es, x, fail)
  {
    hide Qsort, CodeHas, InCode, Increasing, Selects, LookupArity;
    if x.TupleVal? {
      ghost var rows := Qsort(ArityRows(es));
      ArityIncreasing(es);
      OneWordEach(rows);
      CodeRows(code[..], base, rows);
      to := BinarySearch(code, base, n, 64 * x.arity, fail, rows);
      SelectedArity(es, x, fail, to);
    } else {
      NotATuple(es, x, fail);
      to := fail;
    }
  }

  // ----- bignums -----

  predicate AllBig(es: seq<Entry>) {
    forall i :: 0 <= i < |es| ==> es[i].key.BigKey?
  }

  /** gen_select_big: headers in descending order, a zero word last. */
  function GenSelectBig(es: seq<Entry>): seq<nat> {
    Emit(Qsort(RowsOf(es))) + [0]
  }

  // Rows of bignums: the header tells how many digits follow.
  ghost predicate BigRows(rows: seq<Row>) {
    && Ascending(rows)
    && forall i :: 0 <= i < |rows| ==> |rows[i].words| > 1 && rows[i].rank + rows[i].words[0] == 0
                                       && rows[i].words[0] / 64 == |rows[i].words| - 1
  }

  lemma BigTable(es: seq<Entry>)
    requires ValidEntries(es) && AllBig(es)
    ensures BigRows(Qsort(RowsOf(es)))
  {
    hide Qsort;
    var rows := Qsort(RowsOf(es));
    QsortSorts(RowsOf(es));
    forall i | 0 <= i < |rows|
      ensures |rows[i].words| > 1 && rows[i].rank + rows[i].words[0] == 0
      ensures rows[i].words[0] / 64 == |rows[i].words| - 1
    {
      var a := RowEntry(es, rows[i]);
    }
  }

  lemma CodeSplit(code: seq<nat>, p: nat, a: seq<nat>, b: seq<nat>)
    requires CodeHas(code, p, a + b)
    ensures CodeHas(code, p, a) && CodeHas(code, p + |a|, b)
  {
    var all := code[p..p + |a + b|];
    assert code[p..p + |a|] == all[..|a|] == a;
    assert code[p + |a|..p + |a| + |b|] == all[|a|..] == b;
  }

  // The code at p holds the first row and then the others.
  lemma AtRow(code: seq<nat>, p: nat, rows: seq<Row>)
    requires rows != [] && BigRows(rows) && CodeHas(code, p, Emit(rows) + [0])
    ensures CodeHas(code, p, rows[0].words) && CodeHas(code, p + |rows[0].words|, [rows[0].target])
    ensures CodeHas(code, p + |rows[0].words| + 1, Emit(rows[1..]) + [0])
  {
    hide CodeHas, BigRows;
    var ws, to, rest := rows[0].words, [rows[0].target], Emit(rows[1..]) + [0];
    assert Emit(rows) + [0] == ws + (to + rest);
    CodeSplit(code, p, ws, to + rest);
    CodeSplit(code, p + |ws|, to, rest);
  }

  // Comparing the header and the digits in place is comparing the words.
  lemma SameWords(code: seq<nat>, p: nat, ws: seq<nat>, hdr: nat, digits: seq<nat>)
    requires ws != [] && CodeHas(code, p, ws) && ws[0] / 64 == |ws| - 1 && hdr / 64 == |digits|
    ensures p < |code| && code[p] == ws[0]
    ensures code[p] == hdr ==> p + 1 + |digits| <= |code|
    ensures code[p] == hdr ==> (code[p + 1..p + 1 + |digits|] == digits <==> ws == [hdr] + digits)
  {
    var here := code[p..p + |ws|];
    assert here[0] == code[p];
    if code[p] == hdr {
      assert code[p + 1..p + |ws|] == here[1..] == ws[1..];
      assert ws == [ws[0]] + ws[1..];
      assert ([hdr] + digits)[1..] == digits;
    }
  }

  lemma AtEnd(code: seq<nat>, p: nat)
    requires CodeHas(code, p, Emit([]) + [0])
    ensures p < |code| && code[p] == 0
  {
    assert code[p..p + 1][0] == code[p];
  }

  lemma Tail(rows: seq<Row>, k: nat)
    requires k < |rows| && BigRows(rows)
    ensures rows[k..] != [] && rows[k..][0] == rows[k] && rows[k..][1..] == rows[k + 1..] && BigRows(rows[k..])
  {
  }

  // One step of either loop of i_select_big.
  lemma BigStep(code: seq<nat>, p: nat, rows: seq<Row>, k: nat, hdr: nat, digits: seq<nat>)
    requires BigRows(rows) && k <= |rows| && CodeHas(code, p, Emit(rows[k..]) + [0])
    requires BigHeader(hdr, digits)
    ensures p < |code| && (k == |rows| ==> code[p] == 0)
    ensures k < |rows| ==>
      && code[p] == rows[k].words[0] && code[p] / 64 == |rows[k].words| - 1
      && CodeHas(code, p + code[p] / 64 + 2, Emit(rows[k + 1..]) + [0])
      && p + code[p] / 64 + 1 < |code| && code[p + code[p] / 64 + 1] == rows[k].target
      && (code[p] == hdr ==> p + 1 + |digits| <= |code|)
      && (code[p] == hdr ==> (code[p + 1..p + 1 + |digits|] == digits <==> rows[k].words == [hdr] + digits))
  {
    hide Emit;
    if k == |rows| {
      assert rows[k..] == [];
      AtEnd(code, p);
    } else {
      Tail(rows, k);
      AtRow(code, p, rows[k..]);
      SameWords(code, p, rows[k].words, hdr, digits);
      assert code[p + |rows[k].words|..p + |rows[k].words| + 1][0] == code[p + |rows[k].words|];
    }
  }

  /** The two loops of i_select_big: skip larger headers, then compare digits
    * as long as the header is the same. */
  method SearchBig(code: array<nat>, base: nat, ghost rows: seq<Row>, hdr: nat, digits: seq<nat>, fail: nat)
    returns (to: nat)
    requires BigRows(rows) && BigHeader(hdr, digits) && CodeHas(code[..], base, Emit(rows) + [0])
    ensures Selects(rows, [hdr] + digits, fail, to)
  {
    hide CodeHas, Emit, BigHeader;
    var p: nat := base;
    ghost var k: nat := 0;
    assert rows[0..] == rows;
    BigStep(code[..], p, rows, k, hdr, digits);
    while code[p] > hdr
      invariant k <= |rows| && p < code.Length && CodeHas(code[..], p, Emit(rows[k..]) + [0])
      invariant forall i :: 0 <= i < k ==> rows[i].words != [hdr] + digits
      decreases |rows| - k
    {
      BigStep(code[..], p, rows, k, hdr, digits);
      p, k := p + code[p] / 64 + 2, k + 1;
      BigStep(code[..], p, rows, k, hdr, digits);
    }
    while code[p] == hdr
      invariant k <= |rows| && p < code.Length && CodeHas(code[..], p, Emit(rows[k..]) + [0]) && code[p] <= hdr
      invariant forall i :: 0 <= i < k ==> rows[i].words != [hdr] + digits
      decreases |rows| - k
    {
      BigStep(code[..], p, rows, k, hdr, digits);
      PositiveHeader(hdr, digits);
      if code[p + 1..p + 1 + |digits|] == digits {
        return code[p + |digits| + 1];
      }
      Later(rows, k);
      p, k := p + code[p] / 64 + 2, k + 1;
      BigStep(code[..], p, rows, k, hdr, digits);
    }
    BigStep(code[..], p, rows, k, hdr, digits);
    forall i | 0 <= i < |rows| ensures rows[i].words != [hdr] + digits {
      if i >= k { assert rows[i].words[0] < hdr; }
    }
    to := fail;
  }

  lemma PositiveHeader(hdr: nat, digits: seq<nat>)
    requires BigHeader(hdr, digits)
    ensures hdr > 0 && hdr / 64 == |digits|
  {
  }

  // Headers never grow along the rows.
  lemma Later(rows: seq<Row>, k: nat)
    requires BigRows(rows) && k < |rows|
    ensures forall i :: k <= i < |rows| ==> rows[i].words[0] <= rows[k].words[0]
  {
  }

  /** i_select_big over the table gen_select_big made. */
  method SelectBig(code: array<nat>, base: nat, ghost es: seq<Entry>, x: Value, fail: nat) returns (to: nat)
    requires ValidEntries(es) && Distinct(es) && AllBig(es) && ValidValue(x)
    requires CodeHas(code[..], base, GenSelectBig(es))
    ensures to == Lookup(es, x, fail)
  {
    hide Qsort, CodeHas, Selects, Lookup, RowOf, Matches;
    if x.Bignum? {
      BigTable(es);
      to := SearchBig(code, base, Qsort(RowsOf(es)), x.hdr, x.digits, fail);
      forall i | 0 <= i < |es| ensures RowOf(es[i]).words == [x.hdr] + x.digits <==> Matches(es[i].key, x) {
        RowMatches(es[i], x);
      }
      SelectedIsLookup(es, x, [x.hdr] + x.digits, fail, to);
    } else {
      forall i | 0 <= i < |es| ensures !Matches(es[i].key, x) { BigOnly(es[i].key, x); }
      LookupMiss(es, x, fail);
      to := fail;
    }
  }

  lemma BigOnly(k: Key, x: Value)
    requires k.BigKey? && !x.Bignum?
    ensures !Matches(k, x)
  {
  }

  // ----- choosing a form -----

  // The operand type the loader sees.
  function TypeOf(k: Key): nat {
    match k
    case IntKey(_) => 0
    case AtomKey(_) => 1
    case BigKey(_, _) => 2
  }

  // What the loader puts into the code for a select; `mid` is the new label between two selects.
  datatype Form =
    | Jump(min: nat, table: seq<nat>)
    | Sorted(words: seq<nat>, n: nat)
    | Bigs(bigWords: seq<nat>)
    | Chain(mid: nat, first: Form, second: Form)
    | Unsupported

  // The entries of one type, and the others.
  function OfType(es: seq<Entry>, ty: nat, same: bool): (r: seq<Entry>)
    ensures |r| <= |es|
    ensures forall e :: e in r <==> e in es && ((TypeOf(e.key) == ty) == same)
  {
    if es == [] then []
    else if (TypeOf(es[0].key) == ty) == same then [es[0]] + OfType(es[1..], ty, same)
    else OfType(es[1..], ty, same)
  }

  /** gen_split_values: the entries of the type of the first one, and the rest. */
  method SplitValues(es: seq<Entry>) returns (first: seq<Entry>, second: seq<Entry>)
    requires es != []
    ensures first == OfType(es, TypeOf(es[0].key), true) && second == OfType(es, TypeOf(es[0].key), false)
  {
    first, second := [], [];
    var ty := TypeOf(es[0].key);
    for i := 0 to |es|
      invariant first == OfType(es[..i], ty, true) && second == OfType(es[..i], ty, false)
    {
      assert es[..i + 1] == es[..i] + [es[i]];
      OfTypeSnoc(es[..i], es[i], ty, true);
      OfTypeSnoc(es[..i], es[i], ty, false);
      if TypeOf(es[i].key) == ty { first := first + [es[i]]; } else { second := second + [es[i]]; }
    }
    assert es[..|es|] == es;
  }

  lemma {:induction false} OfTypeSnoc(es: seq<Entry>, e: Entry, ty: nat, same: bool)
    ensures OfType(es + [e], ty, same)
            == if (TypeOf(e.key) == ty) == same then OfType(es, ty, same) + [e] else OfType(es, ty, same)
  {
    if es == [] {
      assert es + [e] == [e] && [e][1..] == [];
    } else {
      assert (es + [e])[1..] == es[1..] + [e];
      OfTypeSnoc(es[1..], e, ty, same);
    }
  }

  // Selecting among the entries of one type first and the others on failure is selecting among all.
  lemma {:induction false} SplitLookup(es: seq<Entry>, ty: nat, x: Value, fail: nat)
    requires ValidEntries(es) && ValidValue(x) && Distinct(es)
    ensures Lookup(es, x, fail) == Lookup(OfType(es, ty, true), x, Lookup(OfType(es, ty, false), x, fail))
  {
    if es != [] {
      SplitLookup(es[1..], ty, x, fail);
      if TypeOf(es[0].key) != ty && Matches(es[0].key, x) {
        forall i | 0 <= i < |OfType(es, ty, true)| ensures !Matches(OfType(es, ty, true)[i].key, x) {
          var e := OfType(es, ty, true)[i];
          assert e in OfType(es, ty, true) && e in es;
          if Matches(e.key, x) { OneMatch(e.key, es[0].key, x); }
        }
        LookupMiss(OfType(es, ty, true), x, es[0].target);
      }
    }
  }

  lemma {:induction false} OfTypeDistinct(es: seq<Entry>, ty: nat, same: bool)
    requires Distinct(es) && ValidEntries(es)
    ensures Distinct(OfType(es, ty, same)) && ValidEntries(OfType(es, ty, same))
  {
    if es != [] {
      var rest := OfType(es[1..], ty, same);
      OfTypeDistinct(es[1..], ty, same);
      forall j | 0 <= j < |rest| ensures rest[j].key != es[0].key {
        assert rest[j] in rest && rest[j] in es[1..];
      }
    }
  }

  lemma {:induction false} OfTypeLength(es: seq<Entry>, ty: nat)
    ensures |OfType(es, ty, true)| + |OfType(es, ty, false)| == |es|
  {
    if es != [] { OfTypeLength(es[1..], ty); }
  }

  /** mixed_types. */
  method MixedTypes(es: seq<Entry>) returns (mixed: bool)
    requires es != []
    ensures mixed <==> exists i :: 0 <= i < |es| && TypeOf(es[i].key) != TypeOf(es[0].key)
  {
    for i := 0 to |es|
      invariant forall j :: 0 <= j < i ==> TypeOf(es[j].key) == TypeOf(es[0].key)
    {
      if TypeOf(es[i].key) != TypeOf(es[0].key) { return true; }
    }
    mixed := false;
  }

  // The form f is what the loader makes of the entries.
  ghost predicate Implements(f: Form, es: seq<Entry>, fail: nat)
    decreases f
  {
    match f
    case Jump(min, table) => AllInts(es) && TableOk(es, |es|, min, table, fail)
    case Sorted(words, n) => Fixed(es) && words == GenSelectVal(es) && n == |es|
    case Bigs(words) => AllBig(es) && words == GenSelectBig(es)
    case Chain(mid, first, second) =>
      && es != [] && mid != fail && (forall i :: 0 <= i < |es| ==> es[i].target != mid)
      && Implements(first, OfType(es, TypeOf(es[0].key), true), mid)
      && Implements(second, OfType(es, TypeOf(es[0].key), false), fail)
    case Unsupported => false
  }

  lemma OneType(es: seq<Entry>)
    requires es != [] && forall i :: 0 <= i < |es| ==> TypeOf(es[i].key) == TypeOf(es[0].key)
    ensures es[0].key.IntKey? ==> AllInts(es)
    ensures es[0].key.BigKey? ==> AllBig(es)
    ensures !es[0].key.BigKey? ==> Fixed(es)
  {
  }

  predicate Below(es: seq<Entry>, n: nat) {
    forall i :: 0 <= i < |es| ==> es[i].target < n
  }

  lemma OfTypeBelow(es: seq<Entry>, ty: nat, same: bool, n: nat)
    requires Below(es, n)
    ensures Below(OfType(es, ty, same), n)
  {
    var r := OfType(es, ty, same);
    forall i | 0 <= i < |r| ensures r[i].target < n {
      assert r[i] in r && r[i] in es;
    }
  }

  /** The choice the transformation rules make for a select_val instruction, in
    * their order. Labels from `next` on are new. */
  method Lower(es: seq<Entry>, fail: nat, next: nat) returns (f: Form, next': nat)
    requires ValidEntries(es) && Distinct(es) && Below(es, next) && fail < next
    ensures es != [] ==> Implements(f, es, fail)
    ensures es == [] ==> f == Unsupported
    ensures next <= next'
    decreases |es|
  {
    hide TableOk, OfType, GenSelectVal, GenSelectBig;
    next' := next;
    if es == [] { return Unsupported, next; }
    var jump := UseJumpTab(es);
    if jump {
      var min, table := GenJumpTab(es, fail);
      return Jump(min, table), next;
    }
    var mixed := MixedTypes(es);
    if mixed {
      var ty := TypeOf(es[0].key);
      var first, second := SplitValues(es);
      var mid := next;
      SplitOk(es, ty, next);
      var f1, n1 := Lower(first, mid, mid + 1);
      var f2, n2 := Lower(second, fail, n1);
      return Chain(mid, f1, f2), n2;
    }
    OneType(es);
    if !es[0].key.BigKey? {
      f := Sorted(GenSelectVal(es), |es|);
    } else {
      f := Bigs(GenSelectBig(es));
    }
  }

  // Both halves of a split are proper selects.
  lemma SplitOk(es: seq<Entry>, ty: nat, n: nat)
    requires ValidEntries(es) && Distinct(es) && Below(es, n) && es != [] && ty == TypeOf(es[0].key)
    requires exists i :: 0 <= i < |es| && TypeOf(es[i].key) != ty
    ensures forall same :: ValidEntries(OfType(es, ty, same)) && Distinct(OfType(es, ty, same))
    ensures forall same, m :: m >= n ==> Below(OfType(es, ty, same), m)
    ensures 0 < |OfType(es, ty, true)| < |es| && 0 < |OfType(es, ty, false)| < |es|
  {
    OfTypeDistinct(es, ty, true);
    OfTypeDistinct(es, ty, false);
    forall m | m >= n ensures Below(OfType(es, ty, true), m) && Below(OfType(es, ty, false), m) {
      OfTypeBelow(es, ty, true, m);
      OfTypeBelow(es, ty, false, m);
    }
    OfTypeLength(es, ty);
    assert es[0] in es && es[0] in OfType(es, ty, true);
    var i :| 0 <= i < |es| && TypeOf(es[i].key) != ty;
    assert es[i] in es && es[i] in OfType(es, ty, false);
  }

  /** Whatever form the loader chose, executing it jumps where the association list says. */
  method Execute(f: Form, ghost es: seq<Entry>, x: Value, fail: nat) returns (to: nat)
    requires ValidEntries(es) && Distinct(es) && ValidValue(x) && Implements(f, es, fail)
    ensures to == Lookup(es, x, fail)
    decreases f
  {
    hide TableOk, OfType, GenSelectVal, GenSelectBig, Lookup, ValidEntries, Distinct, ValidValue;
    match f {
      case Jump(min, table) =>
        JumpIsLookup(es, min, table, fail, x);
        to := JumpOnVal(x, min, table, fail);
      case Sorted(words, n) =>
        var code := InMemory(words);
        to := SelectVal(code, 0, es, n, x, fail);
      case Bigs(words) =>
        var code := InMemory(words);
        to := SelectBig(code, 0, es, x, fail);
      case Chain(mid, first, second) =>
        ghost var ty := TypeOf(es[0].key);
        OfTypeDistinct(es, ty, true);
        OfTypeDistinct(es, ty, false);
        SplitLookup(es, ty, x, fail);
        to := Execute(first, OfType(es, ty, true), x, mid);
        FirstHalf(es, ty, x, mid, Lookup(OfType(es, ty, false), x, fail));
        if to == mid {
          to := Execute(second, OfType(es, ty, false), x, fail);
        }
    }
  }

  // The new label is reached exactly if the first select fails.
  lemma FirstHalf(es: seq<Entry>, ty: nat, x: Value, mid: nat, fail: nat)
    requires forall i :: 0 <= i < |es| ==> es[i].target != mid
    ensures Lookup(OfType(es, ty, true), x, fail)
            == if Lookup(OfType(es, ty, true), x, mid) == mid then fail else Lookup(OfType(es, ty, true), x, mid)
  {
    var r := OfType(es, ty, true);
    forall i | 0 <= i < |r| ensures r[i].target != mid {
      assert r[i] in r && r[i] in es;
    }
    FailLabel(r, x, mid, fail);
  }

  lemma {:induction false} FailLabel(es: seq<Entry>, x: Value, mid: nat, fail: nat)
    requires forall i :: 0 <= i < |es| ==> es[i].target != mid
    ensures Lookup(es, x, fail) == if Lookup(es, x, mid) == mid then fail else Lookup(es, x, mid)
  {
    if es != [] { FailLabel(es[1..], x, mid, fail); }
  }

  // Words laid out in the code area.
  method InMemory(words: seq<nat>) returns (code: array<nat>)
    ensures fresh(code) && code[..] == words && CodeHas(code[..], 0, words)
  {
    code := new nat[|words|](i requires 0 <= i < |words| => words[i]);
    assert code[..] == words;
    assert code[..][0..0 + |words|] == words;
  }
}

/** Label references in loaded code. Until a label's address is known, the code
  * words that refer to it form a list threaded through the code itself. */
module Labels {
  import opened Sequences

  const MI_FUNCTIONS := 10

  // value 0: not defined yet; patches 0: no reference yet.
  datatype Label = Label(value: nat, patches: nat)

  /** The words at ps, and no others, are on the list that starts at head. */
  ghost predicate Threaded(code: seq<nat>, head: nat, ps: seq<nat>)
    decreases |ps|
  {
    if ps == [] then head == 0
    else head == ps[0] && 0 < head < |code| && Threaded(code, code[head], ps[1..])
  }

  // A list depends on its own words only.
  lemma {:induction false} ThreadedKept(code: seq<nat>, code': seq<nat>, head: nat, ps: seq<nat>)
    requires Threaded(code, head, ps) && |code| <= |code'|
    requires forall k :: 0 <= k < |ps| && ps[k] < |code| ==> code'[ps[k]] == code[ps[k]]
    ensures Threaded(code', head, ps)
    decreases |ps|
  {
    if ps != [] { ThreadedKept(code, code', code[head], ps[1..]); }
  }

  lemma {:induction false} ThreadedIn(code: seq<nat>, head: nat, ps: seq<nat>)
    requires Threaded(code, head, ps)
    ensures forall k :: 0 <= k < |ps| ==> 0 < ps[k] < |code|
    decreases |ps|
  {
    if ps != [] { ThreadedIn(code, code[head], ps[1..]); }
  }

  ghost predicate AllThreaded(code: seq<nat>, labels: seq<Label>, refs: seq<seq<nat>>) {
    |refs| == |labels| && forall l :: 0 <= l < |refs| ==> Threaded(code, labels[l].patches, refs[l])
  }

  // Recording a reference at a fresh word p.
  lemma Thread(code: seq<nat>, labels: seq<Label>, refs: seq<seq<nat>>, l: nat, p: nat,
               code': seq<nat>, labels': seq<Label>, refs': seq<seq<nat>>)
    requires AllThreaded(code, labels, refs) && Apart(refs) && l < |labels|
    requires 0 < p < |code'| && |code| <= |code'| && !On(refs, p)
    requires code'[p] == labels[l].patches && forall q :: 0 <= q < |code| && q != p ==> code'[q] == code[q]
    requires labels' == labels[l := labels[l].(patches := p)] && refs' == refs[l := [p] + refs[l]]
    ensures AllThreaded(code', labels', refs') && Apart(refs')
  {
    ThreadAll(code, labels, refs, l, p, code', labels', refs');
    ThreadApart(refs, l, p, refs');
  }

  lemma ThreadAll(code: seq<nat>, labels: seq<Label>, refs: seq<seq<nat>>, l: nat, p: nat,
                  code': seq<nat>, labels': seq<Label>, refs': seq<seq<nat>>)
    requires AllThreaded(code, labels, refs) && l < |labels|
    requires 0 < p < |code'| && |code| <= |code'| && !On(refs, p)
    requires code'[p] == labels[l].patches && forall q :: 0 <= q < |code| && q != p ==> code'[q] == code[q]
    requires labels' == labels[l := labels[l].(patches := p)] && refs' == refs[l := [p] + refs[l]]
    ensures AllThreaded(code', labels', refs')
  {
    hide Threaded;
    forall i | 0 <= i < |refs| ensures Threaded(code', labels'[i].patches, refs'[i]) {
      ThreadedIn(code, labels[i].patches, refs[i]);
      forall k | 0 <= k < |refs[i]| ensures refs[i][k] != p { }
      ThreadedKept(code, code', labels[i].patches, refs[i]);
      if i == l { ThreadedCons(code', p, refs[l]); }
    }
  }

  lemma ThreadedCons(code: seq<nat>, p: nat, ps: seq<nat>)
    requires 0 < p < |code| && Threaded(code, code[p], ps)
    ensures Threaded(code, p, [p] + ps)
  {
    assert ([p] + ps)[1..] == ps;
  }

  lemma ThreadApart(refs: seq<seq<nat>>, l: nat, p: nat, refs': seq<seq<nat>>)
    requires Apart(refs) && l < |refs| && !On(refs, p) && refs' == refs[l := [p] + refs[l]]
    ensures Apart(refs')
  {
    forall i, k, i', k' | 0 <= i < |refs'| && 0 <= i' < |refs'| && 0 <= k < |refs'[i]| && 0 <= k' < |refs'[i']|
      && refs'[i][k] == refs'[i'][k']
      ensures i == i' && k == k'
    {
      var a, a' := if i == l then k - 1 else k, if i' == l then k' - 1 else k';
      if a >= 0 { assert refs'[i][k] == refs[i][a]; }
      if a' >= 0 { assert refs'[i'][k'] == refs[i'][a']; }
    }
  }

  // ----- resolving -----

  // The references to the first n labels hold their addresses.
  ghost predicate Resolved(code: seq<nat>, labels: seq<Label>, refs: seq<seq<nat>>, base: nat, n: nat) {
    && n <= |labels| == |refs|
    && forall l, k :: 0 <= l < n && 0 <= k < |refs[l]| ==>
         refs[l][k] < |code| && code[refs[l][k]] == base + labels[l].value
  }

  // Walk one list, replacing each link by the address.
  method ResolveOne(code: seq<nat>, head: nat, addr: nat, ghost ps: seq<nat>) returns (out: seq<nat>)
    requires Threaded(code, head, ps) && forall j, k :: 0 <= j < k < |ps| ==> ps[j] != ps[k]
    ensures |out| == |code| && forall k :: 0 <= k < |ps| ==> ps[k] < |out| && out[ps[k]] == addr
    ensures forall q :: 0 <= q < |code| && q !in ps ==> out[q] == code[q]
  {
    out := code;
    var patch := head;
    ghost var k := 0;
    ThreadedIn(code, head, ps);
    assert ps[0..] == ps;
    while patch != 0
      invariant k <= |ps| && |out| == |code| && Threaded(out, patch, ps[k..])
      invariant forall j :: 0 <= j < k ==> out[ps[j]] == addr
      invariant forall q :: 0 <= q < |code| && q !in ps[..k] ==> out[q] == code[q]
      decreases |ps| - k
    {
      var next := out[patch];
      ghost var was := out;
      assert ps[k..][0] == ps[k] && ps[k..][1..] == ps[k + 1..];
      out := out[patch := addr];
      ThreadedKept(was, out, next, ps[k + 1..]);
      assert ps[..k + 1] == ps[..k] + [ps[k]];
      patch, k := next, k + 1;
    }
    assert ps[k..] == [];
    assert ps[..k] == ps;
  }

  lemma OthersKept(code: seq<nat>, out: seq<nat>, labels: seq<Label>, refs: seq<seq<nat>>, base: nat, i: nat)
    requires i < |labels| == |refs| && Apart(refs) && |out| == |code|
    requires Resolved(code, labels, refs, base, i)
    requires forall k :: 0 <= k < |refs[i]| ==> refs[i][k] < |out| && out[refs[i][k]] == base + labels[i].value
    requires forall q :: 0 <= q < |code| && q !in refs[i] ==> out[q] == code[q]
    ensures Resolved(out, labels, refs, base, i + 1)
  {
    forall l, k | 0 <= l < i && 0 <= k < |refs[l]|
      ensures refs[l][k] < |out| && out[refs[l][k]] == base + labels[l].value
    {
      assert refs[l][k] !in refs[i];
    }
  }

  // The lists of the labels from i on.
  ghost predicate ThreadedFrom(code: seq<nat>, labels: seq<Label>, refs: seq<seq<nat>>, i: nat) {
    |refs| == |labels| && forall l :: i <= l < |refs| ==> Threaded(code, labels[l].patches, refs[l])
  }

  lemma LaterKept(code: seq<nat>, out: seq<nat>, labels: seq<Label>, refs: seq<seq<nat>>, i: nat)
    requires ThreadedFrom(code, labels, refs, i) && i < |refs| && Apart(refs) && |out| == |code|
    requires forall q :: 0 <= q < |code| && q !in refs[i] ==> out[q] == code[q]
    ensures ThreadedFrom(out, labels, refs, i + 1)
  {
    hide Threaded;
    forall l | i + 1 <= l < |refs| ensures Threaded(out, labels[l].patches, refs[l]) {
      ThreadedIn(code, labels[l].patches, refs[l]);
      forall k | 0 <= k < |refs[l]| ensures refs[l][k] !in refs[i] { }
      ThreadedKept(code, out, labels[l].patches, refs[l]);
    }
  }

  /** The loader's state while it emits code for one module. `refs` records, per
    * label, the words that refer to it, newest first. */
  class Loader {
    var code: seq<nat>
    var ci: nat
    var labels: seq<Label>
    var lastLabel: nat
    var functionNumber: nat
    const numFunctions: nat
    ghost var refs: seq<seq<nat>>

    // A word that has been written as a label reference can only be one of these.
    ghost predicate Written(p: nat)
      reads this
    {
      || MI_FUNCTIONS <= p < MI_FUNCTIONS + functionNumber
      || MI_FUNCTIONS + numFunctions < p < ci
    }

    ghost predicate Valid()
      reads this
    {
      && functionNumber <= numFunctions
      && MI_FUNCTIONS + numFunctions < ci <= |code|
      && lastLabel < |labels|
      && AllThreaded(code, labels, refs) && Apart(refs)
      && (forall l, k :: 0 <= l < |refs| && 0 <= k < |refs[l]| ==> Written(refs[l][k]))
    }

    constructor (numLabels: nat, functions: nat)
      requires numLabels > 0
      ensures Valid() && |labels| == numLabels && numFunctions == functions && functionNumber == 0
      ensures forall l :: 0 <= l < numLabels ==> labels[l].value == 0 && refs[l] == []
    {
      numFunctions := functions;
      functionNumber, lastLabel := 0, 0;
      ci := MI_FUNCTIONS + functions + 1;
      code := seq(MI_FUNCTIONS + functions + 1, _ => 0);
      labels := seq(numLabels, _ => Label(0, 0));
      refs := seq(numLabels, _ => []);
    }

    // Need(1): make sure that one more word can be written.
    method Need()
      requires Valid()
      modifies `code
      ensures Valid() && ci < |code| && |old(code)| <= |code| && code[..|old(code)|] == old(code)
    {
      if ci == |code| {
        ghost var was := code;
        code := code + [0];
        Longer(was, code, labels, refs);
      }
    }

    // Any word that is not a label reference.
    method EmitWord(w: nat)
      requires Valid()
      modifies `code, `ci
      ensures Valid() && ci == old(ci) + 1 && code[old(ci)] == w
      ensures forall p :: 0 <= p < old(ci) ==> code[p] == old(code)[p]
    {
      Need();
      ghost var was := code;
      NotMine(ci);
      code := code[ci := w];
      Elsewhere(was, code, labels, refs, ci);
      ci := ci + 1;
    }

    lemma NotMine(p: nat)
      requires Valid() && !Written(p)
      ensures !On(refs, p)
    {
    }

    /** Operand types f and j, and labels in operand lists. */
    method EmitLabel(l: nat)
      requires Valid() && l < |labels|
      modifies this
      ensures Valid() && ci == old(ci) + 1 && refs == old(refs)[l := [old(ci)] + old(refs)[l]]
      ensures lastLabel == old(lastLabel) && functionNumber == old(functionNumber)
      ensures labels == old(labels)[l := old(labels)[l].(patches := old(ci))]
      ensures forall p :: 0 <= p < old(ci) ==> code[p] == old(code)[p]
    {
      Need();
      ghost var c, ls, rs := code, labels, refs;
      NotMine(ci);
      code := code[ci := labels[l].patches];
      labels := labels[l := labels[l].(patches := ci)];
      refs := refs[l := [ci] + refs[l]];
      Thread(c, ls, rs, l, ci, code, labels, refs);
      ci := ci + 1;
    }

    /** A label definition: refused when the number is out of range or the label is already defined. */
    method DefineLabel(l: nat) returns (ok: bool)
      requires Valid()
      modifies `labels, `lastLabel
      ensures Valid()
      ensures ok <==> 0 < l < |old(labels)| && old(labels)[l].value == 0
      ensures ok ==> labels == old(labels)[l := old(labels)[l].(value := ci)] && lastLabel == l
      ensures !ok ==> labels == old(labels) && lastLabel == old(lastLabel)
    {
      ok := 0 < l < |labels| && labels[l].value == 0;
      if ok {
        lastLabel := l;
        labels := labels[l := labels[l].(value := ci)];
      }
    }

    /** func_info: the next slot of the function table refers to the last label. */
    method FuncInfo() returns (ok: bool)
      requires Valid()
      modifies this
      ensures Valid() && ci == old(ci) && lastLabel == old(lastLabel)
      ensures ok <==> old(functionNumber) < numFunctions
      ensures ok ==> functionNumber == old(functionNumber) + 1
                     && refs == old(refs)[lastLabel := [MI_FUNCTIONS + old(functionNumber)] + old(refs)[lastLabel]]
      ensures !ok ==> functionNumber == old(functionNumber) && refs == old(refs) && code == old(code)
      ensures |code| == |old(code)|
      ensures forall p :: 0 <= p < |code| && p != MI_FUNCTIONS + old(functionNumber) ==> code[p] == old(code)[p]
    {
      ok := functionNumber < numFunctions;
      if ok {
        var offset, l := MI_FUNCTIONS + functionNumber, lastLabel;
        ghost var c, ls, rs := code, labels, refs;
        NotMine(offset);
        code := code[offset := labels[l].patches];
        labels := labels[l := labels[l].(patches := offset)];
        refs := refs[l := [offset] + refs[l]];
        Thread(c, ls, rs, l, offset, code, labels, refs);
        functionNumber := functionNumber + 1;
      }
    }

    // new_label: the transformations may ask for more labels.
    method NewLabel() returns (l: nat)
      requires Valid()
      modifies `labels, `refs
      ensures Valid() && l == |old(labels)| && labels == old(labels) + [Label(0, 0)] && refs == old(refs) + [[]]
    {
      l := |labels|;
      labels := labels + [Label(0, 0)];
      refs := refs + [[]];
    }

    /** freeze_code: every recorded reference to a label gets the label's
      * address, and no other code word changes. It fails exactly if a label
      * that was referred to was never defined. */
    method ResolveLabels(base: nat) returns (ok: bool)
      requires Valid()
      modifies `code
      ensures ok <==> forall l :: 0 <= l < |labels| && labels[l].value == 0 ==> refs[l] == []
      ensures ok ==> Resolved(code, labels, refs, base, |labels|)
      ensures |code| == |old(code)|
      ensures forall p :: 0 <= p < |code| && !On(refs, p) ==> code[p] == old(code)[p]
    {
      hide Apart;
      for i := 0 to |labels|
        invariant |code| == |old(code)|
        invariant ThreadedFrom(code, labels, refs, i) && Resolved(code, labels, refs, base, i)
        invariant forall l :: 0 <= l < i && labels[l].value == 0 ==> refs[l] == []
        invariant forall p :: 0 <= p < |code| && !On(refs, p) ==> code[p] == old(code)[p]
      {
        if labels[i].value == 0 && labels[i].patches != 0 {
          return false;
        }
        ghost var was := code;
        OwnWords(refs, i);
        code := ResolveOne(code, labels[i].patches, base + labels[i].value, refs[i]);
        OthersKept(was, code, labels, refs, base, i);
        LaterKept(was, code, labels, refs, i);
      }
      ok := true;
    }
  }

  lemma OwnWords(refs: seq<seq<nat>>, i: nat)
    requires Apart(refs) && i < |refs|
    ensures forall j, k :: 0 <= j < k < |refs[i]| ==> refs[i][j] != refs[i][k]
    ensures forall p :: !On(refs, p) ==> p !in refs[i]
  {
  }

  lemma Longer(code: seq<nat>, code': seq<nat>, labels: seq<Label>, refs: seq<seq<nat>>)
    requires AllThreaded(code, labels, refs) && |code| <= |code'| && code'[..|code|] == code
    ensures AllThreaded(code', labels, refs)
  {
    hide Threaded;
    forall l | 0 <= l < |refs| ensures Threaded(code', labels[l].patches, refs[l]) {
      forall q | 0 <= q < |code| ensures code'[q] == code[q] { assert code'[..|code|][q] == code[q]; }
      ThreadedKept(code, code', labels[l].patches, refs[l]);
    }
  }

  lemma Elsewhere(code: seq<nat>, code': seq<nat>, labels: seq<Label>, refs: seq<seq<nat>>, p: nat)
    requires AllThreaded(code, labels, refs) && !On(refs, p) && |code| == |code'|
    requires forall q :: 0 <= q < |code| && q != p ==> code'[q] == code[q]
    ensures AllThreaded(code', labels, refs)
  {
    hide Threaded;
    forall l | 0 <= l < |refs| ensures Threaded(code', labels[l].patches, refs[l]) {
      forall k | 0 <= k < |refs[l]| ensures refs[l][k] != p { }
      ThreadedKept(code, code', labels[l].patches, refs[l]);
    }
  }
}

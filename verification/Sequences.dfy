/** Sequences with one element more or less, and families of lists without a common element. */
module Sequences {

  // Insert x before position k.
  function Put<T>(s: seq<T>, k: nat, x: T): (r: seq<T>)
    requires k <= |s|
    ensures |r| == |s| + 1
  {
    s[..k] + [x] + s[k..]
  }

  lemma PutAt<T>(s: seq<T>, k: nat, x: T, i: nat)
    requires k <= |s| && i <= |s|
    ensures Put(s, k, x)[i] == if i < k then s[i] else if i == k then x else s[i - 1]
  {
  }

  // Take out the element at position k.
  function Drop<T>(s: seq<T>, k: nat): (r: seq<T>)
    requires k < |s|
    ensures |r| == |s| - 1
  {
    s[..k] + s[k + 1..]
  }

  lemma DropAt<T>(s: seq<T>, k: nat, i: nat)
    requires k < |s| && i + 1 < |s|
    ensures Drop(s, k)[i] == if i < k then s[i] else s[i + 1]
  {
  }

  // No number is twice in the lists.
  ghost predicate Apart(lists: seq<seq<nat>>) {
    forall l, k, l', k' ::
      (0 <= l < |lists| && 0 <= l' < |lists| && 0 <= k < |lists[l]| && 0 <= k' < |lists[l']| && lists[l][k] == lists[l'][k'])
      ==> l == l' && k == k'
  }

  ghost predicate On(lists: seq<seq<nat>>, x: nat) {
    exists l, k :: 0 <= l < |lists| && 0 <= k < |lists[l]| && lists[l][k] == x
  }
}

/** Sequence helpers: the first-match search shared by every
    "for ... in ...: if ...: return / break" loop of the resolver, and the
    filter-and-append shape of the rendering loops. */
module Seqs {
  import opened Wrappers

  /** The index of the first element of `s` satisfying `p`, or None when no
      element does. */
  function FirstWhere<T>(s: seq<T>, p: T -> bool): (r: Option<nat>)
    ensures r.None? <==> forall i :: 0 <= i < |s| ==> !p(s[i])
    ensures r.Some? ==> r.value < |s| && p(s[r.value])
    ensures r.Some? ==> forall j :: 0 <= j < r.value ==> !p(s[j])
  {
    if s == [] then None
    else if p(s[0]) then Some(0)
    else
      match FirstWhere(s[1..], p)
      case None => None
      case Some(i) => Some(i + 1)
  }

  /** The value of `o`, if any, as a list. */
  function OptionList<T>(o: Option<T>): (r: seq<T>)
    ensures |r| <= 1
    ensures o.Some? ==> r == [o.value]
    ensures o.None? ==> r == []
  {
    match o
    case None => []
    case Some(s) => [s]
  }

  /** The values that are present, in order. */
  function Flatten<T>(os: seq<Option<T>>): (r: seq<T>)
    ensures |r| <= |os|
    ensures forall t :: 0 <= t < |r| ==> Some(r[t]) in os
    ensures forall i :: 0 <= i < |os| && os[i].Some? ==> os[i].value in r
  {
    if os == [] then []
    else
      var front := os[..|os| - 1];
      assert forall o :: o in front ==> o in os;
      assert forall i :: 0 <= i < |front| ==> front[i] == os[i];
      Flatten(front) + OptionList(os[|os| - 1])
  }

  /** Appending one option appends its value, if any. */
  lemma FlattenSnoc<T>(os: seq<Option<T>>, o: Option<T>)
    ensures Flatten(os + [o]) == Flatten(os) + OptionList(o)
  {
    assert (os + [o])[..|os|] == os;
  }

  /** The positions are strictly increasing. */
  predicate Increasing(idx: seq<nat>) {
    forall k, l :: 0 <= k < l < |idx| ==> idx[k] < idx[l]
  }

  /** Appending `i` adds exactly `i` to the members. */
  lemma SnocMembers(idx: seq<nat>, i: nat)
    ensures forall j :: j in idx + [i] <==> j in idx || j == i
  {
  }
}

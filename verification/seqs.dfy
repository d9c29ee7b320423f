/** Searching a sequence for the first element with a property. */
module Seqs {
  import opened Wrappers

  /** The position of the first element of `xs` that satisfies `p`, if any. */
  function FirstWhere<T>(p: T -> bool, xs: seq<T>): (r: Option<nat>)
    ensures r.Some? ==> r.value < |xs| && p(xs[r.value])
    ensures r.Some? ==> forall j :: 0 <= j < r.value ==> !p(xs[j])
    ensures r.None? <==> forall j :: 0 <= j < |xs| ==> !p(xs[j])
  {
    if xs == [] then None
    else if p(xs[0]) then Some(0)
    else
      assert forall j :: 1 <= j < |xs| ==> xs[j] == xs[1..][j - 1];
      match FirstWhere(p, xs[1..])
      case None => None
      case Some(k) => Some(k + 1)
  }

  /** The first hit depends only on the elements up to and including it. */
  lemma FirstWhereAgrees<T>(p: T -> bool, a: seq<T>, b: seq<T>, i: nat)
    requires FirstWhere(p, a) == Some(i) && i < |b|
    requires i < |a| && a[..i + 1] == b[..i + 1]
    ensures FirstWhere(p, b) == Some(i)
  {
    assert forall j :: 0 <= j <= i ==> a[j] == a[..i + 1][j] == b[..i + 1][j] == b[j];
  }
}

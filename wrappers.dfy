/** Shared result type: an absent value stands for the places where the
    Python code raises (an empty `min`, an `IndexError`, a failed unpack). */
module Wrappers {
  datatype Option<+T> = None | Some(value: T)

  /** Applies f to every element; None as soon as one application fails. */
  function MapAll<A, B>(xs: seq<A>, f: A -> Option<B>): (r: Option<seq<B>>)
    ensures r.Some? <==> forall i :: 0 <= i < |xs| ==> f(xs[i]).Some?
    ensures r.Some? ==> |r.value| == |xs|
    ensures r.Some? ==> forall i :: 0 <= i < |xs| ==> Some(r.value[i]) == f(xs[i])
  {
    if xs == [] then Some([])
    else
      var init := xs[..|xs| - 1];
      assert forall i :: 0 <= i < |init| ==> init[i] == xs[i];
      var rest := MapAll(init, f);
      var last := f(xs[|xs| - 1]);
      if rest.Some? && last.Some? then Some(rest.value + [last.value]) else None
  }

  /** Mapping one more element of a prefix. */
  lemma MapAllPrefix<A, B>(xs: seq<A>, i: nat, f: A -> Option<B>)
    requires i < |xs|
    ensures MapAll(xs[..i + 1], f) ==
      if MapAll(xs[..i], f).Some? && f(xs[i]).Some? then Some(MapAll(xs[..i], f).value + [f(xs[i]).value]) else None
  {
    assert xs[..i + 1][..i] == xs[..i];
  }
}

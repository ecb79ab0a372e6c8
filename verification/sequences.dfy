/**
 * The "parse every row, keep the rows that parse" pattern shared by the
 * search-page and detail-page parsers.
 */
module Sequences {
  import opened Wrappers

  /** The values of `f` on `xs` that are present, in the order of `xs`. */
  function FilterMap<A, B>(f: A -> Option<B>, xs: seq<A>): (ys: seq<B>)
    ensures |ys| <= |xs|
    decreases |xs|
  {
    if xs == [] then []
    else
      var y := f(xs[|xs| - 1]);
      FilterMap(f, xs[..|xs| - 1]) + (if y.Some? then [y.value] else [])
  }

  /** Mapping distributes over concatenation. */
  lemma {:induction false} FilterMapAppend<A, B>(f: A -> Option<B>, xs: seq<A>, zs: seq<A>)
    ensures FilterMap(f, xs + zs) == FilterMap(f, xs) + FilterMap(f, zs)
    decreases |zs|
  {
    if zs == [] {
      assert xs + zs == xs;
    } else {
      assert (xs + zs)[..|xs + zs| - 1] == xs + zs[..|zs| - 1];
      FilterMapAppend(f, xs, zs[..|zs| - 1]);
    }
  }

  /** When every element yields a value, the result has one value per element, position by position. */
  lemma {:induction false} FilterMapAllPresent<A, B>(f: A -> Option<B>, xs: seq<A>)
    requires forall i :: 0 <= i < |xs| ==> f(xs[i]).Some?
    ensures |FilterMap(f, xs)| == |xs|
    ensures forall i :: 0 <= i < |xs| ==> FilterMap(f, xs)[i] == f(xs[i]).value
    decreases |xs|
  {
    if xs != [] {
      var init := xs[..|xs| - 1];
      assert forall i :: 0 <= i < |init| ==> init[i] == xs[i];
      FilterMapAllPresent(f, init);
    }
  }

  /** Every value kept is the value of some element. */
  lemma {:induction false} FilterMapMembers<A, B>(f: A -> Option<B>, xs: seq<A>)
    ensures forall y :: y in FilterMap(f, xs) ==> exists x :: x in xs && f(x) == Some(y)
    decreases |xs|
  {
    if xs != [] {
      var init := xs[..|xs| - 1];
      FilterMapMembers(f, init);
      assert forall x :: x in init ==> x in xs;
      assert xs[|xs| - 1] in xs;
    }
  }
}

/** Sequence facts and the order-preserving filter-and-convert pattern that the
    range parser's loop follows. */
module Seqs {

  import opened Wrappers

  /** What one element contributes: its converted value, or nothing. */
  function Kept<A, B>(x: A, f: A -> Option<B>): (ys: seq<B>)
    ensures |ys| <= 1
    ensures ys == [] <==> f(x).None?
    ensures |ys| == 1 ==> f(x) == Some(ys[0])
  {
    if f(x).Some? then [f(x).value] else []
  }

  /** Walk `xs` in order and append `f(x).value` for every `x` that `f` accepts. */
  function FilterMap<A, B>(xs: seq<A>, f: A -> Option<B>): (ys: seq<B>)
    ensures |ys| <= |xs|
  {
    if |xs| == 0 then []
    else FilterMap(xs[..|xs| - 1], f) + Kept(xs[|xs| - 1], f)
  }

  /** One more step of the walk appends the next element's contribution. */
  lemma FilterMapStep<A, B>(xs: seq<A>, i: nat, f: A -> Option<B>)
    requires i < |xs|
    ensures FilterMap(xs[..i + 1], f) == FilterMap(xs[..i], f) + Kept(xs[i], f)
  {
    assert xs[..i + 1][..i] == xs[..i];
  }

  /** The elements are handled independently: the result for a concatenation is
      the concatenation of the results, in the same order. */
  lemma {:induction false} FilterMapAppend<A, B>(xs: seq<A>, ys: seq<A>, f: A -> Option<B>)
    ensures FilterMap(xs + ys, f) == FilterMap(xs, f) + FilterMap(ys, f)
  {
    if |ys| == 0 {
      assert xs + ys == xs;
    } else {
      var ys' := ys[..|ys| - 1];
      assert (xs + ys)[..|xs + ys| - 1] == xs + ys';
      assert (xs + ys)[|xs + ys| - 1] == ys[|ys| - 1];
      FilterMapAppend(xs, ys', f);
    }
  }

  lemma FilterMapSingle<A, B>(x: A, f: A -> Option<B>)
    ensures FilterMap([x], f) == Kept(x, f)
  {
    assert [x][..0] == [];
  }

  /** Every output element was produced by some input element: its index. */
  lemma {:induction false} FilterMapOrigin<A, B>(xs: seq<A>, f: A -> Option<B>, k: nat) returns (i: nat)
    requires k < |FilterMap(xs, f)|
    ensures i < |xs| && f(xs[i]) == Some(FilterMap(xs, f)[k])
  {
    var init, last := xs[..|xs| - 1], xs[|xs| - 1];
    var front := FilterMap(init, f);
    if k < |front| {
      i := FilterMapOrigin(init, f, k);
      assert init[i] == xs[i];
    } else {
      i := |xs| - 1;
    }
  }

  /** Every input element that `f` accepts shows up in the output. */
  lemma {:induction false} FilterMapComplete<A, B>(xs: seq<A>, f: A -> Option<B>, i: nat)
    requires i < |xs| && f(xs[i]).Some?
    ensures f(xs[i]).value in FilterMap(xs, f)
  {
    var init := xs[..|xs| - 1];
    if i < |xs| - 1 {
      assert init[i] == xs[i];
      FilterMapComplete(init, f, i);
    } else {
      assert Kept(xs[i], f) == [f(xs[i]).value];
    }
  }
}

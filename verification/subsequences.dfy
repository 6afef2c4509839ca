/** Order-preserving selection. Both filters of the handler keep some elements
    of a list in their original order; `IndicesWhere` names which positions
    survive, so that a filter's output can be stated element by element. */
module Subsequences {

  /** The positions of `xs` whose element satisfies `p`, in ascending order:
      every listed position qualifies, and every qualifying position is listed. */
  function IndicesWhere<T>(xs: seq<T>, p: T -> bool): (idx: seq<nat>)
    ensures |idx| <= |xs|
    ensures forall k :: 0 <= k < |idx| ==> idx[k] < |xs| && p(xs[idx[k]])
    ensures forall k, m :: 0 <= k < m < |idx| ==> idx[k] < idx[m]
    ensures forall i :: 0 <= i < |xs| && p(xs[i]) ==> i in idx
    decreases |xs|
  {
    if |xs| == 0 then []
    else
      var init := IndicesWhere(xs[..|xs| - 1], p);
      assert forall i :: 0 <= i < |xs| - 1 ==> xs[..|xs| - 1][i] == xs[i];
      if p(xs[|xs| - 1]) then init + [|xs| - 1] else init
  }
}

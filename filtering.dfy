/**
 * Filtering a sequence while rewriting the elements that survive: the shape
 * of both validation loops of the quiz parser, which append the normalized
 * form of each acceptable element and skip the others.
 */
module Filtering {
  import opened Optional

  /** The element an acceptance test keeps, as a sequence of length 0 or 1. */
  function Kept<B>(o: Option<B>): (r: seq<B>)
    ensures |r| == if o.Some? then 1 else 0
  {
    match o
    case Some(y) => [y]
    case None => []
  }

  /**
   * The images under `f` of the elements of `s` that `f` accepts, in the order
   * of `s`. Defined on the last element, as a loop that appends builds it.
   */
  function FilterMap<A, B>(s: seq<A>, f: A -> Option<B>): (r: seq<B>)
    ensures |r| <= |s|
    decreases |s|
  {
    if |s| == 0 then []
    else FilterMap(s[..|s| - 1], f) + Kept(f(s[|s| - 1]))
  }

  /** Extending the prefix of `s` by one element adds that element's image if it is accepted. */
  lemma FilterMapStep<A, B>(s: seq<A>, i: nat, f: A -> Option<B>)
    requires i < |s|
    ensures FilterMap(s[..i + 1], f) == FilterMap(s[..i], f) + Kept(f(s[i]))
  {
    assert s[..i + 1][..i] == s[..i];
  }

  /** Filtering distributes over concatenation: each element is judged on its own and order is kept. */
  lemma {:induction false} FilterMapAppend<A, B>(a: seq<A>, b: seq<A>, f: A -> Option<B>)
    ensures FilterMap(a + b, f) == FilterMap(a, f) + FilterMap(b, f)
    decreases |b|
  {
    if |b| == 0 {
      assert a + b == a;
    } else {
      var b' := b[..|b| - 1];
      assert (a + b)[..|a + b| - 1] == a + b';
      assert (a + b)[|a + b| - 1] == b[|b| - 1];
      FilterMapAppend(a, b', f);
    }
  }

  /** Nothing survives exactly when no element is accepted. */
  lemma {:induction false} FilterMapEmpty<A, B>(s: seq<A>, f: A -> Option<B>)
    ensures FilterMap(s, f) == [] <==> forall i :: 0 <= i < |s| ==> f(s[i]).None?
    decreases |s|
  {
    if |s| > 0 {
      var s' := s[..|s| - 1];
      FilterMapEmpty(s', f);
      assert forall i :: 0 <= i < |s'| ==> s'[i] == s[i];
    }
  }

  /**
   * The output is an order-preserving subsequence of the images: `idx` lists,
   * in increasing order, the positions of the accepted elements, and every
   * accepted position is listed.
   */
  lemma {:induction false} FilterMapIndices<A, B>(s: seq<A>, f: A -> Option<B>) returns (idx: seq<nat>)
    ensures |idx| == |FilterMap(s, f)|
    ensures forall k :: 0 <= k < |idx| ==> idx[k] < |s| && f(s[idx[k]]) == Some(FilterMap(s, f)[k])
    ensures forall k, l :: 0 <= k < l < |idx| ==> idx[k] < idx[l]
    ensures forall j :: 0 <= j < |s| && f(s[j]).Some? ==> j in idx
    decreases |s|
  {
    if |s| == 0 {
      idx := [];
    } else {
      var n := |s| - 1;
      var s' := s[..n];
      var idx' := FilterMapIndices(s', f);
      assert forall i :: 0 <= i < n ==> s'[i] == s[i];
      var out := FilterMap(s, f);
      assert out == FilterMap(s', f) + Kept(f(s[n]));
      if f(s[n]).Some? {
        idx := idx' + [n];
        assert out[|idx'|] == f(s[n]).value;
      } else {
        idx := idx';
      }
    }
  }
}

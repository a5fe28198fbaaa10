/** The positions of a sequence whose elements satisfy a predicate, in order.
    The facade's accumulator loops (causes, collected errors, logged errors)
    each keep exactly the elements at these positions. */
module Positions {

  /** Positions listed in strictly increasing order. */
  ghost predicate Increasing(idx: seq<nat>) {
    forall k, l :: 0 <= k < l < |idx| ==> idx[k] < idx[l]
  }

  /** The positions of `s` whose element satisfies `p`, in ascending order. */
  ghost function Where<T>(s: seq<T>, p: T -> bool): (idx: seq<nat>)
    ensures |idx| <= |s|
    ensures forall k :: 0 <= k < |idx| ==> idx[k] < |s| && p(s[idx[k]])
    decreases |s|
  {
    if s == [] then []
    else
      var n := |s| - 1;
      Where(s[..n], p) + (if p(s[n]) then [n] else [])
  }

  /** Each position is listed after the ones before it. */
  lemma {:induction false} WhereIncreasing<T>(s: seq<T>, p: T -> bool)
    ensures Increasing(Where(s, p))
    decreases |s|
  {
    if s != [] {
      WhereIncreasing(s[..|s| - 1], p);
    }
  }

  /** Every position whose element satisfies `p` is listed. */
  lemma {:induction false} WhereComplete<T>(s: seq<T>, p: T -> bool, i: nat)
    requires i < |s| && p(s[i])
    ensures i in Where(s, p)
    decreases |s|
  {
    var n := |s| - 1;
    if i < n {
      assert s[..n][i] == s[i];
      WhereComplete(s[..n], p, i);
    }
  }
}

/** Counting facts that several models share. */
module Counting {

  /** A product, named so that it is multiplied out only where that is the point. */
  ghost predicate IsProduct(x: nat, a: nat, c: nat) {
    x == a * c
  }

  lemma SubsetSize<T>(small: set<T>, large: set<T>)
    requires small <= large
    ensures |small| <= |large| && (|small| == |large| <==> small == large)
  {
    assert large == small + (large - small);
    if |large - small| == 0 {
      assert large - small == {};
    }
  }
}

/** Counting with multisets. */
module Bags {

  lemma AddBoth(a: multiset<int>, b: multiset<int>, c: multiset<int>, d: multiset<int>, e: multiset<int>)
    requires a + b == c + d
    ensures (a + e) + b == (c + e) + d
  {
    assert (a + e) + b == (a + b) + e;
    assert (c + e) + d == (c + d) + e;
  }

  lemma Exchange(a: multiset<int>, b: multiset<int>, p: multiset<int>, q: multiset<int>, u: multiset<int>,
                 v: multiset<int>)
    requires a + p == b + q && u + q == v + p
    ensures a + u == b + v
  {
    forall x ensures (a + u)[x] == (b + v)[x] {
      assert (a + p)[x] == (b + q)[x] && (u + q)[x] == (v + p)[x];
    }
  }
}

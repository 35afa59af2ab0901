/** Multiset algebra that the tallies over threads and table slots share. */
module Bags {

  lemma Exchange<T>(a: multiset<T>, a': multiset<T>, o: multiset<T>, w: multiset<T>, b: multiset<T>)
    requires a' + o == a + w
    ensures (a' + b) + o == (a + b) + w
  {
    assert (a' + b) + o == (a' + o) + b;
    assert (a + b) + w == (a + w) + b;
  }

  lemma EmptyBag<T>(a: multiset<T>)
    ensures a + multiset{} == a
  {
  }

  lemma Cancel<T>(a: multiset<T>, b: multiset<T>, c: multiset<T>)
    requires a + c == b + c
    ensures a == b
  {
    forall x ensures a[x] == b[x] {
      assert (a + c)[x] == (b + c)[x];
    }
  }

  lemma Regroup<T>(a: multiset<T>, b: multiset<T>, c: multiset<T>)
    ensures (a + b) + c == a + (c + b)
  {
  }

  lemma Swap<T>(a: multiset<T>, b: multiset<T>, c: multiset<T>)
    ensures (a + b) + c == (a + c) + b
  {
  }
}

/** Facts about finite sets. */
module Sets {

  lemma SubsetSize<T>(a: set<T>, b: set<T>)
    requires a <= b
    ensures |a| <= |b|
  {
    assert b == a + (b - a);
  }

  lemma Element<T>(s: set<T>) returns (x: T)
    requires s != {}
    ensures x in s
  {
    x :| x in s;
  }

  lemma {:induction false} Within(a: set<int>, b: set<int>)
    requires forall x :: x in a ==> x in b
    ensures a <= b
    decreases |a|
  {
    if a != {} {
      var x := Element(a);
      Within(a - {x}, b);
    }
  }

  lemma SameIds(a: set<int>, b: set<int>)
    requires forall x :: x in a <==> x in b
    ensures a == b
  {
    Within(a, b);
    Within(b, a);
  }
}

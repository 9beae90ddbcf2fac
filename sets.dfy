/** Two facts about finite sets that the loops over map keys rely on. */
module Sets {

  /** A non-empty set has an element, so `:|` can pick one. */
  lemma SomeElement<T>(s: set<T>)
    requires s != {}
    ensures exists x :: x in s
  {
    if forall x :: x !in s {
      // then s would equal {}
      assert false;
    }
  }

  /** An element of a non-empty set, as a witness for `:|`. */
  lemma Pick<T>(s: set<T>) returns (x: T)
    requires s != {}
    ensures x in s
  {
    SomeElement(s);
    x :| x in s;
  }

  /** A subset is no larger than its superset. */
  lemma SubsetSize<T>(a: set<T>, b: set<T>)
    requires a <= b
    ensures |a| <= |b|
  {
    assert b == a + (b - a);
  }
}

/** Facts about finite sets used by the fairness engine. */
module SetFacts {

  /** Every non-empty finite set of integers has a least element. */
  lemma {:induction false} HasLeast(s: set<int>)
    requires s != {}
    ensures exists m :: m in s && forall x :: x in s ==> m <= x
    decreases |s|
  {
    assert (forall x :: x !in s) ==> s == {};
    var y :| y in s;
    if s != {y} {
      var rest := s - {y};
      HasLeast(rest);
      var m :| m in rest && forall x :: x in rest ==> m <= x;
      assert forall x :: x in s ==> x == y || x in rest;
      if y < m {
        assert forall x :: x in s ==> y <= x;
      } else {
        assert forall x :: x in s ==> m <= x;
      }
    } else {
      assert forall x :: x in s ==> y <= x;
    }
  }

  /** A subset as large as its superset is the superset. */
  lemma {:induction false} SameSizeSubset(a: set<string>, b: set<string>)
    requires a <= b
    ensures |a| == |b| <==> a == b
  {
    if a != b {
      assert (forall x :: x in a <==> x in b) ==> a == b;
      var x :| x in b && x !in a;
      assert a <= b - {x};
      assert |a| <= |b - {x}| by {
        SubsetNoLarger(a, b - {x});
      }
    }
  }

  lemma {:induction false} SubsetNoLarger(a: set<string>, b: set<string>)
    requires a <= b
    ensures |a| <= |b|
  {
    assert b == a + (b - a);
  }
}

/**
 Facts about sequences and finite sets that several modules share.
 */
module Collections {

  ghost predicate Distinct<T>(s: seq<T>) {
    forall i, j :: 0 <= i < j < |s| ==> s[i] != s[j]
  }

  lemma {:induction false} DistinctNext<T>(s: seq<T>, i: nat)
    requires Distinct(s) && i < |s|
    ensures s[i] !in s[..i]
  {
  }

  lemma {:induction false} SubsetSize<T>(a: set<T>, b: set<T>)
    requires a <= b
    ensures |a| <= |b|
  {
    assert b == a + (b - a);
  }

  lemma {:induction false} ProperSubsetSize<T>(a: set<T>, b: set<T>)
    requires a < b
    ensures |a| < |b|
  {
    assert b - a != {};
    assert a + (b - a) == b;
    assert |b| == |a| + |b - a|;
  }

  lemma {:induction false} LeavesFewer<T>(all: set<T>, s: set<T>, u: set<T>)
    requires s <= u <= all
    ensures s == u || all - u < all - s
  {
    if s != u {
      var x :| x in u && x !in s;
      assert x in all - s && x !in all - u;
    }
  }
}

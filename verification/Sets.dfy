/** Sizes of finite sets. */
module Sets {
  lemma SubsetSize<T>(a: set<T>, b: set<T>)
    requires a <= b
    ensures |a| <= |b|
  {
    assert b == a + (b - a);
  }

  lemma StrictSubsetSmaller<T>(a: set<T>, b: set<T>, x: T)
    requires a <= b && x in b && x !in a
    ensures |a| < |b|
  {
    assert b == (a + {x}) + (b - a - {x});
  }

  lemma DifferByOne<T>(a: set<T>, b: set<T>, k: T)
    requires forall x | x != k :: x in a <==> x in b
    ensures |b| == |a| - (if k in a then 1 else 0) + (if k in b then 1 else 0)
  {
    assert a - {k} == b - {k};
    assert k in a ==> a == (a - {k}) + {k};
    assert k in b ==> b == (b - {k}) + {k};
    assert k !in a ==> a == a - {k};
    assert k !in b ==> b == b - {k};
  }
}

/** Sizes of finite sets. */
module FiniteSets {

  lemma SmallerSet<T>(a: set<T>, b: set<T>)
    requires a <= b && a != b
    ensures |a| < |b|
  {
    var x :| x in b && x !in a;
    SubsetSize(a, b - {x});
  }

  lemma {:induction false} SubsetSize<T>(a: set<T>, b: set<T>)
    requires a <= b
    ensures |a| <= |b|
  {
    if a != {} {
      var x :| x in a;
      SubsetSize(a - {x}, b - {x});
    }
  }

  lemma {:induction false} BoundedSetSize(s: set<int>, n: nat)
    requires forall v :: v in s ==> 0 <= v < n
    ensures |s| <= n
  {
    if n == 0 {
      assert forall v :: v !in s;
      assert s == {};
    } else {
      BoundedSetSize(s - {n - 1}, n - 1);
    }
  }
}

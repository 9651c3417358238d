/** Stable sorting by an order and taking the best `k`, as every ranking in the repository does. */
module Ranking {

  ghost predicate TotalOrder<T(!new)>(le: (T, T) -> bool) {
    && (forall a, b :: le(a, b) || le(b, a))
    && (forall a, b, c :: le(a, b) && le(b, c) ==> le(a, c))
  }

  /** Insert after everything that may stay in front. */
  function Insert<T>(le: (T, T) -> bool, s: seq<T>, x: T): (r: seq<T>)
    ensures |r| == |s| + 1
  {
    if s == [] || le(s[|s| - 1], x) then s + [x] else Insert(le, s[..|s| - 1], x) + [s[|s| - 1]]
  }

  /** `sort_by`: stable insertion sort. */
  function Sort<T>(le: (T, T) -> bool, s: seq<T>): (r: seq<T>)
    ensures |r| == |s|
  {
    if s == [] then [] else Insert(le, Sort(le, s[..|s| - 1]), s[|s| - 1])
  }

  function Take<T>(s: seq<T>, k: nat): seq<T> {
    if |s| <= k then s else s[..k]
  }

  lemma TakeWithin<T>(s: seq<T>, k: nat)
    ensures multiset(Take(s, k)) <= multiset(s)
    ensures forall p :: 0 <= p < |Take(s, k)| ==> Take(s, k)[p] in multiset(s)
  {
    if |s| > k {
      assert s == s[..k] + s[k..];
    }
  }

  ghost predicate Sorted<T(!new)>(le: (T, T) -> bool, s: seq<T>) {
    forall i, j :: 0 <= i < j < |s| ==> le(s[i], s[j])
  }

  lemma {:induction false} InsertMembers<T>(le: (T, T) -> bool, s: seq<T>, x: T)
    ensures multiset(Insert(le, s, x)) == multiset(s) + multiset{x}
  {
    if s != [] && !le(s[|s| - 1], x) {
      InsertMembers(le, s[..|s| - 1], x);
      assert s == s[..|s| - 1] + [s[|s| - 1]];
    }
  }

  lemma {:induction false} SortMembers<T>(le: (T, T) -> bool, s: seq<T>)
    ensures multiset(Sort(le, s)) == multiset(s)
  {
    if s != [] {
      SortMembers(le, s[..|s| - 1]);
      InsertMembers(le, Sort(le, s[..|s| - 1]), s[|s| - 1]);
      assert s == s[..|s| - 1] + [s[|s| - 1]];
    }
  }

  lemma {:induction false} InsertSorted<T(!new)>(le: (T, T) -> bool, s: seq<T>, x: T)
    requires TotalOrder(le) && Sorted(le, s)
    ensures Sorted(le, Insert(le, s, x))
  {
    if s != [] && !le(s[|s| - 1], x) {
      var init, last := s[..|s| - 1], s[|s| - 1];
      InsertSorted(le, init, x);
      InsertMembers(le, init, x);
      var r := Insert(le, init, x);
      forall i | 0 <= i < |r| ensures le(r[i], last) {
        assert r[i] in multiset(r);
        if r[i] != x {
          assert r[i] in multiset(init);
          assert r[i] in init;
        }
      }
    } else if s != [] {
      forall i | 0 <= i < |s| ensures le(s[i], x) {
        if i < |s| - 1 { assert le(s[i], s[|s| - 1]); }
      }
    }
  }

  lemma {:induction false} SortSorted<T(!new)>(le: (T, T) -> bool, s: seq<T>)
    requires TotalOrder(le)
    ensures Sorted(le, Sort(le, s))
  {
    if s != [] {
      SortSorted(le, s[..|s| - 1]);
      InsertSorted(le, Sort(le, s[..|s| - 1]), s[|s| - 1]);
    }
  }

  // ----- comparing rankings by how many entries are at most x -----

  ghost function AtMost<T>(key: T -> real, s: seq<T>, x: real): nat {
    if s == [] then 0 else
      AtMost(key, s[..|s| - 1], x) + (if key(s[|s| - 1]) <= x then 1 else 0)
  }

  lemma {:induction false} InsertAtMost<T>(le: (T, T) -> bool, key: T -> real, s: seq<T>, e: T, x: real)
    ensures AtMost(key, Insert(le, s, e), x) == AtMost(key, s, x) + (if key(e) <= x then 1 else 0)
  {
    if s == [] || le(s[|s| - 1], e) {
      assert (s + [e])[..|s|] == s;
    } else {
      var init, last := s[..|s| - 1], s[|s| - 1];
      InsertAtMost(le, key, init, e, x);
      assert (Insert(le, init, e) + [last])[..|s|] == Insert(le, init, e);
    }
  }

  lemma {:induction false} SortAtMost<T>(le: (T, T) -> bool, key: T -> real, s: seq<T>, x: real)
    ensures AtMost(key, Sort(le, s), x) == AtMost(key, s, x)
  {
    if s != [] {
      SortAtMost(le, key, s[..|s| - 1], x);
      InsertAtMost(le, key, Sort(le, s[..|s| - 1]), s[|s| - 1], x);
    }
  }

  ghost predicate Ascending<T(!new)>(key: T -> real, s: seq<T>) {
    forall i, j :: 0 <= i < j < |s| ==> key(s[i]) <= key(s[j])
  }

  lemma {:induction false} AtMostOfPrefix<T(!new)>(key: T -> real, s: seq<T>, i: nat, x: real)
    requires Ascending(key, s) && i < |s| && key(s[i]) <= x
    ensures AtMost(key, s, x) >= i + 1
  {
    if i < |s| - 1 {
      AtMostOfPrefix(key, s[..|s| - 1], i, x);
    } else if i > 0 {
      AtMostOfPrefix(key, s[..|s| - 1], i - 1, x);
    }
  }

  lemma {:induction false} AtMostBound<T(!new)>(key: T -> real, s: seq<T>, i: nat, x: real)
    requires Ascending(key, s) && i <= |s| && (i < |s| ==> key(s[i]) > x)
    ensures AtMost(key, s, x) <= i
  {
    if i < |s| {
      AtMostBound(key, s[..|s| - 1], i, x);
    } else if |s| > 0 {
      AtMostBound(key, s[..|s| - 1], |s| - 1, x);
    }
  }

  /** Position by position, `b` ranks no worse than `a`, and it is no shorter. */
  ghost predicate NoWorse<T(!new)>(key: T -> real, a: seq<T>, b: seq<T>) {
    |a| <= |b| && forall i :: 0 <= i < |a| ==> key(b[i]) <= key(a[i])
  }

  /** More entries at most `x`, for every `x`, means a ranking that is no worse at any position. */
  lemma MoreIsNoWorse<T(!new)>(key: T -> real, a: seq<T>, b: seq<T>)
    requires Ascending(key, a) && Ascending(key, b)
    requires forall x :: AtMost(key, a, x) <= AtMost(key, b, x)
    ensures NoWorse(key, a, b)
  {
    if |a| > |b| {
      AtMostOfPrefix(key, a, |b|, key(a[|b|]));
      AtMostBound(key, b, |b|, key(a[|b|]));
      assert false;
    }
    forall i | 0 <= i < |a| ensures key(b[i]) <= key(a[i]) {
      AtMostOfPrefix(key, a, i, key(a[i]));
      if key(b[i]) > key(a[i]) {
        AtMostBound(key, b, i, key(a[i]));
      }
    }
  }

  lemma {:induction false} AtMostGrows<T>(key: T -> real, s: seq<T>, k: nat, x: real)
    requires k <= |s|
    ensures AtMost(key, s[..k], x) <= AtMost(key, s, x)
  {
    if k < |s| {
      AtMostGrows(key, s[..|s| - 1], k, x);
      assert s[..|s| - 1][..k] == s[..k];
    } else {
      assert s[..k] == s;
    }
  }

  lemma TakeNoWorse<T(!new)>(key: T -> real, a: seq<T>, b: seq<T>, k: nat)
    requires NoWorse(key, a, b)
    ensures NoWorse(key, Take(a, k), Take(b, k))
  {
  }
}

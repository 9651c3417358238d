/** The two-stage search the quantizers share: rank candidates by the distance of their codes, keep some, and rank those
    by the exact distance. */
module TwoStage {
  import opened KMeans
  import opened Ranking
  import opened Pq
  import Sbq

  // ----- the search -----

  function ByKey(key: nat -> real): (nat, nat) -> bool {
    (a: nat, b: nat) => key(a) <= key(b)
  }

  /** Rank by the cheap distance, keep `k * of`, rank those exactly, keep `k`. */
  function Rerank(pool: seq<nat>, coarse: nat -> real, exact: nat -> real, k: nat, of: nat): seq<nat> {
    Take(Sort(ByKey(exact), Take(Sort(ByKey(coarse), pool), k * of)), k)
  }

  function BestOf(pool: seq<nat>, exact: nat -> real, k: nat): seq<nat> {
    Take(Sort(ByKey(exact), pool), k)
  }

  lemma KeyOrder(key: nat -> real)
    ensures TotalOrder(ByKey(key))
  {
  }

  lemma SortedKeysAscend(key: nat -> real, s: seq<nat>)
    ensures Ranking.Ascending(key, Sort(ByKey(key), s))
  {
    KeyOrder(key);
    SortSorted(ByKey(key), s);
  }

  lemma MoreEntriesRankNoWorse(exact: nat -> real, a: seq<nat>, b: seq<nat>, k: nat)
    requires forall x :: AtMost(exact, a, x) <= AtMost(exact, b, x)
    ensures NoWorse(exact, Take(Sort(ByKey(exact), a), k), Take(Sort(ByKey(exact), b), k))
  {
    forall x ensures AtMost(exact, Sort(ByKey(exact), a), x) <= AtMost(exact, Sort(ByKey(exact), b), x) {
      SortAtMost(ByKey(exact), exact, a, x);
      SortAtMost(ByKey(exact), exact, b, x);
    }
    SortedKeysAscend(exact, a);
    SortedKeysAscend(exact, b);
    MoreIsNoWorse(exact, Sort(ByKey(exact), a), Sort(ByKey(exact), b));
    TakeNoWorse(exact, Sort(ByKey(exact), a), Sort(ByKey(exact), b), k);
  }

  lemma TakeAtMost(exact: nat -> real, s: seq<nat>, m: nat, n: nat, x: real)
    requires m <= n
    ensures AtMost(exact, Take(s, m), x) <= AtMost(exact, Take(s, n), x)
  {
    if m < |s| {
      var t := Take(s, n);
      assert t[..m] == s[..m];
      AtMostGrows(exact, t, m, x);
    }
  }

  /** Fetching more candidates never worsens any position of the result. */
  lemma OverFetchImproves(pool: seq<nat>, coarse: nat -> real, exact: nat -> real, k: nat, of1: nat, of2: nat)
    requires of1 <= of2
    ensures NoWorse(exact, Rerank(pool, coarse, exact, k, of1), Rerank(pool, coarse, exact, k, of2))
  {
    var s := Sort(ByKey(coarse), pool);
    TimesMonotone(of1, of2, k);
    assert k * of1 == of1 * k && k * of2 == of2 * k;
    forall x ensures AtMost(exact, Take(s, k * of1), x) <= AtMost(exact, Take(s, k * of2), x) {
      TakeAtMost(exact, s, k * of1, k * of2, x);
    }
    MoreEntriesRankNoWorse(exact, Take(s, k * of1), Take(s, k * of2), k);
  }

  /** The result is never better than ranking the whole pool exactly, and when `k * of` covers the pool it has the
      same distances at every position. */
  lemma FullFetchIsExact(pool: seq<nat>, coarse: nat -> real, exact: nat -> real, k: nat, of: nat)
    ensures NoWorse(exact, Rerank(pool, coarse, exact, k, of), BestOf(pool, exact, k))
    ensures k * of >= |pool| ==>
      var r, best := Rerank(pool, coarse, exact, k, of), BestOf(pool, exact, k);
      |r| == |best| && forall i :: 0 <= i < |r| ==> exact(r[i]) == exact(best[i])
  {
    var s := Sort(ByKey(coarse), pool);
    var kept := Take(s, k * of);
    forall x ensures AtMost(exact, kept, x) <= AtMost(exact, pool, x) {
      SortAtMost(ByKey(coarse), exact, pool, x);
      if k * of < |s| { AtMostGrows(exact, s, k * of, x); }
    }
    MoreEntriesRankNoWorse(exact, kept, pool, k);
    if k * of >= |pool| {
      forall x ensures AtMost(exact, pool, x) <= AtMost(exact, kept, x) {
        SortAtMost(ByKey(coarse), exact, pool, x);
      }
      MoreEntriesRankNoWorse(exact, pool, kept, k);
    }
  }

  // ----- which candidates survive the first stage -----

  /** How many entries have a key below `x`. */
  ghost function Below(key: nat -> real, s: seq<nat>, x: real): nat {
    if s == [] then 0 else Below(key, s[..|s| - 1], x) + (if key(s[|s| - 1]) < x then 1 else 0)
  }

  lemma {:induction false} InsertBelow(le: (nat, nat) -> bool, key: nat -> real, s: seq<nat>, e: nat, x: real)
    ensures Below(key, Insert(le, s, e), x) == Below(key, s, x) + (if key(e) < x then 1 else 0)
  {
    if s == [] || le(s[|s| - 1], e) {
      assert (s + [e])[..|s|] == s;
    } else {
      var init, last := s[..|s| - 1], s[|s| - 1];
      InsertBelow(le, key, init, e, x);
      assert (Insert(le, init, e) + [last])[..|s|] == Insert(le, init, e);
    }
  }

  lemma {:induction false} SortBelow(le: (nat, nat) -> bool, key: nat -> real, s: seq<nat>, x: real)
    ensures Below(key, Sort(le, s), x) == Below(key, s, x)
  {
    if s != [] {
      SortBelow(le, key, s[..|s| - 1], x);
      InsertBelow(le, key, Sort(le, s[..|s| - 1]), s[|s| - 1], x);
    }
  }

  /** In an ascending sequence only entries before position `p` have smaller keys. */
  lemma {:induction false} BelowPosition(key: nat -> real, s: seq<nat>, p: nat)
    requires Ranking.Ascending(key, s) && p < |s|
    ensures Below(key, s, key(s[p])) <= p
  {
    if p < |s| - 1 {
      BelowPosition(key, s[..|s| - 1], p);
    } else {
      BelowLength(key, s[..|s| - 1], key(s[p]));
    }
  }

  lemma {:induction false} BelowLength(key: nat -> real, s: seq<nat>, x: real)
    ensures Below(key, s, x) <= |s|
  {
    if s != [] { BelowLength(key, s[..|s| - 1], x); }
  }

  /** The first stage keeps candidates with fewer than `n` others strictly nearer. */
  lemma KeptIsNear(pool: seq<nat>, key: nat -> real, n: nat, e: nat)
    requires e in Take(Sort(ByKey(key), pool), n)
    ensures e in pool && Below(key, pool, key(e)) < n
  {
    hide Sort;
    var s := Sort(ByKey(key), pool);
    SortedKeysAscend(key, pool);
    SortMembers(ByKey(key), pool);
    SortBelow(ByKey(key), key, pool, key(e));
    var p :| 0 <= p < |Take(s, n)| && Take(s, n)[p] == e;
    assert e in multiset(s);
    BelowPosition(key, s, p);
  }

  /** And it drops candidates only when more than `n` are no farther, themselves included. */
  lemma DroppedIsFar(pool: seq<nat>, key: nat -> real, n: nat, e: nat)
    requires e in pool && e !in Take(Sort(ByKey(key), pool), n)
    ensures AtMost(key, pool, key(e)) > n
  {
    hide Sort;
    var s := Sort(ByKey(key), pool);
    SortedKeysAscend(key, pool);
    SortMembers(ByKey(key), pool);
    SortAtMost(ByKey(key), key, pool, key(e));
    assert e in multiset(s);
    var p :| 0 <= p < |s| && s[p] == e;
    TakeHas(s, n, p);
    AtMostOfPrefix(key, s, p, key(e));
  }

  // ----- what the search returns -----

  lemma TakeHas(s: seq<nat>, n: nat, p: nat)
    requires p < |s|
    ensures p < n ==> s[p] in Take(s, n)
  {
    if p < n { assert Take(s, n)[p] == s[p]; }
  }

  lemma StagedResults(pool: seq<nat>, coarse: nat -> real, exact: nat -> real, n: nat, k: nat)
    ensures var r := Take(Sort(ByKey(exact), Take(Sort(ByKey(coarse), pool), n)), k);
      && |r| <= k && multiset(r) <= multiset(pool) && Ranking.Ascending(exact, r)
      && forall e :: e in r ==> Below(coarse, pool, coarse(e)) < n
  {
    hide Sort, Below;
    var s := Sort(ByKey(coarse), pool);
    var kept := Take(s, n);
    var sorted := Sort(ByKey(exact), kept);
    SortMembers(ByKey(coarse), pool);
    SortMembers(ByKey(exact), kept);
    TakeWithin(s, n);
    TakeWithin(sorted, k);
    SortedKeysAscend(exact, kept);
    var r := Take(sorted, k);
    forall e | e in r ensures Below(coarse, pool, coarse(e)) < n {
      assert e in multiset(r);
      assert e in multiset(kept);
      KeptIsNear(pool, coarse, n, e);
    }
  }

  /** Every result is a candidate with fewer than `k * of` others strictly nearer by its code, and results are in order of
      exact distance. */
  lemma ResultsAreNear(pool: seq<nat>, coarse: nat -> real, exact: nat -> real, k: nat, of: nat)
    ensures var r := Rerank(pool, coarse, exact, k, of);
      && |r| <= k && multiset(r) <= multiset(pool)
      && (forall e :: e in r ==> Below(coarse, pool, coarse(e)) < k * of)
      && forall i, j :: 0 <= i < j < |r| ==> exact(r[i]) <= exact(r[j])
  {
    hide Sort, Below, Take;
    StagedResults(pool, coarse, exact, k * of, k);
  }

  /** A candidate is left out only when more than `k * of` are no farther by their codes, or `k` results are no farther
      exactly. */
  lemma LeftOutIsFar(pool: seq<nat>, coarse: nat -> real, exact: nat -> real, k: nat, of: nat, e: nat)
    requires e in pool && e !in Rerank(pool, coarse, exact, k, of)
    ensures var r := Rerank(pool, coarse, exact, k, of);
      || AtMost(coarse, pool, coarse(e)) > k * of
      || (|r| == k && forall x :: x in r ==> exact(x) <= exact(e))
  {
    hide Sort;
    var kept := Take(Sort(ByKey(coarse), pool), k * of);
    if e !in kept {
      DroppedIsFar(pool, coarse, k * of, e);
    } else {
      var sorted := Sort(ByKey(exact), kept);
      SortedKeysAscend(exact, kept);
      SortMembers(ByKey(exact), kept);
      assert e in multiset(sorted);
      var p :| 0 <= p < |sorted| && sorted[p] == e;
      TakeHas(sorted, k, p);
      var r := Rerank(pool, coarse, exact, k, of);
      forall x | x in r ensures exact(x) <= exact(e) {
        var i :| 0 <= i < |r| && r[i] == x;
        assert sorted[i] == x;
      }
    }
  }

  lemma RerankLength(pool: seq<nat>, coarse: nat -> real, exact: nat -> real, k: nat, of: nat)
    ensures |Rerank(pool, coarse, exact, k, of)| == Min(k, Min(k * of, |pool|))
  {
    hide Sort;
  }

  function Min(a: nat, b: nat): nat {
    if a < b then a else b
  }

  // ----- with product codes -----

  ghost predicate Searchable(q: Quantizer, corpus: seq<Vec>, query: Vec, pool: seq<nat>) {
    && q.Valid() && |query| == q.m * q.subDim && SameDim(corpus, |query|)
    && forall e :: e in pool ==> e < |corpus|
  }

  /** The table sum of a stored vector's code. */
  ghost function CodeSum(root: real -> real, q: Quantizer, corpus: seq<Vec>, query: Vec): (key: nat -> real)
    requires Searchable(q, corpus, query, [])
    ensures forall e: nat :: e < |corpus| ==> key(e) == Adc(q.Lut(root, query), q.Code(corpus[e]))
  {
    var sums := seq(|corpus|, e requires 0 <= e < |corpus| => Adc(q.Lut(root, query), q.Code(corpus[e])));
    (e: nat) => if e < |sums| then sums[e] else 0.0
  }

  ghost function Distances(root: real -> real, corpus: seq<Vec>, query: Vec): (key: nat -> real)
    requires SameDim(corpus, |query|)
    ensures forall e: nat :: e < |corpus| ==> key(e) == L2(root, corpus[e], query)
  {
    var far := seq(|corpus|, e requires 0 <= e < |corpus| => L2(root, corpus[e], query));
    (e: nat) => if e < |far| then far[e] else 0.0
  }

  /** What the search over product codes returns, by position in the corpus. */
  ghost function ProductResults(root: real -> real, q: Quantizer, corpus: seq<Vec>, query: Vec, pool: seq<nat>, k: nat,
                                of: nat): (r: seq<nat>)
    requires Searchable(q, corpus, query, pool)
    ensures forall x :: x in r ==> x in pool
  {
    var sums, far := CodeSum(root, q, corpus, query), Distances(root, corpus, query);
    ResultsInPool(pool, sums, far, k, of);
    Rerank(pool, sums, far, k, of)
  }

  lemma ResultsInPool(pool: seq<nat>, coarse: nat -> real, exact: nat -> real, k: nat, of: nat)
    ensures forall x :: x in Rerank(pool, coarse, exact, k, of) ==> x in pool
  {
    hide Rerank;
    ResultsAreNear(pool, coarse, exact, k, of);
    forall x | x in Rerank(pool, coarse, exact, k, of) ensures x in pool {
      assert x in multiset(Rerank(pool, coarse, exact, k, of));
      assert x in multiset(pool);
    }
  }

  /** The search over product codes: a result has fewer than `k * of` candidates whose codes have a smaller table sum than
      its own, and a candidate is left out only when more than `k * of` have no greater sum, or `k` results are no
      farther. */
  lemma ProductSearch(root: real -> real, q: Quantizer, corpus: seq<Vec>, query: Vec, pool: seq<nat>, k: nat, of: nat,
                      e: nat)
    requires Searchable(q, corpus, query, pool) && e in pool
    ensures var sums, far := CodeSum(root, q, corpus, query), Distances(root, corpus, query);
      var r, own := ProductResults(root, q, corpus, query, pool, k, of), Adc(q.Lut(root, query), q.Code(corpus[e]));
      && (e in r ==> Below(sums, pool, own) < k * of)
      && (e !in r ==> AtMost(sums, pool, own) > k * of || (|r| == k && forall x :: x in r ==> far(x) <= far(e)))
  {
    hide Rerank, Below, AtMost, Adc;
    var sums, far := CodeSum(root, q, corpus, query), Distances(root, corpus, query);
    ResultsAreNear(pool, sums, far, k, of);
    assert sums(e) == Adc(q.Lut(root, query), q.Code(corpus[e]));
    if e !in Rerank(pool, sums, far, k, of) { LeftOutIsFar(pool, sums, far, k, of, e); }
  }

  /** How many candidates have a table sum no greater than that of the query's own code. */
  ghost function AsNearByCode(root: real -> real, q: Quantizer, corpus: seq<Vec>, query: Vec, pool: seq<nat>): nat
    requires Searchable(q, corpus, query, pool)
  {
    AtMost(CodeSum(root, q, corpus, query), pool, Adc(q.Lut(root, query), q.Code(query)))
  }

  /** No candidate has a smaller table sum than the query's own code. */
  lemma QueryCodeIsLeast(root: real -> real, q: Quantizer, corpus: seq<Vec>, query: Vec, pool: seq<nat>)
    requires IsRoot(root) && Searchable(q, corpus, query, pool)
    ensures Below(CodeSum(root, q, corpus, query), pool, Adc(q.Lut(root, query), q.Code(query))) == 0
  {
    hide Below, Adc, IsRoot, Quantizer.Lut, Quantizer.Code;
    var sums := CodeSum(root, q, corpus, query);
    forall o | o in pool ensures sums(o) >= Adc(q.Lut(root, query), q.Code(query)) {
      EncodingMinimisesAdc(root, q, query, q.Code(corpus[o]));
    }
    NoneBelow(sums, pool, Adc(q.Lut(root, query), q.Code(query)));
  }

  ghost predicate BeginsWith(corpus: seq<Vec>, r: seq<nat>, v: Vec) {
    r != [] && r[0] < |corpus| && corpus[r[0]] == v
  }

  /** A stored copy of the query has the least table sum, so the search begins with a copy of the query unless more than
      `k * of` candidates share that sum. */
  lemma StoredQueryIsFound(root: real -> real, q: Quantizer, corpus: seq<Vec>, query: Vec, pool: seq<nat>, k: nat,
                           of: nat, e: nat)
    requires IsRoot(root) && Searchable(q, corpus, query, pool) && e in pool && corpus[e] == query && k >= 1
    requires AsNearByCode(root, q, corpus, query, pool) <= k * of
    ensures BeginsWith(corpus, ProductResults(root, q, corpus, query, pool, k, of), query)
  {
    hide Rerank, Below, AtMost, Adc, IsRoot, Quantizer.Lut, Quantizer.Code;
    var sums, far := CodeSum(root, q, corpus, query), Distances(root, corpus, query);
    var r := ProductResults(root, q, corpus, query, pool, k, of);
    ResultsAreNear(pool, sums, far, k, of);
    ProductSearch(root, q, corpus, query, pool, k, of, e);
    ExactDistance(root, corpus, query, e);
    if e in r {
      var p :| 0 <= p < |r| && r[p] == e;
    }
    assert r[0] in r;
    ExactDistance(root, corpus, query, r[0]);
  }

  lemma ExactDistance(root: real -> real, corpus: seq<Vec>, query: Vec, e: nat)
    requires IsRoot(root) && SameDim(corpus, |query|) && e < |corpus|
    ensures var far := Distances(root, corpus, query); far(e) >= 0.0 && (far(e) <= 0.0 <==> corpus[e] == query)
  {
    hide SqDist;
    SqDistNonNegative(corpus[e], query);
    SqDistZero(corpus[e], query);
    var x := SqDist(corpus[e], query);
    ZeroRoot(root(x), x);
  }

  lemma {:induction false} NoneBelow(key: nat -> real, s: seq<nat>, x: real)
    requires forall e :: e in s ==> key(e) >= x
    ensures Below(key, s, x) == 0
  {
    if s != [] {
      NoneBelow(key, s[..|s| - 1], x);
      assert s[|s| - 1] in s;
    }
  }

  // ----- with unary bit codes -----

  /** Every stored vector with its packed code, and the query with its own. */
  ghost predicate Coded(q: Sbq.Quantizer, corpus: seq<Vec>, codes: seq<seq<bv64>>, query: Vec, code: seq<bv64>) {
    && q.Fits(|query|) && SameDim(corpus, |query|) && |codes| == |corpus|
    && Sbq.Packed(code, q.Unary(query), q.bits)
    && forall e :: 0 <= e < |corpus| ==> Sbq.Packed(codes[e], q.Unary(corpus[e]), q.bits)
  }

  function Hammings(codes: seq<seq<bv64>>, code: seq<bv64>): (key: nat -> real)
    ensures forall e: nat :: e < |codes| ==> key(e) == Sbq.Hamming(code, codes[e]) as real
  {
    (e: nat) => if e < |codes| then Sbq.Hamming(code, codes[e]) as real else 0.0
  }

  lemma HammingIsCountDistance(q: Sbq.Quantizer, corpus: seq<Vec>, codes: seq<seq<bv64>>, query: Vec, code: seq<bv64>,
                               e: nat)
    requires Coded(q, corpus, codes, query, code) && e < |corpus|
    ensures Hammings(codes, code)(e) == Sbq.L1(q.Unary(query), q.Unary(corpus[e])) as real
  {
    hide Sbq.Hamming, Sbq.L1, Sbq.Packed;
    Sbq.HammingIsL1(code, codes[e], q.Unary(query), q.Unary(corpus[e]), q.bits);
  }

  /** The search over bit codes: a result has fewer than `k * of` candidates whose bit counts are nearer to the query's in
      L1 than its own, and a candidate is left out only when more than `k * of` are no farther, or `k` results are no
      farther exactly. */
  lemma BitSearch(root: real -> real, q: Sbq.Quantizer, corpus: seq<Vec>, codes: seq<seq<bv64>>, query: Vec,
                  code: seq<bv64>, pool: seq<nat>, k: nat, of: nat, e: nat)
    requires Coded(q, corpus, codes, query, code) && e in pool && forall o :: o in pool ==> o < |corpus|
    ensures var bits, far := Hammings(codes, code), Distances(root, corpus, query);
      var r, own := Rerank(pool, bits, far, k, of), Sbq.L1(q.Unary(query), q.Unary(corpus[e])) as real;
      && (e in r ==> Below(bits, pool, own) < k * of)
      && (e !in r ==> AtMost(bits, pool, own) > k * of || (|r| == k && forall x :: x in r ==> far(x) <= far(e)))
  {
    hide Rerank, Below, AtMost, Sbq.Hamming, Sbq.L1, Sbq.Packed;
    var bits, far := Hammings(codes, code), Distances(root, corpus, query);
    ResultsAreNear(pool, bits, far, k, of);
    HammingIsCountDistance(q, corpus, codes, query, code, e);
    if e !in Rerank(pool, bits, far, k, of) { LeftOutIsFar(pool, bits, far, k, of, e); }
  }
}

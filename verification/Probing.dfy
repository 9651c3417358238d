/** What a filtered search over a few partitions returns: the labelled rows of the partitions nearest to the query. */
module Probing {
  import opened FiniteSets
  import opened KMeans
  import opened Ranking
  import opened VIndex

  /** Centroid `j` comes before centroid `i`: it is nearer to the query, or as near with a lower number. */
  ghost predicate Nearer(x: Index, query: Vec, j: int, i: int)
    requires SameDim(x.centroids, |query|) && 0 <= i < |x.centroids| && 0 <= j < |x.centroids|
  {
    var dj, di := SqDist(x.centroids[j], query), SqDist(x.centroids[i], query);
    dj < di || (dj == di && j < i)
  }

  ghost function Ahead(x: Index, query: Vec, i: int): set<int>
    requires SameDim(x.centroids, |query|) && 0 <= i < |x.centroids|
  {
    set j | 0 <= j < |x.centroids| && Nearer(x, query, j, i)
  }

  /** Fewer than `probes` centroids come before the partition's, or it is the very nearest. */
  ghost predicate IsNear(x: Index, query: Vec, probes: nat, i: int)
    requires SameDim(x.centroids, |query|) && 0 <= i < |x.centroids|
  {
    Ahead(x, query, i) == {} || |Ahead(x, query, i)| < probes
  }

  // ----- sequences without repetition -----

  ghost predicate Distinct<T(!new)>(s: seq<T>) {
    forall i, j :: 0 <= i < j < |s| ==> s[i] != s[j]
  }

  lemma {:induction false} DistinctOnce<T(!new)>(s: seq<T>, e: T)
    requires Distinct(s)
    ensures multiset(s)[e] <= 1
  {
    if s != [] {
      var init, last := s[..|s| - 1], s[|s| - 1];
      assert s == init + [last];
      DistinctOnce(init, e);
      if e == last { assert e !in init && multiset(init)[e] == 0; }
    }
  }

  lemma OnceDistinct<T(!new)>(s: seq<T>)
    requires forall e :: multiset(s)[e] <= 1
    ensures Distinct(s)
  {
    forall i, j | 0 <= i < j < |s| ensures s[i] != s[j] {
      var before, after := s[..j], s[j + 1..];
      assert s == before + [s[j]] + after;
      assert before[i] == s[i];
      assert s[i] in multiset(before);
      assert multiset(s)[s[j]] == multiset(before)[s[j]] + 1 + multiset(after)[s[j]];
    }
  }

  lemma SortDistinct<T(!new)>(le: (T, T) -> bool, s: seq<T>)
    requires Distinct(s)
    ensures Distinct(Sort(le, s))
  {
    SortMembers(le, s);
    forall e ensures multiset(Sort(le, s))[e] <= 1 {
      DistinctOnce(s, e);
    }
    OnceDistinct(Sort(le, s));
  }

  /** The first `p` entries have `p` different numbers. */
  lemma {:induction false} NumbersOfPrefix(r: seq<Hit>, p: nat)
    requires p <= |r| && forall a, b :: 0 <= a < b < |r| ==> r[a].0 != r[b].0
    ensures |set t | 0 <= t < p :: r[t].0| == p
  {
    if p > 0 {
      NumbersOfPrefix(r, p - 1);
      assert (set t | 0 <= t < p :: r[t].0) == (set t | 0 <= t < p - 1 :: r[t].0) + {r[p - 1].0};
    }
  }

  // ----- which partitions are probed -----

  ghost function Scored(x: Index, root: real -> real, query: Vec): (s: seq<Hit>)
    requires SameDim(x.centroids, |query|)
    ensures |s| == |x.centroids| && forall i :: 0 <= i < |s| ==> s[i] == (i, L2(root, x.centroids[i], query))
    ensures x.Ranked(root, query) == Sort(HitLe, s)
  {
    seq(|x.centroids|, i requires 0 <= i < |x.centroids| && SameDim(x.centroids, |query|) =>
      (i, L2(root, x.centroids[i], query)))
  }

  /** The ranking lists every centroid once, with its distance. */
  lemma RankedIsScored(x: Index, root: real -> real, query: Vec)
    requires SameDim(x.centroids, |query|)
    ensures var r := x.Ranked(root, query);
      && |r| == |x.centroids| && Sorted(HitLe, r)
      && (forall a, b :: 0 <= a < b < |r| ==> r[a].0 != r[b].0)
      && (forall t :: 0 <= t < |r| ==> 0 <= r[t].0 < |r| && r[t].1 == L2(root, x.centroids[r[t].0], query))
  {
    hide Sort, L2, Index.Ranked;
    var s := Scored(x, root, query);
    var r := x.Ranked(root, query);
    HitOrder();
    SortSorted(HitLe, s);
    SortMembers(HitLe, s);
    SortDistinct(HitLe, s);
    forall t | 0 <= t < |r| ensures 0 <= r[t].0 < |r| && r[t] == (r[t].0, L2(root, x.centroids[r[t].0], query)) {
      assert r[t] in multiset(s);
      assert r[t] in s;
    }
    assert forall a, b :: 0 <= a < b < |r| ==> r[a] != r[b];
  }

  lemma PositionOf(x: Index, root: real -> real, query: Vec, i: nat) returns (p: nat)
    requires SameDim(x.centroids, |query|) && i < |x.centroids|
    ensures p < |x.Ranked(root, query)| && x.Ranked(root, query)[p].0 == i
  {
    hide Sort, L2, Index.Ranked;
    var s := Scored(x, root, query);
    SortMembers(HitLe, s);
    assert s[i] in multiset(s);
    assert s[i] in x.Ranked(root, query);
    p :| 0 <= p < |x.Ranked(root, query)| && x.Ranked(root, query)[p] == s[i];
  }

  /** A centroid's position in the ranking is the number of centroids before it. */
  lemma AheadIsPosition(x: Index, root: real -> real, query: Vec, p: nat)
    requires IsRoot(root) && SameDim(x.centroids, |query|) && p < |x.Ranked(root, query)|
    ensures 0 <= x.Ranked(root, query)[p].0 < |x.centroids| && |Ahead(x, query, x.Ranked(root, query)[p].0)| == p
  {
    hide IsRoot, L2, SqDist, Index.Ranked;
    RankedIsScored(x, root, query);
    var r := x.Ranked(root, query);
    var i := r[p].0;
    forall t: nat | t < |r| ensures Nearer(x, query, r[t].0, i) <==> t < p {
      NearerIsBefore(x, root, query, r[t], r[p]);
      if t < p { assert HitLe(r[t], r[p]); }
      if p < t { assert HitLe(r[p], r[t]); }
    }
    NumbersOfPrefix(r, p);
    forall j | 0 <= j < |x.centroids| && Nearer(x, query, j, i) ensures exists t :: 0 <= t < p && r[t].0 == j {
      var t := PositionOf(x, root, query, j);
      assert r[t].0 == j;
    }
    assert Ahead(x, query, i) == set t | 0 <= t < p :: r[t].0;
  }

  lemma NearerIsBefore(x: Index, root: real -> real, query: Vec, a: Hit, b: Hit)
    requires IsRoot(root) && SameDim(x.centroids, |query|) && 0 <= a.0 < |x.centroids| && 0 <= b.0 < |x.centroids|
    requires a.1 == L2(root, x.centroids[a.0], query) && b.1 == L2(root, x.centroids[b.0], query)
    ensures Nearer(x, query, a.0, b.0) <==> HitLe(a, b) && a.0 != b.0
  {
    hide IsRoot, SqDist;
    SqDistNonNegative(x.centroids[a.0], query);
    SqDistNonNegative(x.centroids[b.0], query);
    RootOrder(root, SqDist(x.centroids[a.0], query), SqDist(x.centroids[b.0], query));
    RootOrder(root, SqDist(x.centroids[b.0], query), SqDist(x.centroids[a.0], query));
  }

  /** Exactly the partitions with fewer than `probes` others before them are probed, and the nearest in any case. */
  lemma ProbedIffNear(x: Index, root: real -> real, query: Vec, probes: nat, i: int)
    requires IsRoot(root) && SameDim(x.centroids, |query|) && 0 <= i < |x.centroids|
    ensures var n := |x.centroids|;
      i in x.Probed(root, query, if probes < n then probes else n) <==> IsNear(x, query, probes, i)
  {
    hide IsRoot, L2, SqDist, Index.Ranked, Ahead;
    var r := x.Ranked(root, query);
    RankedIsScored(x, root, query);
    var p := PositionOf(x, root, query, i);
    AheadIsPosition(x, root, query, p);
    var n := |x.centroids|;
    var few := if probes < n then probes else n;
    var kept := Take(r, if few < 1 then 1 else few);
    if p < |kept| { assert kept[p] == r[p] && r[p] in kept; }
    if i in x.Probed(root, query, few) {
      var h :| h in kept && h.0 == i;
      var t :| 0 <= t < |kept| && kept[t] == h;
      assert r[t].0 == i;
    }
  }

  // ----- what is returned -----

  /** Row `i` has the label and lies in a near partition, or in any when there are no centroids. */
  ghost predicate Sought(x: Index, query: Vec, probes: nat, lab: int, i: int)
    requires x.Aligned() && x.Fits(query) && x.Partitioned()
  {
    0 <= i < |x.tid| && x.labels[i] == lab && (x.centroids == [] || IsNear(x, query, probes, x.partId[i]))
  }

  lemma {:induction false} CandidatesAre(x: Index, root: real -> real, query: Vec, lab: int, all: bool, probed: set<int>,
                                         n: nat, h: Hit)
    requires x.Aligned() && x.Fits(query) && n <= |x.tid|
    ensures h in x.Candidates(root, query, lab, all, probed, n) <==> exists i ::
      0 <= i < n && x.labels[i] == lab && (all || x.partId[i] in probed) && h == (x.tid[i], L2(root, query, x.vecs[i]))
  {
    if n > 0 {
      hide L2;
      CandidatesAre(x, root, query, lab, all, probed, n - 1, h);
      if h in x.Candidates(root, query, lab, all, probed, n - 1) {
        var i :| 0 <= i < n - 1 && x.labels[i] == lab && (all || x.partId[i] in probed)
          && h == (x.tid[i], L2(root, query, x.vecs[i]));
      }
    }
  }

  /** The candidates the search ranks are the scores of the sought rows. */
  lemma SearchRanks(x: Index, root: real -> real, query: Vec, k: nat, probes: nat, lab: int) returns (scored: seq<Hit>)
    requires IsRoot(root) && x.Aligned() && x.Fits(query) && x.Partitioned()
    ensures x.KnnFiltered(root, query, k, probes, lab) == TopK(scored, k)
    ensures forall h ::
      h in scored <==> exists i :: Sought(x, query, probes, lab, i) && h == (x.tid[i], L2(root, query, x.vecs[i]))
  {
    hide IsRoot, L2, Index.Candidates, Index.Probed, TopK, IsNear;
    var n := |x.centroids|;
    var probed := if n == 0 then {} else x.Probed(root, query, if probes < n then probes else n);
    scored := x.Candidates(root, query, lab, n == 0, probed, |x.tid|);
    forall i | 0 <= i < |x.tid| && n > 0 ensures x.partId[i] in probed <==> IsNear(x, query, probes, x.partId[i]) {
      ProbedIffNear(x, root, query, probes, x.partId[i]);
    }
    forall h
      ensures h in scored <==> exists i :: Sought(x, query, probes, lab, i) && h == (x.tid[i], L2(root, query, x.vecs[i]))
    {
      CandidatesAre(x, root, query, lab, n == 0, probed, |x.tid|, h);
      if h in scored {
        var i :| 0 <= i < |x.tid| && x.labels[i] == lab && (n == 0 || x.partId[i] in probed)
          && h == (x.tid[i], L2(root, query, x.vecs[i]));
        assert Sought(x, query, probes, lab, i);
      }
    }
  }

  /** Every hit is a labelled row of a near partition with its distance, and hits are in order of distance, ties by row
      number. */
  lemma HitsAreNear(x: Index, root: real -> real, query: Vec, k: nat, probes: nat, lab: int)
    requires IsRoot(root) && x.Aligned() && x.Fits(query) && x.Partitioned()
    ensures var r := x.KnnFiltered(root, query, k, probes, lab);
      && |r| <= k
      && (forall h :: h in r ==>
            exists i :: Sought(x, query, probes, lab, i) && h == (x.tid[i], L2(root, query, x.vecs[i])))
      && forall a, b :: 0 <= a < b < |r| ==> r[a].1 < r[b].1 || (r[a].1 == r[b].1 && r[a].0 <= r[b].0)
  {
    hide IsRoot, L2, Sort, Sought, Index.KnnFiltered;
    var scored := SearchRanks(x, root, query, k, probes, lab);
    HitOrder();
    SortSorted(HitLe, scored);
    SortMembers(HitLe, scored);
    var sorted := Sort(HitLe, scored);
    TakeWithin(sorted, k);
    var r := x.KnnFiltered(root, query, k, probes, lab);
    forall h | h in r ensures h in scored {
      var p :| 0 <= p < |r| && r[p] == h;
      assert h in multiset(scored);
    }
  }

  /** No labelled row of a near partition is left out, unless k hits come no later. */
  lemma NearIsFound(x: Index, root: real -> real, query: Vec, k: nat, probes: nat, lab: int, i: int)
    requires IsRoot(root) && x.Aligned() && x.Fits(query) && x.Partitioned() && Sought(x, query, probes, lab, i)
    ensures var r, d := x.KnnFiltered(root, query, k, probes, lab), L2(root, query, x.vecs[i]);
      || (x.tid[i], d) in r
      || (|r| == k && forall h :: h in r ==> h.1 < d || (h.1 == d && h.0 <= x.tid[i]))
  {
    hide IsRoot, L2, Sort, IsNear, Index.KnnFiltered;
    var scored := SearchRanks(x, root, query, k, probes, lab);
    HitOrder();
    SortSorted(HitLe, scored);
    SortMembers(HitLe, scored);
    var sorted := Sort(HitLe, scored);
    var h := (x.tid[i], L2(root, query, x.vecs[i]));
    assert h in scored;
    assert h in multiset(sorted);
    var p :| 0 <= p < |sorted| && sorted[p] == h;
    if p < k { assert Take(sorted, k)[p] == h; }
  }
}

/** The vector index stored as columns: filtered top-k search over the probed partitions against the exact
    filtered search. */
module VIndex {
  import opened KMeans
  import opened Ranking

  /** A row number and its distance from the query. */
  type Hit = (int, real)

  /** By distance, ties by row number. */
  predicate HitLe(a: Hit, b: Hit) {
    a.1 < b.1 || (a.1 == b.1 && a.0 <= b.0)
  }

  function HitKey(h: Hit): real {
    h.1
  }

  lemma HitOrder()
    ensures TotalOrder(HitLe)
  {
  }

  function TopK(scored: seq<Hit>, k: nat): seq<Hit> {
    Take(Sort(HitLe, scored), k)
  }

  datatype Index = Index(tid: seq<int>, partId: seq<int>, labels: seq<int>, vecs: seq<Vec>, centroids: seq<Vec>) {

    ghost predicate Aligned() {
      |tid| == |partId| == |labels| == |vecs|
    }

    /** The query has the dimension of every stored vector, as `check_query_dim` demands. */
    ghost predicate Fits(query: Vec) {
      SameDim(vecs, |query|) && SameDim(centroids, |query|)
    }

    /** Every row lies in some partition, as building assigns it. */
    ghost predicate Partitioned() {
      centroids != [] ==> forall i :: 0 <= i < |partId| ==> 0 <= partId[i] < |centroids|
    }

    function Score(root: real -> real, query: Vec, i: nat): Hit
      requires Aligned() && Fits(query) && i < |tid|
    {
      (tid[i], L2(root, query, vecs[i]))
    }

    /** The scored rows below `n` with the label and, unless `all`, a probed partition. */
    function Candidates(root: real -> real, query: Vec, lab: int, all: bool, probed: set<int>, n: nat): seq<Hit>
      requires Aligned() && Fits(query) && n <= |tid|
    {
      if n == 0 then [] else
        Candidates(root, query, lab, all, probed, n - 1)
        + (if labels[n - 1] == lab && (all || partId[n - 1] in probed) then [Score(root, query, n - 1)] else [])
    }

    function ExactFiltered(root: real -> real, query: Vec, k: nat, lab: int): seq<Hit>
      requires Aligned() && Fits(query)
    {
      TopK(Candidates(root, query, lab, true, {}, |tid|), k)
    }

    function Ranked(root: real -> real, query: Vec): seq<Hit>
      requires SameDim(centroids, |query|)
    {
      Sort(HitLe, seq(|centroids|, i requires 0 <= i < |centroids| && SameDim(centroids, |query|) =>
                        (i, L2(root, centroids[i], query))))
    }

    /** The partitions of the `probes` nearest centroids, at least one. */
    function Probed(root: real -> real, query: Vec, probes: nat): set<int>
      requires SameDim(centroids, |query|)
    {
      set h | h in Take(Ranked(root, query), if probes < 1 then 1 else probes) :: h.0
    }

    function KnnFiltered(root: real -> real, query: Vec, k: nat, probes: nat, lab: int): seq<Hit>
      requires Aligned() && Fits(query)
    {
      if centroids == [] then TopK(Candidates(root, query, lab, true, {}, |tid|), k)
      else
        var probed := Probed(root, query, if probes < |centroids| then probes else |centroids|);
        TopK(Candidates(root, query, lab, false, probed, |tid|), k)
    }

    // ----- full probe -----

    lemma AllProbed(root: real -> real, query: Vec, probes: nat, i: nat)
      requires SameDim(centroids, |query|) && probes >= |centroids| && i < |centroids|
      ensures i in Probed(root, query, probes)
    {
      var scored := seq(|centroids|, i requires 0 <= i < |centroids| && SameDim(centroids, |query|) =>
                          (i, L2(root, centroids[i], query)));
      SortMembers(HitLe, scored);
      assert scored[i] in multiset(scored);
      assert scored[i] in Ranked(root, query);
    }

    lemma {:induction false} SameCandidates(root: real -> real, query: Vec, lab: int, probed: set<int>, n: nat)
      requires Aligned() && Fits(query) && n <= |tid|
      requires forall i :: 0 <= i < n ==> partId[i] in probed
      ensures Candidates(root, query, lab, false, probed, n) == Candidates(root, query, lab, true, {}, n)
    {
      if n > 0 { SameCandidates(root, query, lab, probed, n - 1); }
    }

    /** With every partition probed, or without centroids, the search returns exactly the exact answer. */
    lemma FullProbeIsExact(root: real -> real, query: Vec, k: nat, probes: nat, lab: int)
      requires Aligned() && Fits(query) && Partitioned() && (centroids == [] || probes >= |centroids|)
      ensures KnnFiltered(root, query, k, probes, lab) == ExactFiltered(root, query, k, lab)
    {
      if centroids != [] {
        var probed := Probed(root, query, |centroids|);
        forall i | 0 <= i < |tid| ensures partId[i] in probed {
          AllProbed(root, query, |centroids|, partId[i]);
        }
        SameCandidates(root, query, lab, probed, |tid|);
      }
    }

    // ----- fewer probes -----

    lemma MoreProbesProbeMore(root: real -> real, query: Vec, p: nat, q: nat)
      requires SameDim(centroids, |query|) && p <= q
      ensures Probed(root, query, p) <= Probed(root, query, q)
    {
      var r := Ranked(root, query);
      var a, b := Take(r, if p < 1 then 1 else p), Take(r, if q < 1 then 1 else q);
      forall h | h in a ensures h in b {
        var i :| 0 <= i < |a| && a[i] == h;
        assert b[i] == h;
      }
    }

    lemma {:induction false} MoreCandidates(root: real -> real, query: Vec, lab: int, all: bool, p: set<int>,
                                            q: set<int>, n: nat, x: real)
      requires Aligned() && Fits(query) && n <= |tid| && p <= q
      ensures AtMost(HitKey, Candidates(root, query, lab, false, p, n), x)
           <= AtMost(HitKey, Candidates(root, query, lab, all, q, n), x)
    {
      if n > 0 {
        MoreCandidates(root, query, lab, all, p, q, n - 1, x);
        var h := Score(root, query, n - 1);
        AtMostSnoc(Candidates(root, query, lab, false, p, n - 1), h, x);
        AtMostSnoc(Candidates(root, query, lab, all, q, n - 1), h, x);
      }
    }

    lemma RankingImproves(root: real -> real, query: Vec, k: nat, lab: int, all: bool, p: set<int>, q: set<int>)
      requires Aligned() && Fits(query) && p <= q
      ensures NoWorse(HitKey, TopK(Candidates(root, query, lab, false, p, |tid|), k),
                      TopK(Candidates(root, query, lab, all, q, |tid|), k))
    {
      var a, b := Candidates(root, query, lab, false, p, |tid|), Candidates(root, query, lab, all, q, |tid|);
      HitOrder();
      SortedHitsAscend(a);
      SortedHitsAscend(b);
      forall x ensures AtMost(HitKey, Sort(HitLe, a), x) <= AtMost(HitKey, Sort(HitLe, b), x) {
        SortAtMost(HitLe, HitKey, a, x);
        SortAtMost(HitLe, HitKey, b, x);
        MoreCandidates(root, query, lab, all, p, q, |tid|, x);
      }
      MoreIsNoWorse(HitKey, Sort(HitLe, a), Sort(HitLe, b));
      TakeNoWorse(HitKey, Sort(HitLe, a), Sort(HitLe, b), k);
    }

    /** Probing more partitions never worsens any position, and no probe count beats the exact answer. */
    lemma ProbesImprove(root: real -> real, query: Vec, k: nat, p: nat, q: nat, lab: int)
      requires Aligned() && Fits(query) && p <= q
      ensures NoWorse(HitKey, KnnFiltered(root, query, k, p, lab), KnnFiltered(root, query, k, q, lab))
      ensures NoWorse(HitKey, KnnFiltered(root, query, k, p, lab), ExactFiltered(root, query, k, lab))
    {
      if centroids != [] {
        var n := |centroids|;
        var p', q' := if p < n then p else n, if q < n then q else n;
        MoreProbesProbeMore(root, query, p', q');
        RankingImproves(root, query, k, lab, false, Probed(root, query, p'), Probed(root, query, q'));
        AllOrProbed(root, query, lab, Probed(root, query, p'), |tid|);
        RankingImproves(root, query, k, lab, true, Probed(root, query, p'), Probed(root, query, p'));
      }
    }

    lemma {:induction false} AllOrProbed(root: real -> real, query: Vec, lab: int, p: set<int>, n: nat)
      requires Aligned() && Fits(query) && n <= |tid|
      ensures Candidates(root, query, lab, true, p, n) == Candidates(root, query, lab, true, {}, n)
    {
      if n > 0 { AllOrProbed(root, query, lab, p, n - 1); }
    }

    // ----- what the exact answer is -----

    lemma {:induction false} CandidateRows(root: real -> real, query: Vec, lab: int, n: nat, h: Hit)
      requires Aligned() && Fits(query) && n <= |tid|
      ensures h in Candidates(root, query, lab, true, {}, n)
         <==> exists i :: 0 <= i < n && labels[i] == lab && h == Score(root, query, i)
    {
      if n > 0 {
        CandidateRows(root, query, lab, n - 1, h);
        if h in Candidates(root, query, lab, true, {}, n - 1) {
          var i :| 0 <= i < n - 1 && labels[i] == lab && h == Score(root, query, i);
        }
      }
    }

    /** How many of the first `n` rows have the label. */
    function LabelCount(lab: int, n: nat): nat
      requires n <= |labels|
    {
      if n == 0 then 0 else LabelCount(lab, n - 1) + (if labels[n - 1] == lab then 1 else 0)
    }

    /** The hit is the score of a row with the label. */
    ghost predicate IsLabelledHit(root: real -> real, query: Vec, lab: int, h: Hit)
      requires Aligned() && Fits(query)
    {
      exists i :: 0 <= i < |tid| && labels[i] == lab && h == Score(root, query, i)
    }

    lemma {:induction false} CandidateCount(root: real -> real, query: Vec, lab: int, n: nat)
      requires Aligned() && Fits(query) && n <= |tid|
      ensures |Candidates(root, query, lab, true, {}, n)| == LabelCount(lab, n)
    {
      hide Score;
      if n > 0 { CandidateCount(root, query, lab, n - 1); }
    }

    /** The exact answer holds the score of a labelled row at every position, no row more often than it is stored, and
        is as long as k and the number of labelled rows allow. */
    lemma ExactHoldsLabelled(root: real -> real, query: Vec, k: nat, lab: int)
      requires Aligned() && Fits(query)
      ensures var r := ExactFiltered(root, query, k, lab);
        && (forall p :: 0 <= p < |r| ==> IsLabelledHit(root, query, lab, r[p]))
        && multiset(r) <= multiset(Candidates(root, query, lab, true, {}, |tid|))
        && |r| == if k < LabelCount(lab, |tid|) then k else LabelCount(lab, |tid|)
    {
      hide Sort, Candidates, Score;
      var scored := Candidates(root, query, lab, true, {}, |tid|);
      var sorted := Sort(HitLe, scored);
      SortMembers(HitLe, scored);
      CandidateCount(root, query, lab, |tid|);
      assert |sorted| == |multiset(sorted)| == |scored|;
      var r := Take(sorted, k);
      TakeWithin(sorted, k);
      forall p | 0 <= p < |r| ensures IsLabelledHit(root, query, lab, r[p]) {
        assert r[p] in multiset(scored);
        CandidateRows(root, query, lab, |tid|, r[p]);
      }
    }

    /** The exact answer is in order, and leaves out no labelled row that is better. */
    lemma ExactIsBest(root: real -> real, query: Vec, k: nat, lab: int, i: nat)
      requires Aligned() && Fits(query) && i < |tid| && labels[i] == lab
      ensures var r := ExactFiltered(root, query, k, lab);
        && Sorted(HitLe, r)
        && (Score(root, query, i) in r || (|r| == k && forall j :: 0 <= j < k ==> HitLe(r[j], Score(root, query, i))))
    {
      hide Sort, Candidates, Score;
      var scored := Candidates(root, query, lab, true, {}, |tid|);
      var sorted := Sort(HitLe, scored);
      HitOrder();
      SortSorted(HitLe, scored);
      SortMembers(HitLe, scored);
      var h := Score(root, query, i);
      CandidateRows(root, query, lab, |tid|, h);
      assert h in multiset(sorted);
      var p :| 0 <= p < |sorted| && sorted[p] == h;
      if p < k {
        assert Take(sorted, k)[p] == h;
      }
    }
  }

  lemma AtMostSnoc(s: seq<Hit>, h: Hit, x: real)
    ensures AtMost(HitKey, s + [h], x) == AtMost(HitKey, s, x) + (if h.1 <= x then 1 else 0)
    ensures AtMost(HitKey, s + [], x) == AtMost(HitKey, s, x)
  {
    assert (s + [h])[..|s|] == s;
    assert s + [] == s;
  }

  lemma SortedHitsAscend(s: seq<Hit>)
    ensures Ranking.Ascending(HitKey, Sort(HitLe, s))
  {
    HitOrder();
    SortSorted(HitLe, s);
  }

  /** One stored row: number, label, vector. */
  datatype StoredRow = StoredRow(tid: int, lab: int, v: Vec)

  /** Building assigns every row to its nearest centroid. */
  method Build(root: real -> real, rows: seq<StoredRow>, centroids: seq<Vec>, dim: nat) returns (r: Index)
    requires IsRoot(root) && SameDim(centroids, dim) && forall i :: 0 <= i < |rows| ==> |rows[i].v| == dim
    ensures r.Aligned() && r.Partitioned() && r.centroids == centroids && |r.tid| == |rows|
    ensures forall i :: 0 <= i < |rows| ==>
      && r.tid[i] == rows[i].tid && r.labels[i] == rows[i].lab && r.vecs[i] == rows[i].v
      && r.partId[i] == if centroids == [] then 0 else Nearest(rows[i].v, centroids)
  {
    hide IsRoot, Nearest;
    var tid, partId, labels, vecs := [], [], [], [];
    for i := 0 to |rows|
      invariant |tid| == |partId| == |labels| == |vecs| == i
      invariant forall j :: 0 <= j < i ==>
        && tid[j] == rows[j].tid && labels[j] == rows[j].lab && vecs[j] == rows[j].v
        && partId[j] == if centroids == [] then 0 else Nearest(rows[j].v, centroids)
    {
      var pid := 0;
      if centroids != [] {
        pid := NearestCentroid(root, rows[i].v, centroids);
      }
      tid, partId, labels, vecs := tid + [rows[i].tid], partId + [pid], labels + [rows[i].lab], vecs + [rows[i].v];
    }
    r := Index(tid, partId, labels, vecs, centroids);
  }
}

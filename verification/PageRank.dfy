/** Personalised PageRank by power iteration, over the reals. */
module PageRank {
  import opened RealSums
  import opened Graph
  import opened Adjacency
  import opened BuildCsr

  /** Undirected: `v` is listed at `u` as often as `u` at `v`, as building from edge rows guarantees. */
  ghost predicate Symmetric(g: Graph) {
    forall u: nat, v: nat :: u < |g| && v < |g| ==> multiset(g[u])[v] == multiset(g[v])[u]
  }

  /** What node `u` passes along each of its edge slots. */
  function Share(g: Graph, pi: seq<real>, u: nat): real
    requires u < |g| == |pi|
  {
    if |g[u]| > 0 then pi[u] / (|g[u]| as real) else 0.0
  }

  function Shares(g: Graph, pi: seq<real>): (w: seq<real>)
    requires |g| == |pi|
    ensures |w| == |g| && forall u :: 0 <= u < |g| ==> w[u] == Share(g, pi, u)
  {
    seq(|g|, u requires 0 <= u < |g| => Share(g, pi, u))
  }

  /** The sum of `w` over the listed nodes. */
  function Gather(xs: seq<nat>, w: seq<real>): real
    requires Below(xs, |w|)
  {
    if xs == [] then 0.0 else
      Gather(xs[..|xs| - 1], w) + w[xs[|xs| - 1]]
  }

  function Rank(g: Graph, s: seq<real>, d: real, pi: seq<real>, v: nat): real
    requires Closed(g) && |g| == |s| == |pi| && v < |g|
  {
    (1.0 - d) * s[v] + d * Gather(g[v], Shares(g, pi))
  }

  /** One power-iteration step. */
  function Next(g: Graph, s: seq<real>, d: real, pi: seq<real>): (r: seq<real>)
    requires Closed(g) && |g| == |s| == |pi|
    ensures |r| == |g| && forall v :: 0 <= v < |g| ==> r[v] == Rank(g, s, d, pi, v)
  {
    seq(|g|, v requires 0 <= v < |g| => Rank(g, s, d, pi, v))
  }

  ghost function Iterate(g: Graph, s: seq<real>, d: real, k: nat): (r: seq<real>)
    requires Closed(g) && |g| == |s|
    ensures |r| == |g|
  {
    if k == 0 then s else Next(g, s, d, Iterate(g, s, d, k - 1))
  }

  // ----- exchanging the order of summation -----

  ghost function Counts(xs: seq<nat>, n: nat): (r: seq<real>)
    ensures |r| == n && forall u :: 0 <= u < n ==> r[u] == multiset(xs)[u] as real
  {
    seq(n, u => multiset(xs)[u] as real)
  }

  ghost function Weighted(a: seq<real>, w: seq<real>): (r: seq<real>)
    requires |a| == |w|
    ensures |r| == |a| && forall u :: 0 <= u < |a| ==> r[u] == a[u] * w[u]
  {
    seq(|a|, u requires 0 <= u < |a| => a[u] * w[u])
  }

  /** Weighting distributes over a sum of coefficient vectors. */
  lemma WeightedSum(a: seq<real>, b: seq<real>, c: seq<real>, w: seq<real>)
    requires |a| == |b| == |c| == |w| && forall u :: 0 <= u < |a| ==> c[u] == a[u] + b[u]
    ensures Sum(Weighted(c, w)) == Sum(Weighted(a, w)) + Sum(Weighted(b, w))
  {
    hide Sum;
    forall u | 0 <= u < |a| ensures Weighted(c, w)[u] == Weighted(a, w)[u] + Weighted(b, w)[u] {
      ProductOfSum(a[u], b[u], w[u]);
    }
    SumAdd(Weighted(a, w), Weighted(b, w), Weighted(c, w));
  }

  lemma ProductOfSum(a: real, b: real, w: real)
    ensures (a + b) * w == a * w + b * w
  {
  }

  lemma WeightedZero(w: seq<real>)
    ensures Sum(Weighted(Counts([], |w|), w)) == 0.0
  {
    SumConstant(Weighted(Counts([], |w|), w), 0.0);
  }

  lemma WeightedUnit(x: nat, w: seq<real>)
    requires x < |w|
    ensures Sum(Weighted(Counts([x], |w|), w)) == w[x]
  {
    hide Sum;
    WeightedZero(w);
    SumPoint(Weighted(Counts([], |w|), w), x, w[x], Weighted(Counts([x], |w|), w));
  }

  lemma CountsSplit(xs: seq<nat>, x: nat, n: nat)
    ensures forall u :: 0 <= u < n ==> Counts(xs + [x], n)[u] == Counts(xs, n)[u] + Counts([x], n)[u]
  {
  }

  lemma {:induction false} GatherByNode(xs: seq<nat>, w: seq<real>)
    requires Below(xs, |w|)
    ensures Gather(xs, w) == Sum(Weighted(Counts(xs, |w|), w))
  {
    if xs == [] {
      WeightedZero(w);
    } else {
      var init, x := xs[..|xs| - 1], xs[|xs| - 1];
      GatherByNode(init, w);
      hide Sum, Weighted, Counts;
      assert xs == init + [x];
      CountsSplit(init, x, |w|);
      WeightedUnit(x, w);
      WeightedSum(Counts(init, |w|), Counts([x], |w|), Counts(xs, |w|), w);
    }
  }

  lemma {:induction false} CountsTotal(xs: seq<nat>, n: nat)
    requires Below(xs, n)
    ensures Sum(Counts(xs, n)) == |xs| as real
  {
    if xs == [] {
      SumConstant(Counts(xs, n), 0.0);
    } else {
      var init, x := xs[..|xs| - 1], xs[|xs| - 1];
      assert xs == init + [x];
      CountsTotal(init, n);
      SumPoint(Counts(init, n), x, 1.0, Counts(xs, n));
    }
  }

  /** How often `u` is listed by the first `m` nodes. */
  ghost function Column(g: Graph, m: nat, u: nat): real
    requires m <= |g|
  {
    if m == 0 then 0.0 else Column(g, m - 1, u) + multiset(g[m - 1])[u] as real
  }

  ghost function Columns(g: Graph, m: nat): (r: seq<real>)
    requires m <= |g|
    ensures |r| == |g| && forall u :: 0 <= u < |g| ==> r[u] == Column(g, m, u)
  {
    seq(|g|, u requires 0 <= u < |g| => Column(g, m, u))
  }

  lemma ColumnsNext(g: Graph, m: nat)
    requires 0 < m <= |g|
    ensures forall u :: 0 <= u < |g| ==> Columns(g, m)[u] == Columns(g, m - 1)[u] + Counts(g[m - 1], |g|)[u]
  {
  }

  ghost function Gathered(g: Graph, w: seq<real>, m: nat): (r: seq<real>)
    requires Closed(g) && |w| == |g| && m <= |g|
    ensures |r| == m && forall v :: 0 <= v < m ==> r[v] == Gather(g[v], w)
  {
    seq(m, v requires 0 <= v < m => Gather(g[v], w))
  }

  lemma GatheredNext(g: Graph, w: seq<real>, m: nat)
    requires Closed(g) && |w| == |g| && 0 < m <= |g|
    ensures Sum(Gathered(g, w, m)) == Sum(Gathered(g, w, m - 1)) + Gather(g[m - 1], w)
  {
    hide Gather, Sum;
    assert Gathered(g, w, m) == Gathered(g, w, m - 1) + [Gather(g[m - 1], w)];
    SumSnoc(Gathered(g, w, m - 1), Gather(g[m - 1], w));
  }

  lemma {:induction false} GatherAll(g: Graph, w: seq<real>, m: nat)
    requires Closed(g) && |w| == |g| && m <= |g|
    ensures Sum(Gathered(g, w, m)) == Sum(Weighted(Columns(g, m), w))
  {
    if m == 0 {
      SumConstant(Weighted(Columns(g, 0), w), 0.0);
    } else {
      GatherAll(g, w, m - 1);
      hide Sum, Gather, Column, Weighted, Counts, Gathered;
      GatheredNext(g, w, m);
      ColumnsNext(g, m);
      assert Below(g[m - 1], |g|);
      GatherByNode(g[m - 1], w);
      WeightedSum(Columns(g, m - 1), Counts(g[m - 1], |g|), Columns(g, m), w);
    }
  }

  lemma {:induction false} ColumnByRow(g: Graph, m: nat, u: nat)
    requires Symmetric(g) && m <= |g| && u < |g|
    ensures Column(g, m, u) == Sum(Counts(g[u], m))
  {
    if m > 0 {
      ColumnByRow(g, m - 1, u);
      assert Counts(g[u], m)[..m - 1] == Counts(g[u], m - 1);
    }
  }

  /** In an undirected graph a node is listed as often as it lists others. */
  lemma ColumnIsDegree(g: Graph, u: nat)
    requires Closed(g) && Symmetric(g) && u < |g|
    ensures Column(g, |g|, u) == |g[u]| as real
  {
    ColumnByRow(g, |g|, u);
    CountsTotal(g[u], |g|);
  }

  ghost function Connected(g: Graph, x: seq<real>): (r: seq<real>)
    requires |x| == |g|
    ensures |r| == |g| && forall u :: 0 <= u < |g| ==> r[u] == if |g[u]| > 0 then x[u] else 0.0
  {
    seq(|g|, u requires 0 <= u < |g| => if |g[u]| > 0 then x[u] else 0.0)
  }

  /** What all nodes gather together is what the connected nodes had: the walk loses no mass on edges. */
  lemma WalkConserves(g: Graph, x: seq<real>)
    requires Closed(g) && Symmetric(g) && |x| == |g|
    ensures Sum(Gathered(g, Shares(g, x), |g|)) == Sum(Connected(g, x))
  {
    hide Sum, Gather, Column, Symmetric;
    var w := Shares(g, x);
    GatherAll(g, w, |g|);
    forall u | 0 <= u < |g| ensures Weighted(Columns(g, |g|), w)[u] == Connected(g, x)[u] {
      ColumnIsDegree(g, u);
      if |g[u]| > 0 {
        ShareTimesDegree(x[u], |g[u]|);
      }
    }
    assert Weighted(Columns(g, |g|), w) == Connected(g, x);
  }

  lemma ShareTimesDegree(x: real, n: nat)
    requires n > 0
    ensures n as real * (x / (n as real)) == x
  {
  }

  // ----- mass -----

  ghost predicate NonNegative(x: seq<real>) {
    forall i :: 0 <= i < |x| ==> x[i] >= 0.0
  }

  /** The restart vector puts all mass on the seeds. */
  ghost predicate Distribution(s: seq<real>) {
    NonNegative(s) && Sum(s) == 1.0
  }

  lemma {:induction false} GatherNonNegative(xs: seq<nat>, w: seq<real>)
    requires NonNegative(w) && Below(xs, |w|)
    ensures Gather(xs, w) >= 0.0
    ensures Gather(xs, w) > 0.0 <==> exists i :: 0 <= i < |xs| && w[xs[i]] > 0.0
  {
    if xs != [] {
      var init := xs[..|xs| - 1];
      GatherNonNegative(init, w);
      if exists i :: 0 <= i < |xs| && w[xs[i]] > 0.0 {
        var i :| 0 <= i < |xs| && w[xs[i]] > 0.0;
        assert i < |xs| - 1 ==> w[init[i]] > 0.0;
      }
    }
  }

  lemma SharesNonNegative(g: Graph, pi: seq<real>)
    requires |g| == |pi| && NonNegative(pi)
    ensures NonNegative(Shares(g, pi))
    ensures forall u :: 0 <= u < |g| ==> (Shares(g, pi)[u] > 0.0 <==> |g[u]| > 0 && pi[u] > 0.0)
  {
    forall u | 0 <= u < |g|
      ensures Share(g, pi, u) >= 0.0 && (Share(g, pi, u) > 0.0 <==> |g[u]| > 0 && pi[u] > 0.0)
    {
      if |g[u]| > 0 { QuotientSign(pi[u], |g[u]|); }
    }
  }

  lemma QuotientSign(x: real, n: nat)
    requires x >= 0.0 && n > 0
    ensures x / (n as real) >= 0.0 && (x / (n as real) > 0.0 <==> x > 0.0)
  {
    ShareTimesDegree(x, n);
    if x > 0.0 && x / (n as real) <= 0.0 {
      ProductSign(n as real, -(x / (n as real)));
    }
  }

  lemma ProductSign(a: real, b: real)
    requires a >= 0.0 && b >= 0.0
    ensures a * b >= 0.0
    ensures a * b > 0.0 <==> a > 0.0 && b > 0.0
  {
  }

  ghost predicate HasRankedNeighbour(g: Graph, pi: seq<real>, v: nat)
    requires Closed(g) && |g| == |pi| && v < |g|
  {
    exists i :: 0 <= i < |g[v]| && PassesRank(g, pi, v, i)
  }

  ghost predicate PassesRank(g: Graph, pi: seq<real>, v: nat, i: nat)
    requires Closed(g) && |g| == |pi| && v < |g| && i < |g[v]|
  {
    assert Below(g[v], |g|);
    |g[g[v][i]]| > 0 && pi[g[v][i]] > 0.0
  }

  lemma RankNonNegative(g: Graph, s: seq<real>, d: real, pi: seq<real>, v: nat)
    requires Closed(g) && |g| == |s| == |pi| && NonNegative(s) && NonNegative(pi) && 0.0 <= d <= 1.0 && v < |g|
    ensures Rank(g, s, d, pi, v) >= 0.0
    ensures Rank(g, s, d, pi, v) > 0.0
       <==> (d < 1.0 && s[v] > 0.0) || (d > 0.0 && HasRankedNeighbour(g, pi, v))
  {
    hide Share, HasRankedNeighbour, Gather;
    SharesNonNegative(g, pi);
    assert Below(g[v], |g|);
    GatherNonNegative(g[v], Shares(g, pi));
    MixSign(d, s[v], Gather(g[v], Shares(g, pi)));
    GatherReaches(g, pi, v);
  }

  lemma MixSign(d: real, a: real, b: real)
    requires 0.0 <= d <= 1.0 && a >= 0.0 && b >= 0.0
    ensures (1.0 - d) * a + d * b >= 0.0
    ensures (1.0 - d) * a + d * b > 0.0 <==> (d < 1.0 && a > 0.0) || (d > 0.0 && b > 0.0)
  {
    ProductSign(1.0 - d, a);
    ProductSign(d, b);
  }

  lemma GatherReaches(g: Graph, pi: seq<real>, v: nat)
    requires Closed(g) && |g| == |pi| && NonNegative(pi) && v < |g|
    ensures Gather(g[v], Shares(g, pi)) > 0.0 <==> HasRankedNeighbour(g, pi, v)
  {
    hide Share, Gather;
    SharesNonNegative(g, pi);
    assert Below(g[v], |g|);
    GatherNonNegative(g[v], Shares(g, pi));
    if HasRankedNeighbour(g, pi, v) {
      var i :| 0 <= i < |g[v]| && PassesRank(g, pi, v, i);
      assert Shares(g, pi)[g[v][i]] > 0.0;
    }
    if Gather(g[v], Shares(g, pi)) > 0.0 {
      var i :| 0 <= i < |g[v]| && Shares(g, pi)[g[v][i]] > 0.0;
      assert PassesRank(g, pi, v, i);
    }
  }

  lemma {:induction false} IterateNonNegative(g: Graph, s: seq<real>, d: real, k: nat)
    requires Closed(g) && |g| == |s| && NonNegative(s) && 0.0 <= d <= 1.0
    ensures NonNegative(Iterate(g, s, d, k))
  {
    if k > 0 {
      IterateNonNegative(g, s, d, k - 1);
      hide Rank;
      var pi := Iterate(g, s, d, k - 1);
      forall v | 0 <= v < |g| ensures Rank(g, s, d, pi, v) >= 0.0 {
        RankNonNegative(g, s, d, pi, v);
      }
    }
  }

  /** The mass of the next iterate: the restart part plus what was on connected nodes. */
  lemma NextMass(g: Graph, s: seq<real>, d: real, pi: seq<real>)
    requires Closed(g) && Symmetric(g) && |g| == |s| == |pi|
    ensures Sum(Next(g, s, d, pi)) == (1.0 - d) * Sum(s) + d * Sum(Connected(g, pi))
  {
    hide Sum, Gather, Share, Symmetric;
    var gathered := Gathered(g, Shares(g, pi), |g|);
    NextIsMix(g, s, d, pi, gathered);
    WalkConserves(g, pi);
  }

  lemma NextIsMix(g: Graph, s: seq<real>, d: real, pi: seq<real>, gathered: seq<real>)
    requires Closed(g) && |g| == |s| == |pi| && gathered == Gathered(g, Shares(g, pi), |g|)
    ensures Sum(Next(g, s, d, pi)) == (1.0 - d) * Sum(s) + d * Sum(gathered)
  {
    hide Sum, Gather, Share;
    var a := seq(|g|, v requires 0 <= v < |g| => (1.0 - d) * s[v]);
    var b := seq(|g|, v requires 0 <= v < |g| => d * gathered[v]);
    SumScale(1.0 - d, s, a);
    SumScale(d, gathered, b);
    SumAdd(a, b, Next(g, s, d, pi));
  }

  ghost function Isolated(g: Graph, x: seq<real>): (r: seq<real>)
    requires |x| == |g|
    ensures |r| == |g| && forall u :: 0 <= u < |g| ==> r[u] == if |g[u]| > 0 then 0.0 else x[u]
  {
    seq(|g|, u requires 0 <= u < |g| => if |g[u]| > 0 then 0.0 else x[u])
  }

  lemma SplitMass(g: Graph, x: seq<real>)
    requires |x| == |g|
    ensures Sum(x) == Sum(Connected(g, x)) + Sum(Isolated(g, x))
  {
    hide Sum;
    SumAdd(Connected(g, x), Isolated(g, x), x);
  }

  /** An isolated node keeps only its restart share. */
  lemma NextIsolated(g: Graph, s: seq<real>, d: real, pi: seq<real>)
    requires Closed(g) && |g| == |s| == |pi|
    ensures Sum(Isolated(g, Next(g, s, d, pi))) == (1.0 - d) * Sum(Isolated(g, s))
  {
    hide Sum;
    SumScale(1.0 - d, Isolated(g, s), Isolated(g, Next(g, s, d, pi)));
  }

  ghost predicate MassInvariant(g: Graph, s: seq<real>, d: real, x: seq<real>, first: bool)
    requires |g| == |s| == |x|
  {
    && Sum(Isolated(g, x)) == (if first then 1.0 else 1.0 - d) * Sum(Isolated(g, s))
    && Sum(x) <= 1.0
    && (first ==> Sum(x) == 1.0)
    && (!first ==> (Sum(x) == 1.0 <==> d * Sum(Isolated(g, s)) == 0.0))
  }

  lemma MassInvariantNext(g: Graph, s: seq<real>, d: real, x: seq<real>, first: bool)
    requires Closed(g) && Symmetric(g) && |g| == |s| == |x| && Distribution(s) && 0.0 <= d < 1.0
    requires MassInvariant(g, s, d, x, first)
    ensures MassInvariant(g, s, d, Next(g, s, d, x), false)
  {
    hide Sum, Symmetric, Closed;
    SumPositive(Isolated(g, s));
    NextMass(g, s, d, x);
    NextIsolated(g, s, d, x);
    SplitMass(g, x);
    MassStep(d, Sum(Isolated(g, s)), Sum(x), Sum(Isolated(g, x)), Sum(Next(g, s, d, x)), first);
  }

  /** Total mass stays at most one, and after the first step it is one exactly when the damping is zero or no
      restart mass sits on an isolated node. */
  lemma {:induction false} IterateMass(g: Graph, s: seq<real>, d: real, k: nat)
    requires Closed(g) && Symmetric(g) && |g| == |s| && Distribution(s) && 0.0 <= d < 1.0
    ensures MassInvariant(g, s, d, Iterate(g, s, d, k), k == 0)
    ensures Sum(Iterate(g, s, d, k)) <= 1.0
    ensures k > 0 ==> (Sum(Iterate(g, s, d, k)) == 1.0 <==> d * Sum(Isolated(g, s)) == 0.0)
  {
    if k > 0 {
      IterateMass(g, s, d, k - 1);
      hide Sum, Symmetric, Closed, MassInvariant, Distribution;
      MassInvariantNext(g, s, d, Iterate(g, s, d, k - 1), k == 1);
    }
    MassInvariantMeans(g, s, d, Iterate(g, s, d, k), k == 0);
  }

  lemma MassInvariantMeans(g: Graph, s: seq<real>, d: real, x: seq<real>, first: bool)
    requires |g| == |s| == |x| && MassInvariant(g, s, d, x, first)
    ensures Sum(x) <= 1.0
    ensures !first ==> (Sum(x) == 1.0 <==> d * Sum(Isolated(g, s)) == 0.0)
  {
    hide Sum;
  }

  lemma MassStep(d: real, parked: real, mass: real, isolated: real, next: real, first: bool)
    requires 0.0 <= d < 1.0 && parked >= 0.0
    requires isolated == (if first then 1.0 else 1.0 - d) * parked
    requires next == (1.0 - d) + d * (mass - isolated)
    requires mass <= 1.0 && (first ==> mass == 1.0)
    requires !first ==> (mass == 1.0 <==> d * parked == 0.0)
    ensures next <= 1.0 && (next == 1.0 <==> d * parked == 0.0)
  {
    ProductSign(d, parked);
    ProductSign(1.0 - d, d * parked);
    ProductSign(d, 1.0 - mass);
    assert next == 1.0 - d * (1.0 - mass) - d * isolated;
    assert d * isolated == (if first then d * parked else (1.0 - d) * (d * parked));
  }

  // ----- contraction -----

  ghost function Gaps(a: seq<real>, b: seq<real>): (r: seq<real>)
    requires |a| == |b|
    ensures |r| == |a| && forall i :: 0 <= i < |a| ==> r[i] == Abs(a[i] - b[i])
  {
    seq(|a|, i requires 0 <= i < |a| => Abs(a[i] - b[i]))
  }

  /** The L1 distance. */
  ghost function Distance(a: seq<real>, b: seq<real>): real
    requires |a| == |b|
  {
    Sum(Gaps(a, b))
  }

  lemma {:induction false} GatherGap(xs: seq<nat>, wa: seq<real>, wb: seq<real>)
    requires |wa| == |wb| && Below(xs, |wa|)
    ensures Abs(Gather(xs, wa) - Gather(xs, wb)) <= Gather(xs, Gaps(wa, wb))
  {
    if xs != [] {
      GatherGap(xs[..|xs| - 1], wa, wb);
    }
  }

  lemma QuotientGap(a: real, b: real, n: nat)
    requires n > 0
    ensures Abs(a / (n as real) - b / (n as real)) == Abs(a - b) / (n as real)
  {
    var m := n as real;
    assert (a - b) / m == a / m - b / m;
    assert (b - a) / m == b / m - a / m;
    if a >= b { QuotientSign(a - b, n); } else { QuotientSign(b - a, n); }
  }

  lemma SharesGap(g: Graph, a: seq<real>, b: seq<real>)
    requires |g| == |a| == |b|
    ensures Gaps(Shares(g, a), Shares(g, b)) == Shares(g, Gaps(a, b))
  {
    hide Abs;
    forall u | 0 <= u < |g|
      ensures Abs(Share(g, a, u) - Share(g, b, u)) == Share(g, Gaps(a, b), u)
    {
      if |g[u]| > 0 {
        QuotientGap(a[u], b[u], |g[u]|);
      } else {
        assert Abs(0.0) == 0.0 by { AbsZero(); }
      }
    }
    assert Gaps(Shares(g, a), Shares(g, b)) == Shares(g, Gaps(a, b));
  }

  lemma AbsZero()
    ensures Abs(0.0) == 0.0
  {
  }

  lemma AbsScaled(d: real, c: real, x: real, y: real, bound: real)
    requires d >= 0.0 && Abs(x - y) <= bound
    ensures Abs((c + d * x) - (c + d * y)) <= d * bound
  {
    assert (c + d * x) - (c + d * y) == d * (x - y);
    if x >= y {
      ProductSign(d, bound - (x - y));
      ProductSign(d, x - y);
    } else {
      ProductSign(d, bound - (y - x));
      ProductSign(d, y - x);
    }
  }

  lemma RankGap(g: Graph, s: seq<real>, d: real, a: seq<real>, b: seq<real>, v: nat)
    requires Closed(g) && |g| == |s| == |a| == |b| && d >= 0.0 && v < |g|
    ensures Abs(Rank(g, s, d, a, v) - Rank(g, s, d, b, v)) <= d * Gathered(g, Shares(g, Gaps(a, b)), |g|)[v]
  {
    hide Gather, Abs, Share;
    assert Below(g[v], |g|);
    GatherGap(g[v], Shares(g, a), Shares(g, b));
    SharesGap(g, a, b);
    var restart := (1.0 - d) * s[v];
    var x, y := Gather(g[v], Shares(g, a)), Gather(g[v], Shares(g, b));
    AbsScaled(d, restart, x, y, Gather(g[v], Shares(g, Gaps(a, b))));
    assert Rank(g, s, d, a, v) == restart + d * x;
    assert Rank(g, s, d, b, v) == restart + d * y;
  }

  lemma GapsNonNegative(a: seq<real>, b: seq<real>)
    requires |a| == |b|
    ensures NonNegative(Gaps(a, b))
  {
  }

  /** One step brings any two vectors closer by the damping factor, in L1. */
  lemma NextContracts(g: Graph, s: seq<real>, d: real, a: seq<real>, b: seq<real>)
    requires Closed(g) && Symmetric(g) && |g| == |s| == |a| == |b| && d >= 0.0
    ensures Distance(Next(g, s, d, a), Next(g, s, d, b)) <= d * Distance(a, b)
  {
    hide Sum, Gather, Abs, Share, Symmetric, Rank;
    var gaps := Gaps(a, b);
    var gathered := Gathered(g, Shares(g, gaps), |g|);
    var scaled := seq(|g|, v requires 0 <= v < |g| => d * gathered[v]);
    forall v | 0 <= v < |g| ensures Gaps(Next(g, s, d, a), Next(g, s, d, b))[v] <= scaled[v] {
      RankGap(g, s, d, a, b, v);
    }
    SumLe(Gaps(Next(g, s, d, a), Next(g, s, d, b)), scaled);
    SumScale(d, gathered, scaled);
    WalkConserves(g, gaps);
    GapsNonNegative(a, b);
    SumLe(Connected(g, gaps), gaps);
    ProductSign(d, Sum(gaps) - Sum(Connected(g, gaps)));
    assert d * Sum(Connected(g, gaps)) <= d * Sum(gaps);
  }

  /** `x` is at most `d^k` times `z`. */
  ghost predicate Shrunk(x: real, d: real, k: nat, z: real) {
    x <= Power(d, k) * z
  }

  lemma ShrunkStart(d: real, z: real)
    ensures Shrunk(z, d, 0, z)
  {
  }

  lemma ShrunkNext(d: real, k: nat, x: real, y: real, z: real)
    requires d >= 0.0 && x <= d * y && Shrunk(y, d, k, z)
    ensures Shrunk(x, d, k + 1, z)
  {
    ProductSign(d, Power(d, k) * z - y);
    assert d * (Power(d, k) * z) == Power(d, k + 1) * z;
  }

  lemma NextShrinks(g: Graph, s: seq<real>, d: real, a: seq<real>, b: seq<real>, k: nat, z: real)
    requires Closed(g) && Symmetric(g) && |g| == |s| == |a| == |b| && d >= 0.0
    requires Shrunk(Distance(a, b), d, k, z)
    ensures Shrunk(Distance(Next(g, s, d, a), Next(g, s, d, b)), d, k + 1, z)
  {
    hide Distance, Next, Shrunk, Symmetric, Closed;
    NextContracts(g, s, d, a, b);
    ShrunkNext(d, k, Distance(Next(g, s, d, a), Next(g, s, d, b)), Distance(a, b), z);
  }

  /** Successive iterates: the step from `k` to `k + 1` is at most `d^k` times the first. */
  lemma {:induction false} StepShrinks(g: Graph, s: seq<real>, d: real, k: nat)
    requires Closed(g) && Symmetric(g) && |g| == |s| && d >= 0.0
    ensures Shrunk(Distance(Iterate(g, s, d, k + 1), Iterate(g, s, d, k)), d, k,
                   Distance(Iterate(g, s, d, 1), Iterate(g, s, d, 0)))
  {
    hide Distance, Next, Shrunk, Iterate, Symmetric, Closed;
    var z := Distance(Iterate(g, s, d, 1), Iterate(g, s, d, 0));
    if k > 0 {
      StepShrinks(g, s, d, k - 1);
      IterateNext(g, s, d, k);
      IterateNext(g, s, d, k - 1);
      NextShrinks(g, s, d, Iterate(g, s, d, k), Iterate(g, s, d, k - 1), k - 1, z);
    } else {
      ShrunkStart(d, z);
    }
  }

  lemma IterateNext(g: Graph, s: seq<real>, d: real, k: nat)
    requires Closed(g) && |g| == |s|
    ensures Iterate(g, s, d, k + 1) == Next(g, s, d, Iterate(g, s, d, k))
  {
  }

  lemma DistanceAtMostMass(a: seq<real>, b: seq<real>)
    requires |a| == |b| && NonNegative(a) && NonNegative(b)
    ensures Distance(a, b) <= Sum(a) + Sum(b)
  {
    var both := seq(|a|, i requires 0 <= i < |a| => a[i] + b[i]);
    hide Sum;
    SumAdd(a, b, both);
    SumLe(Gaps(a, b), both);
  }

  lemma {:induction false} PowerNonNegative(d: real, k: nat)
    requires d >= 0.0
    ensures Power(d, k) >= 0.0
  {
    if k > 0 {
      PowerNonNegative(d, k - 1);
      ProductSign(d, Power(d, k - 1));
    }
  }

  lemma FirstStep(g: Graph, s: seq<real>, d: real)
    requires Closed(g) && Symmetric(g) && |g| == |s| && Distribution(s) && 0.0 <= d < 1.0
    ensures Distance(Iterate(g, s, d, 1), Iterate(g, s, d, 0)) <= 2.0
  {
    hide Distance, Iterate, Sum, MassInvariant, Symmetric, Closed;
    IterateNonNegative(g, s, d, 1);
    IterateNonNegative(g, s, d, 0);
    IterateMass(g, s, d, 1);
    IterateMass(g, s, d, 0);
    DistanceAtMostMass(Iterate(g, s, d, 1), Iterate(g, s, d, 0));
  }

  /** The `k`-th step moves at most `2 d^k`. */
  lemma StepBound(g: Graph, s: seq<real>, d: real, k: nat)
    requires Closed(g) && Symmetric(g) && |g| == |s| && Distribution(s) && 0.0 <= d < 1.0
    ensures Distance(Iterate(g, s, d, k + 1), Iterate(g, s, d, k)) <= 2.0 * Power(d, k)
  {
    hide Distance, Iterate, Power, Symmetric, Closed, Distribution;
    StepShrinks(g, s, d, k);
    FirstStep(g, s, d);
    PowerNonNegative(d, k);
    var first := Distance(Iterate(g, s, d, 1), Iterate(g, s, d, 0));
    ProductSign(Power(d, k), 2.0 - first);
    assert Power(d, k) * first <= 2.0 * Power(d, k);
  }

  lemma Triangle(a: seq<real>, b: seq<real>, c: seq<real>)
    requires |a| == |b| == |c|
    ensures Distance(a, c) <= Distance(a, b) + Distance(b, c)
  {
    hide Sum;
    var both := seq(|a|, i requires 0 <= i < |a| => Abs(a[i] - b[i]) + Abs(b[i] - c[i]));
    SumAdd(Gaps(a, b), Gaps(b, c), both);
    SumLe(Gaps(a, c), both);
  }

  lemma NoGap(a: seq<real>)
    ensures Distance(a, a) == 0.0
  {
    SumConstant(Gaps(a, a), 0.0);
  }

  lemma StepsAddUp(d: real, p: real, last: real, before: real, all: real, bound: real)
    requires 0.0 <= d < 1.0 && all <= last + before && last <= 2.0 * p
    requires (1.0 - d) * before <= bound - 2.0 * p
    ensures (1.0 - d) * all <= bound - 2.0 * (d * p)
  {
    ProductSign(1.0 - d, last + before - all);
    ProductSign(1.0 - d, 2.0 * p - last);
    assert (1.0 - d) * (last + before - all) == (1.0 - d) * last + (1.0 - d) * before - (1.0 - d) * all;
    assert (1.0 - d) * (2.0 * p - last) == 2.0 * p - 2.0 * (d * p) - (1.0 - d) * last;
  }

  /** The iterates converge: from round `k` on they stay within `2 d^k / (1 - d)` of the k-th. */
  lemma {:induction false} IteratesConverge(g: Graph, s: seq<real>, d: real, k: nat, m: nat)
    requires Closed(g) && Symmetric(g) && |g| == |s| && Distribution(s) && 0.0 <= d < 1.0
    ensures (1.0 - d) * Distance(Iterate(g, s, d, k + m), Iterate(g, s, d, k)) <= 2.0 * Power(d, k) - 2.0 * Power(d, k + m)
  {
    hide Distance, Iterate, Power, Symmetric, Closed, Distribution;
    var now, start := Iterate(g, s, d, k + m), Iterate(g, s, d, k);
    if m == 0 {
      NoGap(start);
    } else {
      var was := Iterate(g, s, d, k + m - 1);
      IteratesConverge(g, s, d, k, m - 1);
      StepBound(g, s, d, k + m - 1);
      Triangle(now, was, start);
      PowerNext(d, k + m - 1);
      StepsAddUp(d, Power(d, k + m - 1), Distance(now, was), Distance(was, start), Distance(now, start), 2.0 * Power(d, k));
    }
  }

  lemma PowerNext(d: real, k: nat)
    ensures Power(d, k + 1) == d * Power(d, k)
  {
  }

  /** The iterates approach any stationary vector geometrically. */
  lemma {:induction false} ApproachesStationary(g: Graph, s: seq<real>, d: real, p: seq<real>, k: nat)
    requires Closed(g) && Symmetric(g) && |g| == |s| == |p| && d >= 0.0 && Next(g, s, d, p) == p
    ensures Shrunk(Distance(Iterate(g, s, d, k), p), d, k, Distance(s, p))
  {
    hide Distance, Next, Shrunk, Iterate, Symmetric, Closed;
    if k > 0 {
      ApproachesStationary(g, s, d, p, k - 1);
      IterateNext(g, s, d, k - 1);
      NextShrinks(g, s, d, Iterate(g, s, d, k - 1), p, k - 1, Distance(s, p));
    } else {
      IterateFirst(g, s, d);
      ShrunkStart(d, Distance(s, p));
    }
  }

  lemma {:induction false} NoDistance(a: seq<real>, b: seq<real>)
    requires |a| == |b|
    ensures Distance(a, b) >= 0.0
    ensures Distance(a, b) <= 0.0 ==> a == b
  {
    var gaps := Gaps(a, b);
    SumPositive(gaps);
    if Distance(a, b) <= 0.0 {
      forall i | 0 <= i < |a| ensures a[i] == b[i] {
        assert gaps[i] == Abs(a[i] - b[i]) && gaps[i] <= 0.0;
      }
    }
  }

  /** With damping below one there is at most one stationary vector. */
  lemma StationaryIsUnique(g: Graph, s: seq<real>, d: real, p: seq<real>, r: seq<real>)
    requires Closed(g) && Symmetric(g) && |g| == |s| == |p| == |r| && 0.0 <= d < 1.0
    requires Next(g, s, d, p) == p && Next(g, s, d, r) == r
    ensures p == r
  {
    hide Distance, Next, Symmetric, Closed;
    NextContracts(g, s, d, p, r);
    NoDistance(p, r);
    FractionOf(d, Distance(p, r), Distance(Next(g, s, d, p), Next(g, s, d, r)));
  }

  lemma ProperFraction(d: real, x: real)
    requires 0.0 <= d < 1.0 && x > 0.0
    ensures d * x < x
  {
    var rest := (1.0 - d) * x;
    ProductSign(1.0 - d, x);
    assert d * x + rest == x;
  }

  lemma FractionOf(d: real, x: real, y: real)
    requires 0.0 <= d < 1.0 && x >= 0.0 && y <= d * x && x == y
    ensures x <= 0.0
  {
    if x > 0.0 { ProperFraction(d, x); }
  }

  lemma IterateFirst(g: Graph, s: seq<real>, d: real)
    requires Closed(g) && |g| == |s|
    ensures Iterate(g, s, d, 0) == s
  {
  }

  // ----- the restart vector -----

  function Valid(n: nat, seeds: seq<int>): (r: seq<nat>)
    ensures Below(r, n)
  {
    if seeds == [] then [] else
      var last := seeds[|seeds| - 1];
      Valid(n, seeds[..|seeds| - 1]) + (if 0 <= last < n then [last] else [])
  }

  lemma {:induction false} ValidMembers(n: nat, seeds: seq<int>, v: int)
    ensures v in Valid(n, seeds) <==> 0 <= v < n && v in seeds
  {
    if seeds != [] {
      var init, last := seeds[..|seeds| - 1], seeds[|seeds| - 1];
      ValidMembers(n, init, v);
      assert seeds == init + [last];
    }
  }

  function Occurs(xs: seq<nat>, v: nat): nat {
    multiset(xs)[v]
  }

  /** `c` of `n` equal parts of the unit mass. */
  function Part(c: nat, n: nat): real
    requires n > 0
  {
    c as real * (1.0 / (n as real))
  }

  lemma PartSign(c: nat, n: nat)
    requires n > 0
    ensures Part(c, n) >= 0.0 && (Part(c, n) > 0.0 <==> c > 0)
  {
    QuotientSign(1.0, n);
    ProductSign(c as real, 1.0 / (n as real));
  }

  lemma PartNext(c: nat, n: nat)
    requires n > 0
    ensures Part(c + 1, n) == Part(c, n) + Part(1, n)
  {
    ProductOfSum(c as real, 1.0, 1.0 / (n as real));
  }

  lemma PartsOfWhole(cs: seq<real>, parts: seq<real>, n: nat)
    requires n > 0 && |cs| == |parts| && Sum(cs) == n as real
    requires forall i :: 0 <= i < |cs| ==> cs[i] >= 0.0 && cs[i].Floor as real == cs[i] && parts[i] == Part(cs[i].Floor, n)
    ensures Sum(parts) == 1.0
  {
    hide Sum;
    var w := 1.0 / (n as real);
    SumScale(w, cs, parts);
    ShareTimesDegree(1.0, n);
  }

  /** Mass spread evenly over the valid seeds, by multiplicity; over all nodes when there is none. */
  ghost function Restart(n: nat, seeds: seq<int>): (s: seq<real>)
    requires n > 0
    ensures |s| == n
    ensures forall v :: 0 <= v < n ==>
      s[v] == if Valid(n, seeds) == [] then Part(1, n) else Part(Occurs(Valid(n, seeds), v), |Valid(n, seeds)|)
  {
    var valid := Valid(n, seeds);
    seq(n, v requires 0 <= v => if valid == [] then Part(1, n) else Part(Occurs(valid, v), |valid|))
  }

  lemma RestartIsDistribution(n: nat, seeds: seq<int>)
    requires n > 0
    ensures Distribution(Restart(n, seeds))
  {
    hide Sum, Part, Restart;
    var valid := Valid(n, seeds);
    var s := Restart(n, seeds);
    if valid == [] {
      var ones := seq(n, v => 1.0);
      SumConstant(ones, 1.0);
      PartsOfWhole(ones, s, n);
      PartSign(1, n);
    } else {
      CountsTotal(valid, n);
      PartsOfWhole(Counts(valid, n), s, |valid|);
      forall v | 0 <= v < n ensures s[v] >= 0.0 {
        PartSign(Occurs(valid, v), |valid|);
      }
    }
  }

  lemma RestartPositive(n: nat, seeds: seq<int>, v: nat)
    requires v < n && Valid(n, seeds) != []
    ensures Restart(n, seeds)[v] > 0.0 <==> v in seeds
  {
    hide Part, Restart;
    var valid := Valid(n, seeds);
    ValidMembers(n, seeds, v);
    PartSign(Occurs(valid, v), |valid|);
  }

  // ----- which nodes are ranked -----

  lemma NeighbourBothWays(g: Graph, u: nat, v: nat)
    requires Symmetric(g) && u < |g| && v < |g|
    ensures u in g[v] <==> v in g[u]
  {
    assert u in g[v] <==> multiset(g[v])[u] > 0;
    assert v in g[u] <==> multiset(g[u])[v] > 0;
  }

  lemma {:induction false} BallFromSeeds(g: Graph, seeds: seq<int>, h: nat)
    ensures Ball(g, seeds, h + 1) == Seeds(g, seeds) + Step(g, Ball(g, seeds, h))
  {
    if h > 0 {
      BallFromSeeds(g, seeds, h - 1);
      assert Step(g, Ball(g, seeds, h - 1)) <= Step(g, Ball(g, seeds, h));
    }
  }

  lemma RankedNeighbourIsStep(g: Graph, pi: seq<real>, v: nat, ranked: set<int>)
    requires Closed(g) && Symmetric(g) && |g| == |pi| && v < |g|
    requires forall u :: 0 <= u < |g| ==> (pi[u] > 0.0 <==> u in ranked)
    ensures HasRankedNeighbour(g, pi, v) <==> v in Step(g, ranked)
  {
    assert Below(g[v], |g|);
    if HasRankedNeighbour(g, pi, v) {
      var i :| 0 <= i < |g[v]| && PassesRank(g, pi, v, i);
      NeighbourBothWays(g, g[v][i], v);
    }
    if v in Step(g, ranked) {
      var u :| u in ranked && 0 <= u < |g| && v in g[u];
      NeighbourBothWays(g, u, v);
      var i :| 0 <= i < |g[v]| && g[v][i] == u;
      assert PassesRank(g, pi, v, i);
    }
  }

  ghost predicate RankedAre(g: Graph, pi: seq<real>, reached: set<int>)
    requires |g| == |pi|
  {
    forall v :: 0 <= v < |g| ==> (pi[v] > 0.0 <==> v in reached)
  }

  lemma RankedNext(g: Graph, s: seq<real>, d: real, pi: seq<real>, start: set<int>, reached: set<int>)
    requires Closed(g) && Symmetric(g) && |g| == |s| == |pi| && 0.0 < d < 1.0
    requires NonNegative(s) && NonNegative(pi) && RankedAre(g, s, start) && RankedAre(g, pi, reached)
    ensures RankedAre(g, Next(g, s, d, pi), start + Step(g, reached))
  {
    hide Step, HasRankedNeighbour, Rank, Symmetric, Closed;
    forall v | 0 <= v < |g| ensures Next(g, s, d, pi)[v] > 0.0 <==> v in start + Step(g, reached) {
      RankNonNegative(g, s, d, pi, v);
      RankedNeighbourIsStep(g, pi, v, reached);
    }
  }

  lemma RestartRanked(g: Graph, seeds: seq<int>)
    requires |g| > 0 && Valid(|g|, seeds) != []
    ensures RankedAre(g, Restart(|g|, seeds), Seeds(g, seeds))
  {
    hide Restart;
    forall v | 0 <= v < |g| ensures Restart(|g|, seeds)[v] > 0.0 <==> v in Seeds(g, seeds) {
      RestartPositive(|g|, seeds, v);
    }
  }

  /** After `k` steps exactly the nodes within `k` hops of a seed have a positive score. */
  lemma {:induction false} RankedIsReached(g: Graph, seeds: seq<int>, d: real, k: nat)
    requires Closed(g) && Symmetric(g) && |g| > 0 && Valid(|g|, seeds) != [] && 0.0 < d < 1.0
    ensures RankedAre(g, Iterate(g, Restart(|g|, seeds), d, k), Ball(g, seeds, k))
  {
    hide Restart, RankedAre, Step, Seeds, Sum, Symmetric, Closed, Next;
    var s := Restart(|g|, seeds);
    RestartRanked(g, seeds);
    if k > 0 {
      RankedIsReached(g, seeds, d, k - 1);
      RestartIsDistribution(|g|, seeds);
      IterateNonNegative(g, s, d, k - 1);
      BallFromSeeds(g, seeds, k - 1);
      RankedNext(g, s, d, Iterate(g, s, d, k - 1), Seeds(g, seeds), Ball(g, seeds, k - 1));
    }
  }

  // ----- `Csr::ppr` -----

  method RestartVector(n: nat, seeds: seq<int>) returns (s: seq<real>)
    requires n > 0
    ensures s == Restart(n, seeds)
  {
    hide Part;
    var valid := Valid(n, seeds);
    if valid == [] {
      s := seq(n, v => Part(1, n));
    } else {
      var w := Part(1, |valid|);
      var a := new real[n](_ => 0.0);
      PartSign(0, |valid|);
      for k := 0 to |valid|
        invariant forall v :: 0 <= v < n ==> a[v] == Part(Occurs(valid[..k], v), |valid|)
      {
        assert valid[..k + 1] == valid[..k] + [valid[k]];
        PartNext(Occurs(valid[..k], valid[k]), |valid|);
        a[valid[k]] := a[valid[k]] + w;
      }
      assert valid[..|valid|] == valid;
      s := a[..];
    }
  }

  lemma GatherNone(w: seq<real>)
    ensures Gather([], w) == 0.0
  {
  }

  lemma GatherSnoc(xs: seq<nat>, x: nat, w: seq<real>)
    requires Below(xs, |w|) && x < |w|
    ensures Below(xs + [x], |w|) && Gather(xs + [x], w) == Gather(xs, w) + w[x]
  {
    assert (xs + [x])[..|xs|] == xs;
  }

  lemma ShareIs(g: Graph, pi: seq<real>, u: nat)
    requires u < |g| == |pi|
    ensures Share(g, pi, u) == if |g[u]| > 0 then pi[u] / (|g[u]| as real) else 0.0
  {
  }

  /** One more slot of a node's list. */
  lemma GatherSlot(c: Csr, v: nat, pi: seq<real>, k: nat)
    requires c.InBounds() && v < c.nnodes == |pi| && k < |c.Lists()[v]|
    ensures var list, w := c.Lists()[v], Shares(c.Lists(), pi);
      && Below(list, c.nnodes) && list[k] == c.adj[c.offsets[v] + k]
      && Gather(list[..k + 1], w) == Gather(list[..k], w)
         + (if |c.Lists()[list[k]]| > 0 then pi[list[k]] / (|c.Lists()[list[k]]| as real) else 0.0)
  {
    hide Gather, Share;
    var list, w := c.Lists()[v], Shares(c.Lists(), pi);
    assert list[..k + 1] == list[..k] + [list[k]];
    GatherSnoc(list[..k], list[k], w);
    ShareIs(c.Lists(), pi, list[k]);
  }

  lemma ListSpan(c: Csr, v: nat)
    requires c.InBounds() && v < c.nnodes
    ensures |c.offsets| == c.nnodes + 1 && c.offsets[v + 1] <= |c.adj|
    ensures c.offsets[v] + |c.Lists()[v]| == c.offsets[v + 1] && Below(c.Lists()[v], c.nnodes)
  {
  }

  method GatherNode(c: Csr, v: nat, deg: seq<real>, pi: seq<real>) returns (acc: real)
    requires c.InBounds() && v < c.nnodes && |deg| == |pi| == c.nnodes
    requires forall u :: 0 <= u < c.nnodes ==> deg[u] == |c.Lists()[u]| as real
    ensures Below(c.Lists()[v], c.nnodes) && acc == Gather(c.Lists()[v], Shares(c.Lists(), pi))
  {
    hide Gather, Share, Shares, Csr.InBounds, Csr.Lists, Csr.Neighbours;
    acc := 0.0;
    ghost var list, w := c.Lists()[v], Shares(c.Lists(), pi);
    GatherNone(w);
    ListSpan(c, v);
    var a0, a1 := c.offsets[v], c.offsets[v + 1];
    for a := a0 to a1
      invariant acc == Gather(list[..a - a0], w)
    {
      GatherSlot(c, v, pi, a - a0);
      var u := c.adj[a];
      if deg[u] > 0.0 {
        acc := acc + pi[u] / deg[u];
      }
    }
    assert list[..a1 - a0] == list;
  }

  /** One power-iteration round over the adjacency. */
  method Round(c: Csr, s: seq<real>, d: real, deg: seq<real>, pi: seq<real>) returns (r: seq<real>)
    requires c.InBounds() && |deg| == |pi| == |s| == c.nnodes
    requires forall u :: 0 <= u < c.nnodes ==> deg[u] == |c.Lists()[u]| as real
    ensures r == Next(c.Lists(), s, d, pi)
  {
    hide Gather, Share;
    ghost var g := c.Lists();
    var next := new real[c.nnodes];
    for v := 0 to c.nnodes
      invariant forall u :: 0 <= u < v ==> next[u] == Rank(g, s, d, pi, u)
    {
      var acc := GatherNode(c, v, deg, pi);
      next[v] := (1.0 - d) * s[v] + d * acc;
    }
    assert next[..] == Next(g, s, d, pi);
    r := next[..];
  }

  function Degree(c: Csr, u: nat): real
    requires c.InBounds() && u < c.nnodes
  {
    (c.offsets[u + 1] - c.offsets[u]) as real
  }

  /** The scores after `iters` power iterations, at least one; empty for the empty graph. */
  method Ppr(c: Csr, seeds: seq<int>, damping: real, iters: int) returns (pi: seq<real>)
    requires c.InBounds()
    ensures |pi| == c.nnodes
    ensures c.nnodes > 0 && iters >= 1 ==>
      pi == Iterate(c.Lists(), Restart(c.nnodes, seeds), Clamp(damping, 0.0, 0.999), iters)
    ensures c.nnodes > 0 && iters < 1 ==>
      pi == Iterate(c.Lists(), Restart(c.nnodes, seeds), Clamp(damping, 0.0, 0.999), 1)
    ensures c.nnodes > 0 ==> pi == Scores(c, seeds, damping, iters)
  {
    hide Gather, Share, Restart, Next;
    var nn := c.nnodes;
    if nn == 0 {
      return [];
    }
    ghost var g := c.Lists();
    var d := Clamp(damping, 0.0, 0.999);
    var deg := seq(nn, u requires 0 <= u < nn && c.InBounds() => Degree(c, u));
    var s := RestartVector(nn, seeds);
    pi := s;
    for k := 0 to if iters < 1 then 1 else iters
      invariant |pi| == nn && pi == Iterate(g, s, d, k)
    {
      pi := Round(c, s, d, deg, pi);
    }
  }

  // ----- what holds of the scores of a built graph -----

  lemma BuiltIsUndirected(c: Csr, rows: seq<Row>)
    requires Represents(c, rows)
    ensures c.InBounds() && Symmetric(c.Lists())
  {
    forall u: nat, v: nat | u < c.nnodes && v < c.nnodes
      ensures multiset(c.Lists()[u])[v] == multiset(c.Lists()[v])[u]
    {
      BuiltIsSymmetric(c, rows, u, v);
    }
  }

  ghost function Scores(c: Csr, seeds: seq<int>, damping: real, iters: int): (pi: seq<real>)
    requires c.InBounds() && c.nnodes > 0
    ensures |pi| == c.nnodes
  {
    Iterate(c.Lists(), Restart(c.nnodes, seeds), Clamp(damping, 0.0, 0.999), if iters < 1 then 1 else iters)
  }

  /** Over a built graph the scores are non-negative and sum to at most one: to exactly one when no restart mass
      sits on an isolated node, and otherwise only without damping. */
  lemma ScoresAreSubDistribution(c: Csr, rows: seq<Row>, seeds: seq<int>, damping: real, iters: int)
    requires Represents(c, rows) && c.nnodes > 0
    ensures var pi := Scores(c, seeds, damping, iters);
      && NonNegative(pi) && Sum(pi) <= 1.0
      && (Sum(pi) == 1.0
          <==> damping <= 0.0 || Sum(Isolated(c.Lists(), Restart(c.nnodes, seeds))) == 0.0)
  {
    hide Sum, Represents, Restart, Iterate, Symmetric;
    BuiltIsUndirected(c, rows);
    RestartIsDistribution(c.nnodes, seeds);
    RoundsAreSubDistribution(c.Lists(), Restart(c.nnodes, seeds), Clamp(damping, 0.0, 0.999), if iters < 1 then 1 else iters);
  }

  lemma RoundsAreSubDistribution(g: Graph, s: seq<real>, d: real, k: nat)
    requires Closed(g) && Symmetric(g) && |g| == |s| && Distribution(s) && 0.0 <= d < 1.0 && k >= 1
    ensures var pi := Iterate(g, s, d, k);
      NonNegative(pi) && Sum(pi) <= 1.0 && (Sum(pi) == 1.0 <==> d == 0.0 || Sum(Isolated(g, s)) == 0.0)
  {
    hide Sum, Iterate, MassInvariant, Symmetric;
    IterateNonNegative(g, s, d, k);
    IterateMass(g, s, d, k);
    SumPositive(Isolated(g, s));
    ProductSign(d, Sum(Isolated(g, s)));
  }

  /** With damping and a valid seed, the scored nodes are exactly those within `iters` hops of a seed, or within one
      hop when `iters` is below one: what the frontier search returns for that many hops. */
  lemma ScoredAreExpanded(c: Csr, rows: seq<Row>, seeds: seq<int>, damping: real, iters: int, v: nat)
    requires Represents(c, rows) && Valid(c.nnodes, seeds) != [] && damping > 0.0 && v < c.nnodes
    ensures iters >= 1 ==> (Scores(c, seeds, damping, iters)[v] > 0.0 <==> WithinHops(c.Lists(), seeds, iters, v))
    ensures iters < 1 ==> (Scores(c, seeds, damping, iters)[v] > 0.0 <==> WithinHops(c.Lists(), seeds, 1, v))
    ensures Scores(c, seeds, damping, iters)[v] > 0.0
       <==> v in Ascending(Ball(c.Lists(), seeds, if iters < 1 then 1 else iters), c.nnodes)
  {
    hide Represents, Restart, Iterate, Symmetric, Ball, WithinHops;
    BuiltIsUndirected(c, rows);
    var rounds := if iters < 1 then 1 else iters;
    RankedIsReached(c.Lists(), seeds, Clamp(damping, 0.0, 0.999), rounds);
    BallIsWithinHops(c.Lists(), seeds, rounds, v);
    AscendingMembers(Ball(c.Lists(), seeds, rounds), c.nnodes);
  }

  /** How many entries of the list name one of `n` nodes. */
  ghost function InRange(seeds: seq<int>, n: nat): nat {
    if seeds == [] then 0 else (if 0 <= seeds[0] < n then 1 else 0) + InRange(seeds[1..], n)
  }

  lemma {:induction false} InRangeSnoc(seeds: seq<int>, x: int, n: nat)
    ensures InRange(seeds + [x], n) == InRange(seeds, n) + (if 0 <= x < n then 1 else 0)
  {
    if seeds == [] {
      assert [x][1..] == [] && [] + [x] == [x];
    } else {
      InRangeSnoc(seeds[1..], x, n);
      assert (seeds + [x])[1..] == seeds[1..] + [x];
    }
  }

  lemma {:induction false} ValidCounts(n: nat, seeds: seq<int>, v: nat)
    requires v < n
    ensures |Valid(n, seeds)| == InRange(seeds, n) && multiset(Valid(n, seeds))[v] == multiset(seeds)[v]
  {
    if seeds != [] {
      var init, last := seeds[..|seeds| - 1], seeds[|seeds| - 1];
      ValidCounts(n, init, v);
      InRangeSnoc(init, last, n);
      assert seeds == init + [last];
    }
  }

  /** A node's restart mass is its number of occurrences among the seeds, in parts of the number of seeds that name a
      node; and an equal part when there is none. */
  lemma RestartByCount(n: nat, seeds: seq<int>, v: nat)
    requires v < n
    ensures InRange(seeds, n) > 0 ==> Restart(n, seeds)[v] == Part(multiset(seeds)[v], InRange(seeds, n))
    ensures InRange(seeds, n) == 0 ==> Restart(n, seeds)[v] == Part(1, n)
  {
    hide Restart, Valid, Part;
    ValidCounts(n, seeds, v);
  }

  /** `n` parts of one n-th are the whole. */
  lemma PartTimes(c: nat, n: nat)
    requires n > 0
    ensures n as real * Part(c, n) == c as real
  {
    var w := 1.0 / (n as real);
    ShareTimesDegree(1.0, n);
    assert n as real * (c as real * w) == c as real * (n as real * w);
  }
}

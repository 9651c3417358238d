/** Lloyd's algorithm over the reals, as the product quantizer trains each of its codebooks. */
module KMeans {
  import D = Division
  import opened RealSums

  type Vec = seq<real>

  ghost predicate SameDim(vs: seq<Vec>, dim: nat) {
    forall i :: 0 <= i < |vs| ==> |vs[i]| == dim
  }

  function SqDist(a: Vec, b: Vec): real
    requires |a| == |b|
  {
    if a == [] then 0.0 else
      var n := |a| - 1;
      SqDist(a[..n], b[..n]) + (a[n] - b[n]) * (a[n] - b[n])
  }

  /** The squared differences of the coordinates, summed. */
  ghost function SquaredDifferences(a: Vec, b: Vec): (r: seq<real>)
    requires |a| == |b|
    ensures |r| == |a| && forall i :: 0 <= i < |a| ==> r[i] == SquaredGap(a[i], b[i])
  {
    seq(|a|, i requires 0 <= i < |a| => SquaredGap(a[i], b[i]))
  }

  lemma {:induction false} SqDistIsSum(a: Vec, b: Vec)
    requires |a| == |b|
    ensures SqDist(a, b) == Sum(SquaredDifferences(a, b))
  {
    if a != [] {
      var n := |a| - 1;
      SqDistIsSum(a[..n], b[..n]);
      DifferencesInit(a, b);
      LastSquare(a, b);
      hide SqDist, SquaredGap;
      assert Sum(SquaredDifferences(a, b)) == Sum(SquaredDifferences(a, b)[..n]) + SquaredDifferences(a, b)[n];
    }
  }

  lemma DifferencesInit(a: Vec, b: Vec)
    requires |a| == |b| > 0
    ensures var n := |a| - 1; SquaredDifferences(a, b)[..n] == SquaredDifferences(a[..n], b[..n])
  {
    hide SquaredGap;
  }

  lemma LastSquare(a: Vec, b: Vec)
    requires |a| == |b| > 0
    ensures var n := |a| - 1; SqDist(a, b) == SqDist(a[..n], b[..n]) + SquaredGap(a[n], b[n])
  {
  }

  lemma SquareNonNegative(x: real)
    ensures x * x >= 0.0
  {
  }

  lemma {:induction false} SqDistNonNegative(a: Vec, b: Vec)
    requires |a| == |b|
    ensures SqDist(a, b) >= 0.0
  {
    if a != [] {
      var n := |a| - 1;
      SqDistNonNegative(a[..n], b[..n]);
      SquareNonNegative(a[n] - b[n]);
    }
  }

  lemma TimesNonNegative(a: real, b: real)
    requires a >= 0.0 && b >= 0.0
    ensures a * b >= 0.0
  {
  }

  lemma TimesPositive(a: real, b: real)
    requires a > 0.0 && b > 0.0
    ensures a * b > 0.0
  {
  }

  // ----- distances take the square root -----

  /** `root` is the square root on non-negative reals. */
  ghost predicate IsRoot(root: real -> real) {
    forall x: real :: x >= 0.0 ==> root(x) >= 0.0 && root(x) * root(x) == x
  }

  function L2(root: real -> real, a: Vec, b: Vec): real
    requires |a| == |b|
  {
    root(SqDist(a, b))
  }

  lemma SquaresOrdered(x: real, y: real)
    requires x >= 0.0 && y >= 0.0
    ensures x < y <==> x * x < y * y
  {
    assert y * y - x * x == (y - x) * (y + x);
    if x < y {
      TimesPositive(y - x, y + x);
    } else {
      TimesNonNegative(x - y, y + x);
    }
  }

  lemma RootOrder(root: real -> real, x: real, y: real)
    requires IsRoot(root) && x >= 0.0 && y >= 0.0
    ensures root(x) < root(y) <==> x < y
  {
    SquaresOrdered(root(x), root(y));
  }

  // ----- the nearest centroid -----

  /** The first of the centroids with the least distance. */
  ghost predicate IsNearest(v: Vec, cs: seq<Vec>, best: nat)
    requires SameDim(cs, |v|)
  {
    && best < |cs|
    && (forall j :: 0 <= j < |cs| ==> SqDist(v, cs[best]) <= SqDist(v, cs[j]))
    && (forall j :: 0 <= j < best ==> SqDist(v, cs[best]) < SqDist(v, cs[j]))
  }

  function Nearest(v: Vec, cs: seq<Vec>): (best: nat)
    requires cs != [] && forall i :: 0 <= i < |cs| ==> |cs[i]| == |v|
    ensures best < |cs|
  {
    if |cs| == 1 then 0 else
      var n := |cs| - 1;
      var best := Nearest(v, cs[..n]);
      if SqDist(v, cs[n]) < SqDist(v, cs[best]) then n else best
  }

  lemma {:induction false} NearestIsNearest(v: Vec, cs: seq<Vec>)
    requires cs != [] && SameDim(cs, |v|)
    ensures IsNearest(v, cs, Nearest(v, cs))
  {
    if |cs| > 1 {
      var n := |cs| - 1;
      var init := cs[..n];
      NearestIsNearest(v, init);
      var before := Nearest(v, init);
      forall j | 0 <= j < |cs| ensures SqDist(v, cs[Nearest(v, cs)]) <= SqDist(v, cs[j]) {
        if j < n { assert cs[j] == init[j]; }
      }
      forall j | 0 <= j < Nearest(v, cs) ensures SqDist(v, cs[Nearest(v, cs)]) < SqDist(v, cs[j]) {
        if j < n { assert cs[j] == init[j]; }
      }
    }
  }

  /** The loop compares distances with their root taken and finds the same centroid. */
  method NearestCentroid(root: real -> real, v: Vec, cs: seq<Vec>) returns (best: nat)
    requires IsRoot(root) && SameDim(cs, |v|)
    ensures cs == [] ==> best == 0
    ensures cs != [] ==> best == Nearest(v, cs)
  {
    hide SqDist, IsRoot;
    best := 0;
    var bestD := 0.0;
    var infinite := true;
    for j := 0 to |cs|
      invariant infinite <==> j == 0
      invariant infinite ==> best == 0
      invariant !infinite ==> best == Nearest(v, cs[..j]) && best < j && bestD == L2(root, v, cs[best])
    {
      var d := L2(root, v, cs[j]);
      assert cs[..j + 1][..j] == cs[..j];
      if !infinite {
        SqDistNonNegative(v, cs[j]);
        SqDistNonNegative(v, cs[best]);
        RootOrder(root, SqDist(v, cs[j]), SqDist(v, cs[best]));
      }
      if infinite || d < bestD {
        bestD := d;
        best := j;
        infinite := false;
      }
    }
    assert cs[..|cs|] == cs;
  }

  // ----- assignment and update -----

  ghost function Assignment(pts: seq<Vec>, cs: seq<Vec>, dim: nat): (a: seq<nat>)
    requires cs != [] && SameDim(pts, dim) && SameDim(cs, dim)
    ensures |a| == |pts| && forall i :: 0 <= i < |pts| ==> a[i] == Nearest(pts[i], cs) < |cs|
  {
    seq(|pts|, i requires 0 <= i < |pts| => Nearest(pts[i], cs))
  }

  ghost function Size(a: seq<nat>, j: nat): nat {
    if a == [] then 0 else Size(a[..|a| - 1], j) + (if a[|a| - 1] == j then 1 else 0)
  }

  /** The sum of coordinate `d` over the points assigned to `j`. */
  ghost function CoordSum(pts: seq<Vec>, a: seq<nat>, j: nat, d: nat): real
    requires |pts| == |a| && forall i :: 0 <= i < |pts| ==> d < |pts[i]|
  {
    if pts == [] then 0.0 else
      var n := |pts| - 1;
      CoordSum(pts[..n], a[..n], j, d) + (if a[n] == j then pts[n][d] else 0.0)
  }

  /** Each centroid moves to the mean of its points; one without points stays. */
  ghost function Moved(pts: seq<Vec>, a: seq<nat>, cs: seq<Vec>, dim: nat, j: nat): (c: Vec)
    requires |pts| == |a| && SameDim(pts, dim) && SameDim(cs, dim) && j < |cs|
    ensures |c| == dim
  {
    if Size(a, j) == 0 then cs[j]
    else seq(dim, d requires 0 <= d < dim => CoordSum(pts, a, j, d) / (Size(a, j) as real))
  }

  ghost function LloydStep(pts: seq<Vec>, cs: seq<Vec>, dim: nat): (cs': seq<Vec>)
    requires cs != [] && SameDim(pts, dim) && SameDim(cs, dim)
    ensures |cs'| == |cs| && SameDim(cs', dim)
    ensures forall j :: 0 <= j < |cs| ==> cs'[j] == Moved(pts, Assignment(pts, cs, dim), cs, dim, j)
  {
    seq(|cs|, j requires 0 <= j < |cs| => Moved(pts, Assignment(pts, cs, dim), cs, dim, j))
  }

  ghost function LloydSteps(pts: seq<Vec>, cs: seq<Vec>, dim: nat, t: nat): (cs': seq<Vec>)
    requires cs != [] && SameDim(pts, dim) && SameDim(cs, dim)
    ensures |cs'| == |cs| && SameDim(cs', dim)
  {
    if t == 0 then cs else LloydStep(pts, LloydSteps(pts, cs, dim, t - 1), dim)
  }

  /** The sum of squared distances to the assigned centroids. */
  ghost function Cost(pts: seq<Vec>, a: seq<nat>, cs: seq<Vec>, dim: nat): real
    requires |pts| == |a| && SameDim(pts, dim) && SameDim(cs, dim)
    requires forall i :: 0 <= i < |a| ==> a[i] < |cs|
  {
    if pts == [] then 0.0 else
      var n := |pts| - 1;
      Cost(pts[..n], a[..n], cs, dim) + SqDist(pts[n], cs[a[n]])
  }

  /** What Lloyd's algorithm is about: the squared distances to the nearest centroids. */
  ghost function Objective(pts: seq<Vec>, cs: seq<Vec>, dim: nat): real
    requires cs != [] && SameDim(pts, dim) && SameDim(cs, dim)
  {
    Cost(pts, Assignment(pts, cs, dim), cs, dim)
  }

  lemma {:induction false} ReassignmentHelps(pts: seq<Vec>, a: seq<nat>, b: seq<nat>, cs: seq<Vec>, dim: nat)
    requires |pts| == |a| == |b| && SameDim(pts, dim) && SameDim(cs, dim)
    requires forall i :: 0 <= i < |a| ==> a[i] < |cs| && b[i] < |cs|
    requires forall i :: 0 <= i < |a| ==> SqDist(pts[i], cs[b[i]]) <= SqDist(pts[i], cs[a[i]])
    ensures Cost(pts, b, cs, dim) <= Cost(pts, a, cs, dim)
  {
    if pts != [] {
      var n := |pts| - 1;
      ReassignmentHelps(pts[..n], a[..n], b[..n], cs, dim);
    }
  }

  // ----- the mean minimises each cluster's cost -----

  /** The cost of cluster `j` along coordinate `d` for a centroid at `c`. */
  ghost function CoordCost(pts: seq<Vec>, a: seq<nat>, j: nat, d: nat, c: real): real
    requires |pts| == |a| && forall i :: 0 <= i < |pts| ==> d < |pts[i]|
  {
    if pts == [] then 0.0 else
      var n := |pts| - 1;
      CoordCost(pts[..n], a[..n], j, d, c)
      + (if a[n] == j then (pts[n][d] - c) * (pts[n][d] - c) else 0.0)
  }

  /** How much more `n` points with sum `s` cost from `c` than from `mu`. */
  ghost function Shift(c: real, mu: real, s: real, n: real): real {
    2.0 * (mu - c) * (s - n * mu) + n * ((c - mu) * (c - mu))
  }

  lemma ShiftOfOne(x: real, c: real, mu: real, s: real, n: real)
    ensures (x - c) * (x - c) - (x - mu) * (x - mu) == Shift(c, mu, s + x, n + 1.0) - Shift(c, mu, s, n)
  {
    assert Shift(c, mu, s + x, n + 1.0) - Shift(c, mu, s, n)
        == 2.0 * (mu - c) * (x - mu) + (c - mu) * (c - mu);
  }

  lemma NoShift(c: real, mu: real)
    ensures Shift(c, mu, 0.0, 0.0) == 0.0
  {
  }

  lemma {:induction false} CostOfShift(pts: seq<Vec>, a: seq<nat>, j: nat, d: nat, c: real, mu: real)
    requires |pts| == |a| && forall i :: 0 <= i < |pts| ==> d < |pts[i]|
    ensures CoordCost(pts, a, j, d, c) - CoordCost(pts, a, j, d, mu)
         == Shift(c, mu, CoordSum(pts, a, j, d), Size(a, j) as real)
  {
    hide Shift;
    if pts == [] {
      NoShift(c, mu);
    } else {
      var n := |pts| - 1;
      CostOfShift(pts[..n], a[..n], j, d, c, mu);
      if a[n] == j {
        ShiftOfOne(pts[n][d], c, mu, CoordSum(pts[..n], a[..n], j, d), Size(a[..n], j) as real);
      }
    }
  }

  lemma MeanIsBest(pts: seq<Vec>, a: seq<nat>, j: nat, d: nat, c: real)
    requires |pts| == |a| && Size(a, j) > 0 && forall i :: 0 <= i < |pts| ==> d < |pts[i]|
    ensures CoordCost(pts, a, j, d, CoordSum(pts, a, j, d) / (Size(a, j) as real)) <= CoordCost(pts, a, j, d, c)
  {
    hide CoordCost, CoordSum, Size;
    var n := Size(a, j) as real;
    var mu := CoordSum(pts, a, j, d) / n;
    CostOfShift(pts, a, j, d, c, mu);
    assert n * mu == CoordSum(pts, a, j, d);
    SquareNonNegative(c - mu);
    TimesNonNegative(n, (c - mu) * (c - mu));
    TimesZero(2.0 * (mu - c));
  }

  lemma TimesZero(a: real)
    ensures a * 0.0 == 0.0
  {
  }

  // ----- regrouping the cost by cluster and coordinate -----

  /** The cost of cluster `j` for a centroid at `c`, summed over its first `m` coordinates. */
  ghost function ClusterCost(pts: seq<Vec>, a: seq<nat>, j: nat, c: Vec, m: nat): real
    requires |pts| == |a| && m <= |c| && forall i :: 0 <= i < |pts| ==> m <= |pts[i]|
  {
    if m == 0 then 0.0 else
      ClusterCost(pts, a, j, c, m - 1) + CoordCost(pts, a, j, m - 1, c[m - 1])
  }

  ghost function CostBelow(pts: seq<Vec>, a: seq<nat>, cs: seq<Vec>, dim: nat, k: nat): real
    requires |pts| == |a| && SameDim(pts, dim) && SameDim(cs, dim) && k <= |cs|
  {
    if k == 0 then 0.0 else CostBelow(pts, a, cs, dim, k - 1) + ClusterCost(pts, a, k - 1, cs[k - 1], dim)
  }

  lemma {:induction false} ClusterCostNext(pts: seq<Vec>, a: seq<nat>, j: nat, c: Vec, m: nat)
    requires |pts| == |a| && pts != [] && m <= |c| && forall i :: 0 <= i < |pts| ==> m <= |pts[i]|
    ensures var n := |pts| - 1;
      ClusterCost(pts, a, j, c, m)
        == ClusterCost(pts[..n], a[..n], j, c, m) + (if a[n] == j then SqDist(pts[n][..m], c[..m]) else 0.0)
  {
    if m > 0 {
      hide SqDist, CoordCost, SquaredGap;
      var n := |pts| - 1;
      ClusterCostNext(pts, a, j, c, m - 1);
      CoordCostNext(pts, a, j, m - 1, c[m - 1]);
      SqDistNext(pts[n], c, m);
    } else {
      assert pts[|pts| - 1][..0] == [] && c[..0] == [];
    }
  }

  ghost function SquaredGap(x: real, y: real): real {
    (x - y) * (x - y)
  }

  lemma CoordCostNext(pts: seq<Vec>, a: seq<nat>, j: nat, d: nat, c: real)
    requires |pts| == |a| && pts != [] && forall i :: 0 <= i < |pts| ==> d < |pts[i]|
    ensures var n := |pts| - 1;
      CoordCost(pts, a, j, d, c) == CoordCost(pts[..n], a[..n], j, d, c) + (if a[n] == j then SquaredGap(pts[n][d], c) else 0.0)
  {
  }

  lemma SqDistNext(x: Vec, c: Vec, m: nat)
    requires 0 < m <= |x| && m <= |c|
    ensures SqDist(x[..m], c[..m]) == SqDist(x[..m - 1], c[..m - 1]) + SquaredGap(x[m - 1], c[m - 1])
  {
    assert x[..m][..m - 1] == x[..m - 1] && c[..m][..m - 1] == c[..m - 1];
  }

  lemma {:induction false} CostBelowNext(pts: seq<Vec>, a: seq<nat>, cs: seq<Vec>, dim: nat, k: nat)
    requires |pts| == |a| && pts != [] && SameDim(pts, dim) && SameDim(cs, dim) && k <= |cs|
    ensures var n := |pts| - 1;
      CostBelow(pts, a, cs, dim, k)
        == CostBelow(pts[..n], a[..n], cs, dim, k) + (if a[n] < k then SqDist(pts[n], cs[a[n]]) else 0.0)
  {
    if k > 0 {
      var n := |pts| - 1;
      CostBelowNext(pts, a, cs, dim, k - 1);
      ClusterCostNext(pts, a, k - 1, cs[k - 1], dim);
      assert pts[n][..dim] == pts[n] && cs[k - 1][..dim] == cs[k - 1];
    }
  }

  lemma {:induction false} NothingCosts(cs: seq<Vec>, dim: nat, k: nat)
    requires SameDim(cs, dim) && k <= |cs|
    ensures CostBelow([], [], cs, dim, k) == 0.0
  {
    if k > 0 {
      NothingCosts(cs, dim, k - 1);
      NoClusterCost(k - 1, cs[k - 1], dim);
    }
  }

  lemma {:induction false} NoClusterCost(j: nat, c: Vec, m: nat)
    requires m <= |c|
    ensures ClusterCost([], [], j, c, m) == 0.0
  {
    if m > 0 { NoClusterCost(j, c, m - 1); }
  }

  lemma {:induction false} CostByCluster(pts: seq<Vec>, a: seq<nat>, cs: seq<Vec>, dim: nat)
    requires |pts| == |a| && SameDim(pts, dim) && SameDim(cs, dim)
    requires forall i :: 0 <= i < |a| ==> a[i] < |cs|
    ensures Cost(pts, a, cs, dim) == CostBelow(pts, a, cs, dim, |cs|)
  {
    if pts == [] {
      NothingCosts(cs, dim, |cs|);
    } else {
      var n := |pts| - 1;
      CostByCluster(pts[..n], a[..n], cs, dim);
      CostBelowNext(pts, a, cs, dim, |cs|);
    }
  }

  lemma {:induction false} EmptyCostsNothing(pts: seq<Vec>, a: seq<nat>, j: nat, d: nat, c: real)
    requires |pts| == |a| && Size(a, j) == 0 && forall i :: 0 <= i < |pts| ==> d < |pts[i]|
    ensures CoordCost(pts, a, j, d, c) == 0.0
  {
    if pts != [] { EmptyCostsNothing(pts[..|pts| - 1], a[..|a| - 1], j, d, c); }
  }

  /** Against any other position `c` for the cluster's centroid. */
  lemma {:induction false} MeansHelpCluster(pts: seq<Vec>, a: seq<nat>, cs: seq<Vec>, dim: nat, j: nat, c: Vec, m: nat)
    requires |pts| == |a| && SameDim(pts, dim) && SameDim(cs, dim) && j < |cs| && |c| == dim && m <= dim
    ensures ClusterCost(pts, a, j, Moved(pts, a, cs, dim, j), m) <= ClusterCost(pts, a, j, c, m)
  {
    if m > 0 {
      hide CoordCost, CoordSum, Size;
      MeansHelpCluster(pts, a, cs, dim, j, c, m - 1);
      if Size(a, j) > 0 {
        MeanIsBest(pts, a, j, m - 1, c[m - 1]);
      } else {
        EmptyCostsNothing(pts, a, j, m - 1, c[m - 1]);
        EmptyCostsNothing(pts, a, j, m - 1, Moved(pts, a, cs, dim, j)[m - 1]);
      }
    }
  }

  lemma {:induction false} MeansHelp(pts: seq<Vec>, a: seq<nat>, cs: seq<Vec>, cs': seq<Vec>, others: seq<Vec>, dim: nat,
                                     k: nat)
    requires |pts| == |a| && SameDim(pts, dim) && SameDim(cs, dim) && SameDim(cs', dim) && SameDim(others, dim)
    requires k <= |cs| == |cs'| == |others|
    requires forall j :: 0 <= j < |cs| ==> cs'[j] == Moved(pts, a, cs, dim, j)
    ensures CostBelow(pts, a, cs', dim, k) <= CostBelow(pts, a, others, dim, k)
  {
    if k > 0 {
      MeansHelp(pts, a, cs, cs', others, dim, k - 1);
      MeansHelpCluster(pts, a, cs, dim, k - 1, others[k - 1], dim);
    }
  }

  /** For the points as assigned, no centroids are better than those an iteration moves to. */
  lemma StepIsBest(pts: seq<Vec>, cs: seq<Vec>, others: seq<Vec>, dim: nat)
    requires cs != [] && |others| == |cs| && SameDim(pts, dim) && SameDim(cs, dim) && SameDim(others, dim)
    ensures var a := Assignment(pts, cs, dim); Cost(pts, a, LloydStep(pts, cs, dim), dim) <= Cost(pts, a, others, dim)
  {
    hide Cost, CostBelow, Moved, SqDist, Nearest;
    var a := Assignment(pts, cs, dim);
    CostByCluster(pts, a, others, dim);
    CostByCluster(pts, a, LloydStep(pts, cs, dim), dim);
    MeansHelp(pts, a, cs, LloydStep(pts, cs, dim), others, dim, |cs|);
  }

  /** A centroid to which no point is nearest stays where it is. */
  lemma EmptyClusterStays(pts: seq<Vec>, cs: seq<Vec>, dim: nat, j: nat)
    requires cs != [] && SameDim(pts, dim) && SameDim(cs, dim) && j < |cs|
    requires forall i :: 0 <= i < |pts| ==> Nearest(pts[i], cs) != j
    ensures LloydStep(pts, cs, dim)[j] == cs[j]
  {
    hide Nearest, CoordSum;
    NoneAssigned(Assignment(pts, cs, dim), j);
  }

  lemma {:induction false} NoneAssigned(a: seq<nat>, j: nat)
    requires forall i :: 0 <= i < |a| ==> a[i] != j
    ensures Size(a, j) == 0
  {
    if a != [] { NoneAssigned(a[..|a| - 1], j); }
  }

  /** One iteration never increases the objective. */
  lemma StepDescends(pts: seq<Vec>, cs: seq<Vec>, dim: nat)
    requires cs != [] && SameDim(pts, dim) && SameDim(cs, dim)
    ensures Objective(pts, LloydStep(pts, cs, dim), dim) <= Objective(pts, cs, dim)
  {
    hide Cost, CostBelow, Moved, SqDist, Nearest;
    var a := Assignment(pts, cs, dim);
    var cs' := LloydStep(pts, cs, dim);
    var b := Assignment(pts, cs', dim);
    StepIsBest(pts, cs, cs, dim);
    forall i | 0 <= i < |pts| ensures SqDist(pts[i], cs'[b[i]]) <= SqDist(pts[i], cs'[a[i]]) {
      NearestIsNearest(pts[i], cs');
    }
    ReassignmentHelps(pts, a, b, cs', dim);
  }

  lemma StepsNext(pts: seq<Vec>, cs: seq<Vec>, dim: nat, t: nat)
    requires cs != [] && SameDim(pts, dim) && SameDim(cs, dim)
    ensures LloydSteps(pts, cs, dim, 0) == cs
    ensures LloydSteps(pts, cs, dim, t + 1) == LloydStep(pts, LloydSteps(pts, cs, dim, t), dim)
  {
    hide LloydStep;
  }

  lemma {:induction false} StepsDescend(pts: seq<Vec>, cs: seq<Vec>, dim: nat, t: nat)
    requires cs != [] && SameDim(pts, dim) && SameDim(cs, dim)
    ensures Objective(pts, LloydSteps(pts, cs, dim, t), dim) <= Objective(pts, cs, dim)
  {
    hide Objective, LloydStep, LloydSteps, SameDim;
    if t == 0 {
      StepsNext(pts, cs, dim, 0);
    } else {
      StepsDescend(pts, cs, dim, t - 1);
      StepsNext(pts, cs, dim, t - 1);
      StepDescends(pts, LloydSteps(pts, cs, dim, t - 1), dim);
    }
  }

  // ----- `lloyd_kmeans` -----

  const MAX_ITERS: nat := 25

  /** The `f32` machine epsilon, below which a coordinate does not count as moved. */
  const EPSILON: real := 1.0 / 8388608.0

  /** The corpus position of initial centroid `j`: evenly spaced, shifted by the seed. */
  function Pick(n: nat, k: nat, offset: nat, j: nat): (p: nat)
    requires 0 < k <= n && offset < n && j < k
    ensures p < n
  {
    (offset + j * n / k) % n
  }

  lemma Products(n: nat, k: nat, i: nat, j: nat)
    requires i < j < k && n > 0
    ensures i * n + n <= j * n < k * n
  {
    TimesMonotone(i + 1, j, n);
    TimesMonotone(j + 1, k, n);
    assert (i + 1) * n == i * n + n && (j + 1) * n == j * n + n;
  }

  function Quotient(a: nat, k: nat): nat
    requires k > 0
  {
    a / k
  }

  lemma Spacing(n: nat, k: nat, i: nat, j: nat)
    requires 0 < k <= n && i < j < k
    ensures Quotient(i * n, k) < Quotient(j * n, k) < n
  {
    hide Quotient;
    Products(n, k, i, j);
    DivideGap(i * n, j * n, k);
    DivideBelow(j * n, n, k);
  }

  lemma TimesMonotone(i: nat, j: nat, n: nat)
    requires i <= j
    ensures i * n <= j * n
  {
  }

  lemma QuotientAtLeast(b: nat, m: nat, k: nat)
    requires k > 0 && m * k <= b
    ensures b / k >= m
  {
    if b / k < m {
      TimesMonotone(b / k + 1, m, k);
    }
  }

  lemma DivideGap(a: nat, b: nat, k: nat)
    requires k > 0 && b >= a + k
    ensures Quotient(a, k) < Quotient(b, k)
  {
    assert (a / k + 1) * k == (a / k) * k + k;
    QuotientAtLeast(b, a / k + 1, k);
  }

  lemma DivideBelow(b: nat, n: nat, k: nat)
    requires k > 0 && b < k * n
    ensures Quotient(b, k) < n
  {
    if b / k >= n {
      TimesMonotone(n, b / k, k);
    }
  }

  /** The initial centroids are the points at distinct corpus positions, whatever the seed. */
  lemma PicksDistinct(n: nat, k: nat, offset: nat, i: nat, j: nat)
    requires 0 < k <= n && offset < n && i < j < k
    ensures Pick(n, k, offset, i) != Pick(n, k, offset, j)
  {
    Spacing(n, k, i, j);
    var a, b := i * n / k, j * n / k;
    assert offset + a < 2 * n && offset + b < 2 * n;
    WrapDistinct(offset + a, offset + b, n);
  }

  /** Evenly spaced: the first pick is at the offset, and from each to the next it is the same number of positions, or one
      more, around the corpus. */
  lemma PicksEvenlySpaced(n: nat, k: nat, offset: nat, j: nat)
    requires 0 < k <= n && offset < n && j + 1 < k
    ensures Pick(n, k, offset, 0) == offset
    ensures var gap := Pick(n, k, offset, j + 1) - Pick(n, k, offset, j);
      Wraps(gap, n) == Wraps(Quotient(n, k), n) || Wraps(gap, n) == Wraps(Quotient(n, k) + 1, n)
  {
    hide Quotient, Pick, Wraps;
    FirstPick(n, k, offset);
    PickIs(n, k, offset, j);
    PickIs(n, k, offset, j + 1);
    QuotientStep(j * n, n, k);
    TimesNext(j, n);
    WrapDifference(offset + Quotient(j * n, k), offset + Quotient((j + 1) * n, k), n);
  }

  /** The remainder, never negative. */
  function Wraps(x: int, n: nat): int
    requires n > 0
  {
    x % n
  }

  lemma FirstPick(n: nat, k: nat, offset: nat)
    requires 0 < k <= n && offset < n
    ensures Pick(n, k, offset, 0) == offset
  {
    hide Quotient, Pick, Wraps;
    PickIs(n, k, offset, 0);
    NoneOver(n, k);
    WrapsBelow(offset, n);
  }

  lemma NoneOver(n: nat, k: nat)
    requires k > 0
    ensures Quotient(0 * n, k) == 0
  {
    assert 0 * n == 0;
  }

  lemma WrapsBelow(x: nat, n: nat)
    requires x < n
    ensures Wraps(x, n) == x
  {
  }

  lemma PickIs(n: nat, k: nat, offset: nat, j: nat)
    requires 0 < k <= n && offset < n && j < k
    ensures Pick(n, k, offset, j) == Wraps(offset + Quotient(j * n, k), n)
  {
  }

  lemma TimesNext(j: nat, n: nat)
    ensures (j + 1) * n == j * n + n
  {
  }

  lemma QuotientStep(a: nat, n: nat, k: nat)
    requires k > 0
    ensures Quotient(a, k) + Quotient(n, k) <= Quotient(a + n, k) <= Quotient(a, k) + Quotient(n, k) + 1
  {
    var p, low := D.Divided(a, k);
    var q, high := D.Divided(n, k);
    D.Sum(k, p, q);
    D.Sum(k, p + q, 1);
    if low + high < k {
      D.DivisionIs(a + n, k, p + q, low + high);
    } else {
      D.DivisionIs(a + n, k, p + q + 1, low + high - k);
    }
  }

  lemma WrapDifference(x: nat, y: nat, n: nat)
    requires n > 0 && x <= y
    ensures Wraps(Wraps(y, n) - Wraps(x, n), n) == Wraps(y - x, n)
  {
    var p, low := D.Divided(x, n);
    var q, high := D.Divided(y, n);
    var gap: int := (high as int) - low;
    var t, rest := D.Divided(gap, n);
    D.Sum(n, t, q - p);
    D.Sum(n, q - p, p);
    D.DivisionIs(y - x, n, t + (q - p), rest);
  }

  lemma WrapDistinct(a: nat, b: nat, n: nat)
    requires a < b < a + n && b < 2 * n
    ensures a % n != b % n
  {
    WrapOnce(a, n);
    WrapOnce(b, n);
  }

  lemma WrapOnce(a: nat, n: nat)
    requires n > 0 && a < 2 * n
    ensures a % n == if a < n then a else a - n
  {
  }

  ghost function Initial(pts: seq<Vec>, k: nat, seed: nat, dim: nat): (cs: seq<Vec>)
    requires 0 < k <= |pts| && SameDim(pts, dim)
    ensures |cs| == k && SameDim(cs, dim)
    ensures forall j :: 0 <= j < k ==> cs[j] == pts[Pick(|pts|, k, seed % |pts|, j)]
  {
    seq(k, j requires 0 <= j < k => pts[Pick(|pts|, k, seed % |pts|, j)])
  }

  ghost predicate Accumulated(sums: seq<Vec>, counts: seq<nat>, pts: seq<Vec>, a: seq<nat>, dim: nat) {
    && |pts| == |a| && |sums| == |counts| && SameDim(sums, dim) && SameDim(pts, dim)
    && (forall j :: 0 <= j < |counts| ==> counts[j] == Size(a, j))
    && (forall j, d :: 0 <= j < |sums| && 0 <= d < dim ==> sums[j][d] == CoordSum(pts, a, j, d))
  }

  method AddTo(sum: Vec, v: Vec) returns (r: Vec)
    requires |sum| == |v|
    ensures |r| == |v| && forall d :: 0 <= d < |v| ==> r[d] == sum[d] + v[d]
  {
    r := sum;
    for d := 0 to |v|
      invariant |r| == |sum|
      invariant forall e :: 0 <= e < |v| ==> r[e] == if e < d then sum[e] + v[e] else sum[e]
    {
      r := r[d := r[d] + v[d]];
    }
  }

  lemma AccumulateNext(sums: seq<Vec>, counts: seq<nat>, pts: seq<Vec>, a: seq<nat>, i: nat, dim: nat, sum: Vec)
    requires i < |pts| == |a| && SameDim(pts, dim) && a[i] < |sums|
    requires Accumulated(sums, counts, pts[..i], a[..i], dim)
    requires |sum| == dim && forall d :: 0 <= d < dim ==> sum[d] == sums[a[i]][d] + pts[i][d]
    ensures Accumulated(sums[a[i] := sum], counts[a[i] := counts[a[i]] + 1], pts[..i + 1], a[..i + 1], dim)
  {
    assert pts[..i + 1][..i] == pts[..i] && a[..i + 1][..i] == a[..i];
  }

  /** One pass over the points: each adds itself to the sums of its nearest centroid. */
  method Accumulate(root: real -> real, pts: seq<Vec>, cs: seq<Vec>, dim: nat)
    returns (sums: seq<Vec>, counts: seq<nat>)
    requires IsRoot(root) && cs != [] && SameDim(pts, dim) && SameDim(cs, dim)
    ensures |sums| == |cs| && Accumulated(sums, counts, pts, Assignment(pts, cs, dim), dim)
  {
    hide IsRoot, Accumulated;
    ghost var a := Assignment(pts, cs, dim);
    sums := seq(|cs|, _ => seq(dim, _ => 0.0));
    counts := seq(|cs|, _ => 0);
    assert Accumulated(sums, counts, pts[..0], a[..0], dim) by { NothingAccumulated(sums, counts, dim); }
    for i := 0 to |pts|
      invariant |sums| == |counts| == |cs| && Accumulated(sums, counts, pts[..i], a[..i], dim)
    {
      var c := NearestCentroid(root, pts[i], cs);
      AccumulatedDims(sums, counts, pts[..i], a[..i], dim);
      var sum := AddTo(sums[c], pts[i]);
      AccumulateNext(sums, counts, pts, a, i, dim, sum);
      counts := counts[c := counts[c] + 1];
      sums := sums[c := sum];
    }
    assert pts[..|pts|] == pts && a[..|pts|] == a;
  }

  lemma NothingAccumulated(sums: seq<Vec>, counts: seq<nat>, dim: nat)
    requires |sums| == |counts| && SameDim(sums, dim)
    requires forall j :: 0 <= j < |counts| ==> counts[j] == 0
    requires forall j, d :: 0 <= j < |sums| && 0 <= d < dim ==> sums[j][d] == 0.0
    ensures Accumulated(sums, counts, [], [], dim)
  {
  }

  lemma AccumulatedDims(sums: seq<Vec>, counts: seq<nat>, pts: seq<Vec>, a: seq<nat>, dim: nat)
    requires Accumulated(sums, counts, pts, a, dim)
    ensures SameDim(sums, dim)
  {
  }

  /** The new position of one centroid and whether some coordinate moved noticeably. */
  method MoveCentroid(c: Vec, sum: Vec, count: nat) returns (c': Vec, moved: bool)
    requires |c| == |sum| && count > 0
    ensures |c'| == |c| && forall d :: 0 <= d < |c| ==> c'[d] == sum[d] / (count as real)
    ensures moved <==> exists d :: 0 <= d < |c| && Abs(c'[d] - c[d]) > EPSILON
  {
    c' := c;
    moved := false;
    for d := 0 to |c|
      invariant |c'| == |c|
      invariant forall e :: 0 <= e < |c| ==> c'[e] == if e < d then sum[e] / (count as real) else c[e]
      invariant moved <==> exists e :: 0 <= e < d && Abs(c'[e] - c[e]) > EPSILON
    {
      var nv := sum[d] / (count as real);
      if Abs(nv - c[d]) > EPSILON {
        moved := true;
      }
      c' := c'[d := nv];
    }
  }

  /** No coordinate of any centroid moved noticeably. */
  predicate Still(cs: seq<Vec>, cs': seq<Vec>, dim: nat)
    requires |cs| == |cs'| && SameDim(cs, dim) && SameDim(cs', dim)
  {
    forall j, d :: 0 <= j < |cs| && 0 <= d < dim ==> Abs(cs'[j][d] - cs[j][d]) <= EPSILON
  }

  method MoveCentroids(pts: seq<Vec>, cs: seq<Vec>, dim: nat, sums: seq<Vec>, counts: seq<nat>)
    returns (cs': seq<Vec>, moved: bool)
    requires cs != [] && SameDim(pts, dim) && SameDim(cs, dim) && |sums| == |cs|
    requires Accumulated(sums, counts, pts, Assignment(pts, cs, dim), dim)
    ensures cs' == LloydStep(pts, cs, dim)
    ensures moved <==> !Still(cs, cs', dim)
  {
    hide CoordSum, Size, Nearest;
    ghost var a := Assignment(pts, cs, dim);
    cs' := cs;
    moved := false;
    for j := 0 to |cs|
      invariant |cs'| == |cs| && SameDim(cs', dim)
      invariant forall i :: 0 <= i < |cs| ==> cs'[i] == if i < j then Moved(pts, a, cs, dim, i) else cs[i]
      invariant !moved <==> forall i, d :: 0 <= i < j && 0 <= d < dim ==> Abs(cs'[i][d] - cs[i][d]) <= EPSILON
    {
      if counts[j] == 0 {
        continue;
      }
      var c, m := MoveCentroid(cs[j], sums[j], counts[j]);
      assert c == Moved(pts, a, cs, dim, j);
      moved := moved || m;
      cs' := cs'[j := c];
    }
  }

  ghost predicate StillAt(pts: seq<Vec>, cs: seq<Vec>, dim: nat, t: nat)
    requires cs != [] && SameDim(pts, dim) && SameDim(cs, dim)
  {
    Still(LloydSteps(pts, cs, dim, t), LloydSteps(pts, cs, dim, t + 1), dim)
  }

  lemma StillAtNext(pts: seq<Vec>, cs: seq<Vec>, dim: nat, t: nat)
    requires cs != [] && SameDim(pts, dim) && SameDim(cs, dim)
    ensures var before := LloydSteps(pts, cs, dim, t);
      StillAt(pts, cs, dim, t) <==> Still(before, LloydStep(pts, before, dim), dim)
  {
    hide Still, LloydStep;
    StepsNext(pts, cs, dim, t);
  }

  /** Lloyd's algorithm from `cs` stops after this many rounds: the first that moves nothing, or the 25th. */
  ghost predicate StopsAfter(pts: seq<Vec>, cs: seq<Vec>, dim: nat, rounds: nat)
    requires cs != [] && SameDim(pts, dim) && SameDim(cs, dim)
  {
    && 1 <= rounds <= MAX_ITERS
    && (forall t :: 0 <= t < rounds - 1 ==> !StillAt(pts, cs, dim, t))
    && (rounds < MAX_ITERS ==> StillAt(pts, cs, dim, rounds - 1))
  }

  /** Where the loop stands after some rounds: none but the last can have been still. */
  ghost predicate GoesOn(pts: seq<Vec>, cs: seq<Vec>, dim: nat, round: nat, moved: bool)
    requires cs != [] && SameDim(pts, dim) && SameDim(cs, dim)
  {
    && round <= MAX_ITERS && (round == 0 ==> moved)
    && (forall t :: 0 <= t < round - 1 ==> !StillAt(pts, cs, dim, t))
    && (round > 0 ==> (moved <==> !StillAt(pts, cs, dim, round - 1)))
  }

  lemma GoesOnFirst(pts: seq<Vec>, cs: seq<Vec>, dim: nat)
    requires cs != [] && SameDim(pts, dim) && SameDim(cs, dim)
    ensures GoesOn(pts, cs, dim, 0, true)
  {
  }

  lemma GoesOnNext(pts: seq<Vec>, cs: seq<Vec>, dim: nat, round: nat, moved: bool)
    requires cs != [] && SameDim(pts, dim) && SameDim(cs, dim) && round < MAX_ITERS && GoesOn(pts, cs, dim, round, true)
    requires moved <==> !StillAt(pts, cs, dim, round)
    ensures GoesOn(pts, cs, dim, round + 1, moved)
  {
    hide StillAt, SameDim;
  }

  lemma StopsHere(pts: seq<Vec>, cs: seq<Vec>, dim: nat, round: nat, moved: bool)
    requires cs != [] && SameDim(pts, dim) && SameDim(cs, dim) && GoesOn(pts, cs, dim, round, moved)
    requires round == MAX_ITERS || !moved
    ensures StopsAfter(pts, cs, dim, round)
  {
    hide StillAt, SameDim;
  }

  lemma StopsIn25(pts: seq<Vec>, cs: seq<Vec>, dim: nat, round: nat)
    requires cs != [] && SameDim(pts, dim) && SameDim(cs, dim)
    ensures StopsAfter(pts, cs, dim, round) <==>
      && 1 <= round <= 25 && (round == 25 || StillAt(pts, cs, dim, round - 1))
      && forall t: nat :: t + 1 < round ==> !StillAt(pts, cs, dim, t)
  {
    hide StillAt, SameDim;
  }

  /** A round is still when no coordinate of any centroid moves by more than two to the power of -23. */
  lemma StillMeans(cs: seq<Vec>, cs': seq<Vec>, dim: nat)
    requires |cs| == |cs'| && SameDim(cs, dim) && SameDim(cs', dim)
    ensures Still(cs, cs', dim) <==>
      forall j, d :: 0 <= j < |cs| && 0 <= d < dim ==> Abs(cs'[j][d] - cs[j][d]) * 8388608.0 <= 1.0
  {
  }

  method InitialCentroids(pts: seq<Vec>, k: nat, dim: nat, seed: nat) returns (cs: seq<Vec>)
    requires 0 < k <= |pts| && SameDim(pts, dim)
    ensures cs == Initial(pts, k, seed, dim)
  {
    hide Pick;
    var offset := seed % |pts|;
    cs := seq(k, j requires 0 <= j < k && 0 < k <= |pts| && offset < |pts| => pts[Pick(|pts|, k, offset, j)]);
  }

  /** Up to 25 iterations from the evenly spaced start, stopping early when no coordinate moves. The result is
      some iterate, so it costs no more than the start. */
  method LloydKmeans(root: real -> real, pts: seq<Vec>, k: nat, dim: nat, seed: nat)
    returns (cs: seq<Vec>, ghost rounds: nat)
    requires IsRoot(root) && 0 < k <= |pts| && SameDim(pts, dim)
    ensures |cs| == k && SameDim(cs, dim)
    ensures cs == LloydSteps(pts, Initial(pts, k, seed, dim), dim, rounds)
    ensures StopsAfter(pts, Initial(pts, k, seed, dim), dim, rounds)
    ensures 1 <= rounds <= 25 && (rounds == 25 || StillAt(pts, Initial(pts, k, seed, dim), dim, rounds - 1))
    ensures Objective(pts, cs, dim) <= Objective(pts, Initial(pts, k, seed, dim), dim)
  {
    hide IsRoot, LloydStep, LloydSteps, Objective, Still, StillAt, StopsAfter, Initial, GoesOn, Pick;
    cs := InitialCentroids(pts, k, dim, seed);
    ghost var start := Initial(pts, k, seed, dim);
    StepsNext(pts, start, dim, 0);
    GoesOnFirst(pts, start, dim);
    var round := 0;
    var moved := true;
    while round < MAX_ITERS && moved
      invariant round <= MAX_ITERS && |cs| == k && SameDim(cs, dim)
      invariant cs == LloydSteps(pts, start, dim, round)
      invariant GoesOn(pts, start, dim, round, moved)
      decreases MAX_ITERS - round
    {
      var sums, counts := Accumulate(root, pts, cs, dim);
      cs, moved := MoveCentroids(pts, cs, dim, sums, counts);
      StepsNext(pts, start, dim, round);
      StillAtNext(pts, start, dim, round);
      GoesOnNext(pts, start, dim, round, moved);
      round := round + 1;
    }
    StopsHere(pts, start, dim, round, moved);
    StopsIn25(pts, start, dim, round);
    rounds := round;
    StepsDescend(pts, start, dim, rounds);
  }
}

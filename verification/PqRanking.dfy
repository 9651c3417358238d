/** When the lookup table orders two codes as their distances do, although it sums roots. */
module PqRanking {
  import opened RealSums
  import opened KMeans
  import opened Pq

  /** The table and the squared distances put the two codes in the same order. */
  ghost predicate RankedAlike(root: real -> real, q: Quantizer, v: Vec, a: seq<nat>, b: seq<nat>)
    requires q.Valid() && q.IsCode(a) && q.IsCode(b) && |v| == q.m * q.subDim
  {
    Adc(q.Lut(root, v), a) < Adc(q.Lut(root, v), b)
    <==> SqDist(v, q.Reconstruct(a, q.m)) < SqDist(v, q.Reconstruct(b, q.m))
  }

  /** The table sum is a sum of roots, and the squared distance the sum of what they are roots of. */
  lemma SumsOf(root: real -> real, q: Quantizer, v: Vec, code: seq<nat>)
    requires IsRoot(root) && q.Valid() && q.IsCode(code) && |v| == q.m * q.subDim
    ensures Adc(q.Lut(root, v), code) == Sum(Lookups(q.Lut(root, v), code, q.m))
    ensures SqDist(v, q.Reconstruct(code, q.m)) == Sum(Terms(q, v, code, q.m))
    ensures forall i :: 0 <= i < q.m ==>
      Lookups(q.Lut(root, v), code, q.m)[i] == root(Term(q, v, code, i)) && Term(q, v, code, i) >= 0.0
  {
    hide SqDist, AdcFirst, IsRoot, Sum, Quantizer.Sub;
    ReconstructionDistance(q, v, code, q.m);
    assert v[..q.m * q.subDim] == v;
    AdcIsSum(q.Lut(root, v), code, q.m);
    forall i | 0 <= i < q.m ensures Term(q, v, code, i) >= 0.0 {
      SqDistNonNegative(q.Sub(v, i), q.codebooks[i][code[i]]);
    }
  }

  /** The codes stand for the same centroid in every subspace but perhaps `i`. */
  ghost predicate AgreeOutside(q: Quantizer, a: seq<nat>, b: seq<nat>, i: nat)
    requires q.IsCode(a) && q.IsCode(b)
  {
    forall k :: 0 <= k < q.m && k != i ==> q.codebooks[k][a[k]] == q.codebooks[k][b[k]]
  }

  /** Codes that differ in at most one subspace are ordered rightly, for every quantizer and query. */
  lemma OneSubspaceRanksRight(root: real -> real, q: Quantizer, v: Vec, a: seq<nat>, b: seq<nat>, i: nat)
    requires IsRoot(root) && q.Valid() && q.IsCode(a) && q.IsCode(b) && |v| == q.m * q.subDim && i < q.m
    requires AgreeOutside(q, a, b, i)
    ensures RankedAlike(root, q, v, a, b)
  {
    hide SqDist, AdcFirst, Adc, IsRoot, Sum, Quantizer.Sub;
    SumsOf(root, q, v, a);
    SumsOf(root, q, v, b);
    var la, lb := Lookups(q.Lut(root, v), a, q.m), Lookups(q.Lut(root, v), b, q.m);
    var ta, tb := Terms(q, v, a, q.m), Terms(q, v, b, q.m);
    forall k | 0 <= k < q.m && k != i ensures ta[k] == tb[k] && la[k] == lb[k] {
      assert Term(q, v, a, k) == Term(q, v, b, k);
    }
    SumPoint(la, i, lb[i] - la[i], lb);
    SumPoint(ta, i, tb[i] - ta[i], tb);
    RootOrder(root, ta[i], tb[i]);
  }

  // ----- codebooks that rank every query rightly -----

  /** The subspace has two different centroids. */
  ghost predicate Varies(q: Quantizer, i: nat)
    requires i < |q.codebooks|
  {
    exists x, y :: 0 <= x < |q.codebooks[i]| && 0 <= y < |q.codebooks[i]| && Differ(q, i, x, y)
  }

  ghost predicate Differ(q: Quantizer, i: nat, x: nat, y: nat)
    requires i < |q.codebooks| && x < |q.codebooks[i]| && y < |q.codebooks[i]|
  {
    q.codebooks[i][x] != q.codebooks[i][y]
  }

  ghost predicate AlwaysRanksRight(root: real -> real, q: Quantizer)
    requires q.Valid()
  {
    forall v, a, b :: |v| == q.m * q.subDim && q.IsCode(a) && q.IsCode(b) ==> RankedAlike(root, q, v, a, b)
  }

  ghost predicate AtMostOneVaries(q: Quantizer)
    requires q.Valid()
  {
    forall i, j :: 0 <= i < q.m && 0 <= j < q.m && Varies(q, i) && Varies(q, j) ==> i == j
  }

  lemma FixedAgrees(q: Quantizer, i: nat, x: nat, y: nat)
    requires i < |q.codebooks| && x < |q.codebooks[i]| && y < |q.codebooks[i]| && !Varies(q, i)
    ensures q.codebooks[i][x] == q.codebooks[i][y]
  {
    assert !Differ(q, i, x, y);
  }

  lemma OneVaryingRanksRight(root: real -> real, q: Quantizer, v: Vec, a: seq<nat>, b: seq<nat>)
    requires IsRoot(root) && q.Valid() && q.IsCode(a) && q.IsCode(b) && |v| == q.m * q.subDim && AtMostOneVaries(q)
    ensures RankedAlike(root, q, v, a, b)
  {
    hide RankedAlike;
    if q.m == 0 {
      assert a == b;
      SameRank(root, q, v, a);
    } else {
      var i: nat := if exists k :: 0 <= k < q.m && Varies(q, k) then var k :| 0 <= k < q.m && Varies(q, k); k else 0;
      forall k | 0 <= k < q.m && k != i ensures q.codebooks[k][a[k]] == q.codebooks[k][b[k]] {
        FixedAgrees(q, k, a[k], b[k]);
      }
      OneSubspaceRanksRight(root, q, v, a, b, i);
    }
  }

  lemma SameRank(root: real -> real, q: Quantizer, v: Vec, a: seq<nat>)
    requires q.Valid() && q.IsCode(a) && |v| == q.m * q.subDim
    ensures RankedAlike(root, q, v, a, a)
  {
  }

  // ----- a query that two varying subspaces misrank -----

  /** The point `t` of the way beyond `p` on the line from `r` through `p`. */
  function Beyond(p: Vec, r: Vec, t: real): (x: Vec)
    requires |p| == |r|
    ensures |x| == |p| && forall k :: 0 <= k < |p| ==> x[k] == p[k] + t * (p[k] - r[k])
  {
    seq(|p|, k requires 0 <= k < |p| && |p| == |r| => p[k] + t * (p[k] - r[k]))
  }

  lemma BeyondPrefix(p: Vec, r: Vec, t: real, n: nat)
    requires |p| == |r| == n + 1
    ensures Beyond(p, r, t)[..n] == Beyond(p[..n], r[..n], t)
    ensures Beyond(p, r, t)[n] - p[n] == t * (p[n] - r[n])
    ensures Beyond(p, r, t)[n] - r[n] == (t + 1.0) * (p[n] - r[n])
  {
    hide Beyond;
    var x, short := Beyond(p, r, t), Beyond(p[..n], r[..n], t);
    forall k | 0 <= k < n ensures x[..n][k] == short[k] {
      assert p[..n][k] == p[k] && r[..n][k] == r[k];
    }
  }

  function Sq(x: real): real { x * x }

  /** `t` squared, times `d`. */
  function Scaled(t: real, d: real): real { t * t * d }

  lemma ScaledSum(t: real, x: real, d: real, sum: real)
    requires sum == d + Sq(x)
    ensures Scaled(t, d) + Sq(t * x) == Scaled(t, sum)
  {
    assert (t * x) * (t * x) == (t * t) * (x * x);
  }

  lemma SqDistLast(a: Vec, b: Vec, n: nat, y: real)
    requires |a| == |b| == n + 1 && y == a[n] - b[n]
    ensures SqDist(a, b) == SqDist(a[..n], b[..n]) + Sq(y)
  {
  }

  lemma NothingApart(x: Vec, p: Vec, r: Vec, t: real)
    requires |x| == |p| == |r| == 0
    ensures SqDist(x, p) == SqDist(x, r) == SqDist(p, r) == 0.0
    ensures Scaled(t, 0.0) == Scaled(t + 1.0, 0.0) == 0.0
  {
  }

  lemma {:induction false} BeyondDistances(p: Vec, r: Vec, t: real)
    requires |p| == |r|
    ensures SqDist(Beyond(p, r, t), p) == Scaled(t, SqDist(p, r))
    ensures SqDist(Beyond(p, r, t), r) == Scaled(t + 1.0, SqDist(p, r))
  {
    hide Beyond, SqDist, Sq, Scaled;
    if p == [] {
      NothingApart(Beyond(p, r, t), p, r, t);
    } else {
      var n := |p| - 1;
      BeyondDistances(p[..n], r[..n], t);
      BeyondPrefix(p, r, t, n);
      var y, u := p[n] - r[n], t + 1.0;
      SqDistLast(Beyond(p, r, t), p, n, t * y);
      SqDistLast(Beyond(p, r, t), r, n, u * y);
      SqDistLast(p, r, n, y);
      ScaledSum(t, y, SqDist(p[..n], r[..n]), SqDist(p, r));
      ScaledSum(u, y, SqDist(p[..n], r[..n]), SqDist(p, r));
    }
  }

  lemma {:induction false} ReconstructSub(q: Quantizer, code: seq<nat>, n: nat, k: nat)
    requires q.Valid() && q.IsCode(code) && k < n <= q.m
    ensures k * q.subDim <= (k + 1) * q.subDim <= n * q.subDim
    ensures q.Reconstruct(code, n)[k * q.subDim..(k + 1) * q.subDim] == q.codebooks[k][code[k]]
  {
    SubBounds(k, n, q.subDim);
    SubBounds(n - 1, n, q.subDim);
    if k < n - 1 { ReconstructSub(q, code, n - 1, k); }
  }

  /** The vector with the given parts. */
  lemma Assembled(q: Quantizer, parts: seq<Vec>) returns (v: Vec)
    requires |parts| == q.m && SameDim(parts, q.subDim)
    ensures |v| == q.m * q.subDim && forall k :: 0 <= k < q.m ==> q.Sub(v, k) == parts[k]
  {
    var single := Quantizer(q.m, q.subDim, seq(q.m, k requires 0 <= k < q.m && |parts| == q.m => [parts[k]]));
    var zeros := seq(q.m, _ => 0);
    v := single.Reconstruct(zeros, q.m);
    forall k | 0 <= k < q.m ensures q.Sub(v, k) == parts[k] {
      ReconstructSub(single, zeros, q.m, k);
    }
  }

  lemma {:induction false} SumTwo(xs: seq<real>, i: nat, j: nat)
    requires i < |xs| && j < |xs| && i != j && forall k :: 0 <= k < |xs| && k != i && k != j ==> xs[k] == 0.0
    ensures Sum(xs) == xs[i] + xs[j]
  {
    var none := xs[i := 0.0][j := 0.0];
    NothingSums(none);
    SumPoint(none, i, xs[i], none[i := xs[i]]);
    SumPoint(none[i := xs[i]], j, xs[j], xs);
  }

  lemma {:induction false} NothingSums(xs: seq<real>)
    requires forall k :: 0 <= k < |xs| ==> xs[k] == 0.0
    ensures Sum(xs) == 0.0
  {
    if xs != [] { NothingSums(xs[..|xs| - 1]); }
  }

  /** A code with entry `x` at `i`, `y` at `j` and zero elsewhere. */
  function TwoAt(m: nat, i: nat, x: nat, j: nat, y: nat): (code: seq<nat>)
    ensures |code| == m && forall k :: 0 <= k < m ==> code[k] == if k == i then x else if k == j then y else 0
  {
    seq(m, k => if k == i then x else if k == j then y else 0)
  }

  /** With P and Q the squared distances, P at most Q, between two centroids of subspace `i` and of subspace `j`, the
      query lies Q / P beyond the first centroid of `i` and on the first of `j`. */
  ghost predicate Separates(q: Quantizer, v: Vec, i: nat, x: nat, y: nat, j: nat, z: nat, w: nat)
    requires q.Valid() && |v| == q.m * q.subDim
  {
    && i < q.m && j < q.m && i != j && x < |q.codebooks[i]| && y < |q.codebooks[i]|
    && z < |q.codebooks[j]| && w < |q.codebooks[j]|
    && 0.0 < Gap(q, i, x, y) <= Gap(q, j, z, w)
    && q.Sub(v, i) == Beyond(q.codebooks[i][x], q.codebooks[i][y], Gap(q, j, z, w) / Gap(q, i, x, y))
    && q.Sub(v, j) == q.codebooks[j][z]
    && forall k :: 0 <= k < q.m && k != i && k != j ==> q.Sub(v, k) == q.codebooks[k][0]
  }

  function Gap(q: Quantizer, i: nat, x: nat, y: nat): real
    requires i < |q.codebooks| && x < |q.codebooks[i]| && y < |q.codebooks[i]| && SameDim(q.codebooks[i], q.subDim)
  {
    SqDist(q.codebooks[i][x], q.codebooks[i][y])
  }

  lemma SelfDistance(a: Vec)
    ensures SqDist(a, a) == 0.0
  {
    SqDistZero(a, a);
  }

  lemma SeparatedTerms(q: Quantizer, v: Vec, i: nat, x: nat, y: nat, j: nat, z: nat, w: nat)
    requires q.Valid() && |v| == q.m * q.subDim && Separates(q, v, i, x, y, j, z, w)
    ensures var a, b := TwoAt(q.m, i, y, j, z), TwoAt(q.m, i, x, j, w);
      var p, far := Gap(q, i, x, y), Gap(q, j, z, w);
      && q.IsCode(a) && q.IsCode(b)
      && Term(q, v, a, i) == Scaled(far / p + 1.0, p) && Term(q, v, a, j) == 0.0
      && Term(q, v, b, i) == Scaled(far / p, p) && Term(q, v, b, j) == far
      && forall k :: 0 <= k < q.m && k != i && k != j ==> Term(q, v, a, k) == Term(q, v, b, k) == 0.0
  {
    hide SqDist, Quantizer.Sub, Beyond, Scaled;
    BeyondDistances(q.codebooks[i][x], q.codebooks[i][y], Gap(q, j, z, w) / Gap(q, i, x, y));
    SelfDistance(q.codebooks[j][z]);
    forall k | 0 <= k < q.m && k != i && k != j ensures SqDist(q.Sub(v, k), q.codebooks[k][0]) == 0.0 {
      SelfDistance(q.codebooks[k][0]);
    }
  }

  /** `(t + 1) P` against `t P + Q` for the roots, and their squares the other way round. */
  lemma OrdersDisagree(root: real -> real, p: real, far: real, t: real, s: real, s': real)
    requires IsRoot(root) && 0.0 < p <= far && t == far / p && s == Scaled(t + 1.0, p) && s' == Scaled(t, p)
    ensures root(s) + root(0.0) <= root(s') + root(far)
    ensures s' + far < s + 0.0
  {
    var r := root(p);
    RatioTimes(far, p, t);
    ScaledRoot(root, p, t, s');
    ScaledRoot(root, p, t + 1.0, s);
    RootIs(root, 0.0, 0.0);
    RootOrder(root, far, p);
    assert (t + 1.0) * r == t * r + r;
    assert s == s' + 2.0 * (t * p) + p by { Expand(t, p); }
  }

  lemma RatioTimes(a: real, b: real, t: real)
    requires a > 0.0 && b > 0.0 && t == a / b
    ensures t * b == a && t >= 0.0
  {
  }

  lemma Expand(t: real, p: real)
    ensures Scaled(t + 1.0, p) == Scaled(t, p) + 2.0 * (t * p) + p
  {
  }

  lemma ScaledRoot(root: real -> real, p: real, t: real, s: real)
    requires IsRoot(root) && p >= 0.0 && t >= 0.0 && s == Scaled(t, p)
    ensures root(s) == t * root(p)
  {
    var r := root(p);
    TimesNonNegative(t, r);
    assert (t * r) * (t * r) == t * t * (r * r);
    RootIs(root, t * r, s);
  }

  /** Such a query is misranked. */
  lemma SeparatedIsMisranked(root: real -> real, q: Quantizer, v: Vec, i: nat, x: nat, y: nat, j: nat, z: nat, w: nat)
    requires IsRoot(root) && q.Valid() && |v| == q.m * q.subDim && Separates(q, v, i, x, y, j, z, w)
    ensures var a, b := TwoAt(q.m, i, y, j, z), TwoAt(q.m, i, x, j, w);
      q.IsCode(a) && q.IsCode(b) && !RankedAlike(root, q, v, b, a)
  {
    hide SqDist, AdcFirst, Adc, IsRoot, Sum, Quantizer.Sub, Term, Scaled, Gap, Beyond, TwoAt;
    hide Quantizer.Lut, Quantizer.Reconstruct, Lookups, Terms;
    var a, b := TwoAt(q.m, i, y, j, z), TwoAt(q.m, i, x, j, w);
    var p, far := Gap(q, i, x, y), Gap(q, j, z, w);
    SeparatedTerms(q, v, i, x, y, j, z, w);
    SumsOf(root, q, v, a);
    SumsOf(root, q, v, b);
    RootIs(root, 0.0, 0.0);
    SumTwo(Lookups(q.Lut(root, v), a, q.m), i, j);
    SumTwo(Lookups(q.Lut(root, v), b, q.m), i, j);
    SumTwo(Terms(q, v, a, q.m), i, j);
    SumTwo(Terms(q, v, b, q.m), i, j);
    OrdersDisagree(root, p, far, far / p, Term(q, v, a, i), Term(q, v, b, i));
  }

  lemma MisrankedQuery(root: real -> real, q: Quantizer, i: nat, x: nat, y: nat, j: nat, z: nat, w: nat)
    requires IsRoot(root) && q.Valid() && i < q.m && j < q.m && i != j
    requires x < |q.codebooks[i]| && y < |q.codebooks[i]| && z < |q.codebooks[j]| && w < |q.codebooks[j]|
    requires 0.0 < Gap(q, i, x, y) <= Gap(q, j, z, w)
    ensures !AlwaysRanksRight(root, q)
  {
    hide SqDist, IsRoot, Gap, RankedAlike;
    var t := Gap(q, j, z, w) / Gap(q, i, x, y);
    var parts := seq(q.m, k requires 0 <= k < q.m =>
      if k == i then Beyond(q.codebooks[i][x], q.codebooks[i][y], t)
      else if k == j then q.codebooks[j][z] else q.codebooks[k][0]);
    var v := Assembled(q, parts);
    SeparatedIsMisranked(root, q, v, i, x, y, j, z, w);
  }

  /** The table orders every two codes rightly for every query exactly when at most one subspace has two different
      centroids. */
  lemma AlwaysRanksRightIff(root: real -> real, q: Quantizer)
    requires IsRoot(root) && q.Valid()
    ensures AlwaysRanksRight(root, q) <==> AtMostOneVaries(q)
  {
    hide IsRoot, RankedAlike, Gap;
    if AtMostOneVaries(q) {
      forall v, a, b | |v| == q.m * q.subDim && q.IsCode(a) && q.IsCode(b) ensures RankedAlike(root, q, v, a, b) {
        OneVaryingRanksRight(root, q, v, a, b);
      }
    } else {
      var i, j :| 0 <= i < q.m && 0 <= j < q.m && Varies(q, i) && Varies(q, j) && i != j;
      var x, y :| 0 <= x < |q.codebooks[i]| && 0 <= y < |q.codebooks[i]| && Differ(q, i, x, y);
      var z, w :| 0 <= z < |q.codebooks[j]| && 0 <= w < |q.codebooks[j]| && Differ(q, j, z, w);
      GapPositive(q, i, x, y);
      GapPositive(q, j, z, w);
      if Gap(q, i, x, y) <= Gap(q, j, z, w) {
        MisrankedQuery(root, q, i, x, y, j, z, w);
      } else {
        MisrankedQuery(root, q, j, z, w, i, x, y);
      }
    }
  }

  lemma GapPositive(q: Quantizer, i: nat, x: nat, y: nat)
    requires q.Valid() && i < q.m && x < |q.codebooks[i]| && y < |q.codebooks[i]| && Differ(q, i, x, y)
    ensures Gap(q, i, x, y) > 0.0
  {
    SqDistNonNegative(q.codebooks[i][x], q.codebooks[i][y]);
    SqDistZero(q.codebooks[i][x], q.codebooks[i][y]);
  }

  // ----- the misranked codes can be trained -----

  lemma DistanceOfOne(a: real, b: real)
    ensures SqDist([a], [b]) == (a - b) * (a - b)
    ensures a != b ==> SqDist([a], [b]) > 0.0
  {
    SqDistZero([a], [b]);
    SqDistNonNegative([a], [b]);
  }

  lemma NearestOfTwo(p: Vec, c: Vec, d: Vec)
    requires |p| == |c| == |d|
    ensures Nearest(p, [c, d]) == if SqDist(p, d) < SqDist(p, c) then 1 else 0
  {
    assert [c, d][..1] == [c];
  }

  /** Two different points on a line are their own centroids. */
  lemma TwoPointsAssigned(a: real, b: real)
    requires a != b
    ensures Assignment([[a], [b]], [[a], [b]], 1) == [0, 1]
  {
    hide SqDist, Nearest;
    NearestPair(a, b);
  }

  lemma TwoPointSums(a: real, b: real)
    ensures var pts, at := [[a], [b]], [0, 1];
      && Size(at, 0) == Size(at, 1) == 1
      && CoordSum(pts, at, 0, 0) == a && CoordSum(pts, at, 1, 0) == b
  {
    var pts, at := [[a], [b]], [0, 1];
    assert at[..1] == [0] && pts[..1] == [[a]] && [0][..0] == [] && [[a]][..0] == [];
    assert Size([0], 0) == 1 && Size([0], 1) == 0;
    OnePointSum(a, 0);
    OnePointSum(a, 1);
  }

  lemma OnePointSum(x: real, j: nat)
    ensures CoordSum([[x]], [0], j, 0) == if j == 0 then x else 0.0
  {
    assert [[x]][..0] == [] && CoordSum([], [], j, 0) == 0.0;
    assert [0][..0] == [];
  }

  lemma MeanOfOne(pts: seq<Vec>, at: seq<nat>, cs: seq<Vec>, j: nat, x: real)
    requires |pts| == |at| && SameDim(pts, 1) && SameDim(cs, 1) && j < |cs|
    requires Size(at, j) == 1 && CoordSum(pts, at, j, 0) == x
    ensures Moved(pts, at, cs, 1, j) == [x]
  {
    hide Size, CoordSum;
  }

  lemma TwoPointsStay(pts: seq<Vec>, a: real, b: real)
    requires pts == [[a], [b]] && a != b
    ensures LloydStep(pts, pts, 1) == pts
  {
    hide Size, CoordSum, Moved, Assignment, LloydStep;
    TwoPointsAssigned(a, b);
    TwoPointSums(a, b);
    MeanOfOne(pts, [0, 1], pts, 0, a);
    MeanOfOne(pts, [0, 1], pts, 1, b);
  }

  lemma {:induction false} FixedStays(pts: seq<Vec>, cs: seq<Vec>, dim: nat, t: nat)
    requires cs != [] && SameDim(pts, dim) && SameDim(cs, dim) && LloydStep(pts, cs, dim) == cs
    ensures LloydSteps(pts, cs, dim, t) == cs
  {
    hide LloydStep, SameDim, LloydSteps;
    StepsNext(pts, cs, dim, if t == 0 then 0 else t - 1);
    if t > 0 { FixedStays(pts, cs, dim, t - 1); }
  }

  lemma TwoPointBook(book: seq<Vec>, a: real, b: real)
    requires a != b && TrainedBook(book, [[a], [b]], 1, 0)
    ensures book == [[a], [b]]
  {
    hide LloydStep, LloydSteps, Objective, StopsAfter;
    var rounds :| TrainedIn(book, [[a], [b]], 2, 1, 0, rounds);
    assert Initial([[a], [b]], 2, 0, 1) == [[a], [b]];
    TwoPointsStay([[a], [b]], a, b);
    FixedStays([[a], [b]], [[a], [b]], 1, rounds);
  }

  /** Training on (3, 0) and (2, 2) gives the codebooks of the misranked example, and its codes are those of the two
      vectors: the second-nearest stored vector is taken for the nearest. */
  method MisrankedCorpus(root: real -> real) returns (q: Quantizer)
    requires IsRoot(root)
    ensures q.Valid() && q.m == 2 && q.subDim == 1
    ensures q.Code([3.0, 0.0]) == [0, 0] && q.Code([2.0, 2.0]) == [1, 1]
    ensures q.Reconstruct([0, 0], 2) == [3.0, 0.0] && q.Reconstruct([1, 1], 2) == [2.0, 2.0]
    ensures !RankedAlike(root, q, [0.0, 0.0], [0, 0], [1, 1])
  {
    hide IsRoot, TrainedBook, SqDist, AdcFirst, Adc;
    var corpus: seq<Vec> := [[3.0, 0.0], [2.0, 2.0]];
    var r := Train(root, corpus, 2, 0);
    q := r.q;
    assert q.Sub([3.0, 0.0], 0) == [3.0] && q.Sub([3.0, 0.0], 1) == [0.0];
    assert q.Sub([2.0, 2.0], 0) == [2.0] && q.Sub([2.0, 2.0], 1) == [2.0];
    assert SubVectors(corpus, 0, 2, 1) == [[3.0], [2.0]] && SubVectors(corpus, 1, 2, 1) == [[0.0], [2.0]];
    TwoPointBook(q.codebooks[0], 3.0, 2.0);
    TwoPointBook(q.codebooks[1], 0.0, 2.0);
    assert q == Quantizer(2, 1, [[[3.0], [2.0]], [[0.0], [2.0]]]);
    MisrankedCodes(q);
    AdcMayMisrank(root);
  }

  lemma MisrankedCodes(q: Quantizer)
    requires q == Quantizer(2, 1, [[[3.0], [2.0]], [[0.0], [2.0]]])
    ensures q.Valid() && q.Code([3.0, 0.0]) == [0, 0] && q.Code([2.0, 2.0]) == [1, 1]
    ensures q.Reconstruct([0, 0], 2) == [3.0, 0.0] && q.Reconstruct([1, 1], 2) == [2.0, 2.0]
  {
    hide SqDist, Nearest;
    assert q.Sub([3.0, 0.0], 0) == [3.0] && q.Sub([3.0, 0.0], 1) == [0.0];
    assert q.Sub([2.0, 2.0], 0) == [2.0] && q.Sub([2.0, 2.0], 1) == [2.0];
    NearestPair(3.0, 2.0);
    NearestPair(0.0, 2.0);
    assert q.Reconstruct([0, 0], 1) == [3.0] && q.Reconstruct([1, 1], 1) == [2.0];
  }

  lemma NearestPair(a: real, b: real)
    requires a != b
    ensures Nearest([a], [[a], [b]]) == 0 && Nearest([b], [[a], [b]]) == 1
  {
    hide SqDist, Nearest;
    NearestOfTwo([a], [a], [b]);
    NearestOfTwo([b], [a], [b]);
    DistanceOfOne(a, b);
    DistanceOfOne(a, a);
    DistanceOfOne(b, a);
    DistanceOfOne(b, b);
  }
}

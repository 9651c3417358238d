/** Product quantization: codebooks per subspace, encoding and the per-query lookup table. */
module Pq {
  import opened RealSums
  import opened KMeans

  const K_STAR: nat := 256

  datatype Quantizer = Quantizer(m: nat, subDim: nat, codebooks: seq<seq<Vec>>) {

    ghost predicate Valid() {
      && |codebooks| == m
      && forall i :: 0 <= i < m ==> codebooks[i] != [] && SameDim(codebooks[i], subDim)
    }

    /** `v[i * sub_dim..(i + 1) * sub_dim]`. */
    function Sub(v: Vec, i: nat): (s: Vec)
      requires i < m && |v| >= m * subDim
      ensures |s| == subDim
    {
      SubBounds(i, m, subDim);
      v[i * subDim..(i + 1) * subDim]
    }

    /** The nearest centroid of every subspace. */
    ghost function Code(v: Vec): (code: seq<nat>)
      requires Valid() && |v| >= m * subDim
      ensures |code| == m
      ensures forall i :: 0 <= i < m ==> code[i] == Nearest(Sub(v, i), codebooks[i]) < |codebooks[i]|
    {
      seq(m, i requires 0 <= i < m => Nearest(Sub(v, i), codebooks[i]))
    }

    ghost predicate IsCode(code: seq<nat>) {
      |code| == m && |codebooks| == m && forall i :: 0 <= i < m ==> code[i] < |codebooks[i]|
    }

    /** The table entry: the code takes the distance itself, root included. */
    function Entry(root: real -> real, query: Vec, i: nat, j: nat): real
      requires Valid() && |query| == m * subDim && i < m && j < |codebooks[i]|
    {
      L2(root, Sub(query, i), codebooks[i][j])
    }

    function Lut(root: real -> real, query: Vec): (lut: seq<seq<real>>)
      requires Valid() && |query| == m * subDim
      ensures |lut| == m && forall i :: 0 <= i < m ==> |lut[i]| == |codebooks[i]|
      ensures forall i, j :: 0 <= i < m && 0 <= j < |codebooks[i]| ==> lut[i][j] == Entry(root, query, i, j)
    {
      seq(m, i requires 0 <= i < m && Valid() && |query| == m * subDim =>
        seq(|codebooks[i]|, j requires 0 <= j < |codebooks[i]| => Entry(root, query, i, j)))
    }

    /** The vector a code stands for, over its first `n` subspaces. */
    ghost function Reconstruct(code: seq<nat>, n: nat): (v: Vec)
      requires Valid() && IsCode(code) && n <= m
      ensures |v| == n * subDim
    {
      if n == 0 then [] else Reconstruct(code, n - 1) + codebooks[n - 1][code[n - 1]]
    }
  }

  lemma SubBounds(i: nat, m: nat, d: nat)
    requires i < m
    ensures i * d + d == (i + 1) * d <= m * d
  {
    TimesMonotone(i + 1, m, d);
  }

  // ----- encoding -----

  method Encode(root: real -> real, q: Quantizer, v: Vec) returns (code: seq<nat>)
    requires IsRoot(root) && q.Valid() && |v| >= q.m * q.subDim
    ensures code == q.Code(v)
  {
    hide IsRoot, Nearest;
    code := [];
    for i := 0 to q.m
      invariant |code| == i && forall j :: 0 <= j < i ==> code[j] == q.Code(v)[j]
    {
      var c := NearestCentroid(root, q.Sub(v, i), q.codebooks[i]);
      code := code + [c];
    }
  }

  function AdcFirst(lut: seq<seq<real>>, code: seq<nat>, n: nat): real
    requires n <= |lut| == |code| && forall i :: 0 <= i < |lut| ==> code[i] < |lut[i]|
  {
    if n == 0 then 0.0 else AdcFirst(lut, code, n - 1) + lut[n - 1][code[n - 1]]
  }

  /** `adc_distance`: one lookup per subspace, no decoding. */
  function Adc(lut: seq<seq<real>>, code: seq<nat>): real
    requires |lut| == |code| && forall i :: 0 <= i < |lut| ==> code[i] < |lut[i]|
  {
    AdcFirst(lut, code, |lut|)
  }

  lemma {:induction false} AdcTermwise(lut: seq<seq<real>>, a: seq<nat>, b: seq<nat>, n: nat)
    requires n <= |lut| == |a| == |b| && forall i :: 0 <= i < |lut| ==> a[i] < |lut[i]| && b[i] < |lut[i]|
    requires forall i :: 0 <= i < |lut| ==> lut[i][a[i]] <= lut[i][b[i]]
    ensures AdcFirst(lut, a, n) <= AdcFirst(lut, b, n)
  {
    if n > 0 {
      AdcTermwise(lut, a, b, n - 1);
    }
  }

  /** A vector's own code has the least table sum among all codes. */
  lemma EncodingMinimisesAdc(root: real -> real, q: Quantizer, v: Vec, code: seq<nat>)
    requires IsRoot(root) && q.Valid() && |v| == q.m * q.subDim && q.IsCode(code)
    ensures Adc(q.Lut(root, v), q.Code(v)) <= Adc(q.Lut(root, v), code)
  {
    hide IsRoot, Nearest, SqDist;
    forall i | 0 <= i < q.m
      ensures q.Entry(root, v, i, q.Code(v)[i]) <= q.Entry(root, v, i, code[i])
    {
      var best, other := q.codebooks[i][q.Code(v)[i]], q.codebooks[i][code[i]];
      NearestIsNearest(q.Sub(v, i), q.codebooks[i]);
      SqDistNonNegative(q.Sub(v, i), best);
      SqDistNonNegative(q.Sub(v, i), other);
      RootOrder(root, SqDist(q.Sub(v, i), other), SqDist(q.Sub(v, i), best));
    }
    AdcTermwise(q.Lut(root, v), q.Code(v), code, q.m);
  }

  // ----- what the table sum is worth -----

  /** The table is documented to hold squared distances; an entry is one exactly when it is 0 or 1. */
  lemma EntryIsSquareIff(root: real -> real, q: Quantizer, v: Vec, i: nat, j: nat)
    requires IsRoot(root) && q.Valid() && |v| == q.m * q.subDim && i < q.m && j < |q.codebooks[i]|
    ensures var sq := SqDist(q.Sub(v, i), q.codebooks[i][j]);
      q.Entry(root, v, i, j) == sq <==> sq == 0.0 || sq == 1.0
  {
    var sq := SqDist(q.Sub(v, i), q.codebooks[i][j]);
    hide SqDist;
    SqDistNonNegative(q.Sub(v, i), q.codebooks[i][j]);
    SelfSquare(root(sq), sq);
  }

  lemma PositiveProduct(r: real, s: real, x: real)
    requires r > 0.0 && s > 0.0 && x == r * s
    ensures x > 0.0
  {
  }

  /** Where a product `x` of non-negative factors lies. */
  lemma ProductFacts(r: real, s: real, x: real)
    requires r >= 0.0 && s >= 0.0 && x == r * s
    ensures x >= 0.0
    ensures r > 0.0 && s > 0.0 ==> x > 0.0
    ensures r == 0.0 ==> x == 0.0
    ensures r > 0.0 && s > 1.0 ==> x > r
    ensures r > 0.0 && s < 1.0 ==> x < r
    ensures s == 1.0 ==> x == r
  {
    if r > 0.0 && s > 0.0 { PositiveProduct(r, s, x); }
    if r > 0.0 && s > 1.0 { PositiveProduct(r, s - 1.0, x - r); }
    if r > 0.0 && s < 1.0 { PositiveProduct(r, 1.0 - s, r - x); }
  }

  lemma SelfSquare(r: real, x: real)
    requires r >= 0.0 && r * r == x
    ensures r == x <==> x == 0.0 || x == 1.0
  {
    ProductFacts(r, r, x);
  }

  /** Because roots are summed, the table can rank two codes against their true distances: in two one-dimensional
      subspaces, from the origin, (3, 0) sums to 3 and (2, 2) to 4, while the squared distances are 9 and 8. */
  lemma AdcMayMisrank(root: real -> real)
    requires IsRoot(root)
    ensures var q := Quantizer(2, 1, [[[3.0], [2.0]], [[0.0], [2.0]]]);
      var v := [0.0, 0.0];
      && q.Valid() && q.IsCode([0, 0]) && q.IsCode([1, 1])
      && Adc(q.Lut(root, v), [0, 0]) < Adc(q.Lut(root, v), [1, 1])
      && SqDist(v, q.Reconstruct([0, 0], 2)) > SqDist(v, q.Reconstruct([1, 1], 2))
  {
    var q := Quantizer(2, 1, [[[3.0], [2.0]], [[0.0], [2.0]]]);
    var v := [0.0, 0.0];
    assert SqDist([0.0], [3.0]) == 9.0 && SqDist([0.0], [2.0]) == 4.0 && SqDist([0.0], [0.0]) == 0.0;
    RootIs(root, 3.0, 9.0);
    RootIs(root, 2.0, 4.0);
    RootIs(root, 0.0, 0.0);
    assert q.Sub(v, 0) == [0.0] && q.Sub(v, 1) == [0.0];
    var lut := q.Lut(root, v);
    assert lut[0][0] == 3.0 && lut[0][1] == 2.0 && lut[1][0] == 0.0 && lut[1][1] == 2.0;
    AdcOfTwo(lut, [0, 0]);
    AdcOfTwo(lut, [1, 1]);
    MisrankedVectors(q);
  }

  lemma MisrankedVectors(q: Quantizer)
    requires q == Quantizer(2, 1, [[[3.0], [2.0]], [[0.0], [2.0]]])
    ensures q.Valid() && q.IsCode([0, 0]) && q.IsCode([1, 1])
    ensures SqDist([0.0, 0.0], q.Reconstruct([0, 0], 2)) == 9.0
    ensures SqDist([0.0, 0.0], q.Reconstruct([1, 1], 2)) == 8.0
  {
    assert q.Reconstruct([0, 0], 1) == [3.0] && q.Reconstruct([1, 1], 1) == [2.0];
    assert q.Reconstruct([0, 0], 2) == [3.0, 0.0] && q.Reconstruct([1, 1], 2) == [2.0, 2.0];
    SqDistOfTwo([0.0, 0.0], [3.0, 0.0]);
    SqDistOfTwo([0.0, 0.0], [2.0, 2.0]);
  }

  lemma SqDistOfTwo(a: Vec, b: Vec)
    requires |a| == |b| == 2
    ensures SqDist(a, b) == (a[0] - b[0]) * (a[0] - b[0]) + (a[1] - b[1]) * (a[1] - b[1])
  {
    assert SqDist(a[..1], b[..1]) == (a[0] - b[0]) * (a[0] - b[0]);
  }

  lemma AdcOfTwo(lut: seq<seq<real>>, code: seq<nat>)
    requires |lut| == |code| == 2 && code[0] < |lut[0]| && code[1] < |lut[1]|
    ensures Adc(lut, code) == lut[0][code[0]] + lut[1][code[1]]
  {
    assert AdcFirst(lut, code, 1) == lut[0][code[0]];
  }

  lemma RootIs(root: real -> real, r: real, x: real)
    requires IsRoot(root) && r >= 0.0 && r * r == x
    ensures root(x) == r
  {
    SquareNonNegative(r);
    SquaresOrdered(root(x), r);
    SquaresOrdered(r, root(x));
  }

  // ----- training -----

  datatype Trained = Trained(q: Quantizer) | NoSubspaces | EmptyCorpus | NoDimensions | NotDivisible

  ghost function SubVectors(corpus: seq<Vec>, i: nat, m: nat, d: nat): (r: seq<Vec>)
    requires i < m && SameDim(corpus, m * d)
    ensures |r| == |corpus| && SameDim(r, d)
    ensures forall k :: 0 <= k < |corpus| ==> r[k] == Quantizer(m, d, []).Sub(corpus[k], i)
  {
    seq(|corpus|, k requires 0 <= k < |corpus| => Quantizer(m, d, []).Sub(corpus[k], i))
  }

  method Gather(corpus: seq<Vec>, i: nat, m: nat, d: nat) returns (r: seq<Vec>)
    requires i < m && SameDim(corpus, m * d)
    ensures r == SubVectors(corpus, i, m, d)
  {
    r := [];
    for k := 0 to |corpus|
      invariant |r| == k && forall j :: 0 <= j < k ==> r[j] == SubVectors(corpus, i, m, d)[j]
    {
      SubBounds(i, m, d);
      r := r + [corpus[k][i * d..(i + 1) * d]];
    }
  }

  ghost predicate TrainedIn(book: seq<Vec>, pts: seq<Vec>, k: nat, d: nat, seed: nat, rounds: nat) {
    && 0 < k <= |pts| && SameDim(pts, d) && |book| == k && SameDim(book, d)
    && StopsAfter(pts, Initial(pts, k, seed, d), d, rounds)
    && book == LloydSteps(pts, Initial(pts, k, seed, d), d, rounds)
    && Objective(pts, book, d) <= Objective(pts, Initial(pts, k, seed, d), d)
  }

  /** A codebook is an iterate of Lloyd's algorithm on its subspace, so it costs no more than the initial picks. */
  ghost predicate TrainedBook(book: seq<Vec>, pts: seq<Vec>, d: nat, seed: nat) {
    exists rounds :: TrainedIn(book, pts, KStar(|pts|), d, seed, rounds)
  }

  /** Fewer centroids than points would be pointless. */
  function KStar(n: nat): nat {
    if K_STAR < n then K_STAR else n
  }

  method TrainBook(root: real -> real, corpus: seq<Vec>, i: nat, m: nat, d: nat, seed: nat)
    returns (book: seq<Vec>)
    requires IsRoot(root) && corpus != [] && i < m && SameDim(corpus, m * d)
    ensures |book| == (if |corpus| < 256 then |corpus| else 256) && SameDim(book, d)
    ensures TrainedBook(book, SubVectors(corpus, i, m, d), d, seed)
  {
    hide IsRoot, LloydSteps, Objective, Initial, StopsAfter;
    var pts := Gather(corpus, i, m, d);
    ghost var rounds;
    book, rounds := LloydKmeans(root, pts, KStar(|pts|), d, seed);
    assert TrainedIn(book, pts, KStar(|pts|), d, seed, rounds);
  }

  method Train(root: real -> real, corpus: seq<Vec>, m: nat, seed: nat) returns (r: Trained)
    requires IsRoot(root) && (corpus != [] ==> SameDim(corpus, |corpus[0]|))
    ensures r.Trained? <==> m >= 1 && corpus != [] && |corpus[0]| >= 1 && |corpus[0]| % m == 0
    ensures r.NoSubspaces? <==> m < 1
    ensures r.EmptyCorpus? <==> m >= 1 && corpus == []
    ensures r.NoDimensions? <==> m >= 1 && corpus != [] && |corpus[0]| < 1
    ensures r.Trained? ==>
      && r.q.m == m && r.q.m * r.q.subDim == |corpus[0]| && r.q.Valid()
      && (forall i :: 0 <= i < m ==> |r.q.codebooks[i]| == if |corpus| < 256 then |corpus| else 256)
      && forall i :: 0 <= i < m ==>
           TrainedBook(r.q.codebooks[i], SubVectors(corpus, i, m, r.q.subDim), r.q.subDim, seed)
  {
    hide IsRoot, TrainedBook;
    if m < 1 { return NoSubspaces; }
    if corpus == [] { return EmptyCorpus; }
    var dim := |corpus[0]|;
    if dim < 1 { return NoDimensions; }
    if dim % m != 0 { return NotDivisible; }
    var d := dim / m;
    Divided(dim, m);
    var codebooks: seq<seq<Vec>> := [];
    for i := 0 to m
      invariant |codebooks| == i
      invariant forall j :: 0 <= j < i ==>
        |codebooks[j]| == (if |corpus| < 256 then |corpus| else 256) && SameDim(codebooks[j], d)
      invariant forall j :: 0 <= j < i ==> TrainedBook(codebooks[j], SubVectors(corpus, j, m, d), d, seed)
    {
      var book := TrainBook(root, corpus, i, m, d, seed);
      codebooks := codebooks + [book];
    }
    r := Trained(Quantizer(m, d, codebooks));
  }

  lemma Divided(dim: nat, m: nat)
    requires m > 0 && dim % m == 0
    ensures m * (dim / m) == dim
  {
  }

  // ----- sums of roots against roots of sums -----

  ghost predicate Roots(rs: seq<real>, xs: seq<real>) {
    |rs| == |xs| && forall i :: 0 <= i < |rs| ==> rs[i] >= 0.0 && IsSquare(rs[i], xs[i])
  }

  ghost predicate IsSquare(s: real, x: real) { s * s == x }

  /** `s` is at least the root of `x`, and zero only together with it. */
  ghost predicate Covers(s: real, x: real) {
    s >= 0.0 && x >= 0.0 && s * s >= x && (s == 0.0 <==> x == 0.0)
  }

  lemma ZeroRoot(r: real, x: real)
    requires r >= 0.0 && r * r == x
    ensures x >= 0.0 && (r == 0.0 <==> x == 0.0)
  {
    ProductFacts(r, r, x);
  }

  lemma CoversNext(s: real, x: real, r: real, y: real)
    requires Covers(s, x) && r >= 0.0 && r * r == y
    ensures Covers(s + r, x + y)
    ensures (s + r) * (s + r) == x + y <==> s * s == x && (s == 0.0 || y == 0.0)
  {
    var cross := s * r;
    ProductFacts(s, r, cross);
    ZeroRoot(r, y);
    assert (s + r) * (s + r) == s * s + r * r + 2.0 * cross;
  }

  lemma CoversNothing()
    ensures Covers(0.0, 0.0) && 0.0 * 0.0 == 0.0
  {
  }

  lemma {:induction false} RootSumCovers(rs: seq<real>, xs: seq<real>)
    requires Roots(rs, xs)
    ensures Covers(Sum(rs), Sum(xs))
  {
    hide Covers;
    if rs == [] {
      CoversNothing();
    } else {
      var n := |rs| - 1;
      RootSumCovers(rs[..n], xs[..n]);
      CoversNext(Sum(rs[..n]), Sum(xs[..n]), rs[n], xs[n]);
    }
  }

  ghost predicate AllZero(xs: seq<real>) {
    forall i :: 0 <= i < |xs| ==> xs[i] == 0.0
  }

  ghost predicate AtMostOneNonzero(xs: seq<real>) {
    forall i, j :: 0 <= i < j < |xs| ==> xs[i] == 0.0 || xs[j] == 0.0
  }

  lemma OneMoreNonzero(xs: seq<real>, x: real)
    ensures AllZero(xs + [x]) <==> AllZero(xs) && x == 0.0
    ensures AtMostOneNonzero(xs + [x]) <==> AtMostOneNonzero(xs) && (AllZero(xs) || x == 0.0)
  {
    var ys := xs + [x];
    assert forall i :: 0 <= i < |xs| ==> ys[i] == xs[i];
    assert ys[|xs|] == x;
  }

  /** The roots sum to the root of the sum exactly when at most one term is not zero. */
  lemma {:induction false} RootSumExact(rs: seq<real>, xs: seq<real>)
    requires Roots(rs, xs)
    ensures IsSquare(Sum(rs), Sum(xs)) <==> AtMostOneNonzero(xs)
    ensures Sum(rs) == 0.0 <==> AllZero(xs)
  {
    if rs == [] {
      CoversNothing();
    } else {
      hide Roots, Sum, Covers, IsSquare, AllZero, AtMostOneNonzero;
      var n := |rs| - 1;
      RootsInit(rs, xs);
      SumLast(rs);
      SumLast(xs);
      RootSumExact(rs[..n], xs[..n]);
      RootSumCovers(rs[..n], xs[..n]);
      OneMoreNonzero(xs[..n], xs[n]);
      ExactNext(Sum(rs[..n]), Sum(xs[..n]), rs[n], xs[n], Sum(rs), Sum(xs));
    }
  }

  lemma RootsInit(rs: seq<real>, xs: seq<real>)
    requires Roots(rs, xs) && rs != []
    ensures var n := |rs| - 1;
      && Roots(rs[..n], xs[..n]) && rs[n] >= 0.0 && IsSquare(rs[n], xs[n]) && xs == xs[..n] + [xs[n]]
  {
    hide IsSquare;
    var n := |rs| - 1;
    assert IsSquare(rs[n], xs[n]);
    assert xs == xs[..n] + [xs[n]];
  }

  lemma SumLast(xs: seq<real>)
    requires xs != []
    ensures Sum(xs) == Sum(xs[..|xs| - 1]) + xs[|xs| - 1]
  {
  }

  lemma ExactNext(s: real, x: real, r: real, y: real, s': real, x': real)
    requires Covers(s, x) && r >= 0.0 && IsSquare(r, y) && s' == s + r && x' == x + y
    ensures IsSquare(s', x') <==> IsSquare(s, x) && (s == 0.0 || y == 0.0)
    ensures s' == 0.0 <==> s == 0.0 && y == 0.0
  {
    hide Covers;
    CoversNext(s, x, r, y);
    ZeroRoot(r, y);
    assert s >= 0.0 by { CoversSign(s, x); }
  }

  lemma CoversSign(s: real, x: real)
    requires Covers(s, x)
    ensures s >= 0.0 && x >= 0.0
  {
  }

  lemma CoversRoot(root: real -> real, s: real, x: real)
    requires IsRoot(root) && Covers(s, x)
    ensures s >= root(x) && (s == 0.0 <==> x == 0.0)
    ensures s == root(x) <==> s * s == x
  {
    SquaresOrdered(s, root(x));
    SquaresOrdered(root(x), s);
  }

  // ----- the table sum against the distance to the reconstruction -----

  /** The squared distance within subspace `i`. */
  ghost function Term(q: Quantizer, v: Vec, code: seq<nat>, i: nat): real
    requires q.Valid() && q.IsCode(code) && |v| == q.m * q.subDim && i < q.m
  {
    SqDist(q.Sub(v, i), q.codebooks[i][code[i]])
  }

  /** The squared distances of the first `n` subspaces. */
  ghost function Terms(q: Quantizer, v: Vec, code: seq<nat>, n: nat): (xs: seq<real>)
    requires q.Valid() && q.IsCode(code) && |v| == q.m * q.subDim && n <= q.m
    ensures |xs| == n && forall i :: 0 <= i < n ==> xs[i] == Term(q, v, code, i)
  {
    seq(n, i requires 0 <= i < n => Term(q, v, code, i))
  }

  ghost function Lookups(lut: seq<seq<real>>, code: seq<nat>, n: nat): (rs: seq<real>)
    requires n <= |lut| == |code| && forall i :: 0 <= i < |lut| ==> code[i] < |lut[i]|
    ensures |rs| == n && forall i :: 0 <= i < n ==> rs[i] == lut[i][code[i]]
  {
    seq(n, i requires 0 <= i < n => lut[i][code[i]])
  }

  lemma {:induction false} AdcIsSum(lut: seq<seq<real>>, code: seq<nat>, n: nat)
    requires n <= |lut| == |code| && forall i :: 0 <= i < |lut| ==> code[i] < |lut[i]|
    ensures AdcFirst(lut, code, n) == Sum(Lookups(lut, code, n))
  {
    if n > 0 {
      AdcIsSum(lut, code, n - 1);
      assert Lookups(lut, code, n)[..n - 1] == Lookups(lut, code, n - 1);
    }
  }

  lemma LookupsAreRoots(root: real -> real, q: Quantizer, v: Vec, code: seq<nat>)
    requires IsRoot(root) && q.Valid() && q.IsCode(code) && |v| == q.m * q.subDim
    ensures Roots(Lookups(q.Lut(root, v), code, q.m), Terms(q, v, code, q.m))
  {
    hide Term, Quantizer.Entry, Quantizer.Lut;
    forall i | 0 <= i < q.m
      ensures var r := q.Lut(root, v)[i][code[i]]; r >= 0.0 && r * r == Term(q, v, code, i)
    {
      EntryIsRoot(root, q, v, code, i);
    }
  }

  lemma EntryIsRoot(root: real -> real, q: Quantizer, v: Vec, code: seq<nat>, i: nat)
    requires IsRoot(root) && q.Valid() && q.IsCode(code) && |v| == q.m * q.subDim && i < q.m
    ensures var r := q.Entry(root, v, i, code[i]); r >= 0.0 && r * r == Term(q, v, code, i)
  {
    hide SqDist, Quantizer.Sub;
    SqDistNonNegative(q.Sub(v, i), q.codebooks[i][code[i]]);
  }

  lemma {:induction false} SqDistConcat(a: Vec, b: Vec, c: Vec, d: Vec)
    requires |a| == |b| && |c| == |d|
    ensures SqDist(a + c, b + d) == SqDist(a, b) + SqDist(c, d)
  {
    if c == [] {
      assert a + c == a && b + d == b;
    } else {
      var n := |c| - 1;
      SqDistConcat(a, b, c[..n], d[..n]);
      assert (a + c)[..|a| + n] == a + c[..n] && (b + d)[..|b| + n] == b + d[..n];
    }
  }

  lemma PrefixNext(q: Quantizer, v: Vec, i: nat)
    requires |v| == q.m * q.subDim && i < q.m
    ensures i * q.subDim <= (i + 1) * q.subDim <= |v|
    ensures v[..(i + 1) * q.subDim] == v[..i * q.subDim] + q.Sub(v, i)
  {
    SubBounds(i, q.m, q.subDim);
  }

  lemma TermsSum(q: Quantizer, v: Vec, code: seq<nat>, n: nat)
    requires q.Valid() && q.IsCode(code) && |v| == q.m * q.subDim && n < q.m
    ensures Sum(Terms(q, v, code, n + 1)) == Sum(Terms(q, v, code, n)) + Term(q, v, code, n)
    ensures Sum(Terms(q, v, code, 0)) == 0.0
  {
    hide Term;
    assert Terms(q, v, code, n + 1)[..n] == Terms(q, v, code, n);
  }

  lemma ReconstructNext(q: Quantizer, code: seq<nat>, i: nat)
    requires q.Valid() && q.IsCode(code) && i < q.m
    ensures q.Reconstruct(code, i + 1) == q.Reconstruct(code, i) + q.codebooks[i][code[i]]
  {
  }

  lemma {:induction false} ReconstructionDistance(q: Quantizer, v: Vec, code: seq<nat>, n: nat)
    requires q.Valid() && q.IsCode(code) && |v| == q.m * q.subDim && n <= q.m
    ensures n * q.subDim <= |v|
    ensures SqDist(v[..n * q.subDim], q.Reconstruct(code, n)) == Sum(Terms(q, v, code, n))
  {
    if n == 0 {
      assert v[..0] == [];
    } else {
      ReconstructionDistance(q, v, code, n - 1);
      hide SqDist, Sum, Quantizer.Sub, Quantizer.Reconstruct;
      PrefixNext(q, v, n - 1);
      ReconstructNext(q, code, n - 1);
      SqDistConcat(v[..(n - 1) * q.subDim], q.Reconstruct(code, n - 1), q.Sub(v, n - 1),
                   q.codebooks[n - 1][code[n - 1]]);
      TermsSum(q, v, code, n - 1);
    }
  }

  lemma {:induction false} SqDistZero(a: Vec, b: Vec)
    requires |a| == |b|
    ensures SqDist(a, b) == 0.0 <==> a == b
  {
    if a != [] {
      hide SqDist;
      var n := |a| - 1;
      SqDistZero(a[..n], b[..n]);
      SqDistNonNegative(a[..n], b[..n]);
      var y := LastGap(a, b);
      assert a == a[..n] + [a[n]] && b == b[..n] + [b[n]];
    }
  }

  lemma LastGap(a: Vec, b: Vec) returns (y: real)
    requires |a| == |b| > 0
    ensures var n := |a| - 1;
      SqDist(a, b) == SqDist(a[..n], b[..n]) + y && y >= 0.0 && (y == 0.0 <==> a[n] == b[n])
  {
    var n := |a| - 1;
    y := (a[n] - b[n]) * (a[n] - b[n]);
    SquareZero(a[n] - b[n], y);
  }

  lemma SquareZero(x: real, y: real)
    requires y == x * x
    ensures y >= 0.0 && (y == 0.0 <==> x == 0.0)
  {
    if x >= 0.0 {
      ProductFacts(x, x, y);
    } else {
      assert y == (-x) * (-x);
      ProductFacts(-x, -x, y);
    }
  }

  /** The table sum is never below the distance to the reconstructed vector, is zero only together with it, and
      equals it exactly when the vector and its reconstruction differ in at most one subspace. */
  lemma AdcAgainstDistance(root: real -> real, q: Quantizer, v: Vec, code: seq<nat>)
    requires IsRoot(root) && q.Valid() && q.IsCode(code) && |v| == q.m * q.subDim
    ensures var adc, far := Adc(q.Lut(root, v), code), q.Reconstruct(code, q.m);
      && adc >= L2(root, v, far)
      && (adc == 0.0 <==> v == far)
      && (adc == L2(root, v, far) <==> AtMostOneNonzero(Terms(q, v, code, q.m)))
  {
    hide SqDist, AdcFirst, Covers, IsRoot, AtMostOneNonzero, AllZero, Sum, Roots, Quantizer.Sub, Term;
    var far := q.Reconstruct(code, q.m);
    var rs, xs := Lookups(q.Lut(root, v), code, q.m), Terms(q, v, code, q.m);
    ReconstructionDistance(q, v, code, q.m);
    assert v[..q.m * q.subDim] == v;
    AdcIsSum(q.Lut(root, v), code, q.m);
    LookupsAreRoots(root, q, v, code);
    RootSumCovers(rs, xs);
    RootSumExact(rs, xs);
    SqDistZero(v, far);
    CoversRoot(root, Sum(rs), Sum(xs));
  }
}

/** Personalised PageRank in closed form: the discounted visits of a random walk from the restart vector. */
module PageRankSeries {
  import opened RealSums
  import opened Graph
  import opened Adjacency
  import opened PageRank

  ghost function Blend(a: real, x: real, b: real, y: real): real {
    a * x + b * y
  }

  /** The vector `a x + b y`. */
  ghost function Mix(a: real, x: seq<real>, b: real, y: seq<real>): (r: seq<real>)
    requires |x| == |y|
    ensures |r| == |x| && forall i :: 0 <= i < |x| ==> r[i] == Blend(a, x[i], b, y[i])
  {
    seq(|x|, i requires 0 <= i < |x| => Blend(a, x[i], b, y[i]))
  }

  ghost function Zeros(n: nat): (r: seq<real>)
    ensures |r| == n && forall i :: 0 <= i < n ==> r[i] == 0.0
  {
    seq(n, _ => 0.0)
  }

  /** One step of the walk: every node passes an equal share of what it has along each of its edge slots. */
  ghost function Walked(g: Graph, x: seq<real>): (r: seq<real>)
    requires Closed(g) && |g| == |x|
    ensures |r| == |g| && forall v :: 0 <= v < |g| ==> r[v] == Gather(g[v], Shares(g, x))
  {
    seq(|g|, v requires 0 <= v < |g| => Gather(g[v], Shares(g, x)))
  }

  ghost function PerSlot(g: Graph, x: seq<real>): (r: seq<real>)
    requires |g| == |x|
    ensures |r| == |g| && forall u :: 0 <= u < |g| ==> r[u] == if g[u] == [] then 0.0 else x[u] / (|g[u]| as real)
  {
    seq(|g|, u requires 0 <= u < |g| => if g[u] == [] then 0.0 else x[u] / (|g[u]| as real))
  }

  /** A node receives, from every node, that node's mass over its degree, once for each time it lists it. */
  lemma WalkedEntry(g: Graph, x: seq<real>, v: nat)
    requires Closed(g) && |g| == |x| && v < |g|
    ensures Walked(g, x)[v] == Sum(Weighted(Counts(g[v], |g|), PerSlot(g, x)))
  {
    hide Sum, Weighted, Counts;
    assert Below(g[v], |g|);
    GatherByNode(g[v], Shares(g, x));
    assert Shares(g, x) == PerSlot(g, x);
  }

  // ----- the step is linear -----

  lemma QuotientMix(a: real, x: real, b: real, y: real, n: nat)
    requires n > 0
    ensures (a * x + b * y) / (n as real) == a * (x / (n as real)) + b * (y / (n as real))
  {
    var w := n as real;
    ShareTimesDegree(x, n);
    ShareTimesDegree(y, n);
    ShareTimesDegree(a * x + b * y, n);
    var p, q, r := x / w, y / w, (a * x + b * y) / w;
    assert w * (a * p + b * q) == a * (w * p) + b * (w * q);
    SameFactor(w, r, a * p + b * q);
  }

  lemma SameFactor(w: real, r: real, s: real)
    requires w > 0.0 && w * r == w * s
    ensures r == s
  {
    if r < s { ProductSign(w, s - r); }
    if s < r { ProductSign(w, r - s); }
  }

  lemma SharesMix(g: Graph, a: real, x: seq<real>, b: real, y: seq<real>, u: nat)
    requires |g| == |x| == |y| && u < |g|
    ensures Share(g, Mix(a, x, b, y), u) == a * Share(g, x, u) + b * Share(g, y, u)
  {
    if |g[u]| > 0 { QuotientMix(a, x[u], b, y[u], |g[u]|); }
  }

  lemma {:induction false} GatherMix(xs: seq<nat>, w: seq<real>, a: real, p: seq<real>, b: real, q: seq<real>)
    requires |w| == |p| == |q| && Below(xs, |w|) && forall i :: 0 <= i < |w| ==> w[i] == a * p[i] + b * q[i]
    ensures Gather(xs, w) == a * Gather(xs, p) + b * Gather(xs, q)
  {
    if xs != [] {
      var init, last := xs[..|xs| - 1], xs[|xs| - 1];
      GatherMix(init, w, a, p, b, q);
      Distribute(a, Gather(init, p), p[last]);
      Distribute(b, Gather(init, q), q[last]);
    }
  }

  lemma Distribute(a: real, x: real, y: real)
    ensures a * (x + y) == a * x + a * y
  {
  }

  lemma WalkedMix(g: Graph, a: real, x: seq<real>, b: real, y: seq<real>)
    requires Closed(g) && |g| == |x| == |y|
    ensures Walked(g, Mix(a, x, b, y)) == Mix(a, Walked(g, x), b, Walked(g, y))
  {
    hide Gather, Share, Mix, Walked;
    forall v | 0 <= v < |g| ensures Walked(g, Mix(a, x, b, y))[v] == Blend(a, Walked(g, x)[v], b, Walked(g, y)[v]) {
      forall u | 0 <= u < |g|
        ensures Shares(g, Mix(a, x, b, y))[u] == a * Shares(g, x)[u] + b * Shares(g, y)[u]
      {
        SharesMix(g, a, x, b, y, u);
      }
      assert Below(g[v], |g|);
      GatherMix(g[v], Shares(g, Mix(a, x, b, y)), a, Shares(g, x), b, Shares(g, y));
    }
  }

  // ----- the closed form -----

  /** Where a walk from `s` is after `t` steps. */
  ghost function WalkedFrom(g: Graph, s: seq<real>, t: nat): (r: seq<real>)
    requires Closed(g) && |g| == |s|
    ensures |r| == |g|
  {
    if t == 0 then s else Walked(g, WalkedFrom(g, s, t - 1))
  }

  /** The visits of its first `k` positions, the t-th discounted by `d^t`. */
  ghost function Visits(g: Graph, s: seq<real>, d: real, k: nat): (r: seq<real>)
    requires Closed(g) && |g| == |s|
    ensures |r| == |g|
  {
    if k == 0 then Zeros(|g|) else Mix(1.0, Visits(g, s, d, k - 1), Power(d, k - 1), WalkedFrom(g, s, k - 1))
  }

  lemma WalkedZeros(g: Graph)
    requires Closed(g)
    ensures Walked(g, Zeros(|g|)) == Zeros(|g|)
  {
    hide Walked, Mix;
    var z := Zeros(|g|);
    assert Mix(0.0, z, 0.0, z) == z;
    WalkedMix(g, 0.0, z, 0.0, z);
    assert Mix(0.0, Walked(g, z), 0.0, Walked(g, z)) == z;
  }

  lemma FirstVisit(g: Graph, s: seq<real>, d: real)
    requires Closed(g) && |g| == |s|
    ensures Visits(g, s, d, 1) == Mix(1.0, s, d, Zeros(|g|)) == s
    ensures Visits(g, s, d, 0) == Zeros(|g|)
  {
    hide Walked, Mix;
    assert Power(d, 0) == 1.0;
    assert Visits(g, s, d, 1) == Mix(1.0, Visits(g, s, d, 0), Power(d, 0), WalkedFrom(g, s, 0));
    forall v | 0 <= v < |g| ensures Visits(g, s, d, 1)[v] == s[v] == Mix(1.0, s, d, Zeros(|g|))[v] {
    }
  }

  lemma VisitsNext(g: Graph, s: seq<real>, d: real, k: nat)
    requires Closed(g) && |g| == |s|
    ensures Visits(g, s, d, k + 1) == Mix(1.0, Visits(g, s, d, k), Power(d, k), WalkedFrom(g, s, k))
    ensures WalkedFrom(g, s, k + 1) == Walked(g, WalkedFrom(g, s, k))
  {
  }

  /** All visits but the first are those of the walk one step on. */
  lemma {:induction false} VisitsShift(g: Graph, s: seq<real>, d: real, k: nat)
    requires Closed(g) && |g| == |s|
    ensures Visits(g, s, d, k + 1) == Mix(1.0, s, d, Walked(g, Visits(g, s, d, k)))
  {
    hide Walked, Mix, Zeros, Blend, Visits, WalkedFrom, Power, Closed;
    if k == 0 {
      WalkedZeros(g);
      FirstVisit(g, s, d);
    } else {
      VisitsShift(g, s, d, k - 1);
      VisitsNext(g, s, d, k);
      VisitsNext(g, s, d, k - 1);
      var before, now := Visits(g, s, d, k - 1), WalkedFrom(g, s, k - 1);
      WalkedMix(g, 1.0, before, Power(d, k - 1), now);
      MixShift(s, Walked(g, before), Walked(g, now), d, k);
    }
  }

  lemma MixShift(s: seq<real>, before: seq<real>, now: seq<real>, d: real, k: nat)
    requires |s| == |before| == |now| && k > 0
    ensures Mix(1.0, Mix(1.0, s, d, before), Power(d, k), now) == Mix(1.0, s, d, Mix(1.0, before, Power(d, k - 1), now))
  {
    hide Blend, Power;
    var left := Mix(1.0, Mix(1.0, s, d, before), Power(d, k), now);
    var right := Mix(1.0, s, d, Mix(1.0, before, Power(d, k - 1), now));
    forall v | 0 <= v < |s| ensures left[v] == right[v] {
      ShiftAt(d, k, s[v], before[v], now[v]);
    }
  }

  lemma ShiftAt(d: real, k: nat, s: real, before: real, now: real)
    requires k > 0
    ensures Blend(1.0, Blend(1.0, s, d, before), Power(d, k), now)
         == Blend(1.0, s, d, Blend(1.0, before, Power(d, k - 1), now))
  {
    hide Power;
    PowerNext(d, k - 1);
    var p := Power(d, k - 1);
    assert d * (p * now) == d * p * now;
    Distribute(d, before, p * now);
  }

  /** After `k` rounds: the discounted visits of the first `k` positions weighted by `1 - d`, and the position after
      `k` steps weighted by `d^k`. */
  lemma {:induction false} IterateIsSeries(g: Graph, s: seq<real>, d: real, k: nat)
    requires Closed(g) && |g| == |s|
    ensures Iterate(g, s, d, k) == Mix(1.0 - d, Visits(g, s, d, k), Power(d, k), WalkedFrom(g, s, k))
  {
    hide Walked, Mix, Zeros, Visits, WalkedFrom, Blend, Power, Iterate, Next, Closed;
    if k == 0 {
      NoVisits(g, s, d);
    } else {
      IterateIsSeries(g, s, d, k - 1);
      VisitsShift(g, s, d, k - 1);
      VisitsNext(g, s, d, k - 1);
      var was, now := Visits(g, s, d, k - 1), WalkedFrom(g, s, k - 1);
      WalkedMix(g, 1.0 - d, was, Power(d, k - 1), now);
      IterateWalks(g, s, d, k - 1);
      MixSeries(s, Walked(g, was), Walked(g, now), d, k);
    }
  }

  lemma MixSeries(s: seq<real>, was: seq<real>, now: seq<real>, d: real, k: nat)
    requires |s| == |was| == |now| && k > 0
    ensures Mix(1.0 - d, s, d, Mix(1.0 - d, was, Power(d, k - 1), now))
         == Mix(1.0 - d, Mix(1.0, s, d, was), Power(d, k), now)
  {
    hide Blend, Power;
    var left := Mix(1.0 - d, s, d, Mix(1.0 - d, was, Power(d, k - 1), now));
    var right := Mix(1.0 - d, Mix(1.0, s, d, was), Power(d, k), now);
    forall v | 0 <= v < |s| ensures left[v] == right[v] {
      SeriesAt(d, k, s[v], was[v], now[v]);
    }
  }

  lemma NoVisits(g: Graph, s: seq<real>, d: real)
    requires Closed(g) && |g| == |s|
    ensures Iterate(g, s, d, 0) == s == Mix(1.0 - d, Visits(g, s, d, 0), Power(d, 0), WalkedFrom(g, s, 0))
  {
  }

  /** A round restarts with weight `1 - d` and walks with weight `d`. */
  lemma IterateWalks(g: Graph, s: seq<real>, d: real, k: nat)
    requires Closed(g) && |g| == |s|
    ensures Iterate(g, s, d, k + 1) == Mix(1.0 - d, s, d, Walked(g, Iterate(g, s, d, k)))
  {
    hide Gather, Shares, Mix, Walked, Iterate;
    IterateNext(g, s, d, k);
    var pi := Iterate(g, s, d, k);
    forall v | 0 <= v < |g| ensures Next(g, s, d, pi)[v] == Mix(1.0 - d, s, d, Walked(g, pi))[v] {
    }
  }

  lemma SeriesAt(d: real, k: nat, s: real, was: real, now: real)
    requires k > 0
    ensures Blend(1.0 - d, s, d, Blend(1.0 - d, was, Power(d, k - 1), now))
         == Blend(1.0 - d, Blend(1.0, s, d, was), Power(d, k), now)
  {
    hide Power;
    PowerNext(d, k - 1);
    var p := Power(d, k - 1);
    Distribute(d, (1.0 - d) * was, p * now);
    Distribute(1.0 - d, s, d * was);
    assert d * ((1.0 - d) * was) == (1.0 - d) * (d * was);
    assert d * (p * now) == d * p * now;
  }

  /** The scores are the walk's discounted visits from the restart vector, over `iters` rounds, at least one. */
  lemma ScoresAreVisits(c: Csr, seeds: seq<int>, damping: real, iters: int)
    requires c.InBounds() && c.nnodes > 0 && 0.0 <= damping <= 0.999
    ensures var g, s := c.Lists(), Restart(c.nnodes, seeds);
      var series := Mix(1.0 - damping, Visits(g, s, damping, if iters < 1 then 0 else iters),
                        Power(damping, if iters < 1 then 0 else iters), WalkedFrom(g, s, if iters < 1 then 0 else iters));
      iters >= 1 ==> Scores(c, seeds, damping, iters) == series
    ensures var g, s := c.Lists(), Restart(c.nnodes, seeds);
      iters < 1 ==> Scores(c, seeds, damping, iters) == Mix(1.0 - damping, s, damping, Walked(g, s))
  {
    hide Restart, Walked, Visits, WalkedFrom, Mix, Power, Iterate;
    var g, s := c.Lists(), Restart(c.nnodes, seeds);
    if iters >= 1 {
      IterateIsSeries(g, s, damping, iters);
    } else {
      IterateFirst(g, s, damping);
      IterateWalks(g, s, damping, 0);
    }
  }
}

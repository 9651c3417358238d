/** Reachability in a graph given by neighbour lists. The sets a breadth-first search computes are defined
    here by hops and, independently, by walks. */
module Graph {
  import opened FiniteSets

  /** `g[u]` lists the neighbours of node `u`, with repetitions for parallel edges. */
  type Graph = seq<seq<nat>>

  /** Every listed neighbour is a node. */
  ghost predicate Closed(g: Graph) {
    forall u :: 0 <= u < |g| ==> Below(g[u], |g|)
  }

  ghost predicate Below(xs: seq<nat>, n: nat) {
    forall i :: 0 <= i < |xs| ==> xs[i] < n
  }

  ghost function Members(s: seq<nat>): set<int> {
    set v | v in s
  }

  ghost predicate Edge(g: Graph, u: int, v: int) {
    0 <= u < |g| && v in g[u]
  }

  /** The seeds that name a node; the rest are skipped by every traversal. */
  ghost function Seeds(g: Graph, seeds: seq<int>): set<int> {
    set v | v in seeds && 0 <= v < |g|
  }

  ghost function Step(g: Graph, s: set<int>): set<int> {
    set u, v | u in s && 0 <= u < |g| && v in g[u] :: v
  }

  /** The nodes a search has reached after `h` hops. */
  ghost function Ball(g: Graph, seeds: seq<int>, h: nat): set<int> {
    if h == 0 then Seeds(g, seeds) else Ball(g, seeds, h - 1) + Step(g, Ball(g, seeds, h - 1))
  }

  // ----- walks: what the balls mean -----

  /** `p` visits nodes along edges. */
  ghost predicate Walk(g: Graph, p: seq<int>) {
    && |p| > 0
    && 0 <= p[0] < |g|
    && forall i {:trigger p[i]} :: 0 < i < |p| ==> Edge(g, p[i - 1], p[i])
  }

  ghost predicate WalkFromTo(g: Graph, p: seq<int>, seeds: seq<int>, v: int) {
    Walk(g, p) && p[0] in seeds && p[|p| - 1] == v
  }

  /** A walk of at most `h` edges leads from a valid seed to `v`. */
  ghost predicate WithinHops(g: Graph, seeds: seq<int>, h: nat, v: int) {
    exists p :: WalkFromTo(g, p, seeds, v) && |p| <= h + 1
  }

  lemma {:induction false} BallHasWalks(g: Graph, seeds: seq<int>, h: nat, v: int)
    requires v in Ball(g, seeds, h)
    ensures WithinHops(g, seeds, h, v)
  {
    if h == 0 {
      assert WalkFromTo(g, [v], seeds, v);
    } else if v in Ball(g, seeds, h - 1) {
      BallHasWalks(g, seeds, h - 1, v);
    } else {
      assert v in Step(g, Ball(g, seeds, h - 1));
      var u :| u in Ball(g, seeds, h - 1) && 0 <= u < |g| && v in g[u];
      BallHasWalks(g, seeds, h - 1, u);
      var p :| WalkFromTo(g, p, seeds, u) && |p| <= h;
      assert WalkFromTo(g, p + [v], seeds, v);
    }
  }

  lemma {:induction false} WalksStayInBall(g: Graph, seeds: seq<int>, h: nat, p: seq<int>, v: int)
    requires WalkFromTo(g, p, seeds, v) && |p| <= h + 1
    ensures v in Ball(g, seeds, h)
  {
    if |p| == 1 {
      BallGrows(g, seeds, 0, h);
    } else {
      var q := p[..|p| - 1];
      assert Edge(g, p[|p| - 2], p[|p| - 1]);
      assert WalkFromTo(g, q, seeds, p[|p| - 2]);
      WalksStayInBall(g, seeds, h - 1, q, p[|p| - 2]);
    }
  }

  /** The ball of radius `h` is exactly the set of nodes within `h` hops of a valid seed. */
  lemma BallIsWithinHops(g: Graph, seeds: seq<int>, h: nat, v: int)
    ensures v in Ball(g, seeds, h) <==> WithinHops(g, seeds, h, v)
  {
    if v in Ball(g, seeds, h) { BallHasWalks(g, seeds, h, v); }
    if WithinHops(g, seeds, h, v) {
      var p :| WalkFromTo(g, p, seeds, v) && |p| <= h + 1;
      WalksStayInBall(g, seeds, h, p, v);
    }
  }

  // ----- growth and fixpoint -----

  lemma {:induction false} BallInNodes(g: Graph, seeds: seq<int>, h: nat)
    requires Closed(g)
    ensures forall v :: v in Ball(g, seeds, h) ==> 0 <= v < |g|
  {
    if h > 0 { BallInNodes(g, seeds, h - 1); }
  }

  lemma {:induction false} BallGrows(g: Graph, seeds: seq<int>, a: nat, b: nat)
    requires a <= b
    ensures Ball(g, seeds, a) <= Ball(g, seeds, b)
  {
    if a < b { BallGrows(g, seeds, a, b - 1); }
  }

  /** A hop that reaches nothing new ends the search for good. */
  lemma {:induction false} BallFixpoint(g: Graph, seeds: seq<int>, a: nat, b: nat)
    requires a <= b && Ball(g, seeds, a + 1) == Ball(g, seeds, a)
    ensures Ball(g, seeds, b) == Ball(g, seeds, a)
  {
    hide Ball, Step;
    if a < b {
      BallFixpoint(g, seeds, a, b - 1);
      BallNext(g, seeds, a);
      BallNext(g, seeds, b - 1);
    }
  }

  lemma BallNext(g: Graph, seeds: seq<int>, h: nat)
    ensures Ball(g, seeds, h + 1) == Ball(g, seeds, h) + Step(g, Ball(g, seeds, h))
  {
  }

  /** As long as the search is not finished, every hop adds a node. */
  lemma {:induction false} BallSize(g: Graph, seeds: seq<int>, h: nat)
    ensures |Ball(g, seeds, h)| > h || Ball(g, seeds, h + 1) == Ball(g, seeds, h)
  {
    hide Ball, Step;
    if h == 0 {
      BallFromNothing(g, seeds);
    } else {
      BallSize(g, seeds, h - 1);
      BallNext(g, seeds, h - 1);
      if Ball(g, seeds, h) == Ball(g, seeds, h - 1) {
        BallFixpoint(g, seeds, h - 1, h + 1);
      } else {
        SmallerSet(Ball(g, seeds, h - 1), Ball(g, seeds, h));
      }
    }
  }

  lemma BallFromNothing(g: Graph, seeds: seq<int>)
    ensures Ball(g, seeds, 0) == {} ==> Ball(g, seeds, 1) == {}
  {
    BallNext(g, seeds, 0);
  }

  /** `|g| - 1` hops reach everything that can be reached. */
  lemma BallStable(g: Graph, seeds: seq<int>, h: nat)
    requires Closed(g) && h + 1 >= |g|
    ensures Ball(g, seeds, h) == Ball(g, seeds, if |g| == 0 then 0 else |g| - 1)
  {
    var last := if |g| == 0 then 0 else |g| - 1;
    if Ball(g, seeds, last + 1) != Ball(g, seeds, last) {
      BallSize(g, seeds, last);
      SmallerSet(Ball(g, seeds, last), Ball(g, seeds, last + 1));
      BallInNodes(g, seeds, last + 1);
      BoundedSetSize(Ball(g, seeds, last + 1), |g|);
      assert false;
    }
    BallFixpoint(g, seeds, last, h);
  }

  // ----- one hop of a search -----

  /** A hop may look at the newest nodes only: `frontier` holds every reached node whose neighbours have not
      all been reached, and `seen` is what the hop has marked. */
  lemma HopCompletesBall(g: Graph, seeds: seq<int>, h: nat, frontier: set<int>, seen: set<int>)
    requires Step(g, Ball(g, seeds, h) - frontier) <= Ball(g, seeds, h)
    requires frontier <= Ball(g, seeds, h)
    requires seen == Ball(g, seeds, h) + Step(g, frontier)
    ensures seen == Ball(g, seeds, h + 1)
    ensures Step(g, Ball(g, seeds, h + 1) - (seen - Ball(g, seeds, h))) <= Ball(g, seeds, h + 1)
  {
    var b := Ball(g, seeds, h);
    assert Step(g, b) <= Step(g, b - frontier) + Step(g, frontier);
    assert seen - (seen - b) == b;
  }

  lemma MembersEmpty()
    ensures Members([]) == {}
  {
  }

  lemma MembersAppend(s: seq<nat>, x: nat)
    ensures Members(s + [x]) == Members(s) + {x}
  {
  }

  lemma StepOfNone(g: Graph)
    ensures Step(g, {}) == {}
  {
  }

  lemma StepOfOneMore(g: Graph, s: set<int>, u: nat)
    requires u < |g|
    ensures Step(g, s + {u}) == Step(g, s) + Members(g[u])
  {
  }

  // ----- listing a set of node numbers -----

  /** The members of `s` among `0..n`, smallest first: what a scan over all node numbers returns. */
  function Ascending(s: set<int>, n: nat): seq<int>
  {
    if n == 0 then [] else Ascending(s, n - 1) + (if n - 1 in s then [n - 1] else [])
  }

  lemma {:induction false} AscendingMembers(s: set<int>, n: nat)
    ensures forall v :: v in Ascending(s, n) <==> 0 <= v < n && v in s
  {
    if n > 0 { AscendingMembers(s, n - 1); }
  }

  /** That list is strictly increasing, so it is the only one with those members. */
  lemma {:induction false} AscendingSorted(s: set<int>, n: nat)
    ensures forall i, j :: 0 <= i < j < |Ascending(s, n)| ==> Ascending(s, n)[i] < Ascending(s, n)[j]
  {
    if n > 0 {
      AscendingSorted(s, n - 1);
      AscendingMembers(s, n - 1);
      var r := Ascending(s, n - 1);
      assert forall i :: 0 <= i < |r| ==> r[i] in r;
    }
  }
}

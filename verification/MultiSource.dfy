/** The 64-lane multi-source search: one sweep of the adjacency advances up to 64 searches at once, one per
    bit of a word. Each lane is shown to compute exactly what a search of its own would. */
module MultiSource {
  import opened Bits
  import opened Graph
  import opened Adjacency

  const LANES: nat := 64

  /** Bit `l` of word `v` says that node `v` belongs to lane `l`'s set. */
  ghost predicate LaneView(words: seq<bv64>, n: nat, lanes: seq<set<int>>) {
    && |words| == n
    && |lanes| == LANES
    && forall l, v :: 0 <= l < LANES && 0 <= v < n ==> (Bit(words[v], l) <==> v in lanes[l])
  }

  /** The lanes selected by `w` gain the nodes `x`; the others keep theirs. */
  ghost function AddTo(lanes: seq<set<int>>, w: bv64, x: set<int>): (r: seq<set<int>>)
    requires |lanes| == LANES
    ensures |r| == LANES
    ensures forall l :: 0 <= l < LANES ==> r[l] == if Bit(w, l) then lanes[l] + x else lanes[l]
  {
    seq(LANES, l requires 0 <= l < LANES => if Bit(w, l) then lanes[l] + x else lanes[l])
  }

  ghost function NoLanes(): (r: seq<set<int>>)
    ensures |r| == LANES && forall l :: 0 <= l < LANES ==> r[l] == {}
  {
    seq(LANES, l => {})
  }

  ghost function Balls(g: Graph, sets: seq<seq<int>>, h: nat): (r: seq<set<int>>)
    requires |sets| == LANES
    ensures |r| == LANES && forall l :: 0 <= l < LANES ==> r[l] == Ball(g, sets[l], h)
  {
    seq(LANES, l requires 0 <= l < LANES => Ball(g, sets[l], h))
  }

  lemma ZeroView(words: seq<bv64>, n: nat)
    requires |words| == n && forall v :: 0 <= v < n ==> words[v] == 0
    ensures LaneView(words, n, NoLanes())
  {
    hide Bit;
    forall l, v | 0 <= l < LANES && 0 <= v < n ensures !Bit(words[v], l) {
      ZeroHasNoBits(l);
    }
  }

  /** `words[v] |= w`. */
  function OrAt(words: seq<bv64>, v: nat, w: bv64): (r: seq<bv64>)
    requires v < |words|
    ensures |r| == |words|
  {
    words[v := Or(words[v], w)]
  }

  method OrInto(words: array<bv64>, v: nat, w: bv64)
    requires v < words.Length
    modifies words
    ensures words[..] == OrAt(old(words[..]), v, w)
  {
    hide Or;
    words[v] := Or(words[v], w);
  }

  /** Or-ing `w` into word `v` adds `v` to the lanes of `w` and leaks into no other lane. */
  lemma OrView(words: seq<bv64>, n: nat, lanes: seq<set<int>>, v: nat, w: bv64)
    requires LaneView(words, n, lanes) && v < n
    ensures LaneView(OrAt(words, v, w), n, AddTo(lanes, w, {v}))
  {
    hide Or, AndNot, Bit;
    forall l | 0 <= l < LANES ensures Bit(Or(words[v], w), l) <==> Bit(words[v], l) || Bit(w, l) {
      OrBits(words[v], w, l);
    }
  }

  lemma ViewSize(words: seq<bv64>, n: nat, lanes: seq<set<int>>)
    requires LaneView(words, n, lanes)
    ensures |words| == n && |lanes| == LANES
  {
  }

  lemma OneHotSelects(j: nat)
    requires j < LANES
    ensures forall l :: 0 <= l < LANES ==> (Bit(OneHot(j), l) <==> l == j)
  {
    hide Bit, OneHot;
    forall l | 0 <= l < LANES ensures Bit(OneHot(j), l) <==> l == j {
      OneHotBits(j, l);
    }
  }

  lemma OneHotNonzero(j: nat)
    requires j < LANES
    ensures OneHot(j) != 0
  {
    hide OneHot;
    OneHotSingle(j);
  }

  /** Lanes of `vv` that have not seen `v` yet: the update is the same as offering `v` to all lanes of `vv`. */
  lemma NewBits(words: seq<bv64>, n: nat, lanes: seq<set<int>>, v: nat, vv: bv64)
    requires LaneView(words, n, lanes) && v < n
    ensures AddTo(lanes, AndNot(vv, words[v]), {v}) == AddTo(lanes, vv, {v})
    ensures forall l :: 0 <= l < LANES ==> (Bit(AndNot(vv, words[v]), l) <==> Bit(vv, l) && v !in lanes[l])
  {
    hide Or, AndNot, Bit;
    forall l | 0 <= l < LANES ensures Bit(AndNot(vv, words[v]), l) <==> Bit(vv, l) && v !in lanes[l] {
      AndNotBits(vv, words[v], l);
    }
    forall l | 0 <= l < LANES
      ensures AddTo(lanes, AndNot(vv, words[v]), {v})[l] == AddTo(lanes, vv, {v})[l]
    {
      assert v in lanes[l] ==> lanes[l] + {v} == lanes[l];
    }
    assert AddTo(lanes, AndNot(vv, words[v]), {v}) == AddTo(lanes, vv, {v});
  }

  lemma AddZero(lanes: seq<set<int>>, x: set<int>)
    requires |lanes| == LANES
    ensures AddTo(lanes, 0, x) == lanes
  {
    hide Bit;
    forall l | 0 <= l < LANES ensures !Bit(0, l) { ZeroHasNoBits(l); }
    assert AddTo(lanes, 0, x) == lanes;
  }

  lemma AddTwice(lanes: seq<set<int>>, w: bv64, x: set<int>, y: set<int>)
    requires |lanes| == LANES
    ensures AddTo(AddTo(lanes, w, x), w, y) == AddTo(lanes, w, x + y)
    ensures AddTo(lanes, w, {}) == lanes
  {
    hide Bit;
    forall l | 0 <= l < LANES
      ensures AddTo(AddTo(lanes, w, x), w, y)[l] == AddTo(lanes, w, x + y)[l]
      ensures AddTo(lanes, w, {})[l] == lanes[l]
    {
      assert lanes[l] + x + y == lanes[l] + (x + y);
      assert lanes[l] + {} == lanes[l];
    }
    assert AddTo(AddTo(lanes, w, x), w, y) == AddTo(lanes, w, x + y);
    assert AddTo(lanes, w, {}) == lanes;
  }

  // ----- the vertices of a frontier -----

  /** The frontier lists exactly the nodes with a nonzero word, each of them once. */
  ghost predicate Listed(frontier: seq<nat>, words: seq<bv64>) {
    && (forall i, j :: 0 <= i < j < |frontier| ==> frontier[i] != frontier[j])
    && (forall i :: 0 <= i < |frontier| ==> frontier[i] < |words|)
    && forall v: nat :: v < |words| ==> (v in frontier <==> words[v] != 0)
  }

  lemma ListedNone(words: seq<bv64>)
    requires forall v :: 0 <= v < |words| ==> words[v] == 0
    ensures Listed([], words)
  {
  }

  /** Push `v` when its word was still zero, then or in the nonzero `w`. */
  lemma ListedAfterPush(frontier: seq<nat>, words: seq<bv64>, v: nat, w: bv64)
    requires Listed(frontier, words) && v < |words| && w != 0
    ensures Listed(if words[v] == 0 then frontier + [v] else frontier, OrAt(words, v, w))
  {
    hide Or;
    assert Or(words[v], w) != 0 by { OrNonzero(words[v], w); }
  }

  lemma OrNonzero(a: bv64, b: bv64)
    requires b != 0
    ensures Or(a, b) != 0
  {
  }

  // ----- seeding a tile -----

  /** The seed lists of one tile, with empty lists for the lanes the tile does not use. */
  function Tile(sets: seq<seq<int>>, base: nat): (t: seq<seq<int>>)
    requires base <= |sets|
    ensures |t| == LANES
    ensures forall l :: 0 <= l < LANES ==> t[l] == if base + l < |sets| then sets[base + l] else []
  {
    seq(LANES, l requires 0 <= l < LANES => if base + l < |sets| then sets[base + l] else [])
  }

  /** One valid seed of lane `l`. */
  method SeedNode(n: nat, s: nat, l: nat, visit: array<bv64>, seen: array<bv64>, frontier: seq<nat>,
                  ghost lanes: seq<set<int>>)
    returns (frontier': seq<nat>)
    requires visit != seen && s < n && l < LANES
    requires LaneView(seen[..], n, lanes) && visit[..] == seen[..] && Listed(frontier, seen[..])
    modifies visit, seen
    ensures |lanes| == LANES && LaneView(seen[..], n, lanes[l := lanes[l] + {s}])
    ensures visit[..] == seen[..] && Listed(frontier', seen[..])
  {
    hide Or, AndNot, Bit, OneHot, LaneView, Listed, OrAt;
    ViewSize(seen[..], n, lanes);
    assert visit.Length == |visit[..]| == |seen[..]| == seen.Length;
    var bit := OneHot(l);
    OneHotSelects(l);
    OneHotNonzero(l);
    OrView(seen[..], n, lanes, s, bit);
    assert AddTo(lanes, bit, {s}) == lanes[l := lanes[l] + {s}];
    ListedAfterPush(frontier, seen[..], s, bit);
    frontier' := frontier;
    if seen[s] == 0 {
      frontier' := frontier + [s];
    }
    OrInto(seen, s, bit);
    OrInto(visit, s, bit);
  }

  method SeedLane(c: Csr, seeds: seq<int>, l: nat, visit: array<bv64>, seen: array<bv64>, frontier: seq<nat>,
                  ghost lanes: seq<set<int>>)
    returns (frontier': seq<nat>)
    requires c.InBounds() && visit != seen && l < LANES
    requires LaneView(seen[..], c.nnodes, lanes) && visit[..] == seen[..] && Listed(frontier, seen[..])
    requires |lanes| == LANES && lanes[l] == {}
    modifies visit, seen
    ensures LaneView(seen[..], c.nnodes, lanes[l := Seeds(c.Lists(), seeds)])
    ensures visit[..] == seen[..] && Listed(frontier', seen[..])
  {
    hide Bit, LaneView, Listed;
    frontier' := frontier;
    assert lanes[l := {}] == lanes;
    assert Seeds(c.Lists(), seeds[..0]) == {};
    for i := 0 to |seeds|
      invariant LaneView(seen[..], c.nnodes, lanes[l := Seeds(c.Lists(), seeds[..i])])
      invariant visit[..] == seen[..] && Listed(frontier', seen[..])
    {
      var s := seeds[i];
      assert seeds[..i + 1] == seeds[..i] + [s];
      if s < 0 || s >= c.nnodes {
        assert Seeds(c.Lists(), seeds[..i + 1]) == Seeds(c.Lists(), seeds[..i]);
        continue;
      }
      ghost var now := lanes[l := Seeds(c.Lists(), seeds[..i])];
      assert Seeds(c.Lists(), seeds[..i + 1]) == Seeds(c.Lists(), seeds[..i]) + {s};
      frontier' := SeedNode(c.nnodes, s, l, visit, seen, frontier', now);
      assert now[l := now[l] + {s}] == lanes[l := Seeds(c.Lists(), seeds[..i + 1])];
    }
    assert seeds[..|seeds|] == seeds;
  }

  method SeedTile(c: Csr, sets: seq<seq<int>>, base: nat, tile: nat, visit: array<bv64>, seen: array<bv64>)
    returns (frontier: seq<nat>)
    requires c.InBounds() && base + tile <= |sets| && tile <= LANES && (tile == LANES || base + tile == |sets|)
    requires visit != seen && visit.Length == c.nnodes && seen.Length == c.nnodes
    requires forall v :: 0 <= v < c.nnodes ==> visit[v] == 0 && seen[v] == 0
    modifies visit, seen
    ensures LaneView(seen[..], c.nnodes, Balls(c.Lists(), Tile(sets, base), 0))
    ensures visit[..] == seen[..] && Listed(frontier, visit[..])
  {
    hide Bit, LaneView, Listed;
    ghost var g := c.Lists();
    ghost var t := Tile(sets, base);
    ghost var lanes := NoLanes();
    ZeroView(seen[..], c.nnodes);
    frontier := [];
    ListedNone(seen[..]);
    assert visit[..] == seen[..];
    for l := 0 to tile
      invariant |lanes| == LANES
      invariant forall k :: 0 <= k < LANES ==> lanes[k] == if k < l then Seeds(g, t[k]) else {}
      invariant LaneView(seen[..], c.nnodes, lanes)
      invariant visit[..] == seen[..] && Listed(frontier, seen[..])
    {
      frontier := SeedLane(c, sets[base + l], l, visit, seen, frontier, lanes);
      lanes := lanes[l := Seeds(g, t[l])];
    }
    assert forall k :: 0 <= k < LANES ==> lanes[k] == Ball(g, t[k], 0);
    assert lanes == Balls(g, t, 0);
  }

  // ----- one hop -----

  /** Offer the lanes `vv` to one neighbour: those that have not seen it mark it and pass it on. */
  method OfferLanes(n: nat, nbr: nat, vv: bv64, seen: array<bv64>, visitNext: array<bv64>, next: seq<nat>,
                    ghost lanes: seq<set<int>>, ghost added: seq<set<int>>)
    returns (next': seq<nat>, ghost added': seq<set<int>>)
    requires seen != visitNext && nbr < n
    requires LaneView(seen[..], n, lanes) && LaneView(visitNext[..], n, added) && Listed(next, visitNext[..])
    modifies seen, visitNext
    ensures |lanes| == |added| == |added'| == LANES
    ensures LaneView(seen[..], n, AddTo(lanes, vv, {nbr})) && LaneView(visitNext[..], n, added')
    ensures forall l :: 0 <= l < LANES ==> added'[l] == added[l] + (AddTo(lanes, vv, {nbr})[l] - lanes[l])
    ensures Listed(next', visitNext[..])
  {
    hide Or, AndNot, Bit, LaneView, Listed, OrAt;
    next', added' := next, added;
    ViewSize(seen[..], n, lanes);
    ViewSize(visitNext[..], n, added);
    var newBits := AndNot(vv, seen[nbr]);
    NewBits(seen[..], n, lanes, nbr, vv);
    if newBits != 0 {
      ListedAfterPush(next, visitNext[..], nbr, newBits);
      if visitNext[nbr] == 0 {
        next' := next + [nbr];
      }
      OrView(visitNext[..], n, added, nbr, newBits);
      OrView(seen[..], n, lanes, nbr, newBits);
      OrInto(visitNext, nbr, newBits);
      OrInto(seen, nbr, newBits);
      added' := AddTo(added, newBits, {nbr});
    } else {
      AddZero(lanes, {nbr});
    }
  }

  /** Offer the lanes `vv` of a frontier vertex to each of its neighbours. */
  method ScanLanes(c: Csr, node: nat, vv: bv64, seen: array<bv64>, visitNext: array<bv64>, next: seq<nat>,
                   ghost lanes: seq<set<int>>, ghost added: seq<set<int>>)
    returns (next': seq<nat>, ghost lanes': seq<set<int>>, ghost added': seq<set<int>>)
    requires c.InBounds() && node < c.nnodes && seen != visitNext
    requires LaneView(seen[..], c.nnodes, lanes) && LaneView(visitNext[..], c.nnodes, added)
    requires Listed(next, visitNext[..])
    modifies seen, visitNext
    ensures |lanes| == |lanes'| == |added| == |added'| == LANES
    ensures lanes' == AddTo(lanes, vv, Members(c.Neighbours(node)))
    ensures forall l :: 0 <= l < LANES ==> added'[l] == added[l] + (lanes'[l] - lanes[l])
    ensures LaneView(seen[..], c.nnodes, lanes') && LaneView(visitNext[..], c.nnodes, added')
    ensures Listed(next', visitNext[..])
  {
    hide Bit, LaneView, Listed, Members;
    next', lanes', added' := next, lanes, added;
    ViewSize(seen[..], c.nnodes, lanes);
    ViewSize(visitNext[..], c.nnodes, added);
    ghost var nbrs := c.Neighbours(node);
    var a0, a1 := c.offsets[node], c.offsets[node + 1];
    MembersEmpty();
    AddTwice(lanes, vv, {}, {});
    for a := a0 to a1
      invariant |added'| == LANES
      invariant lanes' == AddTo(lanes, vv, Members(nbrs[..a - a0]))
      invariant forall l :: 0 <= l < LANES ==> added'[l] == added[l] + (lanes'[l] - lanes[l])
      invariant LaneView(seen[..], c.nnodes, lanes') && LaneView(visitNext[..], c.nnodes, added')
      invariant Listed(next', visitNext[..])
    {
      var nbr := c.adj[a];
      assert nbrs[..a + 1 - a0] == nbrs[..a - a0] + [nbr];
      MembersAppend(nbrs[..a - a0], nbr);
      AddTwice(lanes, vv, Members(nbrs[..a - a0]), {nbr});
      next', added' := OfferLanes(c.nnodes, nbr, vv, seen, visitNext, next', lanes', added');
      lanes' := AddTo(lanes', vv, {nbr});
    }
    assert nbrs[..a1 - a0] == nbrs;
  }

  /** What every hop keeps for each lane: the newest nodes are the only ones with unexplored neighbours. */
  ghost predicate Progress(g: Graph, sets: seq<seq<int>>, h: nat, newest: seq<set<int>>)
    requires |sets| == LANES
  {
    && |newest| == LANES
    && forall l :: 0 <= l < LANES ==>
         newest[l] <= Ball(g, sets[l], h) && Step(g, Ball(g, sets[l], h) - newest[l]) <= Ball(g, sets[l], h)
  }

  /** The lane sets after the first frontier vertices `done` have been swept. */
  ghost function Swept(g: Graph, sets: seq<seq<int>>, h: nat, newest: seq<set<int>>, done: set<int>)
    : (r: seq<set<int>>)
    requires |sets| == |newest| == LANES
    ensures |r| == LANES
    ensures forall l :: 0 <= l < LANES ==> r[l] == Ball(g, sets[l], h) + Step(g, done * newest[l])
  {
    seq(LANES, l requires 0 <= l < LANES => Ball(g, sets[l], h) + Step(g, done * newest[l]))
  }

  lemma SweptNone(g: Graph, sets: seq<seq<int>>, h: nat, newest: seq<set<int>>)
    requires |sets| == |newest| == LANES
    ensures Swept(g, sets, h, newest, {}) == Balls(g, sets, h)
  {
    hide Step, Ball;
    StepOfNone(g);
    forall l | 0 <= l < LANES
      ensures Swept(g, sets, h, newest, {})[l] == Balls(g, sets, h)[l]
    {
      assert {} * newest[l] == {};
    }
  }

  /** Sweeping one more vertex offers its neighbours to exactly the lanes whose newest set holds it. */
  lemma SweptOneMore(g: Graph, sets: seq<seq<int>>, h: nat, newest: seq<set<int>>, done: set<int>, v: nat,
                     vv: bv64)
    requires |sets| == |newest| == LANES && v < |g|
    requires forall l :: 0 <= l < LANES ==> (Bit(vv, l) <==> v in newest[l])
    ensures Swept(g, sets, h, newest, done + {v})
         == AddTo(Swept(g, sets, h, newest, done), vv, Members(g[v]))
  {
    hide Step, Ball, Bit, Members;
    var r := AddTo(Swept(g, sets, h, newest, done), vv, Members(g[v]));
    forall l | 0 <= l < LANES ensures Swept(g, sets, h, newest, done + {v})[l] == r[l] {
      if v in newest[l] {
        assert (done + {v}) * newest[l] == done * newest[l] + {v};
        StepOfOneMore(g, done * newest[l], v);
      } else {
        assert (done + {v}) * newest[l] == done * newest[l];
      }
    }
  }

  /** A swept frontier completes the ball of every lane at once. */
  lemma SweptAll(g: Graph, sets: seq<seq<int>>, h: nat, newest: seq<set<int>>, done: set<int>,
                 added: seq<set<int>>)
    requires |sets| == LANES && |added| == LANES && Progress(g, sets, h, newest)
    requires forall l :: 0 <= l < LANES ==> newest[l] <= done
    requires forall l :: 0 <= l < LANES
               ==> added[l] == Swept(g, sets, h, newest, done)[l] - Ball(g, sets[l], h)
    ensures Swept(g, sets, h, newest, done) == Balls(g, sets, h + 1)
    ensures Progress(g, sets, h + 1, added)
  {
    hide Step, Ball;
    forall l | 0 <= l < LANES
      ensures Swept(g, sets, h, newest, done)[l] == Ball(g, sets[l], h + 1)
      ensures added[l] <= Ball(g, sets[l], h + 1)
      ensures Step(g, Ball(g, sets[l], h + 1) - added[l]) <= Ball(g, sets[l], h + 1)
    {
      assert done * newest[l] == newest[l];
      HopCompletesBall(g, sets[l], h, newest[l], Swept(g, sets, h, newest, done)[l]);
    }
  }

  /** A frontier that lists the nonzero words covers every lane's newest nodes. */
  lemma ListedCovers(frontier: seq<nat>, words: seq<bv64>, n: nat, newest: seq<set<int>>)
    requires Listed(frontier, words) && LaneView(words, n, newest)
    requires forall l :: 0 <= l < LANES ==> forall v :: v in newest[l] ==> 0 <= v < n
    ensures forall l :: 0 <= l < LANES ==> newest[l] <= Members(frontier)
    ensures forall i :: 0 <= i < |frontier| ==> frontier[i] < n
  {
    hide Bit;
    forall l, v | 0 <= l < LANES && v in newest[l] ensures v in Members(frontier) {
      assert Bit(words[v], l);
      NonzeroHasBit(words[v]);
    }
  }

  lemma LanesInNodes(g: Graph, sets: seq<seq<int>>, h: nat, newest: seq<set<int>>)
    requires Closed(g) && |sets| == LANES && Progress(g, sets, h, newest)
    ensures forall l :: 0 <= l < LANES ==> forall v :: v in newest[l] ==> 0 <= v < |g|
  {
    hide Ball, Step;
    forall l | 0 <= l < LANES ensures forall v :: v in newest[l] ==> 0 <= v < |g| {
      BallInNodes(g, sets[l], h);
    }
  }

  lemma ViewBits(words: seq<bv64>, n: nat, lanes: seq<set<int>>, v: nat)
    requires LaneView(words, n, lanes) && v < n
    ensures |words| == n && |lanes| == LANES
    ensures forall l :: 0 <= l < LANES ==> (Bit(words[v], l) <==> v in lanes[l])
  {
    hide Bit;
  }

  method MultiHop(c: Csr, frontier: seq<nat>, visit: array<bv64>, seen: array<bv64>, visitNext: array<bv64>,
                  ghost sets: seq<seq<int>>, ghost h: nat, ghost newest: seq<set<int>>)
    returns (next: seq<nat>, ghost newest': seq<set<int>>)
    requires c.InBounds() && |sets| == LANES
    requires visit != seen && visit != visitNext && seen != visitNext
    requires visitNext.Length == c.nnodes && forall v :: 0 <= v < c.nnodes ==> visitNext[v] == 0
    requires LaneView(seen[..], c.nnodes, Balls(c.Lists(), sets, h))
    requires LaneView(visit[..], c.nnodes, newest) && Listed(frontier, visit[..])
    requires Progress(c.Lists(), sets, h, newest)
    modifies seen, visitNext
    ensures LaneView(seen[..], c.nnodes, Balls(c.Lists(), sets, h + 1))
    ensures LaneView(visitNext[..], c.nnodes, newest') && Listed(next, visitNext[..])
    ensures Progress(c.Lists(), sets, h + 1, newest')
    ensures forall l :: 0 <= l < LANES
              ==> newest'[l] == Ball(c.Lists(), sets[l], h + 1) - Ball(c.Lists(), sets[l], h)
  {
    hide Bit, LaneView, Listed, Step, Ball, Members;
    ghost var g := c.Lists();
    LanesInNodes(g, sets, h, newest);
    ListedCovers(frontier, visit[..], c.nnodes, newest);
    ViewSize(visit[..], c.nnodes, newest);
    next := [];
    ListedNone(visitNext[..]);
    ZeroView(visitNext[..], c.nnodes);
    newest' := NoLanes();
    ghost var start := Balls(g, sets, h);
    ghost var lanes := start;
    SweptNone(g, sets, h, newest);
    MembersEmpty();
    assert frontier[..0] == [];
    for f := 0 to |frontier|
      invariant visit[..] == old(visit[..])
      invariant |newest'| == LANES && lanes == Swept(g, sets, h, newest, Members(frontier[..f]))
      invariant forall l :: 0 <= l < LANES ==> newest'[l] == lanes[l] - start[l]
      invariant forall l :: 0 <= l < LANES ==> start[l] <= lanes[l]
      invariant LaneView(seen[..], c.nnodes, lanes)
      invariant LaneView(visitNext[..], c.nnodes, newest') && Listed(next, visitNext[..])
    {
      var v := frontier[f];
      var vv := visit[v];
      assert vv == visit[..][v];
      ViewBits(visit[..], c.nnodes, newest, v);
      SweptOneMore(g, sets, h, newest, Members(frontier[..f]), v, vv);
      assert frontier[..f + 1] == frontier[..f] + [v];
      MembersAppend(frontier[..f], v);
      next, lanes, newest' := ScanLanes(c, v, vv, seen, visitNext, next, lanes, newest');
    }
    assert frontier[..|frontier|] == frontier;
    SweptAll(g, sets, h, newest, Members(frontier), newest');
  }

  /** An empty frontier means that no lane can reach anything new. */
  lemma EmptyFrontierIsFinal(c: Csr, visit: seq<bv64>, sets: seq<seq<int>>, h: nat, newest: seq<set<int>>,
                             hops: nat)
    requires c.InBounds() && |sets| == LANES && h <= hops
    requires LaneView(visit, c.nnodes, newest) && Listed([], visit)
    requires Progress(c.Lists(), sets, h, newest)
    ensures Balls(c.Lists(), sets, hops) == Balls(c.Lists(), sets, h)
  {
    hide LaneView, Listed, Step;
    var g := c.Lists();
    LanesInNodes(g, sets, h, newest);
    ListedCovers([], visit, c.nnodes, newest);
    forall l | 0 <= l < LANES ensures Ball(g, sets[l], hops) == Ball(g, sets[l], h) {
      assert newest[l] == {};
      assert Ball(g, sets[l], h) - newest[l] == Ball(g, sets[l], h);
      assert Ball(g, sets[l], h + 1) == Ball(g, sets[l], h);
      BallFixpoint(g, sets[l], h, hops);
    }
  }

  lemma SeededProgress(g: Graph, sets: seq<seq<int>>)
    requires |sets| == LANES
    ensures Progress(g, sets, 0, Balls(g, sets, 0))
  {
    hide Ball, Step;
    forall l | 0 <= l < LANES
      ensures Step(g, Ball(g, sets[l], 0) - Balls(g, sets, 0)[l]) <= Ball(g, sets[l], 0)
    {
      StepOfNone(g);
      assert Ball(g, sets[l], 0) - Ball(g, sets[l], 0) == {};
    }
  }

  /** The searches of one tile, hop by hop. */
  method SearchTile(c: Csr, sets: seq<seq<int>>, base: nat, tile: nat, hops: nat) returns (seen: array<bv64>)
    requires c.InBounds() && base + tile <= |sets| && tile <= LANES && (tile == LANES || base + tile == |sets|)
    ensures LaneView(seen[..], c.nnodes, Balls(c.Lists(), Tile(sets, base), hops))
  {
    hide LaneView, Listed, Progress, Ball;
    ghost var g := c.Lists();
    ghost var t := Tile(sets, base);
    var visit := new bv64[c.nnodes](_ => 0);
    seen := new bv64[c.nnodes](_ => 0);
    var frontier := SeedTile(c, sets, base, tile, visit, seen);
    ghost var newest := Balls(g, t, 0);
    SeededProgress(g, t);
    var h := 0;
    while h < hops
      invariant h <= hops && visit != seen
      invariant LaneView(seen[..], c.nnodes, Balls(g, t, h))
      invariant h < hops ==> LaneView(visit[..], c.nnodes, newest) && Listed(frontier, visit[..])
      invariant h < hops ==> Progress(g, t, h, newest)
    {
      if frontier == [] {
        EmptyFrontierIsFinal(c, visit[..], t, h, newest, hops);
        h := hops;
        break;
      }
      var visitNext := new bv64[c.nnodes](_ => 0);
      frontier, newest := MultiHop(c, frontier, visit, seen, visitNext, t, h, newest);
      visit := visitNext;
      h := h + 1;
    }
  }

  /** Hand the lanes of word `v` to their results, lowest lane first. */
  method ExtractWord(mask: bv64, v: nat, base: nat, tile: nat, result: seq<seq<int>>)
    returns (result': seq<seq<int>>)
    requires base + tile <= |result|
    requires forall l :: 0 <= l < LANES && Bit(mask, l) ==> l < tile
    ensures |result'| == |result|
    ensures forall k :: 0 <= k < |result| ==>
      result'[k] == if base <= k < base + tile && k - base < LANES && Bit(mask, k - base)
                    then result[k] + [v] else result[k]
  {
    hide Bit, TrailingZeros;
    result' := result;
    var m := mask;
    while m != 0
      invariant |result'| == |result|
      invariant forall l :: 0 <= l < LANES && Bit(m, l) ==> Bit(mask, l)
      invariant forall k :: 0 <= k < |result| ==>
        result'[k] == if base <= k < base + tile && k - base < LANES && Bit(mask, k - base) && !Bit(m, k - base)
                      then result[k] + [v] else result[k]
      decreases m
    {
      var l := TrailingZeros(m);
      result' := result'[base + l := result'[base + l] + [v]];
      forall k | 0 <= k < LANES ensures Bit(WithoutLowest(m), k) <==> Bit(m, k) && k != l {
        ClearLowestBits(m, k);
      }
      WithoutLowestSmaller(m);
      m := WithoutLowest(m);
    }
    forall k | 0 <= k < LANES ensures !Bit(0, k) { ZeroHasNoBits(k); }
  }

  method Extract(seen: array<bv64>, n: nat, base: nat, tile: nat, result: seq<seq<int>>,
                 ghost lanes: seq<set<int>>)
    returns (result': seq<seq<int>>)
    requires LaneView(seen[..], n, lanes) && base + tile <= |result| && tile <= LANES
    requires forall l :: tile <= l < LANES ==> l < |lanes| && lanes[l] == {}
    requires forall k :: base <= k < base + tile ==> result[k] == []
    ensures |result'| == |result| && |lanes| == LANES
    ensures forall k :: 0 <= k < |result| ==>
      result'[k] == if base <= k < base + tile then Ascending(lanes[k - base], n) else result[k]
  {
    hide Bit, LaneView;
    ViewSize(seen[..], n, lanes);
    result' := result;
    for v := 0 to n
      invariant |result'| == |result|
      invariant forall k :: 0 <= k < |result| ==>
        result'[k] == if base <= k < base + tile then Ascending(lanes[k - base], v) else result[k]
    {
      assert seen[..][v] == seen[v];
      ViewBits(seen[..], n, lanes, v);
      result' := ExtractWord(seen[v], v, base, tile, result');
    }
  }

  lemma {:induction false} NoSeedsNoBall(g: Graph, h: nat)
    ensures Ball(g, [], h) == {}
  {
    if h > 0 {
      NoSeedsNoBall(g, h - 1);
      StepOfNone(g);
    }
  }

  /** Lane `k` of the batch is the search from seed list `k` alone: `Expand(c, sets[k], maxHops)`. */
  method ExpandMulti(c: Csr, sets: seq<seq<int>>, maxHops: int) returns (result: seq<seq<int>>)
    requires c.InBounds()
    ensures |result| == |sets|
    ensures forall k :: 0 <= k < |sets|
              ==> result[k] == Ascending(Ball(c.Lists(), sets[k], Hops(maxHops)), c.nnodes)
  {
    hide LaneView, Ball, Ascending;
    ghost var g := c.Lists();
    var hops := Hops(maxHops);
    result := seq(|sets|, _ => []);
    var base := 0;
    while base < |sets|
      invariant base <= |sets| == |result|
      invariant forall k :: 0 <= k < base ==> result[k] == Ascending(Ball(g, sets[k], hops), c.nnodes)
      invariant forall k :: base <= k < |sets| ==> result[k] == []
    {
      var tile := if |sets| - base < LANES then |sets| - base else LANES;
      var seen := SearchTile(c, sets, base, tile, hops);
      ghost var lanes := Balls(g, Tile(sets, base), hops);
      NoSeedsNoBall(g, hops);
      result := Extract(seen, c.nnodes, base, tile, result, lanes);
      base := base + tile;
    }
  }
}

/** The compressed adjacency of the persisted graph and the frontier search over it. */
module Adjacency {
  import opened Bits
  import opened Graph

  /** `adj[offsets[u]..offsets[u + 1]]` lists the neighbours of node `u`. */
  datatype Csr = Csr(nnodes: nat, offsets: seq<nat>, adj: seq<nat>) {

    /** Every index the traversals compute stays inside `offsets` and `adj`. */
    ghost predicate InBounds() {
      && |offsets| == nnodes + 1
      && (forall u {:trigger offsets[u]} :: 0 <= u < nnodes ==> offsets[u] <= offsets[u + 1])
      && (forall u :: 0 <= u <= nnodes ==> offsets[u] <= |adj|)
      && (forall k :: 0 <= k < |adj| ==> adj[k] < nnodes)
    }

    ghost function Neighbours(u: nat): seq<nat>
      requires InBounds() && u < nnodes
    {
      assert offsets[u] <= offsets[u + 1];
      adj[offsets[u]..offsets[u + 1]]
    }

    ghost function Lists(): (g: Graph)
      requires InBounds()
      ensures |g| == nnodes
      ensures forall u :: 0 <= u < nnodes ==> g[u] == Neighbours(u)
      ensures Closed(g)
    {
      seq(nnodes, u requires 0 <= u < nnodes => Neighbours(u))
    }
  }

  function Hops(maxHops: int): nat {
    if maxHops < 0 then 0 else maxHops
  }

  // ----- the visited bitset -----

  /** Bit `i` of the words is set exactly for the members of `s`, over the node numbers. */
  ghost predicate Marks(bs: seq<bv64>, n: nat, s: set<int>) {
    |bs| == n / 64 + 1 && forall i: nat :: i < n ==> (IsSet(bs, i) <==> i in s)
  }

  lemma MarkNode(bs: seq<bv64>, n: nat, s: set<int>, i: nat)
    requires Marks(bs, n, s) && i < n
    ensures Marks(WithBit(bs, i), n, s + {i})
  {
    hide IsSet, WithBit;
    WithBitLength(bs, i);
    forall j: nat | j < n ensures IsSet(WithBit(bs, i), j) <==> j in s + {i} {
      WithBitIsSet(bs, i, j);
    }
  }

  lemma MarkedNode(bs: seq<bv64>, n: nat, s: set<int>, i: nat)
    requires Marks(bs, n, s) && i < n
    ensures i / 64 < |bs| && (IsSet(bs, i) <==> i in s)
  {
  }

  lemma NoMarks(bs: seq<bv64>, n: nat)
    requires |bs| == n / 64 + 1 && forall w :: 0 <= w < |bs| ==> bs[w] == 0
    ensures Marks(bs, n, {})
  {
    hide Bit;
    forall j: nat | j < n ensures !IsSet(bs, j) {
      ZeroHasNoBits(j % 64);
    }
  }

  // ----- `Csr::expand` -----

  method SeedFrontier(c: Csr, seeds: seq<int>, visited: array<bv64>) returns (frontier: seq<nat>)
    requires c.InBounds() && Marks(visited[..], c.nnodes, {})
    modifies visited
    ensures Marks(visited[..], c.nnodes, Seeds(c.Lists(), seeds))
    ensures Members(frontier) == Seeds(c.Lists(), seeds)
  {
    hide IsSet, WithBit;
    frontier := [];
    ghost var marked: set<int> := {};
    for k := 0 to |seeds|
      invariant Marks(visited[..], c.nnodes, marked)
      invariant marked == Seeds(c.Lists(), seeds[..k])
      invariant Members(frontier) == marked
    {
      var s := seeds[k];
      assert seeds[..k + 1] == seeds[..k] + [s];
      if s < 0 || s >= c.nnodes {
        continue;
      }
      if !IsSet(visited[..], s) {
        MarkNode(visited[..], c.nnodes, marked, s);
        SetBit(visited, s);
        marked := marked + {s};
        frontier := frontier + [s];
      }
    }
    assert seeds[..|seeds|] == seeds;
  }

  /** The inner loop: mark and collect every neighbour of `node` not seen before. */
  method ScanNode(c: Csr, visited: array<bv64>, node: nat, next: seq<nat>, ghost seen: set<int>)
    returns (next': seq<nat>)
    requires c.InBounds() && node < c.nnodes && Marks(visited[..], c.nnodes, seen)
    modifies visited
    ensures Marks(visited[..], c.nnodes, seen + Members(c.Neighbours(node)))
    ensures Members(next') == Members(next) + (Members(c.Neighbours(node)) - seen)
  {
    hide IsSet, WithBit, Members, Marks;
    next' := next;
    ghost var marked := seen;
    ghost var nbrs := c.Neighbours(node);
    var a0, a1 := c.offsets[node], c.offsets[node + 1];
    MembersEmpty();
    for a := a0 to a1
      invariant Marks(visited[..], c.nnodes, marked)
      invariant marked == seen + Members(nbrs[..a - a0])
      invariant Members(next') == Members(next) + (marked - seen)
    {
      var nbr := c.adj[a];
      assert nbrs[..a + 1 - a0] == nbrs[..a - a0] + [nbr];
      MembersAppend(nbrs[..a - a0], nbr);
      MarkedNode(visited[..], c.nnodes, marked, nbr);
      if !IsSet(visited[..], nbr) {
        MarkNode(visited[..], c.nnodes, marked, nbr);
        SetBit(visited, nbr);
        marked := marked + {nbr};
        MembersAppend(next', nbr);
        next' := next' + [nbr];
      }
    }
    assert nbrs[..a1 - a0] == nbrs;
  }

  /** One round of the frontier loop. */
  method ExpandHop(c: Csr, visited: array<bv64>, frontier: seq<nat>, ghost seeds: seq<int>, ghost h: nat)
    returns (next: seq<nat>)
    requires c.InBounds()
    requires Marks(visited[..], c.nnodes, Ball(c.Lists(), seeds, h))
    requires Members(frontier) <= Ball(c.Lists(), seeds, h)
    requires Step(c.Lists(), Ball(c.Lists(), seeds, h) - Members(frontier)) <= Ball(c.Lists(), seeds, h)
    modifies visited
    ensures Marks(visited[..], c.nnodes, Ball(c.Lists(), seeds, h + 1))
    ensures Members(next) == Ball(c.Lists(), seeds, h + 1) - Ball(c.Lists(), seeds, h)
    ensures Step(c.Lists(), Ball(c.Lists(), seeds, h + 1) - Members(next)) <= Ball(c.Lists(), seeds, h + 1)
  {
    hide Marks, Ball, Step;
    ghost var g := c.Lists();
    ghost var ball := Ball(g, seeds, h);
    ghost var seen := ball;
    BallInNodes(g, seeds, h);
    next := [];
    StepOfNone(g);
    MembersEmpty();
    assert frontier[..0] == [];
    for f := 0 to |frontier|
      invariant Marks(visited[..], c.nnodes, seen)
      invariant seen == ball + Step(g, Members(frontier[..f]))
      invariant Members(next) == seen - ball
    {
      var node := frontier[f];
      assert node in Members(frontier);
      next := ScanNode(c, visited, node, next, seen);
      seen := seen + Members(g[node]);
      assert frontier[..f + 1] == frontier[..f] + [node];
      MembersAppend(frontier[..f], node);
      StepOfOneMore(g, Members(frontier[..f]), node);
    }
    assert frontier[..|frontier|] == frontier;
    HopCompletesBall(g, seeds, h, Members(frontier), seen);
  }

  /** Collect the marked node numbers in ascending order. */
  method CollectVisited(visited: array<bv64>, n: nat, ghost s: set<int>) returns (r: seq<int>)
    requires Marks(visited[..], n, s)
    ensures r == Ascending(s, n)
  {
    hide IsSet;
    r := [];
    for i := 0 to n
      invariant r == Ascending(s, i)
    {
      if IsSet(visited[..], i) {
        r := r + [i];
      }
    }
  }

  /** The nodes within `maxHops` of a valid seed, in ascending order; the valid seeds alone for a negative number. */
  method Expand(c: Csr, seeds: seq<int>, maxHops: int) returns (r: seq<int>)
    requires c.InBounds()
    ensures r == Ascending(Ball(c.Lists(), seeds, Hops(maxHops)), c.nnodes)
  {
    hide IsSet, WithBit, Ascending;
    ghost var g := c.Lists();
    var visited := new bv64[c.nnodes / 64 + 1](_ => 0);
    NoMarks(visited[..], c.nnodes);
    var frontier := SeedFrontier(c, seeds, visited);
    var hops := Hops(maxHops);
    var h := 0;
    assert Ball(g, seeds, 0) - Members(frontier) == {};
    while h < hops
      invariant h <= hops
      invariant Marks(visited[..], c.nnodes, Ball(g, seeds, h))
      invariant Members(frontier) <= Ball(g, seeds, h)
      invariant Step(g, Ball(g, seeds, h) - Members(frontier)) <= Ball(g, seeds, h)
    {
      var next := ExpandHop(c, visited, frontier, seeds, h);
      if next == [] {
        assert Ball(g, seeds, h + 1) == Ball(g, seeds, h) by { BallGrows(g, seeds, h, h + 1); }
        BallFixpoint(g, seeds, h, hops);
        BallFixpoint(g, seeds, h, h + 1);
        h := hops;
        break;
      }
      frontier := next;
      h := h + 1;
    }
    r := CollectVisited(visited, c.nnodes, Ball(g, seeds, hops));
  }

  /** What the search returns, by walks: exactly the nodes that a walk of at most `maxHops` edges reaches from a valid
      seed, in strictly ascending order; the valid seeds alone for a negative number of hops. */
  lemma ExpandReaches(c: Csr, seeds: seq<int>, maxHops: int, v: int)
    requires c.InBounds()
    ensures var r := Ascending(Ball(c.Lists(), seeds, Hops(maxHops)), c.nnodes);
      && (maxHops >= 0 ==> (v in r <==> WithinHops(c.Lists(), seeds, maxHops, v)))
      && (maxHops < 0 ==> (v in r <==> v in seeds && 0 <= v < c.nnodes))
      && forall i, j :: 0 <= i < j < |r| ==> r[i] < r[j]
  {
    hide WithinHops, Ascending;
    var g, h := c.Lists(), Hops(maxHops);
    BallInNodes(g, seeds, h);
    AscendingMembers(Ball(g, seeds, h), c.nnodes);
    AscendingSorted(Ball(g, seeds, h), c.nnodes);
    BallIsWithinHops(g, seeds, h, v);
  }
}

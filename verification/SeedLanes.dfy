/** Batched reachability over parallel arrays of set numbers and seeds. */
module SeedLanes {
  import opened Graph
  import opened Adjacency
  import opened MultiSource
  import opened Options

  ghost predicate Paired(ids: seq<Option<int>>, seeds: seq<Option<int>>, i: nat, sid: int)
    requires |ids| == |seeds|
  {
    i < |ids| && ids[i] == Some(sid) && seeds[i].Some?
  }

  /** The seeds paired with `sid`, in array order; pairs with a NULL on either side are skipped. */
  ghost function SeedsOf(ids: seq<Option<int>>, seeds: seq<Option<int>>, sid: int): seq<int>
    requires |ids| == |seeds|
  {
    if ids == [] then [] else
      var n := |ids| - 1;
      SeedsOf(ids[..n], seeds[..n], sid) + (if Paired(ids, seeds, n, sid) then [seeds[n].value] else [])
  }

  /** The set numbers that own a seed, in order of first appearance. */
  ghost function FirstSeen(ids: seq<Option<int>>, seeds: seq<Option<int>>): seq<int>
    requires |ids| == |seeds|
  {
    if ids == [] then [] else
      var n := |ids| - 1;
      var before := FirstSeen(ids[..n], seeds[..n]);
      if ids[n].Some? && seeds[n].Some? && ids[n].value !in before then before + [ids[n].value] else before
  }

  ghost predicate Grouped(ids: seq<Option<int>>, seeds: seq<Option<int>>, lanes: seq<seq<int>>, owners: seq<int>)
    requires |ids| == |seeds|
  {
    && owners == FirstSeen(ids, seeds)
    && |lanes| == |owners|
    && forall k :: 0 <= k < |owners| ==> lanes[k] == SeedsOf(ids, seeds, owners[k])
  }

  lemma {:induction false} NoSeedsUnseen(ids: seq<Option<int>>, seeds: seq<Option<int>>, sid: int)
    requires |ids| == |seeds|
    ensures sid in FirstSeen(ids, seeds) <==> SeedsOf(ids, seeds, sid) != []
  {
    if ids != [] {
      NoSeedsUnseen(ids[..|ids| - 1], seeds[..|ids| - 1], sid);
    }
  }

  lemma {:induction false} FirstSeenDistinct(ids: seq<Option<int>>, seeds: seq<Option<int>>)
    requires |ids| == |seeds|
    ensures forall i, j :: 0 <= i < j < |FirstSeen(ids, seeds)|
              ==> FirstSeen(ids, seeds)[i] != FirstSeen(ids, seeds)[j]
  {
    if ids != [] {
      var n := |ids| - 1;
      FirstSeenDistinct(ids[..n], seeds[..n]);
    }
  }

  ghost predicate Distinct(owners: seq<int>) {
    forall k, j :: 0 <= k < j < |owners| ==> owners[k] != owners[j]
  }

  lemma SeedsNext(ids: seq<Option<int>>, seeds: seq<Option<int>>, i: nat, sid: int)
    requires |ids| == |seeds| && i < |ids|
    ensures SeedsOf(ids[..i + 1], seeds[..i + 1], sid) ==
      SeedsOf(ids[..i], seeds[..i], sid) + (if Paired(ids, seeds, i, sid) then [seeds[i].value] else [])
  {
    assert ids[..i + 1][..i] == ids[..i] && seeds[..i + 1][..i] == seeds[..i];
  }

  lemma FirstSeenNext(ids: seq<Option<int>>, seeds: seq<Option<int>>, i: nat)
    requires |ids| == |seeds| && i < |ids|
    ensures var before := FirstSeen(ids[..i], seeds[..i]);
      FirstSeen(ids[..i + 1], seeds[..i + 1]) ==
        if ids[i].Some? && seeds[i].Some? && ids[i].value !in before then before + [ids[i].value] else before
  {
    assert ids[..i + 1][..i] == ids[..i] && seeds[..i + 1][..i] == seeds[..i];
  }

  lemma GroupedSkip(ids: seq<Option<int>>, seeds: seq<Option<int>>, i: nat, lanes: seq<seq<int>>, owners: seq<int>)
    requires |ids| == |seeds| && i < |ids| && (ids[i].None? || seeds[i].None?)
    requires Grouped(ids[..i], seeds[..i], lanes, owners)
    ensures Grouped(ids[..i + 1], seeds[..i + 1], lanes, owners)
  {
    hide SeedsOf, FirstSeen;
    FirstSeenNext(ids, seeds, i);
    forall k | 0 <= k < |owners| ensures lanes[k] == SeedsOf(ids[..i + 1], seeds[..i + 1], owners[k]) {
      SeedsNext(ids, seeds, i, owners[k]);
      assert lanes[k] + [] == lanes[k];
    }
  }

  lemma GroupedPush(ids: seq<Option<int>>, seeds: seq<Option<int>>, i: nat, lanes: seq<seq<int>>, owners: seq<int>, lane: nat)
    requires |ids| == |seeds| && i < |ids| && ids[i].Some? && seeds[i].Some?
    requires Grouped(ids[..i], seeds[..i], lanes, owners) && Distinct(owners)
    requires lane < |owners| && owners[lane] == ids[i].value
    ensures Grouped(ids[..i + 1], seeds[..i + 1], lanes[lane := lanes[lane] + [seeds[i].value]], owners)
  {
    hide SeedsOf, FirstSeen;
    FirstSeenNext(ids, seeds, i);
    var lanes' := lanes[lane := lanes[lane] + [seeds[i].value]];
    forall k | 0 <= k < |owners| ensures lanes'[k] == SeedsOf(ids[..i + 1], seeds[..i + 1], owners[k]) {
      SeedsNext(ids, seeds, i, owners[k]);
      assert lanes[k] + [] == lanes[k];
      assert k != lane ==> owners[k] != owners[lane];
    }
  }

  lemma GroupedNew(ids: seq<Option<int>>, seeds: seq<Option<int>>, i: nat, lanes: seq<seq<int>>, owners: seq<int>)
    requires |ids| == |seeds| && i < |ids| && ids[i].Some? && seeds[i].Some?
    requires Grouped(ids[..i], seeds[..i], lanes, owners) && ids[i].value !in owners
    ensures Grouped(ids[..i + 1], seeds[..i + 1], lanes + [[seeds[i].value]], owners + [ids[i].value])
  {
    hide SeedsOf, FirstSeen;
    FirstSeenNext(ids, seeds, i);
    var lanes', owners' := lanes + [[seeds[i].value]], owners + [ids[i].value];
    NoSeedsUnseen(ids[..i], seeds[..i], ids[i].value);
    forall k | 0 <= k < |owners'| ensures lanes'[k] == SeedsOf(ids[..i + 1], seeds[..i + 1], owners'[k]) {
      SeedsNext(ids, seeds, i, owners'[k]);
      if k < |owners| {
        assert lanes[k] + [] == lanes[k] && owners[k] in owners;
      } else {
        assert [] + [seeds[i].value] == lanes'[k];
      }
    }
  }

  /** Lane `k` holds the seeds of the `k`-th distinct set number. */
  method GroupSeedLanes(ids: seq<Option<int>>, seeds: seq<Option<int>>)
    returns (ok: bool, lanes: seq<seq<int>>, owners: seq<int>)
    ensures ok <==> |ids| == |seeds|
    ensures ok ==> Grouped(ids, seeds, lanes, owners)
  {
    lanes, owners := [], [];
    if |ids| != |seeds| {
      return false, lanes, owners;
    }
    var laneOf: map<int, nat> := map[];
    GroupedNothing(ids, seeds);
    hide Grouped;
    for i := 0 to |ids|
      invariant Grouped(ids[..i], seeds[..i], lanes, owners) && |lanes| == |owners|
      invariant forall sid :: sid in laneOf <==> sid in owners
      invariant forall sid :: sid in laneOf ==> laneOf[sid] < |owners| && owners[laneOf[sid]] == sid
      invariant Distinct(owners)
    {
      if ids[i].None? || seeds[i].None? {
        GroupedSkip(ids, seeds, i, lanes, owners);
        continue;
      }
      var sid := ids[i].value;
      if sid !in laneOf {
        GroupedNew(ids, seeds, i, lanes, owners);
        assert (lanes + [[]])[|lanes| := [] + [seeds[i].value]] == lanes + [[seeds[i].value]];
        laneOf := laneOf[sid := |lanes|];
        owners := owners + [sid];
        lanes := lanes + [[]];
      } else {
        GroupedPush(ids, seeds, i, lanes, owners, laneOf[sid]);
      }
      var lane := laneOf[sid];
      lanes := lanes[lane := lanes[lane] + [seeds[i].value]];
    }
    assert ids[..|ids|] == ids && seeds[..|seeds|] == seeds;
    ok := true;
  }

  lemma GroupedNothing(ids: seq<Option<int>>, seeds: seq<Option<int>>)
    requires |ids| == |seeds|
    ensures Grouped(ids[..0], seeds[..0], [], [])
  {
  }

  ghost predicate FromLanes(reached: seq<seq<int>>, owners: seq<int>, n: nat, sid: int, node: int)
    requires n <= |reached| == |owners|
  {
    exists k :: 0 <= k < n && owners[k] == sid && node in reached[k]
  }

  function OwnerRows(owner: int, nodes: seq<int>): (rows: seq<(int, int)>)
    ensures |rows| == |nodes| && forall j :: 0 <= j < |nodes| ==> rows[j] == (owner, nodes[j])
  {
    seq(|nodes|, j requires 0 <= j < |nodes| => (owner, nodes[j]))
  }

  /** The rows of the first `n` lanes, lane after lane. */
  function LaneRows(owners: seq<int>, reached: seq<seq<int>>, n: nat): seq<(int, int)>
    requires n <= |owners| == |reached|
  {
    if n == 0 then [] else LaneRows(owners, reached, n - 1) + OwnerRows(owners[n - 1], reached[n - 1])
  }

  lemma {:induction false} LaneRowMembers(owners: seq<int>, reached: seq<seq<int>>, n: nat, sid: int, node: int)
    requires n <= |owners| == |reached|
    ensures (sid, node) in LaneRows(owners, reached, n) <==> FromLanes(reached, owners, n, sid, node)
  {
    if n > 0 {
      LaneRowMembers(owners, reached, n - 1, sid, node);
      OwnerRowMembers(owners[n - 1], reached[n - 1], sid, node);
    }
  }

  lemma OwnerRowMembers(owner: int, nodes: seq<int>, sid: int, node: int)
    ensures (sid, node) in OwnerRows(owner, nodes) <==> sid == owner && node in nodes
  {
    var rows := OwnerRows(owner, nodes);
    if sid == owner && node in nodes {
      var j :| 0 <= j < |nodes| && nodes[j] == node;
      assert rows[j] == (sid, node);
    }
  }

  ghost predicate NoRepeats<T(!new)>(s: seq<T>) {
    forall i, j :: 0 <= i < j < |s| ==> s[i] != s[j]
  }

  /** Distinct owners and lists without repetition give every pair once. */
  lemma {:induction false} LaneRowsDistinct(owners: seq<int>, reached: seq<seq<int>>, n: nat)
    requires n <= |owners| == |reached| && NoRepeats(owners) && forall k :: 0 <= k < |reached| ==> NoRepeats(reached[k])
    ensures NoRepeats(LaneRows(owners, reached, n))
  {
    if n > 0 {
      LaneRowsDistinct(owners, reached, n - 1);
      var before, last := LaneRows(owners, reached, n - 1), OwnerRows(owners[n - 1], reached[n - 1]);
      assert NoRepeats(reached[n - 1]);
      forall i, j | 0 <= i < |before| && 0 <= j < |last| ensures before[i] != last[j] {
        LaneRowMembers(owners, reached, n - 1, before[i].0, before[i].1);
        assert before[i] in before;
      }
    }
  }

  /** One row per set number and node, set numbers in order of first appearance and nodes ascending: the node is within
      `maxHops` of one of that set's seeds, and no other set's seeds contribute. */
  method GraphExpandMulti(c: Csr, ids: seq<Option<int>>, seeds: seq<Option<int>>, maxHops: int)
    returns (ok: bool, rows: seq<(int, int)>)
    requires c.InBounds()
    ensures ok <==> |ids| == |seeds|
    ensures ok ==> NoRepeats(rows)
    ensures ok ==>
      rows == LaneRows(FirstSeen(ids, seeds), Searches(c, ids, seeds, maxHops), |FirstSeen(ids, seeds)|)
    ensures ok ==> forall sid, node ::
      (sid, node) in rows <==> node in Ball(c.Lists(), SeedsOf(ids, seeds, sid), Hops(maxHops))
  {
    var lanes, owners;
    rows := [];
    ok, lanes, owners := GroupSeedLanes(ids, seeds);
    if !ok {
      return;
    }
    hide Ball, Ascending, SeedsOf, FirstSeen;
    var reached := ExpandMulti(c, lanes, maxHops);
    assert reached == Searches(c, ids, seeds, maxHops);
    for lane := 0 to |reached|
      invariant rows == LaneRows(owners, reached, lane)
    {
      var nodes := reached[lane];
      ghost var before := rows;
      for j := 0 to |nodes|
        invariant rows == before + OwnerRows(owners[lane], nodes[..j])
      {
        rows := rows + [(owners[lane], nodes[j])];
      }
      assert nodes[..|nodes|] == nodes;
    }
    RowsAreBalls(c, ids, seeds, maxHops);
  }

  /** Each lane's search, from its own seeds. */
  ghost function Searches(c: Csr, ids: seq<Option<int>>, seeds: seq<Option<int>>, maxHops: int): (r: seq<seq<int>>)
    requires c.InBounds() && |ids| == |seeds|
    ensures |r| == |FirstSeen(ids, seeds)|
    ensures forall k :: 0 <= k < |r| ==>
      r[k] == Ascending(Ball(c.Lists(), SeedsOf(ids, seeds, FirstSeen(ids, seeds)[k]), Hops(maxHops)), c.nnodes)
  {
    seq(|FirstSeen(ids, seeds)|, k requires 0 <= k < |FirstSeen(ids, seeds)| =>
      Ascending(Ball(c.Lists(), SeedsOf(ids, seeds, FirstSeen(ids, seeds)[k]), Hops(maxHops)), c.nnodes))
  }

  lemma RowsAreBalls(c: Csr, ids: seq<Option<int>>, seeds: seq<Option<int>>, maxHops: int)
    requires c.InBounds() && |ids| == |seeds|
    ensures var owners := FirstSeen(ids, seeds);
      var rows := LaneRows(owners, Searches(c, ids, seeds, maxHops), |owners|);
      && NoRepeats(rows)
      && forall sid, node :: (sid, node) in rows <==> node in Ball(c.Lists(), SeedsOf(ids, seeds, sid), Hops(maxHops))
  {
    hide Ball, Ascending, SeedsOf, FirstSeen;
    var owners, reached := FirstSeen(ids, seeds), Searches(c, ids, seeds, maxHops);
    var g, h := c.Lists(), Hops(maxHops);
    FirstSeenDistinct(ids, seeds);
    forall k | 0 <= k < |reached| ensures NoRepeats(reached[k]) {
      AscendingSorted(Ball(g, SeedsOf(ids, seeds, owners[k]), h), c.nnodes);
    }
    LaneRowsDistinct(owners, reached, |owners|);
    var rows := LaneRows(owners, reached, |owners|);
    forall sid, node
      ensures (sid, node) in rows <==> node in Ball(g, SeedsOf(ids, seeds, sid), h)
    {
      LaneRowMembers(owners, reached, |owners|, sid, node);
      LaneIsBall(c, ids, seeds, maxHops, sid, node);
    }
  }

  lemma LaneIsBall(c: Csr, ids: seq<Option<int>>, seeds: seq<Option<int>>, maxHops: int, sid: int, node: int)
    requires c.InBounds() && |ids| == |seeds|
    ensures FromLanes(Searches(c, ids, seeds, maxHops), FirstSeen(ids, seeds), |FirstSeen(ids, seeds)|, sid, node)
       <==> node in Ball(c.Lists(), SeedsOf(ids, seeds, sid), Hops(maxHops))
  {
    hide Ball, Ascending, SeedsOf, FirstSeen;
    var owners, reached := FirstSeen(ids, seeds), Searches(c, ids, seeds, maxHops);
    var g, h := c.Lists(), Hops(maxHops);
    NoSeedsUnseen(ids, seeds, sid);
    AscendingMembers(Ball(g, SeedsOf(ids, seeds, sid), h), c.nnodes);
    BallInNodes(g, SeedsOf(ids, seeds, sid), h);
    if SeedsOf(ids, seeds, sid) == [] { NoSeedsNoBall(g, h); }
    if node in Ball(g, SeedsOf(ids, seeds, sid), h) {
      var k :| 0 <= k < |owners| && owners[k] == sid;
      assert node in reached[k];
    }
  }
}

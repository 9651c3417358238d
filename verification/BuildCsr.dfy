/** Building the undirected adjacency from scanned edge rows: counting, prefix sums and cursor fill. */
module BuildCsr {
  import opened Graph
  import opened Adjacency

  const U32_MAX: int := 4294967295

  /** One edge row as scanned; rows with a NULL endpoint are filtered out by the scan. */
  datatype Row = Row(src: int, dst: int)

  datatype Rejection = NegativeId | IdTooLarge

  datatype Built = Built(csr: Csr) | Rejected(why: Rejection)

  function Check(row: Row): (r: seq<Rejection>)
  {
    if row.src < 0 || row.dst < 0 then [NegativeId]
    else if row.src > U32_MAX || row.dst > U32_MAX then [IdTooLarge]
    else []
  }

  ghost predicate Accepted(rows: seq<Row>) {
    forall i :: 0 <= i < |rows| ==> Check(rows[i]) == []
  }

  /** The neighbours of `u` in row order: each row lists each endpoint at the other, a self-loop twice. */
  ghost function Incident(rows: seq<Row>, u: int): seq<int> {
    if rows == [] then [] else
      var last := rows[|rows| - 1];
      Incident(rows[..|rows| - 1], u)
      + (if last.src == u then [last.dst] else []) + (if last.dst == u then [last.src] else [])
  }

  lemma IncidentNext(rows: seq<Row>, i: nat, u: int)
    requires i < |rows|
    ensures Incident(rows[..i + 1], u) == Incident(rows[..i], u)
      + (if rows[i].src == u then [rows[i].dst] else []) + (if rows[i].dst == u then [rows[i].src] else [])
  {
    assert rows[..i + 1][..i] == rows[..i];
  }

  lemma {:induction false} IncidentGrows(rows: seq<Row>, i: nat, u: int)
    requires i <= |rows|
    ensures |Incident(rows[..i], u)| <= |Incident(rows, u)|
    decreases |rows| - i
  {
    if i < |rows| {
      IncidentNext(rows, i, u);
      IncidentGrows(rows, i + 1, u);
    } else {
      assert rows[..i] == rows;
    }
  }

  // ----- undirectedness -----

  lemma IncidentOccurs(rows: seq<Row>, u: int, v: int)
    requires rows != []
    ensures var last := rows[|rows| - 1];
      multiset(Incident(rows, u))[v] == multiset(Incident(rows[..|rows| - 1], u))[v]
        + (if last == Row(u, v) then 1 else 0) + (if last == Row(v, u) then 1 else 0)
  {
  }

  /** As often as `v` is listed at `u`, `u` is listed at `v`. */
  lemma {:induction false} IncidentSymmetric(rows: seq<Row>, u: int, v: int)
    ensures multiset(Incident(rows, u))[v] == multiset(Incident(rows, v))[u]
  {
    if rows != [] {
      hide Incident;
      IncidentSymmetric(rows[..|rows| - 1], u, v);
      IncidentOccurs(rows, u, v);
      IncidentOccurs(rows, v, u);
    }
  }

  /** The multiplicity itself: one per row joining `u` to `v`, and a self-loop counts twice. */
  ghost function Joins(rows: seq<Row>, u: int, v: int): nat {
    if rows == [] then 0 else
      var last := rows[|rows| - 1];
      Joins(rows[..|rows| - 1], u, v)
      + (if last == Row(u, v) then 1 else 0) + (if last == Row(v, u) then 1 else 0)
  }

  lemma {:induction false} IncidentCounts(rows: seq<Row>, u: int, v: int)
    ensures multiset(Incident(rows, u))[v] == Joins(rows, u, v)
  {
    if rows != [] {
      hide Incident;
      IncidentCounts(rows[..|rows| - 1], u, v);
      IncidentOccurs(rows, u, v);
    }
  }

  // ----- degrees and offsets -----

  /** The number of adjacency slots used by the nodes below `n`. */
  ghost function SlotsBelow(rows: seq<Row>, n: nat): nat {
    if n == 0 then 0 else SlotsBelow(rows, n - 1) + |Incident(rows, n - 1)|
  }

  lemma SlotsFirst(rows: seq<Row>)
    ensures SlotsBelow(rows, 0) == 0
  {
  }

  lemma SlotsNext(rows: seq<Row>, n: nat)
    ensures SlotsBelow(rows, n + 1) == SlotsBelow(rows, n) + |Incident(rows, n)|
  {
  }

  lemma {:induction false} SlotsOfNone(n: nat)
    ensures SlotsBelow([], n) == 0
  {
    if n > 0 { SlotsOfNone(n - 1); }
  }

  lemma {:induction false} SlotsOfLast(rows: seq<Row>, n: nat)
    requires rows != []
    ensures var last := rows[|rows| - 1];
      SlotsBelow(rows, n) == SlotsBelow(rows[..|rows| - 1], n)
        + (if 0 <= last.src < n then 1 else 0) + (if 0 <= last.dst < n then 1 else 0)
  {
    if n > 0 { SlotsOfLast(rows, n - 1); }
  }

  /** Every row fills two slots, so the offsets end at twice the edge count. */
  lemma {:induction false} TotalSlots(rows: seq<Row>, n: nat)
    requires forall i :: 0 <= i < |rows| ==> 0 <= rows[i].src < n && 0 <= rows[i].dst < n
    ensures SlotsBelow(rows, n) == 2 * |rows|
  {
    if rows == [] {
      SlotsOfNone(n);
    } else {
      SlotsOfLast(rows, n);
      TotalSlots(rows[..|rows| - 1], n);
    }
  }

  lemma {:induction false} SlotsMonotone(rows: seq<Row>, a: nat, b: nat)
    requires a <= b
    ensures SlotsBelow(rows, a) <= SlotsBelow(rows, b)
  {
    if a < b { SlotsMonotone(rows, a, b - 1); }
  }

  // ----- the cursor fill -----

  /** Node `u`'s list has been written from `offsets[u]` up to the cursor, which stays within its slots. */
  ghost predicate FilledAt(offsets: seq<nat>, cur: seq<nat>, adj: seq<nat>, lists: seq<seq<int>>, u: nat)
    requires u < |lists| && |offsets| == |cur| == |lists| + 1
  {
    && cur[u] == offsets[u] + |lists[u]|
    && cur[u] <= offsets[u + 1] <= |adj|
    && adj[offsets[u]..cur[u]] == lists[u]
  }

  ghost predicate Filled(offsets: seq<nat>, cur: seq<nat>, adj: seq<nat>, lists: seq<seq<int>>) {
    && |offsets| == |cur| == |lists| + 1
    && (forall u: nat :: u < |lists| ==> FilledAt(offsets, cur, adj, lists, u))
    && (forall u, w :: 0 <= u <= w < |offsets| ==> offsets[u] <= offsets[w])
  }

  /** `adj[cur[u]] = v; cur[u] += 1`: no slot is overwritten and no other node's slots are touched. */
  lemma FillOne(offsets: seq<nat>, cur: seq<nat>, adj: seq<nat>, lists: seq<seq<int>>, u: nat, v: nat)
    requires Filled(offsets, cur, adj, lists) && u < |lists|
    requires offsets[u] + |lists[u]| < offsets[u + 1]
    ensures cur[u] < |adj|
    ensures Filled(offsets, cur[u := cur[u] + 1], adj[cur[u] := v], lists[u := lists[u] + [v]])
  {
    assert FilledAt(offsets, cur, adj, lists, u);
    var cur', adj', lists' := cur[u := cur[u] + 1], adj[cur[u] := v], lists[u := lists[u] + [v]];
    forall w: nat | w < |lists| ensures FilledAt(offsets, cur', adj', lists', w) {
      assert FilledAt(offsets, cur, adj, lists, w);
      if w == u {
        assert adj'[offsets[u]..cur'[u]] == adj[offsets[u]..cur[u]] + [v];
      } else if w < u {
        assert offsets[w + 1] <= offsets[u] <= cur[u];
        assert adj'[offsets[w]..cur'[w]] == adj[offsets[w]..cur[w]];
      } else {
        assert cur[u] < offsets[u + 1] <= offsets[w];
        assert adj'[offsets[w]..cur'[w]] == adj[offsets[w]..cur[w]];
      }
    }
  }

  // ----- `build_csr` -----

  ghost function MaxNode(rows: seq<Row>): int {
    if rows == [] then -1 else
      var rest := MaxNode(rows[..|rows| - 1]);
      var last := rows[|rows| - 1];
      Max(Max(rest, last.src), last.dst)
  }

  function Max(a: int, b: int): int {
    if a < b then b else a
  }

  lemma {:induction false} MaxNodeBounds(rows: seq<Row>)
    ensures MaxNode(rows) >= -1
    ensures forall i :: 0 <= i < |rows| ==> rows[i].src <= MaxNode(rows) && rows[i].dst <= MaxNode(rows)
    ensures MaxNode(rows) == -1 || exists i :: 0 <= i < |rows| && MaxNode(rows) in {rows[i].src, rows[i].dst}
  {
    if rows != [] {
      var rest := rows[..|rows| - 1];
      MaxNodeBounds(rest);
      assert forall i :: 0 <= i < |rows| - 1 ==> rest[i] == rows[i];
    }
  }

  /** The scan loop: validates the rows in order and finds the largest node number. */
  method ScanRows(rows: seq<Row>) returns (maxn: int, bad: seq<Rejection>)
    ensures bad == [] ==> Accepted(rows) && maxn == MaxNode(rows)
    ensures bad != [] ==> exists i :: 0 <= i < |rows| && Accepted(rows[..i]) && Check(rows[i]) == bad
  {
    maxn := -1;
    for i := 0 to |rows|
      invariant Accepted(rows[..i]) && maxn == MaxNode(rows[..i])
    {
      bad := Check(rows[i]);
      if bad != [] {
        return;
      }
      assert rows[..i + 1][..i] == rows[..i];
      maxn := Max(Max(maxn, rows[i].src), rows[i].dst);
    }
    assert rows[..|rows|] == rows;
    bad := [];
  }

  method CountDegrees(rows: seq<Row>, nn: nat) returns (deg: array<nat>)
    requires forall i :: 0 <= i < |rows| ==> 0 <= rows[i].src < nn && 0 <= rows[i].dst < nn
    ensures fresh(deg) && deg.Length == nn + 1
    ensures forall u :: 0 <= u < nn ==> deg[u] == |Incident(rows, u)|
  {
    deg := new nat[nn + 1](_ => 0);
    for i := 0 to |rows|
      invariant forall u :: 0 <= u < nn ==> deg[u] == |Incident(rows[..i], u)|
    {
      forall u | 0 <= u < nn
        ensures |Incident(rows[..i + 1], u)| == |Incident(rows[..i], u)|
          + (if rows[i].src == u then 1 else 0) + (if rows[i].dst == u then 1 else 0)
      {
        IncidentNext(rows, i, u);
      }
      deg[rows[i].src] := deg[rows[i].src] + 1;
      deg[rows[i].dst] := deg[rows[i].dst] + 1;
    }
    assert rows[..|rows|] == rows;
  }

  method PrefixSums(deg: seq<nat>, nn: nat, ghost rows: seq<Row>) returns (offsets: array<nat>, acc: nat)
    requires |deg| == nn + 1
    requires forall u :: 0 <= u < nn ==> deg[u] == |Incident(rows, u)|
    ensures fresh(offsets) && offsets.Length == nn + 1
    ensures forall u :: 0 <= u <= nn ==> offsets[u] == SlotsBelow(rows, u)
    ensures acc == SlotsBelow(rows, nn)
  {
    hide Incident, SlotsBelow;
    offsets := new nat[nn + 1];
    acc := 0;
    SlotsFirst(rows);
    for i := 0 to nn
      invariant acc == SlotsBelow(rows, i)
      invariant forall u :: 0 <= u < i ==> offsets[u] == SlotsBelow(rows, u)
    {
      SlotsNext(rows, i);
      offsets[i] := acc;
      acc := acc + deg[i];
    }
    offsets[nn] := acc;
  }

  ghost function Lists(rows: seq<Row>, nn: nat): (r: seq<seq<int>>)
    ensures |r| == nn && forall u :: 0 <= u < nn ==> r[u] == Incident(rows, u)
  {
    seq(nn, u => Incident(rows, u))
  }

  lemma NothingFilled(rows: seq<Row>, nn: nat, offsets: seq<nat>, adj: seq<nat>)
    requires |offsets| == nn + 1 && forall u :: 0 <= u <= nn ==> offsets[u] == SlotsBelow(rows, u)
    requires |adj| == SlotsBelow(rows, nn)
    ensures Filled(offsets, offsets, adj, Lists([], nn))
  {
    forall u: nat | u < nn ensures FilledAt(offsets, offsets, adj, Lists([], nn), u) {
      SlotsMonotone(rows, u, u + 1);
      SlotsMonotone(rows, u + 1, nn);
    }
    forall u, w | 0 <= u <= w < |offsets| ensures offsets[u] <= offsets[w] {
      SlotsMonotone(rows, u, w);
    }
  }

  /** Both endpoints of row `i` still have room for what the row writes. */
  lemma RoomForRow(rows: seq<Row>, nn: nat, offsets: seq<nat>, i: nat)
    requires |offsets| == nn + 1 && forall u :: 0 <= u <= nn ==> offsets[u] == SlotsBelow(rows, u)
    requires i < |rows| && 0 <= rows[i].src < nn && 0 <= rows[i].dst < nn
    ensures var u, v := rows[i].src, rows[i].dst;
      && offsets[u] + |Incident(rows[..i], u)| + (if u == v then 2 else 1) <= offsets[u + 1]
      && offsets[v] + |Incident(rows[..i], v)| + (if u == v then 2 else 1) <= offsets[v + 1]
  {
    IncidentNext(rows, i, rows[i].src);
    IncidentNext(rows, i, rows[i].dst);
    IncidentGrows(rows, i + 1, rows[i].src);
    IncidentGrows(rows, i + 1, rows[i].dst);
  }

  method FillSlot(cur: array<nat>, adj: array<nat>, u: nat, v: nat,
                  ghost offsets: seq<nat>, ghost lists: seq<seq<int>>)
    requires cur != adj && Filled(offsets, cur[..], adj[..], lists) && u < |lists|
    requires offsets[u] + |lists[u]| < offsets[u + 1]
    modifies cur, adj
    ensures Filled(offsets, cur[..], adj[..], lists[u := lists[u] + [v]])
  {
    FillOne(offsets, cur[..], adj[..], lists, u, v);
    adj[cur[u]] := v;
    cur[u] := cur[u] + 1;
  }

  /** The two writes of one row. */
  method FillRow(rows: seq<Row>, i: nat, nn: nat, cur: array<nat>, adj: array<nat>, ghost offsets: seq<nat>)
    requires cur != adj && |offsets| == nn + 1 && i < |rows|
    requires 0 <= rows[i].src < nn && 0 <= rows[i].dst < nn
    requires forall u :: 0 <= u <= nn ==> offsets[u] == SlotsBelow(rows, u)
    requires Filled(offsets, cur[..], adj[..], Lists(rows[..i], nn))
    modifies cur, adj
    ensures Filled(offsets, cur[..], adj[..], Lists(rows[..i + 1], nn))
  {
    hide Filled, Incident, SlotsBelow;
    var u, v := rows[i].src, rows[i].dst;
    ghost var before := Lists(rows[..i], nn);
    RoomForRow(rows, nn, offsets, i);
    FillSlot(cur, adj, u, v, offsets, before);
    ghost var between := before[u := before[u] + [v]];
    FillSlot(cur, adj, v, u, offsets, between);
    ghost var after := between[v := between[v] + [u]];
    forall w {:trigger after[w]} | 0 <= w < nn ensures after[w] == Lists(rows[..i + 1], nn)[w] {
      IncidentNext(rows, i, w);
    }
    assert after == Lists(rows[..i + 1], nn);
  }

  method FillAdjacency(rows: seq<Row>, nn: nat, offsets: array<nat>, acc: nat)
    returns (adj: array<nat>, ghost cursors: seq<nat>)
    requires forall i :: 0 <= i < |rows| ==> 0 <= rows[i].src < nn && 0 <= rows[i].dst < nn
    requires offsets.Length == nn + 1 && forall u :: 0 <= u <= nn ==> offsets[u] == SlotsBelow(rows, u)
    requires acc == SlotsBelow(rows, nn)
    ensures adj.Length == acc
    ensures Filled(offsets[..], cursors, adj[..], Lists(rows, nn))
  {
    hide Filled, Incident, SlotsBelow;
    var cur := new nat[nn + 1];
    forall u | 0 <= u <= nn { cur[u] := offsets[u]; }
    adj := new nat[acc](_ => 0);
    ghost var start := offsets[..];
    assert cur[..] == start;
    NothingFilled(rows, nn, start, adj[..]);
    assert rows[..0] == [];
    for i := 0 to |rows|
      invariant offsets[..] == start
      invariant Filled(start, cur[..], adj[..], Lists(rows[..i], nn))
    {
      FillRow(rows, i, nn, cur, adj, start);
    }
    assert rows[..|rows|] == rows;
    cursors := cur[..];
  }

  /** What building promises about the adjacency of accepted rows. */
  ghost predicate Represents(c: Csr, rows: seq<Row>) {
    && c.nnodes == MaxNode(rows) + 1
    && c.InBounds()
    && c.offsets[0] == 0 && c.offsets[c.nnodes] == |c.adj| == 2 * |rows|
    && forall u :: 0 <= u < c.nnodes ==> c.Neighbours(u) == Incident(rows, u)
  }

  ghost predicate Slots(offsets: seq<nat>, adj: seq<nat>, u: nat, list: seq<int>) {
    && u + 1 < |offsets|
    && offsets[u] <= offsets[u + 1] <= |adj|
    && adj[offsets[u]..offsets[u + 1]] == list
  }

  /** When all rows are in, every cursor has reached the next node's offset. */
  lemma FilledUp(rows: seq<Row>, nn: nat, offsets: seq<nat>, cur: seq<nat>, adj: seq<nat>, u: nat)
    requires |offsets| == nn + 1 && forall u :: 0 <= u <= nn ==> offsets[u] == SlotsBelow(rows, u)
    requires Filled(offsets, cur, adj, Lists(rows, nn)) && u < nn
    ensures Slots(offsets, adj, u, Incident(rows, u))
  {
    hide Incident;
    assert FilledAt(offsets, cur, adj, Lists(rows, nn), u);
    assert SlotsBelow(rows, u + 1) == SlotsBelow(rows, u) + |Incident(rows, u)|;
  }

  lemma InSlots(offsets: seq<nat>, adj: seq<nat>, u: nat, list: seq<int>, k: nat)
    requires Slots(offsets, adj, u, list) && offsets[u] <= k < offsets[u + 1]
    ensures k < |adj| && adj[k] in list
  {
    assert list[k - offsets[u]] == adj[k];
  }

  lemma FilledInRange(rows: seq<Row>, nn: nat, offsets: seq<nat>, cur: seq<nat>, adj: seq<nat>, k: nat)
    requires forall i :: 0 <= i < |rows| ==> 0 <= rows[i].src < nn && 0 <= rows[i].dst < nn
    requires |offsets| == nn + 1 && forall u :: 0 <= u <= nn ==> offsets[u] == SlotsBelow(rows, u)
    requires Filled(offsets, cur, adj, Lists(rows, nn)) && k < |adj| == SlotsBelow(rows, nn)
    ensures adj[k] < nn
  {
    hide Incident, Filled, Slots, SlotsBelow;
    SlotsFirst(rows);
    var u := SlotOwner(offsets, nn, k);
    FilledUp(rows, nn, offsets, cur, adj, u);
    InSlots(offsets, adj, u, Incident(rows, u), k);
    IncidentInRange(rows, u, nn);
  }

  lemma SlotsAreNeighbours(c: Csr, lists: seq<seq<int>>)
    requires |c.offsets| == c.nnodes + 1 && |lists| == c.nnodes && c.offsets[c.nnodes] == |c.adj|
    requires forall u: nat :: u < c.nnodes ==> Slots(c.offsets, c.adj, u, lists[u])
    requires forall k :: 0 <= k < |c.adj| ==> c.adj[k] < c.nnodes
    ensures c.InBounds() && forall u :: 0 <= u < c.nnodes ==> c.Neighbours(u) == lists[u]
  {
    forall u | 0 <= u < c.nnodes ensures c.offsets[u] <= c.offsets[u + 1] && c.offsets[u] <= |c.adj| {
      assert Slots(c.offsets, c.adj, u, lists[u]);
    }
    forall u | 0 <= u < c.nnodes ensures c.Neighbours(u) == lists[u] {
      assert Slots(c.offsets, c.adj, u, lists[u]);
    }
  }

  lemma FilledSlots(rows: seq<Row>, nn: nat, offsets: seq<nat>, cur: seq<nat>, adj: seq<nat>)
    requires forall i :: 0 <= i < |rows| ==> 0 <= rows[i].src < nn && 0 <= rows[i].dst < nn
    requires |offsets| == nn + 1 && forall u :: 0 <= u <= nn ==> offsets[u] == SlotsBelow(rows, u)
    requires Filled(offsets, cur, adj, Lists(rows, nn)) && |adj| == SlotsBelow(rows, nn)
    ensures forall u: nat :: u < nn ==> Slots(offsets, adj, u, Lists(rows, nn)[u])
    ensures forall k :: 0 <= k < |adj| ==> adj[k] < nn
  {
    hide Incident, Filled, SlotsBelow, Slots;
    forall u: nat | u < nn ensures Slots(offsets, adj, u, Lists(rows, nn)[u]) {
      FilledUp(rows, nn, offsets, cur, adj, u);
    }
    forall k | 0 <= k < |adj| ensures adj[k] < nn {
      FilledInRange(rows, nn, offsets, cur, adj, k);
    }
  }

  lemma FilledRepresents(rows: seq<Row>, nn: nat, offsets: seq<nat>, cur: seq<nat>, adj: seq<nat>)
    requires Accepted(rows) && nn == MaxNode(rows) + 1
    requires |offsets| == nn + 1 && forall u :: 0 <= u <= nn ==> offsets[u] == SlotsBelow(rows, u)
    requires Filled(offsets, cur, adj, Lists(rows, nn)) && |adj| == SlotsBelow(rows, nn)
    ensures Represents(Csr(nn, offsets, adj), rows)
  {
    hide Incident, Filled, MaxNode, SlotsBelow, Slots, Accepted, Csr.InBounds, Csr.Neighbours;
    AcceptedInRange(rows);
    SlotsFirst(rows);
    assert |adj| == 2 * |rows| by { TotalSlots(rows, nn); }
    var c := Csr(nn, offsets, adj);
    assert c.InBounds() && forall u :: 0 <= u < nn ==> c.Neighbours(u) == Lists(rows, nn)[u] by {
      FilledSlots(rows, nn, offsets, cur, adj);
      SlotsAreNeighbours(c, Lists(rows, nn));
    }
  }

  lemma AcceptedInRange(rows: seq<Row>)
    requires Accepted(rows)
    ensures forall i :: 0 <= i < |rows| ==> 0 <= rows[i].src <= MaxNode(rows) && 0 <= rows[i].dst <= MaxNode(rows)
  {
    MaxNodeBounds(rows);
    assert forall i :: 0 <= i < |rows| ==> Check(rows[i]) == [];
  }

  /** Every slot lies between the offsets of exactly one node. */
  lemma {:induction false} SlotOwner(offsets: seq<nat>, n: nat, k: nat) returns (u: nat)
    requires n < |offsets| && offsets[0] == 0 && k < offsets[n]
    ensures u < n && offsets[u] <= k < offsets[u + 1]
  {
    if offsets[n - 1] <= k {
      u := n - 1;
    } else {
      u := SlotOwner(offsets, n - 1, k);
    }
  }

  lemma {:induction false} IncidentInRange(rows: seq<Row>, u: int, nn: nat)
    requires forall i :: 0 <= i < |rows| ==> 0 <= rows[i].src < nn && 0 <= rows[i].dst < nn
    ensures forall v :: v in Incident(rows, u) ==> 0 <= v < nn
  {
    if rows != [] { IncidentInRange(rows[..|rows| - 1], u, nn); }
  }

  /** A negative identifier is reported before a too large one. */
  lemma RejectionReason(row: Row)
    ensures Check(row) == [NegativeId] <==> row.src < 0 || row.dst < 0
    ensures Check(row) == [IdTooLarge] <==> row.src >= 0 && row.dst >= 0 && (row.src > 4294967295 || row.dst > 4294967295)
  {
  }

  /** Rows are accepted exactly when every identifier is an unsigned 32-bit number. */
  lemma AcceptedIff(rows: seq<Row>)
    ensures Accepted(rows) <==>
      forall i :: 0 <= i < |rows| ==> 0 <= rows[i].src <= 4294967295 && 0 <= rows[i].dst <= 4294967295
  {
    if Accepted(rows) {
      forall i | 0 <= i < |rows| ensures 0 <= rows[i].src <= 4294967295 && 0 <= rows[i].dst <= 4294967295 {
        assert Check(rows[i]) == [];
      }
    }
  }

  method BuildCsr(rows: seq<Row>) returns (r: Built)
    ensures r.Built? <==> Accepted(rows)
    ensures r.Built? <==> forall i :: 0 <= i < |rows| ==> 0 <= rows[i].src <= 4294967295 && 0 <= rows[i].dst <= 4294967295
    ensures r.Built? ==> Represents(r.csr, rows)
    ensures r.Rejected? ==> exists i :: 0 <= i < |rows| && Accepted(rows[..i]) && Check(rows[i]) == [r.why]
  {
    hide Represents, Filled, Incident, SlotsBelow;
    AcceptedIff(rows);
    var maxn, bad := ScanRows(rows);
    if bad != [] {
      return Rejected(bad[0]);
    }
    MaxNodeBounds(rows);
    assert forall i :: 0 <= i < |rows| ==> Check(rows[i]) == [];
    var nn := maxn + 1;
    var deg := CountDegrees(rows, nn);
    var offsets, acc := PrefixSums(deg[..], nn, rows);
    var adj, cursors := FillAdjacency(rows, nn, offsets, acc);
    FilledRepresents(rows, nn, offsets[..], cursors, adj[..]);
    r := Built(Csr(nn, offsets[..], adj[..]));
  }

  /** The graph that is built is undirected: as often as `v` neighbours `u`, `u` neighbours `v`. */
  lemma BuiltIsSymmetric(c: Csr, rows: seq<Row>, u: nat, v: nat)
    requires Represents(c, rows) && u < c.nnodes && v < c.nnodes
    ensures multiset(c.Neighbours(u))[v] == multiset(c.Neighbours(v))[u] == Joins(rows, u, v)
  {
    IncidentSymmetric(rows, u, v);
    IncidentCounts(rows, u, v);
    assert c.Neighbours(u) == Incident(rows, u) && c.Neighbours(v) == Incident(rows, v);
  }
}

/** Bounded path patterns such as `-[e*1..3]-`: parsing the hop bounds and matching by a difference of two
    searches. */
module PathPattern {
  import opened Graph
  import opened Adjacency

  const I32_MAX: int := 2147483647

  datatype Bounds = Bounds(lo: int, hi: int) | BadMin | BadMax | BadCount | BadRange

  predicate IsDigit(ch: char) {
    '0' <= ch <= '9'
  }

  function Find(s: string, ch: char): (i: nat)
    ensures i <= |s| && (i < |s| ==> s[i] == ch) && ch !in s[..i]
  {
    if s == [] || s[0] == ch then 0 else 1 + Find(s[1..], ch)
  }

  /** The quantifier token: the longest prefix of digits and dots. */
  function Token(s: string): string {
    if s == [] || !(IsDigit(s[0]) || s[0] == '.') then [] else [s[0]] + Token(s[1..])
  }

  /** The position of the first `..`, or the length when there is none. */
  function FindDots(s: string): (i: nat)
    ensures i <= |s| && (i < |s| ==> i + 1 < |s| && s[i] == s[i + 1] == '.')
  {
    if |s| < 2 then |s|
    else if s[0] == s[1] == '.' then 0
    else 1 + FindDots(s[1..])
  }

  function Number(s: string): int
    requires forall i :: 0 <= i < |s| ==> IsDigit(s[i])
  {
    if s == [] then 0 else Number(s[..|s| - 1]) * 10 + (s[|s| - 1] as int - '0' as int)
  }

  /** `parse::<i32>()` of a token: `[]` when it is not a number or does not fit. */
  function ParseI32(s: string): (r: seq<int>)
    ensures |r| <= 1
  {
    if s == [] || exists i :: 0 <= i < |s| && !IsDigit(s[i]) then []
    else if Number(s) > I32_MAX then [] else [Number(s)]
  }

  function ParseHopBounds(pattern: string, defaultMax: int): Bounds {
    var star := Find(pattern, '*');
    if star == |pattern| then Bounds(1, 1) else
      var rest := Token(pattern[star + 1..]);
      if rest == [] then Bounds(1, defaultMax) else
        var dots := FindDots(rest);
        if dots == |rest| then
          var exact := ParseI32(rest);
          if exact == [] then BadCount else Bounds(exact[0], exact[0])
        else
          var a, b := rest[..dots], rest[dots + 2..];
          var lo := if a == [] then [1] else ParseI32(a);
          var hi := if b == [] then [defaultMax] else ParseI32(b);
          if lo == [] then BadMin
          else if hi == [] then BadMax
          else if lo[0] < 0 || hi[0] < lo[0] then BadRange
          else Bounds(lo[0], hi[0])
  }

  lemma {:induction false} NumberNonNegative(s: string)
    requires forall i :: 0 <= i < |s| ==> IsDigit(s[i])
    ensures Number(s) >= 0
  {
    if s != [] { NumberNonNegative(s[..|s| - 1]); }
  }

  /** Accepted bounds are a range, except that a pattern with a bare star takes the caller's maximum unchecked
      and may then denote no hop count at all. */
  lemma BoundsAreARange(pattern: string, defaultMax: int)
    ensures var r := ParseHopBounds(pattern, defaultMax);
      r.Bounds? ==> 0 <= r.lo && (r.lo <= r.hi || (r.lo == 1 && r.hi == defaultMax < 1))
  {
    var star := Find(pattern, '*');
    if star < |pattern| {
      var rest := Token(pattern[star + 1..]);
      if FindDots(rest) == |rest| && ParseI32(rest) != [] {
        NumberNonNegative(rest);
      }
    }
  }

  /** The pattern has a star with no bounds after it. */
  predicate HasBareStar(pattern: string) {
    Find(pattern, '*') < |pattern| && Token(pattern[Find(pattern, '*') + 1..]) == []
  }

  /** The accepted bounds are no range exactly when the star is bare and the caller's maximum is below one hop. */
  lemma RangeIsEmptyIff(pattern: string, defaultMax: int)
    ensures var r := ParseHopBounds(pattern, defaultMax);
      r.Bounds? && r.hi < r.lo <==> HasBareStar(pattern) && defaultMax < 1
  {
    BoundsAreARange(pattern, defaultMax);
  }

  /** A bare star with a maximum of zero is accepted, as the range from 1 to 0. */
  lemma BareStarMayBeEmpty()
    ensures ParseHopBounds("*", 0) == Bounds(1, 0)
  {
    assert Find("*", '*') == 0 && "*"[1..] == [];
  }

  // ----- distances -----

  /** The nearest valid seed is exactly `d` hops away. */
  ghost predicate AtDistance(g: Graph, seeds: seq<int>, v: int, d: nat) {
    v in Ball(g, seeds, d) && (d > 0 ==> v !in Ball(g, seeds, d - 1))
  }

  /** A node has at most one distance. */
  lemma DistanceUnique(g: Graph, seeds: seq<int>, v: int, d: nat, e: nat)
    requires AtDistance(g, seeds, v, d) && AtDistance(g, seeds, v, e)
    ensures d == e
  {
    if d < e { BallGrows(g, seeds, d, e - 1); }
    if e < d { BallGrows(g, seeds, e, d - 1); }
  }

  lemma {:induction false} HasDistance(g: Graph, seeds: seq<int>, v: int, h: nat) returns (d: nat)
    requires v in Ball(g, seeds, h)
    ensures d <= h && AtDistance(g, seeds, v, d)
  {
    if h > 0 && v in Ball(g, seeds, h - 1) {
      d := HasDistance(g, seeds, v, h - 1);
    } else {
      d := h;
    }
  }

  ghost predicate InShell(g: Graph, seeds: seq<int>, lo: int, hi: int, v: int) {
    exists d: nat :: lo <= d <= hi && AtDistance(g, seeds, v, d)
  }

  /** Removing the nearer ball leaves exactly the nodes whose distance lies in the range. */
  lemma BallDifferenceIsShell(g: Graph, seeds: seq<int>, lo: nat, hi: int, v: int)
    requires lo <= hi || lo > 0
    ensures v in Ball(g, seeds, Hops(hi)) && (lo > 0 ==> v !in Ball(g, seeds, lo - 1))
       <==> InShell(g, seeds, lo, hi, v)
  {
    hide Ball;
    if v in Ball(g, seeds, Hops(hi)) && (lo > 0 ==> v !in Ball(g, seeds, lo - 1)) {
      var d := HasDistance(g, seeds, v, Hops(hi));
      if d < lo { BallGrows(g, seeds, d, lo - 1); }
    }
    if InShell(g, seeds, lo, hi, v) {
      var d: nat :| lo <= d <= hi && AtDistance(g, seeds, v, d);
      BallGrows(g, seeds, d, hi);
      if lo > 0 && v in Ball(g, seeds, lo - 1) {
        BallGrows(g, seeds, lo - 1, d - 1);
      }
    }
  }

  /** Adjacent ranges split the nodes of the joint range between them. */
  lemma ShellsPartition(g: Graph, seeds: seq<int>, lo: nat, mid: int, hi: int, v: int)
    requires lo <= mid + 1 && mid <= hi
    ensures InShell(g, seeds, lo, hi, v)
       <==> InShell(g, seeds, lo, mid, v) || InShell(g, seeds, mid + 1, hi, v)
    ensures !(InShell(g, seeds, lo, mid, v) && InShell(g, seeds, mid + 1, hi, v))
  {
    if InShell(g, seeds, lo, mid, v) && InShell(g, seeds, mid + 1, hi, v) {
      var d: nat :| lo <= d <= mid && AtDistance(g, seeds, v, d);
      var e: nat :| mid + 1 <= e <= hi && AtDistance(g, seeds, v, e);
      DistanceUnique(g, seeds, v, d, e);
    }
  }

  datatype Matched = Matched(nodes: seq<int>) | Invalid(why: Bounds)

  function ToSet(s: seq<int>): set<int> {
    set v | v in s
  }

  /** The bindings of a pattern, ascending: exactly the nodes whose distance is within the parsed bounds. */
  method PgqMatch(c: Csr, ids: seq<int>, pattern: string, defaultMax: int) returns (r: Matched)
    requires c.InBounds()
    ensures r.Invalid? <==> !ParseHopBounds(pattern, defaultMax).Bounds?
    ensures r.Matched? ==>
      var b := ParseHopBounds(pattern, defaultMax);
      && (forall v :: v in r.nodes <==> InShell(c.Lists(), ids, b.lo, b.hi, v))
      && (forall i, j :: 0 <= i < j < |r.nodes| ==> r.nodes[i] < r.nodes[j])
  {
    hide Ball, InShell;
    BoundsAreARange(pattern, defaultMax);
    var bounds := ParseHopBounds(pattern, defaultMax);
    if !bounds.Bounds? {
      return Invalid(bounds);
    }
    ghost var g := c.Lists();
    var withinHi := Expand(c, ids, bounds.hi);
    var excluded := [];
    if bounds.lo > 0 {
      excluded := Expand(c, ids, bounds.lo - 1);
      AscendingMembers(Ball(g, ids, Hops(bounds.lo - 1)), c.nnodes);
      BallInNodes(g, ids, bounds.lo - 1);
    }
    AscendingMembers(Ball(g, ids, Hops(bounds.hi)), c.nnodes);
    BallInNodes(g, ids, Hops(bounds.hi));
    var out := Ascending(ToSet(withinHi) - ToSet(excluded), c.nnodes);
    AscendingMembers(ToSet(withinHi) - ToSet(excluded), c.nnodes);
    AscendingSorted(ToSet(withinHi) - ToSet(excluded), c.nnodes);
    forall v ensures v in out <==> InShell(g, ids, bounds.lo, bounds.hi, v) {
      BallDifferenceIsShell(g, ids, bounds.lo, bounds.hi, v);
    }
    r := Matched(out);
  }
}

/** The quantifier grammar of path patterns, form by form, and what each form matches. */
module PatternGrammar {
  import opened Graph
  import opened Adjacency
  import opened PathPattern

  // ----- numerals -----

  function Digit(d: nat): char
    requires d < 10
  {
    ('0' as int + d) as char
  }

  /** The decimal numeral of a number. */
  function Numeral(n: nat): (s: string)
    ensures s != []
  {
    if n < 10 then [Digit(n)] else Numeral(n / 10) + [Digit(n % 10)]
  }

  predicate AllDigits(s: string) {
    forall i :: 0 <= i < |s| ==> IsDigit(s[i])
  }

  lemma {:induction false} NumeralReads(n: nat)
    ensures AllDigits(Numeral(n)) && Number(Numeral(n)) == n
  {
    var s := Numeral(n);
    if n < 10 {
      assert s[..0] == [] && Number(s[..0]) == 0;
    } else {
      NumeralReads(n / 10);
      assert s[..|s| - 1] == Numeral(n / 10);
    }
  }

  /** A decimal numeral parses as its number, when that fits 32 bits. */
  lemma NumeralParses(n: nat)
    ensures ParseI32(Numeral(n)) == if n <= 2147483647 then [n] else []
  {
    NumeralReads(n);
  }

  // ----- finding the quantifier -----

  predicate InToken(ch: char) {
    IsDigit(ch) || ch == '.'
  }

  /** The quantifier is over: nothing follows, or neither a digit nor a dot. */
  predicate Ends(tail: string) {
    tail == [] || !InToken(tail[0])
  }

  lemma {:induction false} StarFound(pre: string, rest: string)
    requires '*' !in pre
    ensures Find(pre + "*" + rest, '*') == |pre| && (pre + "*" + rest)[|pre| + 1..] == rest
  {
    var s := pre + "*" + rest;
    if pre != [] {
      StarFound(pre[1..], rest);
      assert s[1..] == pre[1..] + "*" + rest;
    }
  }

  lemma {:induction false} NoStarFound(s: string)
    requires '*' !in s
    ensures Find(s, '*') == |s|
  {
    if s != [] { NoStarFound(s[1..]); }
  }

  lemma {:induction false} TokenIs(token: string, tail: string)
    requires (forall i :: 0 <= i < |token| ==> InToken(token[i])) && Ends(tail)
    ensures Token(token + tail) == token
  {
    if token == [] {
      assert token + tail == tail;
    } else {
      TokenIs(token[1..], tail);
      assert (token + tail)[1..] == token[1..] + tail && token == [token[0]] + token[1..];
    }
  }

  lemma {:induction false} DotsAfter(a: string, b: string)
    requires AllDigits(a)
    ensures FindDots(a + ".." + b) == |a|
  {
    var s := a + ".." + b;
    if a != [] {
      DotsAfter(a[1..], b);
      assert s[1..] == a[1..] + ".." + b && s[0] == a[0];
    }
  }

  lemma {:induction false} NoDots(a: string)
    requires AllDigits(a)
    ensures FindDots(a) == |a|
  {
    if |a| >= 2 { NoDots(a[1..]); }
  }

  /** The star and its token, whatever stands before and after. */
  lemma TokenRead(pre: string, token: string, tail: string)
    requires '*' !in pre && (forall i :: 0 <= i < |token| ==> InToken(token[i])) && Ends(tail)
    ensures var p := pre + "*" + token + tail;
      Find(p, '*') == |pre| < |p| && Token(p[|pre| + 1..]) == token
  {
    StarFound(pre, token + tail);
    TokenIs(token, tail);
    assert pre + "*" + token + tail == pre + "*" + (token + tail);
  }

  lemma RangeRead(a: string, b: string)
    requires AllDigits(a) && AllDigits(b)
    ensures var token := a + ".." + b;
      && (forall i :: 0 <= i < |token| ==> InToken(token[i]))
      && FindDots(token) == |a| < |token| && token[..|a|] == a && token[|a| + 2..] == b
  {
    DotsAfter(a, b);
  }

  // ----- the forms -----

  /** Without a star: one edge. */
  lemma PlainEdge(pattern: string, defaultMax: int)
    requires '*' !in pattern
    ensures ParseHopBounds(pattern, defaultMax) == Bounds(1, 1)
  {
    NoStarFound(pattern);
  }

  /** `*`: from one to the default. */
  lemma BareStar(pre: string, tail: string, defaultMax: int)
    requires '*' !in pre && Ends(tail)
    ensures ParseHopBounds(pre + "*" + tail, defaultMax) == Bounds(1, defaultMax)
  {
    TokenRead(pre, [], tail);
    assert pre + "*" + [] + tail == pre + "*" + tail;
  }

  /** `*N`: exactly N. */
  lemma StarCount(pre: string, n: nat, tail: string, defaultMax: int)
    requires '*' !in pre && Ends(tail)
    ensures ParseHopBounds(pre + "*" + Numeral(n) + tail, defaultMax) ==
      if n <= 2147483647 then Bounds(n, n) else BadCount
  {
    hide Find, Token, FindDots, ParseI32;
    NumeralReads(n);
    TokenRead(pre, Numeral(n), tail);
    NoDots(Numeral(n));
    NumeralParses(n);
  }

  /** `*A..B`: from A to B, unless a number is too large or the range is empty. */
  lemma StarRange(pre: string, a: nat, b: nat, tail: string, defaultMax: int)
    requires '*' !in pre && Ends(tail)
    ensures ParseHopBounds(pre + "*" + (Numeral(a) + ".." + Numeral(b)) + tail, defaultMax) ==
      if a > 2147483647 then BadMin else if b > 2147483647 then BadMax else if b < a then BadRange else Bounds(a, b)
  {
    hide Find, Token, FindDots, ParseI32, Numeral, AllDigits, InToken;
    NumeralReads(a);
    NumeralReads(b);
    RangeRead(Numeral(a), Numeral(b));
    TokenRead(pre, Numeral(a) + ".." + Numeral(b), tail);
    NumeralParses(a);
    NumeralParses(b);
  }

  /** `*..B`: from one to B. */
  lemma StarUpTo(pre: string, b: nat, tail: string, defaultMax: int)
    requires '*' !in pre && Ends(tail)
    ensures ParseHopBounds(pre + "*" + ([] + ".." + Numeral(b)) + tail, defaultMax) ==
      if b > 2147483647 then BadMax else if b < 1 then BadRange else Bounds(1, b)
  {
    hide Find, Token, FindDots, ParseI32;
    NumeralReads(b);
    RangeRead([], Numeral(b));
    TokenRead(pre, [] + ".." + Numeral(b), tail);
    NumeralParses(b);
  }

  /** `*A..`: from A to the default. */
  lemma StarFrom(pre: string, a: nat, tail: string, defaultMax: int)
    requires '*' !in pre && Ends(tail)
    ensures ParseHopBounds(pre + "*" + (Numeral(a) + ".." + []) + tail, defaultMax) ==
      if a > 2147483647 then BadMin else if defaultMax < a then BadRange else Bounds(a, defaultMax)
  {
    hide Find, Token, FindDots, ParseI32;
    NumeralReads(a);
    RangeRead(Numeral(a), []);
    TokenRead(pre, Numeral(a) + ".." + [], tail);
    NumeralParses(a);
  }

  // ----- what the forms match -----

  /** A node's distance is the length of the shortest walk to it from a valid seed. */
  lemma DistanceIsShortestWalk(g: Graph, seeds: seq<int>, v: int, d: nat)
    ensures AtDistance(g, seeds, v, d) <==>
      WithinHops(g, seeds, d, v) && forall e: nat :: e < d ==> !WithinHops(g, seeds, e, v)
  {
    hide WithinHops, Ball;
    BallIsWithinHops(g, seeds, d, v);
    if AtDistance(g, seeds, v, d) {
      forall e: nat | e < d ensures !WithinHops(g, seeds, e, v) {
        BallIsWithinHops(g, seeds, e, v);
        BallGrows(g, seeds, e, d - 1);
      }
    } else if d > 0 {
      BallIsWithinHops(g, seeds, d - 1, v);
    }
  }

  /** `*N` binds exactly the nodes at distance N. */
  method MatchCount(c: Csr, ids: seq<int>, pre: string, n: nat, tail: string, defaultMax: int) returns (r: Matched)
    requires c.InBounds() && '*' !in pre && Ends(tail) && n <= 2147483647
    ensures r.Matched? && forall v :: v in r.nodes <==> AtDistance(c.Lists(), ids, v, n)
  {
    hide AtDistance, ParseHopBounds;
    StarCount(pre, n, tail, defaultMax);
    r := PgqMatch(c, ids, pre + "*" + Numeral(n) + tail, defaultMax);
  }

  /** `*A..B` binds exactly the nodes at a distance from A to B. */
  method MatchRange(c: Csr, ids: seq<int>, pre: string, a: nat, b: nat, tail: string, defaultMax: int)
    returns (r: Matched)
    requires c.InBounds() && '*' !in pre && Ends(tail) && a <= b <= 2147483647
    ensures r.Matched? && forall v :: v in r.nodes <==> exists d: nat :: a <= d <= b && AtDistance(c.Lists(), ids, v, d)
  {
    hide AtDistance, ParseHopBounds;
    StarRange(pre, a, b, tail, defaultMax);
    r := PgqMatch(c, ids, pre + "*" + (Numeral(a) + ".." + Numeral(b)) + tail, defaultMax);
  }

  /** Without a star the pattern binds the direct neighbours of the seeds that are no seeds themselves. */
  method MatchEdge(c: Csr, ids: seq<int>, pattern: string, defaultMax: int) returns (r: Matched)
    requires c.InBounds() && '*' !in pattern
    ensures r.Matched? && forall v :: v in r.nodes <==>
      v !in Seeds(c.Lists(), ids) && exists u :: u in Seeds(c.Lists(), ids) && Edge(c.Lists(), u, v)
  {
    hide ParseHopBounds;
    PlainEdge(pattern, defaultMax);
    r := PgqMatch(c, ids, pattern, defaultMax);
    ghost var g := c.Lists();
    forall v ensures AtDistance(g, ids, v, 1) <==>
        v !in Seeds(g, ids) && exists u :: u in Seeds(g, ids) && Edge(g, u, v)
    {
      assert Ball(g, ids, 1) == Seeds(g, ids) + Step(g, Seeds(g, ids));
    }
    forall v ensures v in r.nodes <==> AtDistance(g, ids, v, 1) {
    }
  }
}

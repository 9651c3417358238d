/** Packing atoms of text greedily into chunks that carry some trailing atoms over, and the chunking strategies. */
module Chunking {
  import opened TextChunks

  // ----- packing -----

  /** The length of the texts joined by one space. */
  function Total(v: seq<Text>): nat {
    if v == [] then 0 else if |v| == 1 then |v[0]| else |v[0]| + 1 + Total(v[1..])
  }

  function Join(v: seq<Text>): (t: Text)
    ensures |t| == Total(v)
  {
    if v == [] then [] else if |v| == 1 then v[0] else v[0] + " " + Join(v[1..])
  }

  lemma {:induction false} TotalSnoc(v: seq<Text>, a: Text)
    ensures Total(v + [a]) == if v == [] then |a| else Total(v) + 1 + |a|
  {
    if v == [] {
      assert v + [a] == [a];
    } else {
      assert (v + [a])[1..] == v[1..] + [a];
      TotalSnoc(v[1..], a);
    }
  }

  /** Atoms lo up to hi. */
  datatype Range = Range(lo: nat, hi: nat)

  /** Drop leading atoms until the rest of the closed chunk fits in the overlap. */
  function Carry(atoms: seq<Text>, overlap: nat, lo: nat, i: nat): (r: nat)
    requires lo <= i <= |atoms|
    ensures lo <= r <= i && Total(atoms[r..i]) <= overlap
    ensures r == lo || Total(atoms[r - 1..i]) > overlap
    decreases i - lo
  {
    if Total(atoms[lo..i]) > overlap && lo < i then Carry(atoms, overlap, lo + 1, i) else lo
  }

  predicate Closes(atoms: seq<Text>, size: nat, lo: nat, i: nat)
    requires lo <= i < |atoms|
  {
    lo < i && Total(atoms[lo..i]) + |atoms[i]| + 1 > size
  }

  /** The chunks still to be closed, with atoms lo up to i in the open one. */
  function Pack(atoms: seq<Text>, size: nat, overlap: nat, lo: nat, i: nat): (rs: seq<Range>)
    requires lo <= i <= |atoms|
    ensures forall k :: 0 <= k < |rs| ==> rs[k].lo < rs[k].hi <= |atoms|
    decreases |atoms| - i
  {
    if i == |atoms| then (if lo < i then [Range(lo, i)] else [])
    else if Closes(atoms, size, lo, i) then
      [Range(lo, i)] + Pack(atoms, size, overlap, Carry(atoms, overlap, lo, i), i + 1)
    else Pack(atoms, size, overlap, lo, i + 1)
  }

  function Joined(atoms: seq<Text>, rs: seq<Range>): (ts: seq<Text>)
    requires forall k :: 0 <= k < |rs| ==> rs[k].lo < rs[k].hi <= |atoms|
    ensures |ts| == |rs| && forall k :: 0 <= k < |rs| ==> ts[k] == Join(atoms[rs[k].lo..rs[k].hi])
  {
    if rs == [] then [] else [Join(atoms[rs[0].lo..rs[0].hi])] + Joined(atoms, rs[1..])
  }

  /** Carry overlap: remove leading atoms until the retained tail fits. */
  method CarryOver(open: seq<Text>, overlap: nat, ghost atoms: seq<Text>, ghost lo: nat, ghost i: nat)
    returns (cur: seq<Text>)
    requires lo <= i <= |atoms| && open == atoms[lo..i]
    ensures cur == atoms[Carry(atoms, overlap, lo, i)..i]
  {
    hide Total;
    cur := open;
    ghost var from := lo;
    while Total(cur) > overlap && cur != []
      invariant lo <= from <= i && cur == atoms[from..i]
      invariant Carry(atoms, overlap, from, i) == Carry(atoms, overlap, lo, i)
      decreases |cur|
    {
      cur := cur[1..];
      from := from + 1;
    }
  }

  method PackWithOverlap(atoms: seq<Text>, size: nat, overlap: nat) returns (chunks: seq<Text>)
    ensures chunks == Joined(atoms, Pack(atoms, size, overlap, 0, 0))
  {
    hide Total, Carry, Join, Joined, Pack;
    chunks := [];
    var cur := [];
    ghost var lo := 0;
    for i := 0 to |atoms|
      invariant 0 <= lo <= i && cur == atoms[lo..i]
      invariant chunks + Joined(atoms, Pack(atoms, size, overlap, lo, i)) == Joined(atoms, Pack(atoms, size, overlap, 0, 0))
    {
      PackStep(atoms, size, overlap, lo, i, chunks);
      var add := if cur == [] then |atoms[i]| else |atoms[i]| + 1;
      if Total(cur) + add > size && cur != [] {
        chunks := chunks + [Join(cur)];
        cur := CarryOver(cur, overlap, atoms, lo, i);
        lo := Carry(atoms, overlap, lo, i);
      }
      cur := cur + [atoms[i]];
    }
    PackEnd(atoms, size, overlap, lo);
    assert cur == atoms[lo..];
    if cur != [] {
      chunks := chunks + [Join(cur)];
    } else {
      assert chunks + [] == chunks;
    }
  }

  lemma PackStep(atoms: seq<Text>, size: nat, overlap: nat, lo: nat, i: nat, done: seq<Text>)
    requires lo <= i < |atoms|
    ensures var next := Carry(atoms, overlap, lo, i);
      var now, rest := Pack(atoms, size, overlap, lo, i), Pack(atoms, size, overlap, next, i + 1);
      if Closes(atoms, size, lo, i) then
        now == [Range(lo, i)] + rest
        && done + Joined(atoms, now) == (done + [Join(atoms[lo..i])]) + Joined(atoms, rest)
      else now == Pack(atoms, size, overlap, lo, i + 1)
  {
    hide Total, Carry, Join, Joined;
    if Closes(atoms, size, lo, i) {
      var now, rest := Pack(atoms, size, overlap, lo, i), Pack(atoms, size, overlap, Carry(atoms, overlap, lo, i), i + 1);
      JoinedCons(atoms, Range(lo, i), rest);
      Assoc(done, [Join(atoms[lo..i])], Joined(atoms, rest));
    }
  }

  lemma PackEnd(atoms: seq<Text>, size: nat, overlap: nat, lo: nat)
    requires lo <= |atoms|
    ensures Joined(atoms, Pack(atoms, size, overlap, lo, |atoms|)) == if lo < |atoms| then [Join(atoms[lo..])] else []
  {
    hide Total, Join;
    assert atoms[lo..|atoms|] == atoms[lo..];
    if lo < |atoms| { JoinedCons(atoms, Range(lo, |atoms|), []); }
  }

  lemma JoinedCons(atoms: seq<Text>, r: Range, rs: seq<Range>)
    requires r.lo < r.hi <= |atoms| && forall k :: 0 <= k < |rs| ==> rs[k].lo < rs[k].hi <= |atoms|
    ensures Joined(atoms, [r] + rs) == [Join(atoms[r.lo..r.hi])] + Joined(atoms, rs)
  {
    assert ([r] + rs)[1..] == rs;
  }

  /** Chunk b follows chunk a: it opens with a suffix of a's atoms, the longest that fits in the overlap, and goes on
      with the atom that would not have fitted in a. */
  ghost predicate Follows(atoms: seq<Text>, size: nat, overlap: nat, a: Range, b: Range)
    requires a.lo < a.hi <= |atoms| && b.lo < b.hi <= |atoms|
  {
    && a.lo <= b.lo <= a.hi < b.hi
    && Total(atoms[b.lo..a.hi]) <= overlap
    && (b.lo == a.lo || Total(atoms[b.lo - 1..a.hi]) > overlap)
    && Total(atoms[a.lo..a.hi]) + 1 + |atoms[a.hi]| > size
  }

  lemma {:induction false} PackEnds(atoms: seq<Text>, size: nat, overlap: nat, lo: nat, i: nat)
    requires lo <= i <= |atoms| && lo < |atoms|
    ensures var rs := Pack(atoms, size, overlap, lo, i);
      |rs| > 0 && rs[0].lo == lo && rs[0].hi >= i && rs[|rs| - 1].hi == |atoms|
    decreases |atoms| - i
  {
    hide Closes, Carry;
    if i < |atoms| {
      PackEnds(atoms, size, overlap, if Closes(atoms, size, lo, i) then Carry(atoms, overlap, lo, i) else lo, i + 1);
    }
  }

  lemma {:induction false} PackFollows(atoms: seq<Text>, size: nat, overlap: nat, lo: nat, i: nat, k: nat)
    requires lo <= i <= |atoms| && k + 1 < |Pack(atoms, size, overlap, lo, i)|
    ensures var rs := Pack(atoms, size, overlap, lo, i); Follows(atoms, size, overlap, rs[k], rs[k + 1])
    decreases |atoms| - i
  {
    hide Total, Carry, Follows;
    if i < |atoms| {
      if Closes(atoms, size, lo, i) {
        var next := Carry(atoms, overlap, lo, i);
        if k > 0 {
          PackFollows(atoms, size, overlap, next, i + 1, k - 1);
        } else {
          PackEnds(atoms, size, overlap, next, i + 1);
          CarryFollows(atoms, size, overlap, lo, i, Pack(atoms, size, overlap, next, i + 1)[0]);
        }
      } else {
        PackFollows(atoms, size, overlap, lo, i + 1, k);
      }
    }
  }

  lemma CarryFollows(atoms: seq<Text>, size: nat, overlap: nat, lo: nat, i: nat, b: Range)
    requires lo <= i < |atoms| && Closes(atoms, size, lo, i)
    requires b.lo == Carry(atoms, overlap, lo, i) && i < b.hi <= |atoms|
    ensures Follows(atoms, size, overlap, Range(lo, i), b)
  {
    hide Total;
  }

  /** The chunks cover all the atoms in order, each following the one before. */
  lemma PackCovers(atoms: seq<Text>, size: nat, overlap: nat)
    ensures var rs := Pack(atoms, size, overlap, 0, 0);
      && (rs == [] <==> atoms == [])
      && (rs != [] ==> rs[0].lo == 0 && rs[|rs| - 1].hi == |atoms|)
      && forall j, k :: 0 <= j && k == j + 1 < |rs| ==> Follows(atoms, size, overlap, rs[j], rs[k])
  {
    hide Follows;
    if atoms != [] { PackEnds(atoms, size, overlap, 0, 0); }
    var rs := Pack(atoms, size, overlap, 0, 0);
    forall j, k | 0 <= j && k == j + 1 < |rs| ensures Follows(atoms, size, overlap, rs[j], rs[k]) {
      PackFollows(atoms, size, overlap, 0, 0, j);
    }
  }

  ghost predicate AtomsFit(atoms: seq<Text>, size: nat) {
    forall k :: 0 <= k < |atoms| ==> 0 < |atoms[k]| <= size
  }

  lemma SliceSnoc(atoms: seq<Text>, lo: nat, i: nat)
    requires lo <= i < |atoms|
    ensures atoms[lo..i + 1] == atoms[lo..i] + [atoms[i]]
  {
  }

  /** No chunk is longer than the overlap, a space and one more atom of the full size. */
  lemma {:induction false} PackBound(atoms: seq<Text>, size: nat, overlap: nat, lo: nat, i: nat, k: nat)
    requires lo <= i <= |atoms| && AtomsFit(atoms, size) && Total(atoms[lo..i]) <= size + overlap + 1
    requires k < |Pack(atoms, size, overlap, lo, i)|
    ensures var r := Pack(atoms, size, overlap, lo, i)[k]; Total(atoms[r.lo..r.hi]) <= size + overlap + 1
    decreases |atoms| - i
  {
    hide Carry, Total;
    if i < |atoms| {
      var next := if Closes(atoms, size, lo, i) then Carry(atoms, overlap, lo, i) else lo;
      TotalSnoc(atoms[next..i], atoms[i]);
      SliceSnoc(atoms, next, i);
      if Closes(atoms, size, lo, i) {
        if k > 0 { PackBound(atoms, size, overlap, next, i + 1, k - 1); }
      } else {
        PackBound(atoms, size, overlap, lo, i + 1, k);
      }
    }
  }

  lemma NothingTotals(v: seq<Text>)
    requires forall k :: 0 <= k < |v| ==> v[k] != []
    ensures Total(v) == 0 <==> v == []
  {
  }

  /** Without overlap, nothing is carried over and no chunk exceeds the size. */
  lemma {:induction false} PackBoundNoOverlap(atoms: seq<Text>, size: nat, lo: nat, i: nat, k: nat)
    requires lo <= i <= |atoms| && AtomsFit(atoms, size) && Total(atoms[lo..i]) <= size
    requires k < |Pack(atoms, size, 0, lo, i)|
    ensures var r := Pack(atoms, size, 0, lo, i)[k]; Total(atoms[r.lo..r.hi]) <= size
    decreases |atoms| - i
  {
    hide Carry, Total;
    if i < |atoms| {
      var next := if Closes(atoms, size, lo, i) then Carry(atoms, 0, lo, i) else lo;
      TotalSnoc(atoms[next..i], atoms[i]);
      SliceSnoc(atoms, next, i);
      if Closes(atoms, size, lo, i) {
        NothingTotals(atoms[next..i]);
        if k > 0 { PackBoundNoOverlap(atoms, size, next, i + 1, k - 1); }
      } else {
        PackBoundNoOverlap(atoms, size, lo, i + 1, k);
      }
    }
  }

  ghost predicate ChunksFit(atoms: seq<Text>, size: nat, overlap: nat) {
    var rs := Pack(atoms, size, overlap, 0, 0);
    forall k :: 0 <= k < |rs| ==> Total(atoms[rs[k].lo..rs[k].hi]) <= size
  }

  /** `n` letters. */
  function Letters(n: nat): (t: Text)
    ensures |t| == n
  {
    seq(n, _ => 'a')
  }

  /** A short atom is carried over and the next, of the full size, pushed after it. */
  lemma CarriedAtom(x: Text, y: Text, size: nat, overlap: nat)
    requires 0 < |x| <= overlap < size == |y|
    ensures Pack([x, y], size, overlap, 0, 0) == [Range(0, 1), Range(0, 2)]
    ensures [x, y][0..2] == [x, y] && Total([x, y]) == |x| + 1 + size
  {
    var atoms := [x, y];
    assert atoms[0..0] == [] && atoms[0..1] == [x] && atoms[0..2] == atoms && atoms[1..] == [y];
    assert Carry(atoms, overlap, 0, 1) == 0;
    assert Pack(atoms, size, overlap, 0, 2) == [Range(0, 2)];
    assert Pack(atoms, size, overlap, 0, 1) == [Range(0, 1)] + Pack(atoms, size, overlap, 0, 2);
  }

  /** A letter, then a word of the full size: the letter is carried over and the second chunk is two too long. */
  lemma CarriedTooLong(size: nat, overlap: nat)
    requires 0 < overlap < size
    ensures AtomsFit([Letters(1), Letters(size)], size) && !ChunksFit([Letters(1), Letters(size)], size, overlap)
  {
    CarriedAtom(Letters(1), Letters(size), size, overlap);
    assert Pack([Letters(1), Letters(size)], size, overlap, 0, 0)[1] == Range(0, 2);
  }

  /** The bound of size + overlap + 1 is attained. */
  lemma PackBoundAttained(size: nat, overlap: nat)
    requires 0 < overlap < size
    ensures var atoms := [Letters(overlap), Letters(size)];
      && AtomsFit(atoms, size) && Pack(atoms, size, overlap, 0, 0) == [Range(0, 1), Range(0, 2)]
      && Total(atoms[0..2]) == size + overlap + 1
  {
    CarriedAtom(Letters(overlap), Letters(size), size, overlap);
  }

  /** Packed chunks stay within the size for all lists of atoms exactly when there is no overlap. */
  lemma ChunksFitIff(size: nat, overlap: nat)
    requires overlap < size
    ensures (forall atoms :: AtomsFit(atoms, size) ==> ChunksFit(atoms, size, overlap)) <==> overlap == 0
  {
    if overlap > 0 {
      CarriedTooLong(size, overlap);
    } else {
      forall atoms | AtomsFit(atoms, size) ensures ChunksFit(atoms, size, 0) {
        assert atoms[0..0] == [];
        forall k | 0 <= k < |Pack(atoms, size, 0, 0, 0)|
          ensures var r := Pack(atoms, size, 0, 0, 0)[k]; Total(atoms[r.lo..r.hi]) <= size
        {
          PackBoundNoOverlap(atoms, size, 0, 0, k);
        }
      }
    }
  }

  // ----- content of packed chunks -----

  lemma {:induction false} JoinKeeps(v: seq<Text>, dots: bool)
    ensures Keep(Join(v), dots) == Keep(Flatten(v), dots)
  {
    hide Keep;
    if |v| == 1 {
      assert Flatten(v[1..]) == [] && v[0] + [] == v[0];
    } else if |v| > 1 {
      JoinKeeps(v[1..], dots);
      KeepAppend(v[0] + " ", Join(v[1..]), dots);
      KeepAppend(v[0], " ", dots);
      KeepAppend(v[0], Flatten(v[1..]), dots);
      SpaceKeepsNothing(dots);
      assert Keep(v[0], dots) + [] == Keep(v[0], dots);
    }
  }

  lemma SpaceKeepsNothing(dots: bool)
    ensures Keep(" ", dots) == []
  {
    KeepOne(' ', dots);
  }

  /** Without overlap, packing loses and reorders nothing. */
  lemma {:induction false} PackKeeps(atoms: seq<Text>, size: nat, lo: nat, i: nat, dots: bool)
    requires lo <= i <= |atoms| && forall k :: 0 <= k < |atoms| ==> atoms[k] != []
    ensures Keep(Flatten(Joined(atoms, Pack(atoms, size, 0, lo, i))), dots) == Keep(Flatten(atoms[lo..]), dots)
    decreases |atoms| - i
  {
    hide Keep, Total, Join, Joined, Pack, Carry, Closes;
    if i == |atoms| {
      PackEnd(atoms, size, 0, lo);
      if lo < i {
        JoinKeeps(atoms[lo..], dots);
        FlattenOne(Join(atoms[lo..]));
      } else {
        assert atoms[lo..] == [];
      }
    } else {
      PackStep(atoms, size, 0, lo, i, []);
      if Closes(atoms, size, lo, i) {
        NothingCarried(atoms, lo, i);
        PackKeeps(atoms, size, i, i + 1, dots);
        var head, rest := Join(atoms[lo..i]), Joined(atoms, Pack(atoms, size, 0, i, i + 1));
        PackedHead(atoms, size, lo, i, head, rest);
        KeepAppend(head, Flatten(rest), dots);
        JoinKeeps(atoms[lo..i], dots);
        FlattenAppend(atoms[lo..i], atoms[i..]);
        KeepAppend(Flatten(atoms[lo..i]), Flatten(atoms[i..]), dots);
        assert atoms[lo..] == atoms[lo..i] + atoms[i..];
      } else {
        PackKeeps(atoms, size, lo, i + 1, dots);
      }
    }
  }

  lemma FlattenOne(t: Text)
    ensures Flatten([t]) == t
  {
    assert Flatten([t][1..]) == [] && t + [] == t;
  }

  lemma NothingCarried(atoms: seq<Text>, lo: nat, i: nat)
    requires lo <= i <= |atoms| && forall k :: 0 <= k < |atoms| ==> atoms[k] != []
    ensures Carry(atoms, 0, lo, i) == i
  {
    hide Total;
    NothingTotals(atoms[Carry(atoms, 0, lo, i)..i]);
  }

  lemma PackedHead(atoms: seq<Text>, size: nat, lo: nat, i: nat, head: Text, rest: seq<Text>)
    requires lo <= i < |atoms| && Closes(atoms, size, lo, i) && Carry(atoms, 0, lo, i) == i
    requires head == Join(atoms[lo..i]) && rest == Joined(atoms, Pack(atoms, size, 0, i, i + 1))
    ensures Flatten(Joined(atoms, Pack(atoms, size, 0, lo, i))) == head + Flatten(rest)
  {
    hide Total, Join, Joined, Carry;
    JoinedCons(atoms, Range(lo, i), Pack(atoms, size, 0, i, i + 1));
    assert ([head] + rest)[1..] == rest;
  }

  // ----- the sentence strategy -----

  /** A sentence longer than the size is cut into fixed windows. */
  function SentenceAtoms(sentences: seq<Text>, size: nat, overlap: nat): seq<Text>
    requires overlap < size
  {
    if sentences == [] then []
    else
      (if |sentences[0]| > size then Windows(sentences[0], 0, size, overlap) else [sentences[0]])
      + SentenceAtoms(sentences[1..], size, overlap)
  }

  method SentenceChunks(t: Text, size: nat, overlap: nat) returns (chunks: seq<Text>)
    requires overlap < size
    ensures var atoms := SentenceAtoms(Sentences(t, 0, 0), size, overlap);
      chunks == Joined(atoms, Pack(atoms, size, overlap, 0, 0))
  {
    hide SentenceAtoms, Sentences, Windows, Pack, Joined;
    var sentences := SplitSentences(t);
    NoSentences(size, overlap);
    if sentences == [] {
      return [];
    }
    var atoms := [];
    assert sentences[0..] == sentences && [] + SentenceAtoms(sentences, size, overlap) == SentenceAtoms(sentences, size, overlap);
    for i := 0 to |sentences|
      invariant atoms + SentenceAtoms(sentences[i..], size, overlap) == SentenceAtoms(sentences, size, overlap)
    {
      NextSentence(sentences, i, size, overlap, atoms);
      if |sentences[i]| > size {
        var windows := FixedChunks(sentences[i], size, overlap);
        atoms := atoms + windows;
      } else {
        atoms := atoms + [sentences[i]];
      }
    }
    assert sentences[|sentences|..] == [] && atoms + [] == atoms;
    chunks := PackWithOverlap(atoms, size, overlap);
  }

  lemma NoSentences(size: nat, overlap: nat)
    requires overlap < size
    ensures SentenceAtoms([], size, overlap) == [] && Joined([], Pack([], size, overlap, 0, 0)) == []
  {
  }

  lemma NextSentence(sentences: seq<Text>, i: nat, size: nat, overlap: nat, atoms: seq<Text>)
    requires overlap < size && i < |sentences|
    ensures var cut := if |sentences[i]| > size then Windows(sentences[i], 0, size, overlap) else [sentences[i]];
      atoms + SentenceAtoms(sentences[i..], size, overlap) == (atoms + cut) + SentenceAtoms(sentences[i + 1..], size, overlap)
  {
    hide Windows;
    assert sentences[i..][1..] == sentences[i + 1..];
    Assoc(atoms, if |sentences[i]| > size then Windows(sentences[i], 0, size, overlap) else [sentences[i]],
          SentenceAtoms(sentences[i + 1..], size, overlap));
  }

  lemma {:induction false} SentenceAtomsFit(sentences: seq<Text>, size: nat, overlap: nat)
    requires overlap < size && forall k :: 0 <= k < |sentences| ==> sentences[k] != []
    ensures AtomsFit(SentenceAtoms(sentences, size, overlap), size)
  {
    if sentences != [] {
      SentenceAtomsFit(sentences[1..], size, overlap);
      if |sentences[0]| > size { WindowsFit(sentences[0], size, overlap); }
    }
  }

  lemma WindowsFit(t: Text, size: nat, overlap: nat)
    requires overlap < size
    ensures AtomsFit(Windows(t, 0, size, overlap), size)
  {
    forall k | 0 <= k < |Windows(t, 0, size, overlap)| ensures 0 < |Windows(t, 0, size, overlap)[k]| <= size {
      WindowsShape(t, 0, size, overlap, k);
    }
  }

  /** Windows without overlap partition the text. */
  lemma WindowsPartition(t: Text, size: nat)
    requires size > 0
    ensures Flatten(Windows(t, 0, size, 0)) == t
  {
    FreshWindows(t, 0, size, 0);
    FreshIsFlatten(Windows(t, 0, size, 0));
    assert t[0..] == t;
  }

  lemma {:induction false} FreshIsFlatten(chunks: seq<Text>)
    ensures Fresh(chunks, 0) == Flatten(chunks)
  {
    if chunks != [] { FreshIsFlatten(chunks[1..]); }
  }

  lemma {:induction false} SentenceAtomsKeep(sentences: seq<Text>, size: nat, dots: bool)
    requires size > 0
    ensures Keep(Flatten(SentenceAtoms(sentences, size, 0)), dots) == Keep(Flatten(sentences), dots)
  {
    hide Keep, Windows;
    if sentences != [] {
      var s, rest := sentences[0], SentenceAtoms(sentences[1..], size, 0);
      SentenceAtomsKeep(sentences[1..], size, dots);
      WindowsPartition(s, size);
      FlattenOne(s);
      var first := if |s| > size then Windows(s, 0, size, 0) else [s];
      FlattenAppend(first, rest);
      KeepAppend(s, Flatten(rest), dots);
      KeepAppend(s, Flatten(sentences[1..]), dots);
    }
  }

  // ----- the recursive strategy -----

  /** Where the separator first occurs at or after `from`, or the text's length. */
  function Find(t: Text, sep: Text, from: nat): (p: nat)
    requires from <= |t|
    ensures p == |t| || (from <= p && p + |sep| <= |t| && t[p..p + |sep|] == sep)
    decreases |t| - from
  {
    if from + |sep| > |t| || from == |t| then |t|
    else if t[from..from + |sep|] == sep then from
    else Find(t, sep, from + 1)
  }

  /** The pieces between the occurrences of the separator, found from the left. */
  function SplitOn(t: Text, sep: Text): (pieces: seq<Text>)
    requires sep != []
    ensures |pieces| > 0
  {
    var p := Find(t, sep, 0);
    if p == |t| then [t] else [t[..p]] + SplitOn(t[p + |sep|..], sep)
  }

  const SEPARATORS: seq<Text> := ["\n\n", "\n", ". ", " "]

  /** Atoms of the text, splitting by ever finer separators, and at last by force. */
  function SplitRecursive(t: Text, seps: seq<Text>, size: nat, overlap: nat): seq<Text>
    requires overlap < size && forall k :: 0 <= k < |seps| ==> seps[k] != []
    decreases |seps|, 0
  {
    if |t| <= size then Piece(t)
    else if seps == [] then Windows(t, 0, size, overlap)
    else AtomsOf(SplitOn(t, seps[0]), seps[1..], size, overlap)
  }

  function AtomsOf(pieces: seq<Text>, rest: seq<Text>, size: nat, overlap: nat): seq<Text>
    requires overlap < size && forall k :: 0 <= k < |rest| ==> rest[k] != []
    decreases |rest|, |pieces| + 1
  {
    if pieces == [] then [] else Atoms(pieces[0], rest, size, overlap) + AtomsOf(pieces[1..], rest, size, overlap)
  }

  /** The atoms of one piece. */
  function Atoms(piece: Text, rest: seq<Text>, size: nat, overlap: nat): seq<Text>
    requires overlap < size && forall k :: 0 <= k < |rest| ==> rest[k] != []
    decreases |rest|, 1
  {
    if Trim(piece) == [] then []
    else if |piece| <= size then [Trim(piece)]
    else SplitRecursive(piece, rest, size, overlap)
  }

  method SplitRecursively(t: Text, seps: seq<Text>, size: nat, overlap: nat) returns (atoms: seq<Text>)
    requires overlap < size && forall k :: 0 <= k < |seps| ==> seps[k] != []
    ensures atoms == SplitRecursive(t, seps, size, overlap)
    decreases |seps|
  {
    hide Trim, Windows, SplitOn;
    if |t| <= size {
      var trimmed := Trim(t);
      return if trimmed == [] then [] else [trimmed];
    }
    if seps == [] {
      atoms := FixedChunks(t, size, overlap);
      return;
    }
    atoms := [];
    var pieces, rest := SplitOn(t, seps[0]), seps[1..];
    for i := 0 to |pieces|
      invariant atoms + AtomsOf(pieces[i..], rest, size, overlap) == AtomsOf(pieces, rest, size, overlap)
    {
      ghost var was, more := atoms, AtomsOf(pieces[i + 1..], rest, size, overlap);
      assert pieces[i..][1..] == pieces[i + 1..];
      if Trim(pieces[i]) != [] {
        if |pieces[i]| <= size {
          atoms := atoms + [Trim(pieces[i])];
        } else {
          var inner := SplitRecursively(pieces[i], rest, size, overlap);
          atoms := atoms + inner;
        }
      }
      assert was + (Atoms(pieces[i], rest, size, overlap) + more) == atoms + more;
    }
    assert pieces[|pieces|..] == [] && atoms + [] == atoms;
  }

  lemma {:induction false} RecursiveFits(t: Text, seps: seq<Text>, size: nat, overlap: nat)
    requires overlap < size && forall k :: 0 <= k < |seps| ==> seps[k] != []
    ensures AtomsFit(SplitRecursive(t, seps, size, overlap), size)
    decreases |seps|, 0
  {
    hide Trim, Windows, SplitOn;
    if |t| > size {
      if seps == [] {
        WindowsFit(t, size, overlap);
      } else {
        AtomsOfFit(SplitOn(t, seps[0]), seps[1..], size, overlap);
      }
    }
  }

  lemma {:induction false} AtomsOfFit(pieces: seq<Text>, rest: seq<Text>, size: nat, overlap: nat)
    requires overlap < size && forall k :: 0 <= k < |rest| ==> rest[k] != []
    ensures AtomsFit(AtomsOf(pieces, rest, size, overlap), size)
    decreases |rest|, |pieces| + 1
  {
    hide Trim, SplitRecursive;
    if pieces != [] {
      AtomsOfFit(pieces[1..], rest, size, overlap);
      if |pieces[0]| > size { RecursiveFits(pieces[0], rest, size, overlap); }
    }
  }

  // ----- what recursive splitting drops -----

  /** How many counted characters go with the separators between the pieces. */
  function Between(pieces: nat, sep: Text, dots: bool): nat
    requires pieces > 0
  {
    if Keep(sep, dots) == [] then 0 else pieces - 1
  }

  /** A separator counts for one character at most: the stop of ". ". */
  ghost predicate Separators(seps: seq<Text>, dots: bool) {
    forall k :: 0 <= k < |seps| ==> seps[k] != [] && |Keep(seps[k], dots)| <= 1
  }

  /** The counted characters that recursive splitting drops: those of the separators it splits at. */
  function Dropped(t: Text, seps: seq<Text>, size: nat, dots: bool): nat
    requires forall k :: 0 <= k < |seps| ==> seps[k] != []
    decreases |seps|, 0
  {
    if |t| <= size || seps == [] then 0
    else
      var pieces := SplitOn(t, seps[0]);
      Between(|pieces|, seps[0], dots) + DroppedOf(pieces, seps[1..], size, dots)
  }

  function DroppedOf(pieces: seq<Text>, rest: seq<Text>, size: nat, dots: bool): nat
    requires forall k :: 0 <= k < |rest| ==> rest[k] != []
    decreases |rest|, |pieces| + 1
  {
    if pieces == [] then 0
    else
      (if Trim(pieces[0]) == [] then 0 else Dropped(pieces[0], rest, size, dots))
      + DroppedOf(pieces[1..], rest, size, dots)
  }

  lemma {:induction false} SplitKeeps(t: Text, sep: Text, dots: bool)
    requires sep != [] && |Keep(sep, dots)| <= 1
    ensures var pieces := SplitOn(t, sep);
      && |Keep(t, dots)| == |Keep(Flatten(pieces), dots)| + Between(|pieces|, sep, dots)
      && (Between(|pieces|, sep, dots) == 0 ==> Keep(t, dots) == Keep(Flatten(pieces), dots))
  {
    hide Keep, Find;
    var p := Find(t, sep, 0);
    if p == |t| {
      FlattenOne(t);
    } else {
      var head, tail := t[..p], t[p + |sep|..];
      SplitKeeps(tail, sep, dots);
      assert t == head + (sep + tail);
      KeepAppend(head, sep + tail, dots);
      KeepAppend(sep, tail, dots);
      KeepAppend(head, Flatten(SplitOn(tail, sep)), dots);
      assert SplitOn(t, sep)[1..] == SplitOn(tail, sep);
      assert [] + Keep(tail, dots) == Keep(tail, dots);
    }
  }

  /** Without overlap, recursive splitting drops exactly the counted characters of the separators it splits at, and
      loses nothing else. */
  lemma {:induction false} RecursiveKeeps(t: Text, seps: seq<Text>, size: nat, dots: bool)
    requires size > 0 && Separators(seps, dots)
    ensures var kept := Keep(Flatten(SplitRecursive(t, seps, size, 0)), dots);
      && |Keep(t, dots)| == |kept| + Dropped(t, seps, size, dots)
      && (Dropped(t, seps, size, dots) == 0 ==> kept == Keep(t, dots))
    decreases |seps|, 0
  {
    hide Keep, Trim, Windows, SplitOn, Between;
    if |t| <= size {
      PieceKeeps(t, dots);
    } else if seps == [] {
      WindowsPartition(t, size);
    } else {
      SplitKeeps(t, seps[0], dots);
      AtomsOfKeep(SplitOn(t, seps[0]), seps[1..], size, dots);
    }
  }

  lemma {:induction false} AtomsOfKeep(pieces: seq<Text>, rest: seq<Text>, size: nat, dots: bool)
    requires size > 0 && Separators(rest, dots)
    ensures var kept := Keep(Flatten(AtomsOf(pieces, rest, size, 0)), dots);
      && |Keep(Flatten(pieces), dots)| == |kept| + DroppedOf(pieces, rest, size, dots)
      && (DroppedOf(pieces, rest, size, dots) == 0 ==> kept == Keep(Flatten(pieces), dots))
    decreases |rest|, |pieces| + 1
  {
    hide Keep, Trim, Atoms, Dropped;
    if pieces != [] {
      var atoms, more := Atoms(pieces[0], rest, size, 0), AtomsOf(pieces[1..], rest, size, 0);
      AtomsKeep(pieces[0], rest, size, dots);
      AtomsOfKeep(pieces[1..], rest, size, dots);
      FlattenAppend(atoms, more);
      KeepAppend(Flatten(atoms), Flatten(more), dots);
      KeepAppend(pieces[0], Flatten(pieces[1..]), dots);
    }
  }

  lemma {:induction false} AtomsKeep(piece: Text, rest: seq<Text>, size: nat, dots: bool)
    requires size > 0 && Separators(rest, dots)
    ensures var kept := Keep(Flatten(Atoms(piece, rest, size, 0)), dots);
      var dropped := if Trim(piece) == [] then 0 else Dropped(piece, rest, size, dots);
      && |Keep(piece, dots)| == |kept| + dropped
      && (dropped == 0 ==> kept == Keep(piece, dots))
    decreases |rest|, 1
  {
    hide Keep, Trim;
    if Trim(piece) == [] || |piece| <= size {
      PieceKeeps(piece, dots);
    } else {
      RecursiveKeeps(piece, rest, size, dots);
    }
  }

  lemma SeparatorTexts(dots: bool)
    ensures Keep("\n\n", dots) == Keep("\n", dots) == Keep(" ", dots) == []
    ensures Keep(". ", dots) == if dots then "." else []
  {
    hide Keep;
    KeepOne('\n', dots);
    KeepOne('.', dots);
    KeepOne(' ', dots);
    KeepAppend("\n", "\n", dots);
    KeepAppend(".", " ", dots);
    assert "\n\n" == "\n" + "\n" && ". " == "." + " ";
  }

  lemma SeparatorsKeep()
    ensures Separators(SEPARATORS, true) && Separators(SEPARATORS, false)
    ensures forall k :: 0 <= k < |SEPARATORS| ==> Keep(SEPARATORS[k], false) == []
  {
    hide Keep;
    SeparatorTexts(true);
    SeparatorTexts(false);
  }

  lemma {:induction false} NoStopsNothingDropped(t: Text, seps: seq<Text>, size: nat)
    requires forall k :: 0 <= k < |seps| ==> seps[k] != [] && Keep(seps[k], false) == []
    ensures Dropped(t, seps, size, false) == 0
    decreases |seps|, 0
  {
    hide SplitOn, Keep;
    if |t| > size && seps != [] {
      NoStopsNothingDroppedOf(SplitOn(t, seps[0]), seps[1..], size);
    }
  }

  lemma {:induction false} NoStopsNothingDroppedOf(pieces: seq<Text>, rest: seq<Text>, size: nat)
    requires forall k :: 0 <= k < |rest| ==> rest[k] != [] && Keep(rest[k], false) == []
    ensures DroppedOf(pieces, rest, size, false) == 0
    decreases |rest|, |pieces| + 1
  {
    hide Dropped, Trim, Keep;
    if pieces != [] {
      NoStopsNothingDropped(pieces[0], rest, size);
      NoStopsNothingDroppedOf(pieces[1..], rest, size);
    }
  }

  // ----- the strategies together -----

  function RecursiveAtoms(t: Text, size: nat, overlap: nat): seq<Text>
    requires overlap < size
  {
    if Trim(t) == [] then [] else SplitRecursive(t, SEPARATORS, size, overlap)
  }

  method RecursiveChunks(t: Text, size: nat, overlap: nat) returns (chunks: seq<Text>)
    requires overlap < size
    ensures var atoms := RecursiveAtoms(t, size, overlap); chunks == Joined(atoms, Pack(atoms, size, overlap, 0, 0))
  {
    hide Trim, SplitRecursive;
    if Trim(t) == [] {
      return [];
    }
    var atoms := SplitRecursively(t, SEPARATORS, size, overlap);
    chunks := PackWithOverlap(atoms, size, overlap);
  }

  datatype Outcome = Chunks(chunks: seq<Text>) | ZeroSize | OverlapTooLarge | UnknownStrategy

  function Packed(atoms: seq<Text>, size: nat, overlap: nat): seq<Text> {
    Joined(atoms, Pack(atoms, size, overlap, 0, 0))
  }

  function ChunksOf(t: Text, strategy: string, size: nat, overlap: nat): Outcome {
    if size == 0 then ZeroSize
    else if overlap >= size then OverlapTooLarge
    else if strategy == "fixed" then Chunks(Windows(t, 0, size, overlap))
    else if strategy == "sentence" then Chunks(Packed(SentenceAtoms(Sentences(t, 0, 0), size, overlap), size, overlap))
    else if strategy == "recursive" then Chunks(Packed(RecursiveAtoms(t, size, overlap), size, overlap))
    else UnknownStrategy
  }

  method Chunk(t: Text, strategy: string, size: nat, overlap: nat) returns (r: Outcome)
    ensures r == ChunksOf(t, strategy, size, overlap)
  {
    hide Windows, Sentences, SentenceAtoms, RecursiveAtoms, Pack, Joined;
    if size == 0 {
      return ZeroSize;
    }
    if overlap >= size {
      return OverlapTooLarge;
    }
    if strategy == "fixed" {
      var chunks := FixedChunks(t, size, overlap);
      return Chunks(chunks);
    } else if strategy == "sentence" {
      var chunks := SentenceChunks(t, size, overlap);
      return Chunks(chunks);
    } else if strategy == "recursive" {
      var chunks := RecursiveChunks(t, size, overlap);
      return Chunks(chunks);
    } else {
      return UnknownStrategy;
    }
  }

  lemma PackedBound(atoms: seq<Text>, size: nat, overlap: nat, k: nat)
    requires AtomsFit(atoms, size) && k < |Packed(atoms, size, overlap)|
    ensures |Packed(atoms, size, overlap)[k]| <= if overlap == 0 then size else size + overlap + 1
  {
    hide Pack;
    assert atoms[0..0] == [];
    if overlap == 0 {
      PackBoundNoOverlap(atoms, size, 0, 0, k);
    } else {
      PackBound(atoms, size, overlap, 0, 0, k);
    }
  }

  lemma StrategyAtomsFit(t: Text, size: nat, overlap: nat)
    requires overlap < size
    ensures AtomsFit(SentenceAtoms(Sentences(t, 0, 0), size, overlap), size)
    ensures AtomsFit(RecursiveAtoms(t, size, overlap), size)
  {
    SentencesAreSentences(t, 0, 0);
    SentenceAtomsFit(Sentences(t, 0, 0), size, overlap);
    RecursiveFits(t, SEPARATORS, size, overlap);
  }

  /** No chunk exceeds the size, or, with overlap and packed atoms, the size, the overlap and a space. */
  lemma ChunkBound(t: Text, strategy: string, size: nat, overlap: nat, k: nat)
    requires var r := ChunksOf(t, strategy, size, overlap); r.Chunks? && k < |r.chunks|
    ensures |ChunksOf(t, strategy, size, overlap).chunks[k]|
         <= if strategy == "fixed" || overlap == 0 then size else size + overlap + 1
  {
    hide Windows, Sentences, SentenceAtoms, RecursiveAtoms, Packed, AtomsFit;
    if strategy == "fixed" {
      WindowsShape(t, 0, size, overlap, k);
    } else {
      StrategyAtomsFit(t, size, overlap);
      if strategy == "sentence" {
        PackedBound(SentenceAtoms(Sentences(t, 0, 0), size, overlap), size, overlap, k);
      } else {
        PackedBound(RecursiveAtoms(t, size, overlap), size, overlap, k);
      }
    }
  }

  lemma PackedKeeps(atoms: seq<Text>, size: nat, dots: bool)
    requires AtomsFit(atoms, size)
    ensures Keep(Flatten(Packed(atoms, size, 0)), dots) == Keep(Flatten(atoms), dots)
  {
    hide Keep, Pack, Joined;
    PackKeeps(atoms, size, 0, 0, dots);
    assert atoms[0..] == atoms;
  }

  /** Without overlap the fixed and sentence strategies keep all that is not whitespace, in order, and so does the
      recursive strategy, full stops aside. */
  lemma ChunksKeep(t: Text, strategy: string, size: nat)
    requires ChunksOf(t, strategy, size, 0).Chunks?
    ensures Keep(Flatten(ChunksOf(t, strategy, size, 0).chunks), strategy != "recursive") == Keep(t, strategy != "recursive")
  {
    hide Windows, Sentences, SentenceAtoms, RecursiveAtoms, Packed, Keep, AtomsFit;
    if strategy == "fixed" {
      WindowsPartition(t, size);
    } else {
      StrategyAtomsFit(t, size, 0);
      if strategy == "sentence" {
        PackedKeeps(SentenceAtoms(Sentences(t, 0, 0), size, 0), size, true);
        SentenceAtomsKeep(Sentences(t, 0, 0), size, true);
        SentencesKeep(t, 0, 0, true);
        assert t[0..] == t;
      } else {
        PackedKeeps(RecursiveAtoms(t, size, 0), size, false);
        RecursiveAtomsKeep(t, size, false);
        SeparatorsKeep();
        NoStopsNothingDropped(t, SEPARATORS, size);
      }
    }
  }

  lemma RecursiveAtomsKeep(t: Text, size: nat, dots: bool)
    requires size > 0
    ensures Separators(SEPARATORS, dots)
    ensures var kept := Keep(Flatten(RecursiveAtoms(t, size, 0)), dots);
      var dropped := if Trim(t) == [] then 0 else Dropped(t, SEPARATORS, size, dots);
      && |Keep(t, dots)| == |kept| + dropped
      && (dropped == 0 ==> kept == Keep(t, dots))
  {
    hide Keep, Trim, SplitRecursive, Dropped;
    SeparatorsKeep();
    RecursiveKeeps(t, SEPARATORS, size, dots);
    if Trim(t) == [] { PieceKeeps(t, dots); }
  }

  // ----- exactly when full stops are dropped -----

  lemma {:induction false} DroppedOfZeroIff(pieces: seq<Text>, rest: seq<Text>, size: nat)
    requires size > 0 && Separators(rest, true)
    ensures DroppedOf(pieces, rest, size, true) == 0
       <==> forall k :: 0 <= k < |pieces| ==> Dropped(pieces[k], rest, size, true) == 0
    decreases |pieces|
  {
    hide Dropped, Trim, Keep;
    if pieces != [] {
      DroppedOfZeroIff(pieces[1..], rest, size);
      BlankDropsNothing(pieces[0], rest, size);
      assert forall k :: 0 < k < |pieces| ==> pieces[k] == pieces[1..][k - 1];
      assert forall k :: 0 <= k < |pieces| - 1 ==> pieces[1..][k] == pieces[k + 1];
    }
  }

  lemma BlankDropsNothing(t: Text, seps: seq<Text>, size: nat)
    requires size > 0 && Separators(seps, true)
    ensures Trim(t) == [] ==> Dropped(t, seps, size, true) == 0
  {
    hide Dropped, Trim, SplitRecursive;
    if Trim(t) == [] {
      PieceKeeps(t, true);
      assert Keep(Flatten([]), true) == [];
      RecursiveKeeps(t, seps, size, true);
    }
  }

  /** The text, when longer than the size, has a paragraph longer than the size, with a line longer than the size, with
      a full stop before a space. */
  ghost predicate LongLineWithStop(t: Text, size: nat) {
    |t| > size && exists i :: 0 <= i < |SplitOn(t, "\n\n")| && LongParagraphWithStop(SplitOn(t, "\n\n")[i], size)
  }

  ghost predicate LongParagraphWithStop(t: Text, size: nat) {
    |t| > size && exists i :: 0 <= i < |SplitOn(t, "\n")| && LineSplits(SplitOn(t, "\n")[i], size)
  }

  predicate LineSplits(t: Text, size: nat) {
    |t| > size && Find(t, ". ", 0) < |t|
  }

  lemma SeparatorTails()
    ensures SEPARATORS[1..][1..] == [". ", " "] && SEPARATORS[1..][0] == "\n" && SEPARATORS[0] == "\n\n"
    ensures [". ", " "][1..] == [" "] && [" "][1..] == []
    ensures Keep("\n\n", true) == [] && Keep("\n", true) == [] && Keep(" ", true) == [] && |Keep(". ", true)| == 1
    ensures Separators(SEPARATORS, true) && Separators(SEPARATORS[1..], true)
    ensures Separators([". ", " "], true) && Separators([" "], true) && Separators([], true)
  {
    hide Keep;
    SeparatorsKeep();
    SeparatorTexts(true);
    assert SEPARATORS[0] == "\n\n" && SEPARATORS[1] == "\n" && SEPARATORS[2] == ". " && SEPARATORS[3] == " ";
  }

  lemma SpacesDropNothing(t: Text, size: nat)
    requires size > 0
    ensures Dropped(t, [" "], size, true) == 0
  {
    hide Keep, Trim, SplitOn;
    SeparatorTails();
    if |t| > size {
      var pieces := SplitOn(t, " ");
      DroppedOfZeroIff(pieces, [], size);
      assert [" "][0] == " ";
      assert DroppedOf(pieces, [" "][1..], size, true) == DroppedOf(pieces, [], size, true);
    }
  }

  lemma LineDropsIff(t: Text, size: nat)
    requires size > 0
    ensures Separators([". ", " "], true)
    ensures Dropped(t, [". ", " "], size, true) == 0 <==> !LineSplits(t, size)
  {
    hide Keep, Trim, Find;
    SeparatorTails();
    if |t| > size {
      var pieces := SplitOn(t, ". ");
      forall k | 0 <= k < |pieces| ensures Dropped(pieces[k], [" "], size, true) == 0 {
        SpacesDropNothing(pieces[k], size);
      }
      DroppedOfZeroIff(pieces, [" "], size);
      assert [". ", " "][0] == ". ";
      assert DroppedOf(pieces, [". ", " "][1..], size, true) == DroppedOf(pieces, [" "], size, true);
    }
  }

  lemma ParagraphDropsIff(t: Text, size: nat)
    requires size > 0
    ensures Separators(SEPARATORS[1..], true)
    ensures Dropped(t, SEPARATORS[1..], size, true) == 0 <==> !LongParagraphWithStop(t, size)
  {
    hide Keep, Trim, SplitOn, LineSplits;
    SeparatorTails();
    if |t| > size {
      var pieces := SplitOn(t, "\n");
      forall k | 0 <= k < |pieces| ensures Dropped(pieces[k], [". ", " "], size, true) == 0 <==> !LineSplits(pieces[k], size) {
        LineDropsIff(pieces[k], size);
      }
      DroppedOfZeroIff(pieces, [". ", " "], size);
      assert DroppedOf(pieces, SEPARATORS[1..][1..], size, true) == DroppedOf(pieces, [". ", " "], size, true);
    }
  }

  lemma TextDropsIff(t: Text, size: nat)
    requires size > 0
    ensures Separators(SEPARATORS, true)
    ensures Dropped(t, SEPARATORS, size, true) == 0 <==> !LongLineWithStop(t, size)
  {
    hide Keep, Trim, SplitOn, LongParagraphWithStop;
    SeparatorTails();
    if |t| > size {
      var pieces := SplitOn(t, "\n\n");
      forall k | 0 <= k < |pieces|
        ensures Dropped(pieces[k], SEPARATORS[1..], size, true) == 0 <==> !LongParagraphWithStop(pieces[k], size)
      {
        ParagraphDropsIff(pieces[k], size);
      }
      DroppedOfZeroIff(pieces, SEPARATORS[1..], size);
    }
  }

  /** The recursive strategy keeps all that is not whitespace exactly when no line longer than the size has a full stop
      before a space: it splits such a line there, and drops the stop. */
  lemma RecursiveKeepsIff(t: Text, size: nat)
    requires size > 0
    ensures Keep(Flatten(ChunksOf(t, "recursive", size, 0).chunks), true) == Keep(t, true) <==> !LongLineWithStop(t, size)
  {
    hide RecursiveAtoms, Packed, Keep, AtomsFit, Dropped, Trim, LongLineWithStop;
    StrategyAtomsFit(t, size, 0);
    PackedKeeps(RecursiveAtoms(t, size, 0), size, true);
    RecursiveAtomsKeep(t, size, true);
    TextDropsIff(t, size);
    BlankDropsNothing(t, SEPARATORS, size);
  }

  lemma {:induction false} NotFound(t: Text, sep: Text, from: nat)
    requires sep != [] && from <= |t| && forall j :: 0 <= j < |t| ==> t[j] != sep[0]
    ensures Find(t, sep, from) == |t|
    decreases |t| - from
  {
    if from + |sep| <= |t| && from < |t| {
      assert t[from..from + |sep|][0] == t[from];
      NotFound(t, sep, from + 1);
    }
  }

  lemma FirstPieceIsAll(t: Text, sep: Text)
    requires sep != [] && forall j :: 0 <= j < |t| ==> t[j] != sep[0]
    ensures SplitOn(t, sep)[0] == t
  {
    hide Find;
    NotFound(t, sep, 0);
  }

  /** "aa. bb" in chunks of four: the stop is dropped. */
  lemma RecursiveDropsStop()
    ensures LongLineWithStop("aa. bb", 4)
  {
    hide Find, SplitOn;
    var t := "aa. bb";
    FirstPieceIsAll(t, "\n\n");
    FirstPieceIsAll(t, "\n");
    FindIsFirst(t, ". ", 0, 2);
    assert LineSplits(t, 4);
    assert LongParagraphWithStop(SplitOn(t, "\n\n")[0], 4);
  }

  // ----- texts with a chunk that is too long -----

  lemma LettersTrimmed(n: nat)
    requires n > 0
    ensures Trim(Letters(n)) == Letters(n) && Trim(" " + Letters(n)) == Letters(n)
    ensures Piece(Letters(n)) == Piece(" " + Letters(n)) == [Letters(n)]
  {
    var t := " " + Letters(n);
    assert t[1..] == Letters(n);
    assert TrimStart(t) == TrimStart(t[1..]);
  }

  /** A separator that splits nothing hands the text to the next one. */
  lemma SplitPasses(t: Text, seps: seq<Text>, size: nat, overlap: nat)
    requires overlap < size < |t| && seps != [] && forall k :: 0 <= k < |seps| ==> seps[k] != []
    requires SplitOn(t, seps[0]) == [t] && Trim(t) != []
    ensures SplitRecursive(t, seps, size, overlap) == SplitRecursive(t, seps[1..], size, overlap)
  {
    hide Trim, SplitOn;
    var rest := seps[1..];
    assert [t][1..] == [];
    assert AtomsOf([t], rest, size, overlap) == Atoms(t, rest, size, overlap) + AtomsOf([t][1..], rest, size, overlap);
    assert Atoms(t, rest, size, overlap) + [] == Atoms(t, rest, size, overlap);
  }

  /** Letters, a space, and letters. */
  function TwoWords(m: nat, n: nat): (t: Text)
    ensures |t| == m + 1 + n
  {
    Letters(m) + " " + Letters(n)
  }

  lemma {:induction false} FindSpace(m: nat, n: nat, from: nat)
    requires from <= m
    ensures Find(TwoWords(m, n), " ", from) == m
    decreases m - from
  {
    var t := TwoWords(m, n);
    if from < m {
      assert t[from..from + 1][0] == 'a';
      FindSpace(m, n, from + 1);
    } else {
      assert t[m..m + 1] == " ";
    }
  }

  lemma TwoWordsSplit(m: nat, n: nat)
    ensures SplitOn(TwoWords(m, n), " ") == [Letters(m), Letters(n)]
    ensures SplitOn(TwoWords(m, n), "\n\n") == SplitOn(TwoWords(m, n), "\n") == SplitOn(TwoWords(m, n), ". ") == [TwoWords(m, n)]
  {
    var t := TwoWords(m, n);
    FindSpace(m, n, 0);
    NotFound(Letters(n), " ", 0);
    assert t[..m] == Letters(m) && t[m + 1..] == Letters(n);
    NotFound(t, "\n\n", 0);
    NotFound(t, "\n", 0);
    NotFound(t, ". ", 0);
  }

  lemma TwoWordsNotBlank(m: nat, n: nat)
    requires m > 0
    ensures Trim(TwoWords(m, n)) != []
  {
    var t := TwoWords(m, n);
    assert t[0] == 'a';
    assert TrimStart(t) == t;
    if TrimEnd(t) == [] {
      TrimEndKeeps(t, true);
    }
  }

  lemma TwoWordsAtoms(m: nat, size: nat, overlap: nat)
    requires 0 < m <= size && overlap < size
    ensures RecursiveAtoms(TwoWords(m, size), size, overlap) == [Letters(m), Letters(size)]
  {
    hide Trim, SplitOn;
    var t := TwoWords(m, size);
    TwoWordsNotBlank(m, size);
    TwoWordsSplit(m, size);
    SeparatorTails();
    SplitPasses(t, SEPARATORS, size, overlap);
    SplitPasses(t, SEPARATORS[1..], size, overlap);
    SplitPasses(t, [". ", " "], size, overlap);
    LettersTrimmed(m);
    LettersTrimmed(size);
    TwoAtoms(Letters(m), Letters(size), size, overlap);
    assert [" "][1..] == [];
  }

  lemma TwoAtoms(x: Text, y: Text, size: nat, overlap: nat)
    requires overlap < size && |x| <= size && |y| <= size && Trim(x) == x != [] && Trim(y) == y != []
    ensures AtomsOf([x, y], [], size, overlap) == [x, y]
  {
    hide Trim;
    assert [x, y][1..] == [y] && [y][1..] == [];
    assert AtomsOf([y], [], size, overlap) == Atoms(y, [], size, overlap) + AtomsOf([], [], size, overlap);
  }

  lemma {:induction false} NoMoreEnds(t: Text, start: nat, i: nat)
    requires start <= i <= |t| && start < |t| && forall j :: i <= j < |t| ==> !EndsAt(t, j)
    ensures Sentences(t, start, i) == Piece(t[start..])
    decreases |t| - i
  {
    if i < |t| { NoMoreEnds(t, start, i + 1); }
  }

  /** A lone full stop, a space, and letters. */
  lemma StopAndWordAtoms(n: nat, size: nat, overlap: nat)
    requires 0 < n <= size && overlap < size
    ensures SentenceAtoms(Sentences(". " + Letters(n), 0, 0), size, overlap) == [".", Letters(n)]
  {
    hide Trim;
    var t := ". " + Letters(n);
    assert EndsAt(t, 0);
    assert t[1..] == " " + Letters(n) && t[0..1] == ".";
    NoMoreEnds(t, 1, 1);
    LettersTrimmed(n);
    StopTrimmed();
    assert Sentences(t, 0, 0) == Piece(".") + [Letters(n)] == [".", Letters(n)];
    ShortSentences(".", Letters(n), size, overlap);
  }

  lemma ShortSentences(x: Text, y: Text, size: nat, overlap: nat)
    requires overlap < size && |x| <= size && |y| <= size
    ensures SentenceAtoms([x, y], size, overlap) == [x, y]
  {
    assert [x, y][1..] == [y] && [y][1..] == [];
    assert SentenceAtoms([y], size, overlap) == [y] + SentenceAtoms([], size, overlap);
  }

  lemma StopTrimmed()
    ensures Trim(".") == "." && Piece(".") == ["."]
  {
    var t := ".";
    assert !IsWhitespace(t[0]);
    assert TrimStart(t) == t && TrimEnd(t) == t;
  }

  /** Every chunk of the text is within the size. */
  ghost predicate TextFits(t: Text, strategy: string, size: nat, overlap: nat) {
    var r := ChunksOf(t, strategy, size, overlap);
    r.Chunks? ==> forall k :: 0 <= k < |r.chunks| ==> |r.chunks[k]| <= size
  }

  lemma SecondChunk(x: Text, y: Text, size: nat, overlap: nat)
    requires 0 < |x| <= overlap < size == |y|
    ensures var chunks := Packed([x, y], size, overlap); |chunks| == 2 && |chunks[1]| == |x| + 1 + size
  {
    hide Total, Join, Pack;
    CarriedAtom(x, y, size, overlap);
  }

  /** A text whose recursive chunks attain the bound: a word as long as the overlap, then one of the full size. */
  lemma ChunkBoundAttained(size: nat, overlap: nat)
    requires 0 < overlap < size
    ensures var r := ChunksOf(TwoWords(overlap, size), "recursive", size, overlap);
      r.Chunks? && |r.chunks| == 2 && |r.chunks[1]| == size + overlap + 1
  {
    hide RecursiveAtoms, Packed;
    TwoWordsAtoms(overlap, size, overlap);
    SecondChunk(Letters(overlap), Letters(size), size, overlap);
  }

  /** A text whose sentence chunks exceed the size: a lone full stop, then a sentence of the full size. */
  lemma SentenceTooLong(size: nat, overlap: nat)
    requires 0 < overlap < size
    ensures var r := ChunksOf(". " + Letters(size), "sentence", size, overlap);
      r.Chunks? && |r.chunks| == 2 && |r.chunks[1]| == size + 2
  {
    hide SentenceAtoms, Sentences, Packed;
    StopAndWordAtoms(size, size, overlap);
    SecondChunk(".", Letters(size), size, overlap);
  }

  /** The chunks of all texts stay within the size exactly under the fixed strategy or without overlap. */
  lemma TextsFitIff(strategy: string, size: nat, overlap: nat)
    requires overlap < size && (strategy == "fixed" || strategy == "sentence" || strategy == "recursive")
    ensures (forall t :: TextFits(t, strategy, size, overlap)) <==> strategy == "fixed" || overlap == 0
  {
    hide ChunksOf;
    if strategy == "fixed" || overlap == 0 {
      forall t ensures TextFits(t, strategy, size, overlap) {
        var r := ChunksOf(t, strategy, size, overlap);
        if r.Chunks? {
          forall k | 0 <= k < |r.chunks| ensures |r.chunks[k]| <= size {
            ChunkBound(t, strategy, size, overlap, k);
          }
        }
      }
    } else if strategy == "sentence" {
      SentenceTooLong(size, overlap);
      assert !TextFits(". " + Letters(size), strategy, size, overlap);
    } else {
      ChunkBoundAttained(size, overlap);
      assert !TextFits(TwoWords(overlap, size), strategy, size, overlap);
    }
  }

  // ----- short and blank texts -----

  lemma {:induction false} TotalOfPrefix(v: seq<Text>, i: nat)
    requires i <= |v|
    ensures Total(v[..i]) <= Total(v)
    decreases |v|
  {
    if i < |v| {
      var init, last := v[..|v| - 1], v[|v| - 1];
      TotalOfPrefix(init, i);
      TotalSnoc(init, last);
      assert init + [last] == v && init[..i] == v[..i];
    } else {
      assert v[..i] == v;
    }
  }

  /** Atoms that fit into one chunk go into one. */
  lemma {:induction false} PackedTogether(atoms: seq<Text>, size: nat, overlap: nat, i: nat)
    requires atoms != [] && i <= |atoms| && Total(atoms) <= size
    ensures Pack(atoms, size, overlap, 0, i) == [Range(0, |atoms|)]
    decreases |atoms| - i
  {
    hide Total, Carry;
    if i < |atoms| {
      TotalOfPrefix(atoms, i + 1);
      TotalSnoc(atoms[..i], atoms[i]);
      assert atoms[..i + 1] == atoms[..i] + [atoms[i]] && atoms[0..i] == atoms[..i];
      PackedTogether(atoms, size, overlap, i + 1);
    }
  }

  lemma OneChunk(atoms: seq<Text>, size: nat, overlap: nat)
    requires atoms != [] && Total(atoms) <= size
    ensures Packed(atoms, size, overlap) == [Join(atoms)]
  {
    hide Total, Join, Pack;
    PackedTogether(atoms, size, overlap, 0);
    JoinedCons(atoms, Range(0, |atoms|), []);
    assert atoms[0..|atoms|] == atoms;
  }

  /** Sentences joined by spaces are no longer than the text: each but the last was followed by whitespace. */
  lemma {:induction false} SentencesTotal(t: Text, start: nat, i: nat)
    requires start <= i <= |t|
    ensures Total(Sentences(t, start, i)) + Lead(t, start) <= |t| - start
    decreases |t| - i
  {
    hide Trim, IsTerminator, IsWhitespace;
    if i == |t| {
      if start < |t| {
        PieceLength(t, start, |t|);
        assert t[start..|t|] == t[start..];
      }
    } else if EndsAt(t, i) {
      SentencesTotal(t, i + 1, i + 1);
      PieceLength(t, start, i + 1);
      TotalCons(t[start..i + 1], Sentences(t, i + 1, i + 1));
    } else {
      SentencesTotal(t, start, i + 1);
    }
  }

  lemma TotalCons(piece: Text, rest: seq<Text>)
    ensures Total(Piece(piece) + rest) <= |Trim(piece)| + (if rest == [] then 0 else 1 + Total(rest))
  {
    hide Trim;
    if Trim(piece) == [] {
      assert [] + rest == rest;
    } else {
      assert (Piece(piece) + rest)[1..] == rest;
    }
  }

  lemma {:induction false} UncutSentences(sentences: seq<Text>, size: nat, overlap: nat)
    requires overlap < size && Total(sentences) <= size
    ensures SentenceAtoms(sentences, size, overlap) == sentences
  {
    hide Windows;
    if sentences != [] { UncutSentences(sentences[1..], size, overlap); }
  }

  /** A text within the size that is not blank is one chunk: itself, its trimmed self, or its sentences joined. */
  lemma ShortTextIsOneChunk(t: Text, strategy: string, size: nat, overlap: nat)
    requires overlap < size && (strategy == "fixed" || strategy == "sentence" || strategy == "recursive")
    requires |t| <= size && Trim(t) != []
    ensures ChunksOf(t, strategy, size, overlap) == Chunks([
      if strategy == "fixed" then t else if strategy == "recursive" then Trim(t) else Join(Sentences(t, 0, 0))])
  {
    hide Trim, Sentences, SentenceAtoms, Packed, Join, Total;
    if strategy == "fixed" {
      NothingToTrim();
      assert t[0..] == t;
    } else if strategy == "sentence" {
      NoSentencesIff(t);
      SentencesTotal(t, 0, 0);
      UncutSentences(Sentences(t, 0, 0), size, overlap);
      OneChunk(Sentences(t, 0, 0), size, overlap);
    } else {
      JoinOne(Trim(t));
      OneChunk([Trim(t)], size, overlap);
    }
  }

  lemma NothingToTrim()
    ensures Trim([]) == []
  {
  }

  lemma JoinOne(t: Text)
    ensures Join([t]) == t && Total([t]) == |t|
  {
  }

  /** A blank text has no chunks exactly when the strategy is not fixed or the text is empty. */
  lemma BlankTextIff(t: Text, strategy: string, size: nat, overlap: nat)
    requires overlap < size && (strategy == "fixed" || strategy == "sentence" || strategy == "recursive")
    requires Trim(t) == []
    ensures ChunksOf(t, strategy, size, overlap).Chunks?
    ensures ChunksOf(t, strategy, size, overlap).chunks == [] <==> strategy != "fixed" || t == []
  {
    hide Trim, Sentences;
    NoSentencesIff(t);
    NoSentences(size, overlap);
  }

  /** A space under the fixed strategy is a chunk. */
  lemma BlankChunk()
    ensures Trim(" ") == [] && ChunksOf(" ", "fixed", 1, 0) == Chunks([" "])
  {
    assert TrimStart(" ") == TrimStart(" "[1..]) == [];
    assert " "[0..] == " ";
  }

  /** No strategy ever makes an empty chunk. */
  lemma NoEmptyChunk(t: Text, strategy: string, size: nat, overlap: nat, k: nat)
    requires var r := ChunksOf(t, strategy, size, overlap); r.Chunks? && k < |r.chunks|
    ensures ChunksOf(t, strategy, size, overlap).chunks[k] != []
  {
    hide Windows, Sentences, SentenceAtoms, RecursiveAtoms, Packed, AtomsFit;
    if strategy == "fixed" {
      WindowsShape(t, 0, size, overlap, k);
    } else {
      StrategyAtomsFit(t, size, overlap);
      PackedNotEmpty(
        if strategy == "sentence" then SentenceAtoms(Sentences(t, 0, 0), size, overlap) else RecursiveAtoms(t, size, overlap),
        size, overlap, k);
    }
  }

  lemma PackedNotEmpty(atoms: seq<Text>, size: nat, overlap: nat, k: nat)
    requires AtomsFit(atoms, size) && k < |Packed(atoms, size, overlap)|
    ensures Packed(atoms, size, overlap)[k] != []
  {
    hide Pack;
    var r := Pack(atoms, size, overlap, 0, 0)[k];
    NothingTotals(atoms[r.lo..r.hi]);
  }

  // ----- splitting at a separator -----

  /** The pieces with the separator between them. */
  function Interleaved(pieces: seq<Text>, sep: Text): Text {
    if pieces == [] then [] else if |pieces| == 1 then pieces[0] else pieces[0] + sep + Interleaved(pieces[1..], sep)
  }

  ghost predicate Contains(t: Text, sep: Text) {
    exists p: nat :: OccursAt(t, sep, p)
  }

  predicate OccursAt(t: Text, sep: Text, p: nat) {
    p + |sep| <= |t| && t[p..p + |sep|] == sep
  }

  lemma {:induction false} FindIsFirst(t: Text, sep: Text, from: nat, q: nat)
    requires sep != [] && from <= q && q + |sep| <= |t| && t[q..q + |sep|] == sep
    ensures Find(t, sep, from) <= q
    decreases |t| - from
  {
    if from < q && t[from..from + |sep|] != sep { FindIsFirst(t, sep, from + 1, q); }
  }

  lemma BeforeFirst(t: Text, sep: Text)
    requires sep != []
    ensures !Contains(t[..Find(t, sep, 0)], sep)
  {
    hide Find;
    var head := t[..Find(t, sep, 0)];
    if Contains(head, sep) {
      var p: nat :| OccursAt(head, sep, p);
      assert t[p..p + |sep|] == head[p..p + |sep|];
      FindIsFirst(t, sep, 0, p);
    }
  }

  /** Splitting cuts at the separators and nowhere else, and at all of them: the pieces with the separator between them
      are the text, and no piece contains it. */
  lemma {:induction false} SplitIsExact(t: Text, sep: Text)
    requires sep != []
    ensures Interleaved(SplitOn(t, sep), sep) == t
    ensures forall k :: 0 <= k < |SplitOn(t, sep)| ==> !Contains(SplitOn(t, sep)[k], sep)
  {
    hide Find, Contains;
    var p := Find(t, sep, 0);
    BeforeFirst(t, sep);
    if p == |t| {
      assert t[..p] == t;
    } else {
      var tail := t[p + |sep|..];
      SplitIsExact(tail, sep);
      var pieces := SplitOn(t, sep);
      assert pieces == [t[..p]] + SplitOn(tail, sep) && pieces[1..] == SplitOn(tail, sep);
      assert t == t[..p] + sep + tail;
    }
  }

  /** The rejections, in their order: no size, an overlap of at least the size, an unknown strategy. */
  lemma RejectionsInOrder(t: Text, strategy: string, size: nat, overlap: nat)
    ensures var r := ChunksOf(t, strategy, size, overlap);
      && (r.ZeroSize? <==> size == 0)
      && (r.OverlapTooLarge? <==> 0 < size <= overlap)
      && (r.UnknownStrategy? <==> overlap < size && strategy !in {"fixed", "sentence", "recursive"})
  {
    hide Windows, Sentences, SentenceAtoms, RecursiveAtoms, Packed;
  }
}

/** Splitting a document into overlapping chunks of about a given number of characters. */
module TextChunks {

  type Text = seq<char>

  // ----- characters -----

  /** The Unicode White_Space property. */
  predicate IsWhitespace(c: char) {
    var u := c as int;
    || 0x09 <= u <= 0x0D || u == 0x20 || u == 0x85 || u == 0xA0 || u == 0x1680 || 0x2000 <= u <= 0x200A
    || u == 0x2028 || u == 0x2029 || u == 0x202F || u == 0x205F || u == 0x3000
  }

  /** What a comparison of contents looks at: not whitespace, and with `dots` off not the full stop. */
  predicate Counted(c: char, dots: bool) {
    !IsWhitespace(c) && (dots || c != '.')
  }

  function KeptChar(c: char, dots: bool): Text {
    if Counted(c, dots) then [c] else []
  }

  function Keep(t: Text, dots: bool): Text {
    if t == [] then [] else KeptChar(t[0], dots) + Keep(t[1..], dots)
  }

  lemma Assoc<T>(a: seq<T>, b: seq<T>, c: seq<T>)
    ensures (a + b) + c == a + (b + c)
  {
  }

  lemma {:induction false} KeepAppend(a: Text, b: Text, dots: bool)
    ensures Keep(a + b, dots) == Keep(a, dots) + Keep(b, dots)
  {
    hide KeptChar;
    if a == [] {
      assert a + b == b && [] + Keep(b, dots) == Keep(b, dots);
    } else {
      KeepAppend(a[1..], b, dots);
      assert (a + b)[0] == a[0] && (a + b)[1..] == a[1..] + b;
      Assoc(KeptChar(a[0], dots), Keep(a[1..], dots), Keep(b, dots));
    }
  }

  function Flatten(ts: seq<Text>): Text {
    if ts == [] then [] else ts[0] + Flatten(ts[1..])
  }

  lemma {:induction false} FlattenAppend(a: seq<Text>, b: seq<Text>)
    ensures Flatten(a + b) == Flatten(a) + Flatten(b)
  {
    if a == [] {
      assert a + b == b && [] + Flatten(b) == Flatten(b);
    } else {
      FlattenAppend(a[1..], b);
      assert (a + b)[0] == a[0] && (a + b)[1..] == a[1..] + b;
      Assoc(a[0], Flatten(a[1..]), Flatten(b));
    }
  }

  // ----- trimming -----

  function TrimStart(t: Text): (r: Text)
    ensures |r| <= |t| && r == t[|t| - |r|..]
    ensures r != [] ==> !IsWhitespace(r[0])
  {
    if t != [] && IsWhitespace(t[0]) then TrimStart(t[1..]) else t
  }

  function TrimEnd(t: Text): (r: Text)
    ensures |r| <= |t| && r == t[..|r|]
    ensures r != [] ==> !IsWhitespace(r[|r| - 1])
  {
    if t != [] && IsWhitespace(t[|t| - 1]) then TrimEnd(t[..|t| - 1]) else t
  }

  function Trim(t: Text): (r: Text)
    ensures |r| <= |t|
    ensures r != [] ==> !IsWhitespace(r[0]) && !IsWhitespace(r[|r| - 1])
  {
    var s := TrimStart(t);
    var r := TrimEnd(s);
    assert r != [] ==> r[0] == s[0];
    r
  }

  lemma {:induction false} TrimStartKeeps(t: Text, dots: bool)
    ensures Keep(TrimStart(t), dots) == Keep(t, dots)
  {
    hide IsWhitespace;
    if t != [] && IsWhitespace(t[0]) { TrimStartKeeps(t[1..], dots); }
  }

  lemma {:induction false} TrimEndKeeps(t: Text, dots: bool)
    ensures Keep(TrimEnd(t), dots) == Keep(t, dots)
  {
    hide IsWhitespace, Keep, KeptChar;
    if t != [] && IsWhitespace(t[|t| - 1]) {
      TrimEndKeeps(t[..|t| - 1], dots);
      KeepAppend(t[..|t| - 1], [t[|t| - 1]], dots);
      assert t == t[..|t| - 1] + [t[|t| - 1]];
      KeepOne(t[|t| - 1], dots);
      assert Keep(t[..|t| - 1], dots) + [] == Keep(t[..|t| - 1], dots);
    }
  }

  lemma KeepOne(c: char, dots: bool)
    ensures Keep([c], dots) == if Counted(c, dots) then [c] else []
    ensures Keep([c], dots) == KeptChar(c, dots)
  {
    assert Keep([c], dots) == KeptChar(c, dots) + Keep([c][1..], dots);
  }

  lemma TrimKeeps(t: Text, dots: bool)
    ensures Keep(Trim(t), dots) == Keep(t, dots)
  {
    TrimStartKeeps(t, dots);
    TrimEndKeeps(TrimStart(t), dots);
  }

  /** Trimming takes a slice. */
  lemma TrimIsSlice(t: Text) returns (a: nat)
    ensures a + |Trim(t)| <= |t| && Trim(t) == t[a..a + |Trim(t)|]
  {
    a := |t| - |TrimStart(t)|;
  }

  /** The trimmed text, unless nothing is left. */
  function Piece(t: Text): seq<Text> {
    if Trim(t) == [] then [] else [Trim(t)]
  }

  lemma PieceKeeps(t: Text, dots: bool)
    ensures Keep(Flatten(Piece(t)), dots) == Keep(t, dots)
  {
    hide Trim;
    TrimKeeps(t, dots);
    if Trim(t) != [] {
      assert Piece(t)[1..] == [];
      assert Trim(t) + [] == Trim(t);
    }
  }

  // ----- fixed windows -----

  /** The windows from position `pos` on. */
  function Windows(t: Text, pos: nat, size: nat, overlap: nat): seq<Text>
    requires overlap < size
    decreases |t| - pos
  {
    if pos >= |t| then []
    else if pos + size >= |t| then [t[pos..]]
    else [t[pos..pos + size]] + Windows(t, pos + size - overlap, size, overlap)
  }

  /** What is done and what is left make the whole. */
  ghost predicate Completes(done: seq<Text>, left: seq<Text>, whole: seq<Text>) {
    done + left == whole
  }

  lemma CompletesNext(done: seq<Text>, x: Text, left: seq<Text>, whole: seq<Text>)
    requires Completes(done, [x] + left, whole)
    ensures Completes(done + [x], left, whole)
  {
    Assoc(done, [x], left);
  }

  lemma CompletesLast(done: seq<Text>, x: Text, whole: seq<Text>)
    requires Completes(done, [x], whole)
    ensures done + [x] == whole
  {
  }

  lemma CompletesFirst(whole: seq<Text>)
    ensures Completes([], whole, whole)
  {
  }

  method FixedChunks(t: Text, size: nat, overlap: nat) returns (out: seq<Text>)
    requires overlap < size
    ensures out == Windows(t, 0, size, overlap)
  {
    out := [];
    if |t| == 0 {
      return;
    }
    hide Windows, Completes;
    ghost var whole := Windows(t, 0, size, overlap);
    CompletesFirst(whole);
    var step := size - overlap;
    var pos := 0;
    while pos < |t|
      invariant 0 <= pos < |t|
      invariant Completes(out, Windows(t, pos, size, overlap), whole)
      decreases |t| - pos
    {
      var end := if pos + size <= |t| then pos + size else |t|;
      var window := t[pos..end];
      WindowsNext(t, pos, size, overlap);
      if end == |t| {
        CompletesLast(out, window, whole);
        out := out + [window];
        return;
      }
      CompletesNext(out, window, Windows(t, pos + step, size, overlap), whole);
      out := out + [window];
      pos := pos + step;
    }
  }

  lemma WindowsNext(t: Text, pos: nat, size: nat, overlap: nat)
    requires overlap < size && pos < |t|
    ensures Windows(t, pos, size, overlap) ==
      if pos + size >= |t| then [t[pos..|t|]] else [t[pos..pos + size]] + Windows(t, pos + size - overlap, size, overlap)
  {
    assert t[pos..|t|] == t[pos..];
  }

  function Drop(t: Text, n: nat): Text { if |t| <= n then [] else t[n..] }

  /** The chunks without the characters each shares with the one before it. */
  function Fresh(chunks: seq<Text>, overlap: nat): Text {
    if chunks == [] then [] else Drop(chunks[0], overlap) + Fresh(chunks[1..], overlap)
  }

  lemma {:induction false} FreshWindows(t: Text, pos: nat, size: nat, overlap: nat)
    requires overlap < size && pos + overlap <= |t|
    ensures Fresh(Windows(t, pos, size, overlap), overlap) == t[pos + overlap..]
    decreases |t| - pos
  {
    hide Fresh, Drop;
    FreshNothing(overlap);
    if pos < |t| && pos + size < |t| {
      var next := pos + size - overlap;
      FreshWindows(t, next, size, overlap);
      FreshCons(t[pos..pos + size], Windows(t, next, size, overlap), overlap);
      DropSlice(t, pos, pos + size, overlap);
    } else if pos < |t| {
      assert [t[pos..]] == [t[pos..]] + [];
      FreshCons(t[pos..], [], overlap);
      DropSlice(t, pos, |t|, overlap);
    }
  }

  lemma FreshNothing(overlap: nat)
    ensures Fresh([], overlap) == []
  {
  }

  lemma FreshCons(c: Text, rest: seq<Text>, overlap: nat)
    ensures Fresh([c] + rest, overlap) == Drop(c, overlap) + Fresh(rest, overlap)
  {
    assert ([c] + rest)[1..] == rest;
  }

  lemma DropSlice(t: Text, pos: nat, end: nat, overlap: nat)
    requires pos + overlap <= end <= |t|
    ensures Drop(t[pos..end], overlap) + t[end..] == t[pos + overlap..]
    ensures end == |t| ==> t[pos..end] == t[pos..] && t[end..] == [] && Drop(t[pos..], overlap) + [] == t[pos + overlap..]
  {
    assert Drop(t[pos..end], overlap) == t[pos + overlap..end];
  }

  /** Windows lose and reorder nothing: the first window, then every later one without its overlap, is the text. */
  lemma WindowsReassemble(t: Text, size: nat, overlap: nat)
    requires overlap < size
    ensures var ws := Windows(t, 0, size, overlap);
      t == if ws == [] then [] else ws[0] + Fresh(ws[1..], overlap)
  {
    var ws := Windows(t, 0, size, overlap);
    if 0 < |t| && size < |t| {
      FreshWindows(t, size - overlap, size, overlap);
      assert ws[1..] == Windows(t, size - overlap, size, overlap);
    } else if ws != [] {
      assert ws[1..] == [] && t[0..] == t;
    }
  }

  /** Every window but the last is full, and the next opens with its last `overlap` characters and goes beyond them. */
  lemma {:induction false} WindowsShape(t: Text, pos: nat, size: nat, overlap: nat, i: nat)
    requires overlap < size && i < |Windows(t, pos, size, overlap)|
    ensures var ws := Windows(t, pos, size, overlap);
      && 0 < |ws[i]| <= size
      && (i + 1 < |ws| ==> |ws[i]| == size && overlap < |ws[i + 1]| && ws[i + 1][..overlap] == ws[i][size - overlap..])
    decreases i
  {
    if pos + size < |t| {
      var next := pos + size - overlap;
      var rest := Windows(t, next, size, overlap);
      if i > 0 {
        WindowsShape(t, next, size, overlap, i - 1);
      } else {
        assert rest[0] == if next + size >= |t| then t[next..] else t[next..next + size];
        assert rest[0][..overlap] == t[next..next + overlap];
      }
    }
  }

  // ----- sentences -----

  predicate IsTerminator(c: char) { c == '.' || c == '!' || c == '?' }

  /** A sentence ends at i: a terminator before whitespace or at the end of the text. */
  predicate EndsAt(t: Text, i: nat)
    requires i < |t|
  {
    IsTerminator(t[i]) && (i + 1 >= |t| || IsWhitespace(t[i + 1]))
  }

  /** The sentences of the text, scanning at i with one begun at `start`. */
  function Sentences(t: Text, start: nat, i: nat): seq<Text>
    requires start <= i <= |t|
    decreases |t| - i
  {
    if i == |t| then (if start < |t| then Piece(t[start..]) else [])
    else if EndsAt(t, i) then Piece(t[start..i + 1]) + Sentences(t, i + 1, i + 1)
    else Sentences(t, start, i + 1)
  }

  method SplitSentences(t: Text) returns (sentences: seq<Text>)
    ensures sentences == Sentences(t, 0, 0)
  {
    hide Trim;
    sentences := [];
    var start := 0;
    for i := 0 to |t|
      invariant start <= i
      invariant sentences + Sentences(t, start, i) == Sentences(t, 0, 0)
    {
      if (t[i] == '.' || t[i] == '!' || t[i] == '?') && (i + 1 >= |t| || IsWhitespace(t[i + 1])) {
        ghost var was, rest := sentences, Sentences(t, i + 1, i + 1);
        var trimmed := Trim(t[start..i + 1]);
        if trimmed != [] {
          sentences := sentences + [trimmed];
        }
        assert was + (Piece(t[start..i + 1]) + rest) == sentences + rest;
        start := i + 1;
      }
    }
    if start < |t| {
      var trimmed := Trim(t[start..]);
      if trimmed != [] {
        sentences := sentences + [trimmed];
      }
    }
  }

  /** Splitting into sentences loses and reorders no character but whitespace. */
  lemma {:induction false} SentencesKeep(t: Text, start: nat, i: nat, dots: bool)
    requires start <= i <= |t|
    ensures Keep(Flatten(Sentences(t, start, i)), dots) == Keep(t[start..], dots)
    decreases |t| - i
  {
    hide Piece, Keep, EndsAt;
    if i == |t| {
      if start < |t| { PieceKeeps(t[start..], dots); } else { assert t[start..] == [] && Flatten([]) == []; }
    } else if EndsAt(t, i) {
      var piece, rest := t[start..i + 1], Sentences(t, i + 1, i + 1);
      SentencesKeep(t, i + 1, i + 1, dots);
      PieceKeeps(piece, dots);
      FlattenAppend(Piece(piece), rest);
      KeepAppend(Flatten(Piece(piece)), Flatten(rest), dots);
      KeepAppend(piece, t[i + 1..], dots);
      assert t[start..] == piece + t[i + 1..];
    } else {
      SentencesKeep(t, start, i + 1, dots);
    }
  }

  /** A sentence is trimmed text in which no terminator is followed by whitespace. */
  ghost predicate IsSentence(s: Text) {
    && s != [] && !IsWhitespace(s[0]) && !IsWhitespace(s[|s| - 1])
    && forall j, k :: 0 <= j && k == j + 1 < |s| ==> !(IsTerminator(s[j]) && IsWhitespace(s[k]))
  }

  lemma {:induction false} SentencesAreSentences(t: Text, start: nat, i: nat)
    requires start <= i <= |t| && forall j :: start <= j < i ==> !EndsAt(t, j)
    ensures forall k :: 0 <= k < |Sentences(t, start, i)| ==> IsSentence(Sentences(t, start, i)[k])
    decreases |t| - i
  {
    hide Piece, IsSentence;
    if i == |t| {
      if start < |t| { PieceIsSentence(t, start, |t|); }
    } else if EndsAt(t, i) {
      SentencesAreSentences(t, i + 1, i + 1);
      PieceIsSentence(t, start, i + 1);
    } else {
      SentencesAreSentences(t, start, i + 1);
    }
  }

  lemma PieceIsSentence(t: Text, start: nat, end: nat)
    requires start < end <= |t| && forall j :: start <= j < end - 1 ==> !EndsAt(t, j)
    ensures forall k :: 0 <= k < |Piece(t[start..end])| ==> IsSentence(Piece(t[start..end])[k])
    ensures t[start..] == t[start..|t|]
  {
    hide IsWhitespace, IsTerminator, Trim;
    var s := t[start..end];
    var a := TrimIsSlice(s);
    var r := Trim(s);
    if r != [] {
      forall j, k | 0 <= j && k == j + 1 < |r| ensures !(IsTerminator(r[j]) && IsWhitespace(r[k])) {
        assert r[j] == t[start + a + j] && r[k] == t[start + a + k];
        assert !EndsAt(t, start + a + j);
      }
    }
  }

  // ----- blank texts and sentence lengths -----

  lemma BlankIff(t: Text)
    ensures Trim(t) == [] <==> Keep(t, true) == []
  {
    hide Trim, IsWhitespace;
    TrimKeeps(t, true);
    if Trim(t) != [] { assert Counted(Trim(t)[0], true); }
  }

  lemma NoSentencesIff(t: Text)
    ensures Sentences(t, 0, 0) == [] <==> Trim(t) == []
  {
    hide Trim, Sentences, IsWhitespace, IsTerminator;
    var ss := Sentences(t, 0, 0);
    BlankIff(t);
    SentencesKeep(t, 0, 0, true);
    SentencesAreSentences(t, 0, 0);
    assert t[0..] == t;
    if ss != [] {
      assert IsSentence(ss[0]) && Counted(ss[0][0], true);
      KeepAppend(ss[0], Flatten(ss[1..]), true);
    }
  }

  /** How much whitespace is known to be trimmed from the text that starts at `start`. */
  function Lead(t: Text, start: nat): nat {
    if start < |t| && IsWhitespace(t[start]) then 1 else 0
  }

  lemma PieceLength(t: Text, start: nat, end: nat)
    requires start < end <= |t|
    ensures |Trim(t[start..end])| + Lead(t, start) <= end - start
  {
    var s := t[start..end];
    assert s[0] == t[start];
    if IsWhitespace(s[0]) { assert |TrimStart(s)| <= |s[1..]|; }
  }

  /** Every sentence but the last ends with its terminator. */
  lemma {:induction false} SentencesEndAtTerminators(t: Text, start: nat, i: nat, k: nat)
    requires start <= i <= |t| && k + 1 < |Sentences(t, start, i)|
    ensures var s := Sentences(t, start, i)[k]; s != [] && s[|s| - 1] in {'.', '!', '?'}
    decreases |t| - i
  {
    hide Trim, EndsAt;
    if i < |t| {
      if EndsAt(t, i) {
        var piece, rest := Piece(t[start..i + 1]), Sentences(t, i + 1, i + 1);
        TerminatorKept(t, start, i);
        if k >= |piece| { SentencesEndAtTerminators(t, i + 1, i + 1, k - |piece|); }
      } else {
        SentencesEndAtTerminators(t, start, i + 1, k);
      }
    }
  }

  lemma TerminatorKept(t: Text, start: nat, i: nat)
    requires start <= i < |t| && EndsAt(t, i)
    ensures var s := Trim(t[start..i + 1]); s != [] && s[|s| - 1] == t[i] && t[i] in {'.', '!', '?'}
  {
    hide IsWhitespace, Trim, IsTerminator;
    var s := t[start..i + 1];
    TerminatorIsInk(t[i]);
    assert s[|s| - 1] == t[i];
    LastStays(s);
  }

  lemma TerminatorIsInk(c: char)
    requires IsTerminator(c)
    ensures !IsWhitespace(c) && c in {'.', '!', '?'}
  {
  }

  lemma {:induction false} LastStays(s: Text)
    requires s != [] && !IsWhitespace(s[|s| - 1])
    ensures Trim(s) != [] && Trim(s)[|Trim(s)| - 1] == s[|s| - 1]
  {
    hide IsWhitespace;
    if IsWhitespace(s[0]) {
      LastStays(s[1..]);
      assert TrimStart(s) == TrimStart(s[1..]);
    }
  }
}

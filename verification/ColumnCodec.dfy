/** One column chunk of a columnar stripe before compression: an optional null bitmap, then the present values. */
module ColumnCodec {
  import opened LittleEndian
  import opened Powers
  import D = Division

  /** An SQL value of a column: NULL, or its stored bytes. */
  datatype Cell = Null | Present(bytes: seq<byte>)

  /** The column's type length: every value that many bytes, or a length-prefixed value. */
  datatype Width = Fixed(len: nat) | Varlena

  // ----- bits of a byte -----

  predicate BitOf(b: nat, k: nat) {
    if k == 0 then b % 2 == 1 else BitOf(b / 2, k - 1)
  }

  /** `b | 1 << k`. */
  function SetBit(b: nat, k: nat): nat {
    if k == 0 then (if b % 2 == 1 then b else b + 1) else b % 2 + 2 * SetBit(b / 2, k - 1)
  }

  lemma {:induction false} SetBitSets(b: nat, k: nat, j: nat)
    ensures BitOf(SetBit(b, k), j) <==> j == k || BitOf(b, j)
  {
    if k > 0 && j > 0 { SetBitSets(b / 2, k - 1, j - 1); }
  }

  lemma {:induction false} SetBitFits(b: nat, k: nat, m: nat)
    requires b < Pow2(m) && k < m
    ensures SetBit(b, k) < Pow2(m)
  {
    HalfFits(b, Pow2(m - 1));
    if k > 0 { SetBitFits(b / 2, k - 1, m - 1); }
  }

  /** Bit k is the k-th binary digit, the lowest first. */
  lemma {:induction false} BitIsDigit(b: nat, k: nat)
    ensures BitOf(b, k) <==> b / Pow2(k) % 2 == 1
  {
    if k > 0 {
      BitIsDigit(b / 2, k - 1);
      D.DivideTwice(b, 2, Pow2(k - 1));
    }
  }

  lemma HalfFits(b: nat, p: nat)
    requires b < 2 * p
    ensures b / 2 < p && (b % 2 == 0 ==> b + 1 < 2 * p)
    ensures forall s: nat :: s < p ==> b % 2 + 2 * s < 2 * p
  {
  }

  lemma ByteIsPow2()
    ensures Pow2(8) == 256
  {
    assert Pow2(4) == 16;
  }

  lemma {:induction false} NoBits(k: nat)
    ensures !BitOf(0, k)
  {
    if k > 0 { NoBits(k - 1); }
  }

  // ----- the layout -----

  function BitmapLen(n: nat): nat { (n + 7) / 8 }

  ghost predicate HasBit(b: seq<byte>, i: nat)
    requires i < 8 * |b|
  {
    BitOf(b[i / 8], i % 8)
  }

  /** Bit i is set exactly for a present value i; padding bits are clear. */
  ghost predicate IsBitmap(b: seq<byte>, values: seq<Cell>) {
    && |b| == BitmapLen(|values|)
    && forall i :: 0 <= i < 8 * |b| ==> (HasBit(b, i) <==> i < |values| && values[i].Present?)
  }

  /** What a value adds to the value stream. */
  function Item(c: Cell, w: Width): seq<byte> {
    if c.Null? then []
    else if w.Fixed? then c.bytes
    else Encode(|c.bytes|, 4) + c.bytes
  }

  /** The present values one after the other. */
  ghost function Stream(values: seq<Cell>, w: Width): seq<byte> {
    if values == [] then [] else Item(values[0], w) + Stream(values[1..], w)
  }

  ghost predicate Fits(c: Cell, w: Width) {
    c.Present? ==> if w.Fixed? then |c.bytes| == w.len else |c.bytes| < Pow256(4)
  }

  ghost predicate AllFit(values: seq<Cell>, w: Width) {
    forall i :: 0 <= i < |values| ==> Fits(values[i], w)
  }

  predicate HasNull(values: seq<Cell>) {
    exists i :: 0 <= i < |values| && values[i].Null?
  }

  function CountNulls(values: seq<Cell>): (n: nat)
    ensures n <= |values|
    ensures n == 0 <==> !HasNull(values)
    ensures n == |values| <==> forall i :: 0 <= i < |values| ==> values[i].Null?
  {
    if values == [] then 0
    else
      var init := values[..|values| - 1];
      assert values == init + [values[|values| - 1]];
      CountNulls(init) + (if values[|values| - 1].Null? then 1 else 0)
  }

  /** The chunk's bytes: a bitmap only when something is NULL. */
  ghost predicate Encodes(raw: seq<byte>, values: seq<Cell>, w: Width) {
    if HasNull(values) then
      var cut := BitmapLen(|values|);
      |raw| >= cut && IsBitmap(raw[..cut], values) && raw[cut..] == Stream(values, w)
    else raw == Stream(values, w)
  }

  // ----- encoding -----

  method EncodeBitmap(values: seq<Cell>) returns (bitmap: seq<byte>)
    ensures IsBitmap(bitmap, values)
    ensures |values| <= 8 * |bitmap| < |values| + 8
  {
    hide BitOf, SetBit, Pow2;
    var n := |values|;
    var bits := new byte[BitmapLen(n)](_ => 0);
    forall i | 0 <= i < 8 * bits.Length ensures !HasBit(bits[..], i) {
      NoBits(i % 8);
    }
    for i := 0 to n
      invariant forall j :: 0 <= j < 8 * bits.Length ==> (HasBit(bits[..], j) <==> j < i && values[j].Present?)
    {
      if values[i].Present? {
        ghost var was := bits[..];
        ByteIsPow2();
        SetBitFits(bits[i / 8], i % 8, 8);
        bits[i / 8] := SetBit(bits[i / 8], i % 8);
        forall j | 0 <= j < 8 * bits.Length
          ensures HasBit(bits[..], j) <==> HasBit(was, j) || j == i
        {
          SetBitSets(was[i / 8], i % 8, j % 8);
        }
      }
    }
    bitmap := bits[..];
  }

  lemma StreamSnoc(values: seq<Cell>, c: Cell, w: Width)
    ensures Stream(values + [c], w) == Stream(values, w) + Item(c, w)
  {
    StreamAppend(values, [c], w);
    assert Stream([c], w) == Item(c, w) + Stream([], w);
  }

  lemma {:induction false} StreamAppend(a: seq<Cell>, b: seq<Cell>, w: Width)
    ensures Stream(a + b, w) == Stream(a, w) + Stream(b, w)
  {
    hide Item, Stream;
    if a == [] {
      NothingStreams(b, w);
    } else {
      StreamAppend(a[1..], b, w);
      StreamFirst(a, w);
      StreamFirst(a + b, w);
      TailOfAppend(a, b);
      Regroup(Item(a[0], w), Stream(a[1..], w), Stream(b, w));
    }
  }

  lemma StreamFirst(values: seq<Cell>, w: Width)
    requires values != []
    ensures Stream(values, w) == Item(values[0], w) + Stream(values[1..], w)
  {
  }

  lemma NothingStreams(b: seq<Cell>, w: Width)
    ensures [] + b == b && Stream([], w) + Stream(b, w) == Stream(b, w)
  {
  }

  lemma TailOfAppend(a: seq<Cell>, b: seq<Cell>)
    requires a != []
    ensures (a + b)[0] == a[0] && (a + b)[1..] == a[1..] + b
  {
  }

  /** A stream opens with its first present value: its bytes, after their length in four bytes when it varies. */
  lemma StreamOpens(values: seq<Cell>, w: Width)
    requires values != [] && values[0].Present?
    ensures w.Fixed? ==> values[0].bytes <= Stream(values, w)
    ensures w.Varlena? ==> Encode(|values[0].bytes|, 4) + values[0].bytes <= Stream(values, w)
    ensures Stream([Null] + values, w) == Stream(values, w)
  {
    hide Encode;
    assert ([Null] + values)[1..] == values;
    assert Stream([Null] + values, w) == Item(Null, w) + Stream(values, w);
  }

  lemma Regroup(a: seq<byte>, b: seq<byte>, c: seq<byte>)
    ensures a + (b + c) == (a + b) + c
  {
  }

  /** The raw bytes and the counts kept beside them. */
  datatype Encoded = Encoded(raw: seq<byte>, nullCount: nat, hasNulls: bool, allNull: bool)

  method EncodeColumn(values: seq<Cell>, w: Width) returns (e: Encoded)
    ensures Encodes(e.raw, values, w)
    ensures e.nullCount == CountNulls(values)
    ensures e.hasNulls <==> HasNull(values)
    ensures e.allNull <==> |values| > 0 && forall i :: 0 <= i < |values| ==> values[i].Null?
  {
    hide IsBitmap, Item, Stream, CountNulls;
    var nullCount := CountNulls(values);
    var hasNulls := nullCount > 0;
    var raw := [];
    if hasNulls {
      raw := EncodeBitmap(values);
      assert |raw| == BitmapLen(|values|) by { BitmapLength(raw, values); }
    }
    ghost var bitmap := raw;
    NothingToStream(raw, w);
    for i := 0 to |values|
      invariant raw == bitmap + Stream(values[..i], w)
    {
      StreamNext(values, i, w);
      Regroup(bitmap, Stream(values[..i], w), Item(values[i], w));
      raw := raw + Item(values[i], w);
    }
    assert values[..|values|] == values;
    SplitAgain(bitmap, Stream(values, w));
    e := Encoded(raw, nullCount, hasNulls, nullCount == |values| && |values| > 0);
  }

  lemma NothingToStream(raw: seq<byte>, w: Width)
    ensures raw + Stream([], w) == raw
  {
  }

  lemma StreamNext(values: seq<Cell>, i: nat, w: Width)
    requires i < |values|
    ensures Stream(values[..i + 1], w) == Stream(values[..i], w) + Item(values[i], w)
  {
    hide Stream, Item;
    StreamSnoc(values[..i], values[i], w);
    assert values[..i + 1] == values[..i] + [values[i]];
  }

  lemma SplitAgain(a: seq<byte>, b: seq<byte>)
    ensures (a + b)[..|a|] == a && (a + b)[|a|..] == b
  {
  }

  lemma BitmapLength(b: seq<byte>, values: seq<Cell>)
    requires IsBitmap(b, values)
    ensures |b| == BitmapLen(|values|)
  {
  }

  // ----- decoding -----

  datatype Result<T> = Ok(value: T) | Truncated

  /** The next value of the stream and what is left. */
  function TakeValue(raw: seq<byte>, w: Width): (r: Result<(Cell, seq<byte>)>)
    ensures r.Ok? ==> r.value.0.Present?
  {
    match w
    case Fixed(len) => if len > |raw| then Truncated else Ok((Present(raw[..len]), raw[len..]))
    case Varlena =>
      if 4 > |raw| then Truncated
      else
        var len := Decode(raw[..4]);
        if 4 + len > |raw| then Truncated else Ok((Present(raw[4..4 + len]), raw[4 + len..]))
  }

  /** Reading values off the stream, as many as the presence flags announce. */
  function Parse(raw: seq<byte>, present: seq<bool>, w: Width): (r: Result<seq<Cell>>)
    ensures r.Ok? ==> |r.value| == |present|
    decreases |present|
  {
    if present == [] then Ok([])
    else if !present[0] then Cons(Null, Parse(raw, present[1..], w))
    else
      match TakeValue(raw, w)
      case Truncated => Truncated
      case Ok((c, rest)) => Cons(c, Parse(rest, present[1..], w))
  }

  function Cons(c: Cell, r: Result<seq<Cell>>): Result<seq<Cell>> {
    match r
    case Truncated => Truncated
    case Ok(cs) => Ok([c] + cs)
  }

  /** The values are those a stream starts with. */
  ghost predicate Reads(raw: seq<byte>, present: seq<bool>, w: Width, values: seq<Cell>) {
    && |values| == |present|
    && (forall i :: 0 <= i < |values| ==> (values[i].Present? <==> present[i]))
    && AllFit(values, w)
    && Stream(values, w) <= raw
  }

  lemma TakeItem(raw: seq<byte>, w: Width, c: Cell)
    requires c.Present? && Fits(c, w) && Item(c, w) <= raw
    ensures TakeValue(raw, w) == Ok((c, raw[|Item(c, w)|..]))
  {
    if w.Varlena? {
      hide Encode, Decode, Pow256;
      DecodeEncode(|c.bytes|, 4);
      var item := Item(c, w);
      assert raw[..4] == item[..4] == Encode(|c.bytes|, 4);
      assert raw[4..4 + |c.bytes|] == item[4..] == c.bytes;
      assert TakeValue(raw, w) == Ok((Present(raw[4..4 + |c.bytes|]), raw[4 + |c.bytes|..]));
    } else {
      assert raw[..w.len] == c.bytes;
    }
  }

  lemma TakenItem(raw: seq<byte>, w: Width)
    requires TakeValue(raw, w).Ok?
    ensures var (c, rest) := TakeValue(raw, w).value;
            Fits(c, w) && raw == Item(c, w) + rest
  {
    if w.Varlena? {
      hide Encode, Decode, Pow256;
      EncodeDecode(raw[..4]);
      assert raw == raw[..4] + raw[4..];
    }
  }

  /** A stream is read as the values it starts with, and as nothing else: on any bytes at all, either there are such
      values and they are unique, or reading fails. */
  lemma {:induction false} ParseIff(raw: seq<byte>, present: seq<bool>, w: Width, values: seq<Cell>)
    ensures Parse(raw, present, w) == Ok(values) <==> Reads(raw, present, w, values)
    decreases |present|
  {
    hide Item, Fits, TakeValue;
    if present == [] {
      assert Stream([], w) == [];
    } else {
      if Parse(raw, present, w) == Ok(values) { ParseSound(raw, present, w, values); }
      if Reads(raw, present, w, values) { ParseComplete(raw, present, w, values); }
    }
  }

  lemma {:induction false} ParseSound(raw: seq<byte>, present: seq<bool>, w: Width, values: seq<Cell>)
    requires Parse(raw, present, w) == Ok(values)
    ensures Reads(raw, present, w, values)
    decreases |present|
  {
    hide Item, Fits, TakeValue;
    if present != [] {
      var rest := raw;
      if present[0] {
        TakenItem(raw, w);
        rest := TakeValue(raw, w).value.1;
      } else {
        NullAddsNothing(w);
      }
      assert values[1..] == Parse(rest, present[1..], w).value;
      ParseSound(rest, present[1..], w, values[1..]);
      assert values == [values[0]] + values[1..];
    }
  }

  lemma NullAddsNothing(w: Width)
    ensures Item(Null, w) == [] && Fits(Null, w)
  {
  }

  lemma {:induction false} ParseComplete(raw: seq<byte>, present: seq<bool>, w: Width, values: seq<Cell>)
    requires Reads(raw, present, w, values)
    ensures Parse(raw, present, w) == Ok(values)
    decreases |present|
  {
    hide Item, Fits, TakeValue;
    if present != [] {
      var item := Item(values[0], w);
      assert raw[|item|..] == raw[|item|..];
      if present[0] {
        TakeItem(raw, w, values[0]);
      } else {
        NullAddsNothing(w);
      }
      ParseComplete(raw[|item|..], present[1..], w, values[1..]);
      assert values == [values[0]] + values[1..];
    }
  }

  ghost function Presence(raw: seq<byte>, n: nat): (p: seq<bool>)
    requires |raw| >= BitmapLen(n)
    ensures |p| == n && forall i :: 0 <= i < n ==> (p[i] <==> HasBit(raw, i))
  {
    seq(n, i requires 0 <= i < n => HasBit(raw, i))
  }

  function AllPresent(n: nat): (p: seq<bool>)
    ensures |p| == n && forall i :: 0 <= i < n ==> p[i]
  {
    seq(n, _ => true)
  }

  /** What a chunk's bytes decode to, if anything. */
  ghost function Decoded(raw: seq<byte>, w: Width, n: nat, hasNulls: bool): Result<seq<Cell>> {
    if !hasNulls then Parse(raw, AllPresent(n), w)
    else if |raw| < BitmapLen(n) then Truncated
    else Parse(raw[BitmapLen(n)..], Presence(raw, n), w)
  }

  ghost function Prepend(done: seq<Cell>, r: Result<seq<Cell>>): Result<seq<Cell>> {
    match r
    case Truncated => Truncated
    case Ok(cs) => Ok(done + cs)
  }

  /** Every bounds check fails into an error; otherwise there are exactly `rowCount` values. */
  method DecodeColumn(raw: seq<byte>, w: Width, rowCount: nat, hasNulls: bool) returns (r: Result<seq<Cell>>)
    ensures r == Decoded(raw, w, rowCount, hasNulls)
    ensures r.Ok? ==> |r.value| == rowCount
  {
    hide BitOf, TakeValue, Parse;
    var off := 0;
    var present := AllPresent(rowCount);
    if hasNulls {
      var cut := BitmapLen(rowCount);
      if |raw| < cut {
        return Truncated;
      }
      off := cut;
      present := seq(rowCount, i requires 0 <= i < rowCount => BitOf(raw[i / 8], i % 8));
      assert present == Presence(raw, rowCount);
    }
    ghost var start := off;
    var out := [];
    assert present[0..] == present;
    PrependNothing(Parse(raw[off..], present, w));
    for i := 0 to rowCount
      invariant 0 <= off <= |raw| && |out| == i
      invariant Parse(raw[start..], present, w) == Prepend(out, Parse(raw[off..], present[i..], w))
    {
      ParseStep(raw[off..], present[i..], w);
      assert present[i..][1..] == present[i + 1..];
      ghost var was := out;
      if !present[i] {
        PrependCons(was, Null, Parse(raw[off..], present[i + 1..], w));
        out := out + [Null];
      } else {
        TakeAt(raw, off, w);
        match w
        case Fixed(len) =>
          if off + len > |raw| {
            return Truncated;
          }
          out := out + [Present(raw[off..off + len])];
          off := off + len;
          PrependCons(was, out[i], Parse(raw[off..], present[i + 1..], w));
        case Varlena =>
          if off + 4 > |raw| {
            return Truncated;
          }
          var len := Decode(raw[off..off + 4]);
          off := off + 4;
          if off + len > |raw| {
            return Truncated;
          }
          out := out + [Present(raw[off..off + len])];
          off := off + len;
          PrependCons(was, out[i], Parse(raw[off..], present[i + 1..], w));
      }
    }
    ParseNothing(raw[off..], present[rowCount..], w);
    assert out + [] == out && raw[0..] == raw;
    r := Ok(out);
  }

  lemma PrependNothing(r: Result<seq<Cell>>)
    ensures Prepend([], r) == r
  {
    if r.Ok? { assert [] + r.value == r.value; }
  }

  lemma PrependCons(done: seq<Cell>, c: Cell, r: Result<seq<Cell>>)
    ensures Prepend(done, Cons(c, r)) == Prepend(done + [c], r)
  {
    if r.Ok? { assert done + ([c] + r.value) == (done + [c]) + r.value; }
  }

  lemma ParseNothing(raw: seq<byte>, present: seq<bool>, w: Width)
    requires |present| == 0
    ensures Parse(raw, present, w) == Ok([])
  {
  }

  lemma ParseStep(raw: seq<byte>, present: seq<bool>, w: Width)
    requires present != []
    ensures Parse(raw, present, w) ==
      if !present[0] then Cons(Null, Parse(raw, present[1..], w))
      else if TakeValue(raw, w).Truncated? then Truncated
      else Cons(TakeValue(raw, w).value.0, Parse(TakeValue(raw, w).value.1, present[1..], w))
  {
  }

  /** Taking a value at an offset of the buffer. */
  lemma TakeAt(raw: seq<byte>, off: nat, w: Width)
    requires off <= |raw|
    ensures TakeValue(raw[off..], w) ==
      if w.Fixed? then
        if off + w.len > |raw| then Truncated else Ok((Present(raw[off..off + w.len]), raw[off + w.len..]))
      else if off + 4 > |raw| then Truncated
      else
        var len := Decode(raw[off..off + 4]);
        var at := off + 4;
        if at + len > |raw| then Truncated else Ok((Present(raw[at..at + len]), raw[at + len..]))
  {
    hide Decode;
    var rest := raw[off..];
    if w.Fixed? {
      if off + w.len <= |raw| {
        assert rest[..w.len] == raw[off..off + w.len] && rest[w.len..] == raw[off + w.len..];
      }
    } else if off + 4 <= |raw| {
      assert rest[..4] == raw[off..off + 4];
      var len, at := Decode(raw[off..off + 4]), off + 4;
      if at + len <= |raw| {
        assert rest[4..4 + len] == raw[at..at + len] && rest[4 + len..] == raw[at + len..];
      }
    }
  }

  /** Decoding what was encoded returns every value and every NULL, of either width. */
  lemma DecodesEncoded(raw: seq<byte>, values: seq<Cell>, w: Width)
    requires Encodes(raw, values, w) && AllFit(values, w)
    ensures Decoded(raw, w, |values|, HasNull(values)) == Ok(values)
  {
    hide Stream, Parse, Fits, BitOf;
    var n := |values|;
    if HasNull(values) {
      var cut := BitmapLen(n);
      forall i | 0 <= i < n ensures Presence(raw, n)[i] <==> values[i].Present? {
        assert HasBit(raw[..cut], i) <==> HasBit(raw, i);
      }
      ParseIff(raw[cut..], Presence(raw, n), w, values);
    } else {
      ParseIff(raw, AllPresent(n), w, values);
    }
  }

  method RoundTrip(values: seq<Cell>, w: Width) returns (r: Result<seq<Cell>>)
    requires AllFit(values, w)
    ensures r == Ok(values)
  {
    hide Encodes, Decoded, AllFit;
    var e := EncodeColumn(values, w);
    DecodesEncoded(e.raw, values, w);
    r := DecodeColumn(e.raw, w, |values|, e.hasNulls);
  }

  /** What arbitrary bytes decode to, they hold: re-reading them as the decoded values' stream succeeds. */
  lemma DecodedIsHeld(raw: seq<byte>, w: Width, n: nat, hasNulls: bool, values: seq<Cell>)
    ensures Decoded(raw, w, n, hasNulls) == Ok(values) <==>
      && (hasNulls ==> |raw| >= BitmapLen(n))
      && Reads(if hasNulls then raw[BitmapLen(n)..] else raw, if hasNulls then Presence(raw, n) else AllPresent(n), w, values)
  {
    hide Parse, Reads;
    if !hasNulls {
      ParseIff(raw, AllPresent(n), w, values);
    } else if |raw| >= BitmapLen(n) {
      ParseIff(raw[BitmapLen(n)..], Presence(raw, n), w, values);
    }
  }
}

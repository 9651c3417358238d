/** The 8-bit scalar quantizer: one byte per dimension between the dimension's trained bounds. */
module Sq8 {
  import LE = LittleEndian
  import opened RealSums

  type Vector = seq<real>

  datatype Quantizer = Quantizer(vmin: seq<real>, vdiff: seq<real>) {
    ghost predicate Valid() {
      |vmin| == |vdiff| && forall i :: 0 <= i < |vdiff| ==> vdiff[i] >= 0.0
    }
  }

  // ----- training -----

  /** The smallest and largest value the corpus has in dimension i. */
  ghost predicate Extremes(corpus: seq<Vector>, i: nat, lo: real, hi: real) {
    && (forall v :: v in corpus && i < |v| ==> lo <= v[i] <= hi)
    && (exists v :: v in corpus && i < |v| && v[i] == lo)
    && (exists v :: v in corpus && i < |v| && v[i] == hi)
  }

  ghost predicate Trained(corpus: seq<Vector>, q: Quantizer) {
    && q.Valid() && |q.vmin| == (if corpus == [] then 0 else |corpus[0]|)
    && forall i :: 0 <= i < |q.vmin| ==> Extremes(corpus, i, q.vmin[i], q.vmin[i] + q.vdiff[i])
  }

  /** One dimension of the codebook. The first vector has every dimension, so each is touched. */
  method TrainDimension(corpus: seq<Vector>, i: nat) returns (lo: real, hi: real)
    requires corpus != [] && i < |corpus[0]|
    ensures Extremes(corpus, i, lo, hi) && lo <= hi
  {
    lo, hi := corpus[0][i], corpus[0][i];
    for k := 1 to |corpus|
      invariant Extremes(corpus[..k], i, lo, hi) && lo <= hi
    {
      assert corpus[..k + 1] == corpus[..k] + [corpus[k]];
      if i < |corpus[k]| {
        ghost var l, h := lo, hi;
        if corpus[k][i] < lo { lo := corpus[k][i]; }
        if corpus[k][i] > hi { hi := corpus[k][i]; }
        ExtremesStep(corpus[..k], corpus[k], i, l, h, lo, hi);
      } else {
        ExtremesSkip(corpus[..k], corpus[k], i, lo, hi);
      }
    }
    assert corpus[..|corpus|] == corpus;
  }

  lemma ExtremesStep(corpus: seq<Vector>, v: Vector, i: nat, lo: real, hi: real, lo': real, hi': real)
    requires Extremes(corpus, i, lo, hi) && i < |v|
    requires lo' == (if v[i] < lo then v[i] else lo) && hi' == (if v[i] > hi then v[i] else hi)
    ensures Extremes(corpus + [v], i, lo', hi')
  {
    var a :| a in corpus && i < |a| && a[i] == lo;
    var b :| b in corpus && i < |b| && b[i] == hi;
    assert a in corpus + [v] && b in corpus + [v] && v in corpus + [v];
  }

  lemma ExtremesSkip(corpus: seq<Vector>, v: Vector, i: nat, lo: real, hi: real)
    requires Extremes(corpus, i, lo, hi) && i >= |v|
    ensures Extremes(corpus + [v], i, lo, hi)
  {
    var a :| a in corpus && i < |a| && a[i] == lo;
    var b :| b in corpus && i < |b| && b[i] == hi;
    assert a in corpus + [v] && b in corpus + [v];
  }

  method Train(corpus: seq<Vector>) returns (q: Quantizer)
    ensures Trained(corpus, q)
  {
    hide Extremes;
    var dim := if corpus == [] then 0 else |corpus[0]|;
    var vmin, vdiff := [], [];
    for i := 0 to dim
      invariant |vmin| == |vdiff| == i
      invariant forall k :: 0 <= k < i ==> vdiff[k] >= 0.0 && Extremes(corpus, k, vmin[k], vmin[k] + vdiff[k])
    {
      var lo, hi := TrainDimension(corpus, i);
      assert lo + (hi - lo) == hi;
      vmin, vdiff := vmin + [lo], vdiff + [hi - lo];
    }
    q := Quantizer(vmin, vdiff);
  }

  /** Training looks only at which vectors there are, and at the length of the first: corpora of the same vectors, in
      any order and number, give the same codebook exactly when their first vectors have equal length. */
  lemma TrainingIsOrderIndependent(a: seq<Vector>, b: seq<Vector>, p: Quantizer, q: Quantizer)
    requires Trained(a, p) && Trained(b, q) && (forall v :: v in a <==> v in b)
    ensures p == q <==> a == [] || (b != [] && |a[0]| == |b[0]|)
  {
    assert a != [] ==> a[0] in b;
    assert b != [] ==> b[0] in a;
    if a == [] || |a[0]| == |b[0]| {
      SameLength(a, b, p, q);
    }
  }

  lemma SameLength(a: seq<Vector>, b: seq<Vector>, p: Quantizer, q: Quantizer)
    requires Trained(a, p) && Trained(b, q) && (forall v :: v in a <==> v in b) && |p.vmin| == |q.vmin|
    ensures p == q
  {
    hide Extremes;
    forall i | 0 <= i < |p.vmin| ensures p.vmin[i] == q.vmin[i] && p.vdiff[i] == q.vdiff[i] {
      ExtremesUnique(a, b, i, p.vmin[i], p.vmin[i] + p.vdiff[i], q.vmin[i], q.vmin[i] + q.vdiff[i]);
    }
  }

  lemma ExtremesUnique(a: seq<Vector>, b: seq<Vector>, i: nat, lo: real, hi: real, lo': real, hi': real)
    requires Extremes(a, i, lo, hi) && Extremes(b, i, lo', hi') && forall v :: v in a <==> v in b
    ensures lo == lo' && hi == hi'
  {
  }

  // ----- one dimension -----

  function EncodeAt(x: real, lo: real, diff: real): nat {
    var c := if diff > 0.0 then (255.0 * Clamp((x - lo) / diff, 0.0, 1.0)).Floor else 0;
    if c < 0 then 0 else c
  }

  function DecodeAt(c: nat, lo: real, diff: real): real {
    lo + (c as real + 0.5) / 255.0 * diff
  }

  lemma Scaled(x: real, lo: real, diff: real) returns (s: real)
    requires diff > 0.0 && lo <= x <= lo + diff
    ensures s == (x - lo) / diff && 0.0 <= s <= 1.0 && x == lo + s * diff
  {
    s := (x - lo) / diff;
    assert s * diff == x - lo;
    if s < 0.0 { NegativeTimes(s, diff); }
    assert (1.0 - s) * diff == diff - s * diff;
    if s > 1.0 { NegativeTimes(1.0 - s, diff); }
  }

  lemma NegativeTimes(s: real, d: real)
    requires s < 0.0 && d > 0.0
    ensures s * d < 0.0
  {
  }

  lemma TimesBetween(s: real, bound: real, d: real)
    requires d >= 0.0 && -bound <= s <= bound
    ensures -(bound * d) <= s * d <= bound * d
  {
    assert (bound - s) * d >= 0.0 && (bound + s) * d >= 0.0;
    assert (bound - s) * d == bound * d - s * d && (bound + s) * d == bound * d + s * d;
  }

  /** A value in the trained range comes back within a 510th of the range's width. */
  lemma ErrorBound(x: real, lo: real, diff: real)
    requires diff >= 0.0 && lo <= x <= lo + diff
    ensures EncodeAt(x, lo, diff) <= 255
    ensures -(diff / 510.0) <= DecodeAt(EncodeAt(x, lo, diff), lo, diff) - x <= diff / 510.0
  {
    if diff > 0.0 {
      var s := Scaled(x, lo, diff);
      var c := EncodeAt(x, lo, diff);
      assert c == (255.0 * s).Floor && c as real <= 255.0 * s < c as real + 1.0;
      var e := (c as real + 0.5) / 255.0 - s;
      assert -(1.0 / 510.0) <= e <= 1.0 / 510.0;
      TimesBetween(e, 1.0 / 510.0, diff);
      DecodedError(c, lo, diff, s);
      assert 1.0 / 510.0 * diff == diff / 510.0;
    }
  }

  lemma DecodedError(c: nat, lo: real, diff: real, s: real)
    ensures DecodeAt(c, lo, diff) - (lo + s * diff) == ((c as real + 0.5) / 255.0 - s) * diff
  {
    var d := (c as real + 0.5) / 255.0;
    assert (d - s) * diff == d * diff - s * diff;
  }

  /** Codes survive a decode and encode when the dimension has any width. */
  lemma CodeRoundTrip(c: nat, lo: real, diff: real)
    requires diff > 0.0 && c <= 255
    ensures EncodeAt(DecodeAt(c, lo, diff), lo, diff) == c
  {
    var s := (c as real + 0.5) / 255.0;
    assert (DecodeAt(c, lo, diff) - lo) == s * diff;
    TimesOver(s, diff);
    if c == 255 { assert s > 1.0; } else { assert 255.0 * s == c as real + 0.5; }
  }

  lemma TimesOver(s: real, d: real)
    requires d > 0.0
    ensures s * d / d == s
  {
  }

  /** Larger values never get smaller codes, inside the trained range and outside. */
  lemma EncodingIsMonotone(x: real, y: real, lo: real, diff: real)
    requires diff >= 0.0 && x <= y
    ensures EncodeAt(x, lo, diff) <= EncodeAt(y, lo, diff) <= 255
  {
    if diff > 0.0 { DividesMonotone(x - lo, y - lo, diff); }
  }

  lemma DividesMonotone(x: real, y: real, d: real)
    requires d > 0.0 && x <= y
    ensures x / d <= y / d
  {
    var s, t := x / d, y / d;
    assert s * d == x && t * d == y;
    assert (t - s) * d == t * d - s * d;
    if s > t { NegativeTimes(t - s, d); }
  }

  // ----- whole vectors -----

  /** A vector shorter than the codebook counts as padded with zeros. */
  function ValueAt(v: Vector, i: nat): real { if i < |v| then v[i] else 0.0 }

  method Encode(q: Quantizer, v: Vector) returns (code: seq<nat>)
    requires q.Valid()
    ensures |code| == |q.vmin|
    ensures forall i :: 0 <= i < |code| ==>
      code[i] <= 255 && code[i] == EncodeAt(if i < |v| then v[i] else 0.0, q.vmin[i], q.vdiff[i])
  {
    hide EncodeAt;
    code := [];
    for i := 0 to |q.vmin|
      invariant |code| == i
      invariant forall k :: 0 <= k < i ==> code[k] <= 255 && code[k] == EncodeAt(ValueAt(v, k), q.vmin[k], q.vdiff[k])
    {
      var x := ValueAt(v, i);
      EncodingIsMonotone(x, x, q.vmin[i], q.vdiff[i]);
      code := code + [EncodeAt(x, q.vmin[i], q.vdiff[i])];
    }
  }

  method Decode(q: Quantizer, code: seq<nat>) returns (v: Vector)
    requires q.Valid()
    ensures |v| == |q.vmin|
    ensures forall i :: 0 <= i < |v| ==> v[i] == DecodeAt(if i < |code| then code[i] else 0, q.vmin[i], q.vdiff[i])
  {
    v := [];
    for i := 0 to |q.vmin|
      invariant |v| == i
      invariant forall k :: 0 <= k < i ==> v[k] == DecodeAt(if k < |code| then code[k] else 0, q.vmin[k], q.vdiff[k])
    {
      v := v + [DecodeAt(if i < |code| then code[i] else 0, q.vmin[i], q.vdiff[i])];
    }
  }

  /** Every corpus vector, stored and read back, is within a 510th of each dimension's spread. */
  method TrainEncodeDecode(corpus: seq<Vector>, n: nat) returns (q: Quantizer, v: Vector)
    requires n < |corpus|
    ensures Trained(corpus, q) && |v| == |corpus[0]|
    ensures forall i :: 0 <= i < |v| && i < |corpus[n]| ==>
      -(q.vdiff[i] / 510.0) <= v[i] - corpus[n][i] <= q.vdiff[i] / 510.0
  {
    hide EncodeAt, DecodeAt;
    q := Train(corpus);
    var code := Encode(q, corpus[n]);
    v := Decode(q, code);
    forall i | 0 <= i < |v| && i < |corpus[n]|
      ensures -(q.vdiff[i] / 510.0) <= v[i] - corpus[n][i] <= q.vdiff[i] / 510.0
    {
      assert corpus[n] in corpus && Extremes(corpus, i, q.vmin[i], q.vmin[i] + q.vdiff[i]);
      ErrorBound(corpus[n][i], q.vmin[i], q.vdiff[i]);
    }
  }

  // ----- the codebook as stored -----

  /** The codebook with its floats as 32-bit patterns. */
  datatype Book = Book(vmin: seq<nat>, vdiff: seq<nat>)

  datatype Loaded = Loaded(book: Book) | Truncated

  ghost predicate Storable(b: Book) {
    |b.vmin| == |b.vdiff| < LE.Pow256(4) && LE.Fit(b.vmin, 4) && LE.Fit(b.vdiff, 4)
  }

  ghost function Stored(b: Book): seq<LE.byte> {
    LE.Encode(|b.vmin|, 4) + LE.Pack(b.vmin, 4) + LE.Pack(b.vdiff, 4)
  }

  method ToMetaBytes(b: Book) returns (out: seq<LE.byte>)
    ensures out == Stored(b)
  {
    out := LE.Encode(|b.vmin|, 4);
    out := LE.Append(out, b.vmin, 4);
    out := LE.Append(out, b.vdiff, 4);
  }

  /** Accepts exactly the buffers that hold at least what their header announces, and reads what such a buffer starts
      with. */
  method FromMetaBytes(bytes: seq<LE.byte>) returns (r: Loaded)
    ensures r.Loaded? <==> |bytes| >= 4 && |bytes| >= 4 + LE.Decode(bytes[..4]) * 8
    ensures r.Loaded? ==> Storable(r.book) && Stored(r.book) <= bytes
  {
    hide LE.Encode, LE.Decode, LE.Pack, LE.Unpack;
    if |bytes| < 4 {
      return Truncated;
    }
    var dim := LE.Decode(bytes[..4]);
    if |bytes| < 4 + dim * 8 {
      return Truncated;
    }
    var cut, end := 4 + dim * 4, 4 + dim * 8;
    var vmin := LE.Read(bytes, 4, dim, 4);
    var vdiff := LE.Read(bytes, cut, dim, 4);
    LE.EncodeDecode(bytes[..4]);
    LE.PackUnpack(bytes[4..cut], dim, 4);
    LE.PackUnpack(bytes[cut..end], dim, 4);
    assert bytes[..end] == bytes[..4] + bytes[4..cut] + bytes[cut..end];
    r := Loaded(Book(vmin, vdiff));
  }

  /** The fields of the stored form: the dimension, then the minima and the widths in 4 bytes each. */
  lemma StoredFields(b: Book, i: nat)
    requires |b.vmin| == |b.vdiff| && i < |b.vmin|
    ensures var out, cut := Stored(b), 4 + |b.vmin| * 4;
      && |out| == 4 + |b.vmin| * 8 && out[..4] == LE.Encode(|b.vmin|, 4)
      && out[4 + i * 4..4 + i * 4 + 4] == LE.Encode(b.vmin[i], 4)
      && out[cut + i * 4..cut + i * 4 + 4] == LE.Encode(b.vdiff[i], 4)
  {
    hide LE.Encode, LE.Pack;
    var out, cut := Stored(b), 4 + |b.vmin| * 4;
    LE.PackedAt(b.vmin, 4, i);
    LE.PackedAt(b.vdiff, 4, i);
    assert out[4..cut] == LE.Pack(b.vmin, 4);
    assert out[cut..] == LE.Pack(b.vdiff, 4);
    assert out[4 + i * 4..4 + i * 4 + 4] == out[4..cut][i * 4..i * 4 + 4];
    assert out[cut + i * 4..cut + i * 4 + 4] == out[cut..][i * 4..i * 4 + 4];
  }

  lemma StoredDetermines(a: Book, b: Book, rest: seq<LE.byte>)
    requires Storable(a) && Storable(b) && Stored(b) <= Stored(a) + rest
    ensures a == b
  {
    hide LE.Encode, LE.Decode, LE.Pack, LE.Unpack;
    var s, t := Stored(a) + rest, Stored(b);
    var n := |a.vmin|;
    LE.DecodeEncode(n, 4);
    LE.DecodeEncode(|b.vmin|, 4);
    assert s[..4] == LE.Encode(n, 4) && t[..4] == LE.Encode(|b.vmin|, 4) && s[..4] == t[..4];
    var cut, end := 4 + n * 4, 4 + n * 8;
    assert s[4..cut] == LE.Pack(a.vmin, 4) && t[4..cut] == LE.Pack(b.vmin, 4) && s[4..cut] == t[4..cut];
    assert s[cut..end] == LE.Pack(a.vdiff, 4) && t[cut..end] == LE.Pack(b.vdiff, 4) && s[cut..end] == t[cut..end];
    LE.UnpackPack(a.vmin, 4);
    LE.UnpackPack(b.vmin, 4);
    LE.UnpackPack(a.vdiff, 4);
    LE.UnpackPack(b.vdiff, 4);
  }

  /** A stored codebook loads as itself, whatever follows it. */
  method StoreLoad(b: Book, rest: seq<LE.byte>) returns (r: Loaded)
    requires Storable(b)
    ensures r == Loaded(b)
  {
    hide LE.Encode, LE.Decode, LE.Pack;
    var out := ToMetaBytes(b);
    LE.DecodeEncode(|b.vmin|, 4);
    assert (out + rest)[..4] == LE.Encode(|b.vmin|, 4);
    r := FromMetaBytes(out + rest);
    StoredDetermines(b, r.book, rest);
  }
}

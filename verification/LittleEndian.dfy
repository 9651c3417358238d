/** Little-endian integers and arrays of them: the byte layouts of every persisted structure. */
module LittleEndian {
  import D = Division

  type byte = b: int | 0 <= b < 256

  function Pow256(w: nat): (p: nat)
    ensures p > 0
  {
    if w == 0 then 1 else 256 * Pow256(w - 1)
  }

  /** `x.to_le_bytes()` of a `w`-byte unsigned integer. */
  function Encode(x: nat, w: nat): (b: seq<byte>)
    ensures |b| == w
  {
    if w == 0 then [] else [x % 256] + Encode(x / 256, w - 1)
  }

  /** `from_le_bytes`. */
  function Decode(b: seq<byte>): (x: nat)
    ensures x < Pow256(|b|)
  {
    if b == [] then 0 else b[0] + 256 * Decode(b[1..])
  }

  lemma {:induction false} DecodeEncode(x: nat, w: nat)
    requires x < Pow256(w)
    ensures Decode(Encode(x, w)) == x
  {
    if w > 0 {
      assert Encode(x, w)[1..] == Encode(x / 256, w - 1);
      DecodeEncode(x / 256, w - 1);
    }
  }

  lemma LowByte(low: byte, high: nat)
    ensures (low + 256 * high) % 256 == low && (low + 256 * high) / 256 == high
  {
  }

  lemma {:induction false} EncodeDecode(b: seq<byte>)
    ensures Encode(Decode(b), |b|) == b
  {
    if b != [] {
      EncodeDecode(b[1..]);
      LowByte(b[0], Decode(b[1..]));
    }
  }

  // ----- arrays of w-byte integers -----

  ghost predicate Fit(xs: seq<nat>, w: nat) {
    forall i :: 0 <= i < |xs| ==> xs[i] < Pow256(w)
  }

  /** The integers one after the other. */
  ghost function Pack(xs: seq<nat>, w: nat): (b: seq<byte>)
    ensures |b| == |xs| * w
  {
    if xs == [] then [] else Pack(xs[..|xs| - 1], w) + Encode(xs[|xs| - 1], w)
  }

  ghost function Unpack(b: seq<byte>, n: nat, w: nat): (xs: seq<nat>)
    requires |b| == n * w
    ensures |xs| == n && Fit(xs, w)
  {
    if n == 0 then [] else
      var cut := (n - 1) * w;
      assert cut + w == n * w;
      Unpack(b[..cut], n - 1, w) + [Decode(b[cut..])]
  }

  lemma TimesNext(n: nat, w: nat)
    ensures (n + 1) * w == n * w + w
  {
  }

  lemma UnpackSnoc(b: seq<byte>, last: seq<byte>, n: nat, w: nat)
    requires |b| == n * w && |last| == w
    ensures |b + last| == (n + 1) * w
    ensures Unpack(b + last, n + 1, w) == Unpack(b, n, w) + [Decode(last)]
  {
    hide Decode;
    TimesNext(n, w);
    assert (b + last)[..n * w] == b;
    assert (b + last)[n * w..] == last;
  }

  lemma PackSnoc(xs: seq<nat>, x: nat, w: nat)
    ensures Pack(xs + [x], w) == Pack(xs, w) + Encode(x, w)
  {
    assert (xs + [x])[..|xs|] == xs;
  }

  lemma {:induction false} UnpackPack(xs: seq<nat>, w: nat)
    requires Fit(xs, w)
    ensures Unpack(Pack(xs, w), |xs|, w) == xs
  {
    if xs != [] {
      var init, x := xs[..|xs| - 1], xs[|xs| - 1];
      hide Decode, Encode, Unpack, Pow256;
      UnpackPack(init, w);
      DecodeEncode(x, w);
      UnpackSnoc(Pack(init, w), Encode(x, w), |init|, w);
      assert Pack(xs, w) == Pack(init, w) + Encode(x, w);
      assert xs == init + [x];
    }
  }

  lemma {:induction false} PackUnpack(b: seq<byte>, n: nat, w: nat)
    requires |b| == n * w
    ensures Pack(Unpack(b, n, w), w) == b
    decreases n
  {
    hide Unpack, Pack;
    if n == 0 {
      PackUnpackNothing(b, w);
    } else {
      var init, last := LastCell(b, n, w);
      PackUnpack(init, n - 1, w);
      PackUnpackSnoc(init, last, n - 1, w);
    }
  }

  lemma PackUnpackNothing(b: seq<byte>, w: nat)
    requires |b| == 0
    ensures Pack(Unpack(b, 0, w), w) == b
  {
  }

  lemma LastCell(b: seq<byte>, n: nat, w: nat) returns (init: seq<byte>, last: seq<byte>)
    requires |b| == n * w && n > 0
    ensures b == init + last && |init| == (n - 1) * w && |last| == w
  {
    TimesNext(n - 1, w);
    var cut := (n - 1) * w;
    init, last := b[..cut], b[cut..];
  }

  lemma PackUnpackSnoc(init: seq<byte>, last: seq<byte>, n: nat, w: nat)
    requires |init| == n * w && |last| == w && Pack(Unpack(init, n, w), w) == init
    ensures |init + last| == (n + 1) * w && Pack(Unpack(init + last, n + 1, w), w) == init + last
  {
    hide Decode, Encode, Unpack, Pack, Pow256;
    EncodeDecode(last);
    UnpackSnoc(init, last, n, w);
    PackSnoc(Unpack(init, n, w), Decode(last), w);
  }

  lemma PackNext(xs: seq<nat>, i: nat, w: nat)
    requires i < |xs|
    ensures Pack(xs[..i + 1], w) == Pack(xs[..i], w) + Encode(xs[i], w)
  {
    assert xs[..i + 1][..i] == xs[..i];
  }

  /** Reading one more integer of a longer buffer. */
  lemma UnpackNext(b: seq<byte>, from: nat, i: nat, w: nat)
    requires from + (i + 1) * w <= |b|
    ensures i * w + w == (i + 1) * w
    ensures Unpack(b[from..from + (i + 1) * w], i + 1, w)
         == Unpack(b[from..from + i * w], i, w) + [Decode(b[from + i * w..from + (i + 1) * w])]
  {
    TimesNext(i, w);
    var init, last := b[from..from + i * w], b[from + i * w..from + (i + 1) * w];
    assert b[from..from + (i + 1) * w] == init + last;
    UnpackSnoc(init, last, i, w);
  }

  /** Append the integers to a buffer, one `extend_from_slice` each. */
  method Append(b: seq<byte>, xs: seq<nat>, w: nat) returns (b': seq<byte>)
    ensures b' == b + Pack(xs, w)
  {
    b' := b;
    for i := 0 to |xs|
      invariant b' == b + Pack(xs[..i], w)
    {
      PackNext(xs, i, w);
      b' := b' + Encode(xs[i], w);
    }
    assert xs[..|xs|] == xs;
  }

  /** Read `n` integers starting at offset `from`. */
  method Read(b: seq<byte>, from: nat, n: nat, w: nat) returns (xs: seq<nat>)
    requires from + n * w <= |b|
    ensures xs == Unpack(b[from..from + n * w], n, w)
  {
    xs := [];
    for i := 0 to n
      invariant from + i * w <= from + n * w
      invariant xs == Unpack(b[from..from + i * w], i, w)
    {
      OffsetBound(i, n, w);
      UnpackNext(b, from, i, w);
      var p := from + i * w;
      xs := xs + [Decode(b[p..p + w])];
    }
  }

  lemma OffsetBound(i: nat, n: nat, w: nat)
    requires i < n
    ensures i * w + w == (i + 1) * w <= n * w
  {
  }

  lemma Widths()
    ensures Pow256(4) == 0x1_0000_0000 && Pow256(8) == 0x1_0000_0000_0000_0000
  {
    assert Pow256(2) == 65536;
  }

  /** Byte i holds the i-th base-256 digit, the lowest first. */
  lemma {:induction false} ByteIsDigit(x: nat, w: nat, i: nat)
    requires i < w
    ensures Encode(x, w)[i] == x / Pow256(i) % 256
  {
    if i > 0 {
      ByteIsDigit(x / 256, w - 1, i - 1);
      D.DivideTwice(x, 256, Pow256(i - 1));
    }
  }

  /** Element i of a packed array stands at its stride. */
  lemma {:induction false} PackedAt(xs: seq<nat>, w: nat, i: nat)
    requires i < |xs|
    ensures i * w + w <= |xs| * w && Pack(xs, w)[i * w..i * w + w] == Encode(xs[i], w)
  {
    hide Encode;
    hide Pack;
    var init, last := xs[..|xs| - 1], xs[|xs| - 1];
    TimesNext(|init|, w);
    PackLast(xs, w);
    if i < |init| {
      PackedAt(init, w, i);
      SliceBefore(Pack(init, w), Encode(last, w), i * w, w);
    } else {
      SliceAfter(Pack(init, w), Encode(last, w));
    }
  }

  lemma PackLast(xs: seq<nat>, w: nat)
    requires xs != []
    ensures Pack(xs, w) == Pack(xs[..|xs| - 1], w) + Encode(xs[|xs| - 1], w)
  {
  }

  lemma SliceBefore(a: seq<byte>, b: seq<byte>, at: nat, w: nat)
    requires at + w <= |a|
    ensures (a + b)[at..at + w] == a[at..at + w]
  {
  }

  lemma SliceAfter(a: seq<byte>, b: seq<byte>)
    ensures (a + b)[|a|..|a| + |b|] == b
  {
  }
}

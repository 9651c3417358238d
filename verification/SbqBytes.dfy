/** Codes and codebooks as stored: little-endian code words compared byte by byte, and the codebook's meta
    bytes. */
module SbqBytes {
  import opened Bits
  import opened Sbq
  import LittleEndian

  // ----- a word as eight bytes -----

  function LowByte(w: bv64): bv8 {
    (w & 0xFF) as bv8
  }

  function DropByte(w: bv64): bv64 {
    w >> 8
  }

  /** Byte `b` of the word, lowest first. */
  function Byte(w: bv64, b: nat): bv8
    requires b < 8
    decreases b
  {
    if b == 0 then LowByte(w) else Byte(DropByte(w), b - 1)
  }

  predicate ByteBit(x: bv8, k: nat)
    requires k < 8
  {
    x & (1 << Index(k)) != 0
  }

  lemma LowByteMask(w: bv64, y: bv8)
    requires y < 8
    ensures LowByte(w) & (1 << y) != 0 <==> Meets(w, 1 << y)
  {
  }

  lemma DropByteAligned(w: bv64, m: bv64)
    requires m < 0x0100_0000_0000_0000
    ensures (DropByte(w) & m) << 8 == w & (m << 8)
  {
  }

  lemma MaskedSmall(w: bv64, m: bv64)
    requires m < 0x0100_0000_0000_0000
    ensures w & m < 0x0100_0000_0000_0000
  {
  }

  lemma ShiftedNonzero(t: bv64)
    requires t < 0x0100_0000_0000_0000
    ensures t << 8 != 0 <==> t != 0
  {
  }

  lemma DropByteMask(w: bv64, m: bv64)
    requires m < 0x0100_0000_0000_0000
    ensures Meets(DropByte(w), m) <==> Meets(w, m << 8)
  {
    hide DropByte;
    DropByteAligned(w, m);
    MaskedSmall(DropByte(w), m);
    ShiftedNonzero(DropByte(w) & m);
  }

  lemma ShiftEight(x: bv8)
    requires x < 56
    ensures 1 as bv64 << (x + 8) == (1 as bv64 << x) << 8
    ensures (1 as bv64 << x) < 0x0100_0000_0000_0000
  {
  }

  lemma IndexPlusEight(x: bv8, y: bv8)
    requires x as nat < 56 && y as nat == x as nat + 8
    ensures x < 56 && y == x + 8
  {
  }

  lemma OneHotPlusEight(k: nat)
    requires k < 56
    ensures OneHot(k) < 0x0100_0000_0000_0000 && OneHot(k + 8) == OneHot(k) << 8
  {
    hide Index;
    IndexPlusEight(Index(k), Index(k + 8));
    ShiftEight(Index(k));
  }

  lemma DropByteBits(w: bv64, k: nat)
    requires k < 56
    ensures Bit(DropByte(w), k) <==> Bit(w, k + 8)
  {
    hide Meets, OneHot, DropByte;
    OneHotPlusEight(k);
    DropByteMask(w, OneHot(k));
  }

  lemma LowByteBits(w: bv64, k: nat)
    requires k < 8
    ensures ByteBit(LowByte(w), k) <==> Bit(w, k)
  {
    hide Meets, Index, LowByte;
    LowIndex(Index(k));
    LowByteMask(w, Index(k));
  }

  lemma LowIndex(x: bv8)
    requires x as nat < 8
    ensures x < 8
  {
  }

  /** Bit `k` of byte `b` is bit `8 b + k` of the word. */
  lemma {:induction false} ByteBits(w: bv64, b: nat, k: nat)
    requires b < 8 && k < 8
    ensures ByteBit(Byte(w, b), k) <==> Bit(w, 8 * b + k)
    decreases b
  {
    hide Bit, ByteBit, LowByte, DropByte;
    if b == 0 {
      LowByteBits(w, k);
    } else {
      ByteBits(DropByte(w), b - 1, k);
      DropByteBits(w, 8 * (b - 1) + k);
    }
  }

  function Xor8(x: bv8, y: bv8): bv8 {
    x ^ y
  }

  lemma XorPieces(v: bv64, w: bv64)
    ensures LowByte(Xor(v, w)) == Xor8(LowByte(v), LowByte(w))
    ensures DropByte(Xor(v, w)) == Xor(DropByte(v), DropByte(w))
  {
  }

  lemma {:induction false} ByteOfXor(v: bv64, w: bv64, b: nat)
    requires b < 8
    ensures Byte(Xor(v, w), b) == Xor8(Byte(v, b), Byte(w, b))
    decreases b
  {
    hide Xor, Xor8, LowByte, DropByte;
    XorPieces(v, w);
    if b > 0 {
      ByteOfXor(DropByte(v), DropByte(w), b - 1);
    }
  }

  function CountByteBits(x: bv8, n: nat): nat
    requires n <= 8
  {
    if n == 0 then 0 else CountByteBits(x, n - 1) + (if ByteBit(x, n - 1) then 1 else 0)
  }

  lemma {:induction false} CountByByte(w: bv64, b: nat, n: nat)
    requires b < 8 && n <= 8
    ensures CountBits(w, 8 * b + n) == CountBits(w, 8 * b) + CountByteBits(Byte(w, b), n)
  {
    hide Bit, Byte, ByteBit;
    if n > 0 {
      CountByByte(w, b, n - 1);
      ByteBits(w, b, n - 1);
    }
  }

  // ----- byte-wise comparison -----

  /** `hamming_bytes`: the popcount of the byte-wise xor, over the bytes both codes have. */
  function HammingBytes(a: seq<bv8>, b: seq<bv8>): nat {
    if a == [] || b == [] then 0
    else if |a| > |b| then HammingBytes(a[..|b|], b)
    else if |b| > |a| then HammingBytes(a, b[..|a|])
    else HammingBytes(a[..|a| - 1], b[..|a| - 1]) + CountByteBits(Xor8(a[|a| - 1], b[|a| - 1]), 8)
  }

  /** The first `n` bytes of a word. */
  function WordBytes(w: bv64, n: nat): (r: seq<bv8>)
    requires n <= 8
    ensures |r| == n
  {
    if n == 0 then [] else WordBytes(w, n - 1) + [Byte(w, n - 1)]
  }

  /** The little-endian bytes of a code. */
  function CodeBytes(a: seq<bv64>): (r: seq<bv8>)
    ensures |r| == 8 * |a|
  {
    if a == [] then [] else CodeBytes(a[..|a| - 1]) + WordBytes(a[|a| - 1], 8)
  }

  lemma HammingSnoc(a: seq<bv8>, b: seq<bv8>, x: bv8, y: bv8)
    requires |a| == |b|
    ensures HammingBytes(a + [x], b + [y]) == HammingBytes(a, b) + CountByteBits(Xor8(x, y), 8)
  {
    hide CountByteBits, Xor8;
    assert (a + [x])[..|a|] == a && (b + [y])[..|b|] == b;
  }

  lemma {:induction false} HammingOfWord(a: seq<bv8>, b: seq<bv8>, v: bv64, w: bv64, n: nat)
    requires |a| == |b| && n <= 8
    ensures HammingBytes(a + WordBytes(v, n), b + WordBytes(w, n))
         == HammingBytes(a, b) + CountBits(Xor(v, w), 8 * n)
  {
    hide CountByteBits, Xor8, Xor, HammingBytes, Byte, CountBits;
    if n == 0 {
      assert a + WordBytes(v, 0) == a && b + WordBytes(w, 0) == b;
      NoBits(Xor(v, w));
    } else {
      HammingOfWord(a, b, v, w, n - 1);
      HammingSnoc(a + WordBytes(v, n - 1), b + WordBytes(w, n - 1), Byte(v, n - 1), Byte(w, n - 1));
      assert a + WordBytes(v, n) == a + WordBytes(v, n - 1) + [Byte(v, n - 1)];
      assert b + WordBytes(w, n) == b + WordBytes(w, n - 1) + [Byte(w, n - 1)];
      ByteOfXor(v, w, n - 1);
      CountByByte(Xor(v, w), n - 1, 8);
    }
  }

  lemma NoBits(w: bv64)
    ensures CountBits(w, 0) == 0
  {
  }

  /** Comparing stored codes byte by byte gives the same distance as comparing their words. */
  lemma {:induction false} BytesAgree(a: seq<bv64>, b: seq<bv64>)
    requires |a| == |b|
    ensures HammingBytes(CodeBytes(a), CodeBytes(b)) == Hamming(a, b)
  {
    hide Xor, CountBits, WordBytes;
    if a != [] {
      var n := |a| - 1;
      BytesAgree(a[..n], b[..n]);
      hide HammingBytes;
      HammingOfWord(CodeBytes(a[..n]), CodeBytes(b[..n]), a[n], b[n], 8);
    }
  }

  // ----- the codebook -----

  /** The codebook with its floats as 32-bit patterns. */
  datatype Codebook = Codebook(bits: nat, mean: seq<nat>, std: seq<nat>)

  datatype Decoded = Loaded(book: Codebook) | TruncatedHeader | WrongLength

  ghost predicate Storable(c: Codebook) {
    && c.bits < 256 && |c.mean| < LittleEndian.Pow256(4)
    && |c.std| == (if c.bits > 1 then |c.mean| else 0)
    && LittleEndian.Fit(c.mean, 4) && LittleEndian.Fit(c.std, 4)
  }

  ghost function Stored(c: Codebook): seq<LittleEndian.byte>
    requires c.bits < 256
  {
    [c.bits] + LittleEndian.Encode(|c.mean|, 4) + LittleEndian.Pack(c.mean, 4) + LittleEndian.Pack(c.std, 4)
  }

  method ToMetaBytes(c: Codebook) returns (b: seq<LittleEndian.byte>)
    requires c.bits < 256
    ensures b == Stored(c)
  {
    b := [c.bits] + LittleEndian.Encode(|c.mean|, 4);
    b := LittleEndian.Append(b, c.mean, 4);
    b := LittleEndian.Append(b, c.std, 4);
  }

  ghost function StoredDim(b: seq<LittleEndian.byte>): nat
    requires |b| >= 5
  {
    LittleEndian.Decode(b[1..5])
  }

  ghost function StoredLength(b: seq<LittleEndian.byte>): nat
    requires |b| >= 5
  {
    5 + StoredDim(b) * 4 + (if b[0] > 1 then StoredDim(b) * 4 else 0)
  }

  /** Accepts exactly the buffers of the announced length, and what it returns is stored as that buffer. */
  method FromMetaBytes(b: seq<LittleEndian.byte>) returns (r: Decoded)
    ensures r.TruncatedHeader? <==> |b| < 5
    ensures r.Loaded? <==> |b| >= 5 && |b| == StoredLength(b)
    ensures r.Loaded? ==> Storable(r.book) && Stored(r.book) == b
  {
    hide LittleEndian.Encode, LittleEndian.Decode, LittleEndian.Pack, LittleEndian.Unpack;
    if |b| < 5 {
      return TruncatedHeader;
    }
    var bits := b[0];
    var dim := LittleEndian.Decode(b[1..5]);
    var hasStd := bits > 1;
    var expected := 5 + dim * 4 + (if hasStd then dim * 4 else 0);
    if |b| != expected {
      return WrongLength;
    }
    var mean := LittleEndian.Read(b, 5, dim, 4);
    var std := [];
    var cut := 5 + dim * 4;
    if hasStd {
      std := LittleEndian.Read(b, cut, dim, 4);
      LittleEndian.PackUnpack(b[cut..expected], dim, 4);
    }
    LittleEndian.PackUnpack(b[5..cut], dim, 4);
    LittleEndian.EncodeDecode(b[1..5]);
    PackNothing();
    assert b == [b[0]] + b[1..5] + b[5..cut] + b[cut..expected];
    r := Loaded(Codebook(bits, mean, std));
  }

  lemma PackNothing()
    ensures LittleEndian.Pack([], 4) == []
  {
  }

  lemma StoredParts(c: Codebook)
    requires Storable(c)
    ensures var b := Stored(c);
      var cut := 5 + |c.mean| * 4;
      && |b| == cut + |c.std| * 4 && b[0] == c.bits && StoredDim(b) == |c.mean|
      && LittleEndian.Unpack(b[5..cut], |c.mean|, 4) == c.mean
      && LittleEndian.Unpack(b[cut..], |c.std|, 4) == c.std
  {
    hide LittleEndian.Encode, LittleEndian.Decode, LittleEndian.Pack, LittleEndian.Unpack;
    var b := Stored(c);
    var cut := 5 + |c.mean| * 4;
    assert b[1..5] == LittleEndian.Encode(|c.mean|, 4);
    assert b[5..cut] == LittleEndian.Pack(c.mean, 4);
    assert b[cut..] == LittleEndian.Pack(c.std, 4);
    LittleEndian.DecodeEncode(|c.mean|, 4);
    LittleEndian.UnpackPack(c.mean, 4);
    LittleEndian.UnpackPack(c.std, 4);
  }

  /** The fields of the stored form: the bits, the dimension, then the means and, with more than one bit, the deviations
      in 4 bytes each. */
  lemma StoredFields(c: Codebook, i: nat)
    requires Storable(c) && i < |c.mean|
    ensures var b, std := Stored(c), 5 + |c.mean| * 4;
      && |b| == std + |c.std| * 4 && b[0] == c.bits && b[1..5] == LittleEndian.Encode(|c.mean|, 4)
      && b[5 + i * 4..5 + i * 4 + 4] == LittleEndian.Encode(c.mean[i], 4)
      && (c.bits > 1 ==> b[std + i * 4..std + i * 4 + 4] == LittleEndian.Encode(c.std[i], 4))
  {
    hide LittleEndian.Encode, LittleEndian.Pack;
    var b, std := Stored(c), 5 + |c.mean| * 4;
    LittleEndian.PackedAt(c.mean, 4, i);
    assert b[5..std] == LittleEndian.Pack(c.mean, 4);
    assert b[std..] == LittleEndian.Pack(c.std, 4);
    assert b[5 + i * 4..5 + i * 4 + 4] == b[5..std][i * 4..i * 4 + 4];
    if c.bits > 1 {
      LittleEndian.PackedAt(c.std, 4, i);
      assert b[std + i * 4..std + i * 4 + 4] == b[std..][i * 4..i * 4 + 4];
    }
  }

  /** Storing a codebook and loading it again returns it. */
  method StoreLoad(c: Codebook) returns (r: Decoded)
    requires Storable(c)
    ensures r == Loaded(c)
  {
    hide Stored, StoredDim, LittleEndian.Unpack;
    var b := ToMetaBytes(c);
    r := FromMetaBytes(b);
    StoredParts(c);
    StoredParts(r.book);
  }
}

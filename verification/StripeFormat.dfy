/** The fixed-size records of a columnar stripe: its header, and the directory of its column chunks. */
module StripeFormat {
  import opened LittleEndian

  const STRIPE_MAGIC := 0x54_43_53_31
  const STRIPE_VERSION := 1
  const STRIPE_HEADER_LEN := 40
  const CHUNK_DIR_ENTRY_LEN := 44

  // ----- the header -----

  datatype StripeHeader = StripeHeader(
    ncols: nat, nChunkGroups: nat, rowCount: nat, firstRowNumber: nat, dirFirstBlock: nat, dirNPages: nat, dirLen: nat)

  datatype ParsedHeader = Header(header: StripeHeader) | TooShort | BadMagic | BadVersion

  ghost predicate HeaderFits(h: StripeHeader) {
    && h.ncols < Pow256(2) && h.firstRowNumber < Pow256(8)
    && Fit([h.nChunkGroups, h.rowCount, h.dirFirstBlock, h.dirNPages, h.dirLen], 4)
  }

  /** Bytes 10 and 11 are reserved. */
  function HeaderToBytes(h: StripeHeader): (b: seq<byte>)
    ensures |b| == STRIPE_HEADER_LEN
  {
    Encode(STRIPE_MAGIC, 4) + Encode(STRIPE_VERSION, 4) + Encode(h.ncols, 2) + [0, 0]
    + Encode(h.nChunkGroups, 4) + Encode(h.rowCount, 4) + Encode(h.firstRowNumber, 8)
    + Encode(h.dirFirstBlock, 4) + Encode(h.dirNPages, 4) + Encode(h.dirLen, 4)
  }

  function HeaderFromBytes(b: seq<byte>): ParsedHeader {
    if |b| < STRIPE_HEADER_LEN then TooShort
    else if Decode(b[0..4]) != STRIPE_MAGIC then BadMagic
    else if Decode(b[4..8]) != STRIPE_VERSION then BadVersion
    else Header(StripeHeader(
      Decode(b[8..10]), Decode(b[12..16]), Decode(b[16..20]), Decode(b[20..28]),
      Decode(b[28..32]), Decode(b[32..36]), Decode(b[36..40])))
  }

  lemma FitAt(xs: seq<nat>, w: nat, i: nat)
    requires Fit(xs, w) && i < |xs|
    ensures Decode(Encode(xs[i], w)) == xs[i]
  {
    DecodeEncode(xs[i], w);
  }

  lemma ConstantsFit()
    ensures Decode(Encode(STRIPE_MAGIC, 4)) == STRIPE_MAGIC && Decode(Encode(STRIPE_VERSION, 4)) == STRIPE_VERSION
  {
    Widths();
    DecodeEncode(STRIPE_MAGIC, 4);
    DecodeEncode(STRIPE_VERSION, 4);
  }

  /** A header read back, also from a longer buffer, is the header written. */
  lemma HeaderRoundTrip(h: StripeHeader, rest: seq<byte>)
    requires HeaderFits(h)
    ensures HeaderFromBytes(HeaderToBytes(h) + rest) == Header(h)
  {
    hide Encode, Decode, Fit;
    HeaderFields(h, rest);
    ConstantsFit();
    DecodeEncode(h.ncols, 2);
    DecodeEncode(h.firstRowNumber, 8);
    var words := [h.nChunkGroups, h.rowCount, h.dirFirstBlock, h.dirNPages, h.dirLen];
    FitAt(words, 4, 0);
    FitAt(words, 4, 1);
    FitAt(words, 4, 2);
    FitAt(words, 4, 3);
    FitAt(words, 4, 4);
  }

  lemma HeaderFields(h: StripeHeader, rest: seq<byte>)
    ensures var b := HeaderToBytes(h) + rest;
      && b[0..4] == Encode(STRIPE_MAGIC, 4) && b[4..8] == Encode(STRIPE_VERSION, 4) && b[8..10] == Encode(h.ncols, 2)
      && b[12..16] == Encode(h.nChunkGroups, 4) && b[16..20] == Encode(h.rowCount, 4)
      && b[20..28] == Encode(h.firstRowNumber, 8) && b[28..32] == Encode(h.dirFirstBlock, 4)
      && b[32..36] == Encode(h.dirNPages, 4) && b[36..40] == Encode(h.dirLen, 4)
  {
    hide Encode;
  }

  /** A buffer is accepted exactly when it is long enough and opens with the magic and version, and then the header
      read from it is written back as its first 40 bytes with the reserved ones cleared. */
  lemma HeaderAccepted(b: seq<byte>)
    ensures HeaderFromBytes(b).Header? <==>
      |b| >= STRIPE_HEADER_LEN && b[0..8] == Encode(STRIPE_MAGIC, 4) + Encode(STRIPE_VERSION, 4)
    ensures HeaderFromBytes(b).Header? ==>
      HeaderToBytes(HeaderFromBytes(b).header) == b[..10] + [0, 0] + b[12..STRIPE_HEADER_LEN]
  {
    hide Encode, Decode;
    ConstantsFit();
    if |b| >= STRIPE_HEADER_LEN {
      EncodeDecode(b[0..4]);
      EncodeDecode(b[4..8]);
      assert b[0..8] == b[0..4] + b[4..8];
      if b[0..8] == Encode(STRIPE_MAGIC, 4) + Encode(STRIPE_VERSION, 4) {
        assert b[0..4] == b[0..8][..4] == Encode(STRIPE_MAGIC, 4);
        assert b[4..8] == b[0..8][4..] == Encode(STRIPE_VERSION, 4);
      }
      EncodeDecode(b[8..10]);
      EncodeDecode(b[12..16]);
      EncodeDecode(b[16..20]);
      EncodeDecode(b[20..28]);
      EncodeDecode(b[28..32]);
      EncodeDecode(b[32..36]);
      EncodeDecode(b[36..40]);
    }
  }

  /** What is wrong with a buffer, in the order of the checks. */
  lemma HeaderErrors(b: seq<byte>)
    ensures HeaderFromBytes(b).TooShort? <==> |b| < 40
    ensures HeaderFromBytes(b).BadMagic? <==> |b| >= 40 && Decode(b[0..4]) != 0x54435331
    ensures HeaderFromBytes(b).BadVersion? <==> |b| >= 40 && Decode(b[0..4]) == 0x54435331 && Decode(b[4..8]) != 1
  {
    hide Decode;
  }

  // ----- the directory -----

  datatype ChunkDirEntry = ChunkDirEntry(
    firstBlock: nat, nPages: nat, compLen: nat, rawLen: nat, rowCount: nat, nullCount: nat,
    hasNulls: bool, hasMinmax: bool, allNull: bool, minBits: nat, maxBits: nat)

  /** Bit 0, 1 and 2 of the flag word. */
  function Flags(e: ChunkDirEntry): (f: nat)
    ensures f < 8
  {
    (if e.hasNulls then 1 else 0) + (if e.hasMinmax then 2 else 0) + (if e.allNull then 4 else 0)
  }

  ghost predicate EntryFits(e: ChunkDirEntry) {
    && Fit([e.firstBlock, e.nPages, e.compLen, e.rawLen, e.rowCount, e.nullCount], 4)
    && Fit([e.minBits, e.maxBits], 8)
  }

  function EntryBytes(e: ChunkDirEntry): (b: seq<byte>)
    ensures |b| == CHUNK_DIR_ENTRY_LEN
  {
    Encode(e.firstBlock, 4) + Encode(e.nPages, 4) + Encode(e.compLen, 4) + Encode(e.rawLen, 4)
    + Encode(e.rowCount, 4) + Encode(e.nullCount, 4) + Encode(Flags(e), 4)
    + Encode(e.minBits, 8) + Encode(e.maxBits, 8)
  }

  function ReadEntry(b: seq<byte>): ChunkDirEntry
    requires |b| == CHUNK_DIR_ENTRY_LEN
  {
    var flags := Decode(b[24..28]);
    ChunkDirEntry(
      Decode(b[0..4]), Decode(b[4..8]), Decode(b[8..12]), Decode(b[12..16]), Decode(b[16..20]), Decode(b[20..24]),
      flags % 2 == 1, flags / 2 % 2 == 1, flags / 4 % 2 == 1, Decode(b[28..36]), Decode(b[36..44]))
  }

  lemma EntryFields(e: ChunkDirEntry)
    ensures var b := EntryBytes(e);
      && b[0..4] == Encode(e.firstBlock, 4) && b[4..8] == Encode(e.nPages, 4) && b[8..12] == Encode(e.compLen, 4)
      && b[12..16] == Encode(e.rawLen, 4) && b[16..20] == Encode(e.rowCount, 4) && b[20..24] == Encode(e.nullCount, 4)
      && b[24..28] == Encode(Flags(e), 4) && b[28..36] == Encode(e.minBits, 8) && b[36..44] == Encode(e.maxBits, 8)
  {
    hide Encode, Flags;
    var b := EntryBytes(e);
    assert b == b[..36] + Encode(e.maxBits, 8);
    assert b[36..44] == Encode(e.maxBits, 8);
  }

  lemma EntryRoundTrip(e: ChunkDirEntry)
    requires EntryFits(e)
    ensures ReadEntry(EntryBytes(e)) == e
  {
    hide Encode, Decode, Fit, EntryBytes;
    EntryFields(e);
    Widths();
    DecodeEncode(Flags(e), 4);
    var words := [e.firstBlock, e.nPages, e.compLen, e.rawLen, e.rowCount, e.nullCount];
    FitAt(words, 4, 0);
    FitAt(words, 4, 1);
    FitAt(words, 4, 2);
    FitAt(words, 4, 3);
    FitAt(words, 4, 4);
    FitAt(words, 4, 5);
    FitAt([e.minBits, e.maxBits], 8, 0);
    FitAt([e.minBits, e.maxBits], 8, 1);
  }

  /** The cells of the directory one after the other. */
  ghost function DirectoryBytes(entries: seq<ChunkDirEntry>): (b: seq<byte>)
    ensures |b| == |entries| * CHUNK_DIR_ENTRY_LEN
  {
    if entries == [] then [] else DirectoryBytes(entries[..|entries| - 1]) + EntryBytes(entries[|entries| - 1])
  }

  method SerializeDirectory(entries: seq<ChunkDirEntry>) returns (out: seq<byte>)
    ensures out == DirectoryBytes(entries)
  {
    hide EntryBytes;
    out := [];
    for i := 0 to |entries|
      invariant out == DirectoryBytes(entries[..i])
    {
      assert entries[..i + 1][..i] == entries[..i];
      out := out + EntryBytes(entries[i]);
    }
    assert entries[..|entries|] == entries;
  }

  datatype Directory = Directory(entries: seq<ChunkDirEntry>) | Truncated

  /** The count comes from the header, never from the bytes; a short buffer is an error. */
  method DeserializeDirectory(b: seq<byte>, count: nat) returns (r: Directory)
    ensures r.Directory? <==> |b| >= count * CHUNK_DIR_ENTRY_LEN
    ensures r.Directory? ==> |r.entries| == count
    ensures r.Directory? ==> forall i :: 0 <= i < count ==> r.entries[i] == ReadEntry(EntryAt(b, i))
  {
    hide ReadEntry;
    if |b| < count * CHUNK_DIR_ENTRY_LEN {
      return Truncated;
    }
    var out := [];
    for i := 0 to count
      invariant |out| == i
      invariant forall j :: 0 <= j < i ==> out[j] == ReadEntry(EntryAt(b, j))
    {
      out := out + [ReadEntry(EntryAt(b, i))];
    }
    r := Directory(out);
  }

  function EntryAt(b: seq<byte>, i: nat): (e: seq<byte>)
    requires (i + 1) * CHUNK_DIR_ENTRY_LEN <= |b|
    ensures |e| == CHUNK_DIR_ENTRY_LEN
  {
    var off := i * CHUNK_DIR_ENTRY_LEN;
    b[off..off + CHUNK_DIR_ENTRY_LEN]
  }

  /** Cell i stays where it was written, whatever follows. */
  lemma {:induction false} EntryStays(entries: seq<ChunkDirEntry>, rest: seq<byte>, i: nat)
    requires i < |entries|
    ensures EntryAt(DirectoryBytes(entries) + rest, i) == EntryBytes(entries[i])
  {
    hide EntryBytes;
    var init, last := entries[..|entries| - 1], EntryBytes(entries[|entries| - 1]);
    if i < |init| {
      EntryStays(init, last + rest, i);
      assert DirectoryBytes(entries) + rest == DirectoryBytes(init) + (last + rest);
    } else {
      assert DirectoryBytes(entries) + rest == DirectoryBytes(init) + last + rest;
    }
  }

  /** A directory read back, also from a buffer padded at the end, is the directory written. */
  method DirectoryRoundTrip(entries: seq<ChunkDirEntry>, rest: seq<byte>) returns (r: Directory)
    requires forall i :: 0 <= i < |entries| ==> EntryFits(entries[i])
    ensures r == Directory(entries)
  {
    hide EntryFits, EntryBytes, ReadEntry, EntryAt, DirectoryBytes;
    var b := SerializeDirectory(entries);
    r := DeserializeDirectory(b + rest, |entries|);
    forall i | 0 <= i < |entries| ensures r.entries[i] == entries[i] {
      EntryStays(entries, rest, i);
      EntryRoundTrip(entries[i]);
    }
  }

  /** The flag word: bit 0 for NULLs, bit 1 for a stored range, bit 2 for nothing but NULLs. */
  lemma FlagBits(e: ChunkDirEntry)
    ensures Flags(e) % 2 == 1 <==> e.hasNulls
    ensures Flags(e) / 2 % 2 == 1 <==> e.hasMinmax
    ensures Flags(e) / 4 == 1 <==> e.allNull
  {
  }
}

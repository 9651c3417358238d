/** The persisted form of the adjacency: node count, adjacency length, 8-byte offsets, 4-byte neighbours. */
module CsrBytes {
  import opened LittleEndian
  import opened Adjacency
  import BuildCsr

  datatype Parsed = Loaded(csr: Csr) | Truncated | LengthMismatch

  /** The field widths of the stored form. */
  ghost predicate Storable(c: Csr) {
    && c.nnodes < Pow256(8) && |c.adj| < Pow256(8)
    && |c.offsets| == c.nnodes + 1
    && Fit(c.offsets, 8) && Fit(c.adj, 4)
  }

  ghost function Serialized(c: Csr): seq<byte> {
    Encode(c.nnodes, 8) + Encode(|c.adj|, 8) + Pack(c.offsets, 8) + Pack(c.adj, 4)
  }

  method ToBytes(c: Csr) returns (b: seq<byte>)
    ensures b == Serialized(c)
  {
    b := Encode(c.nnodes, 8);
    b := b + Encode(|c.adj|, 8);
    b := Append(b, c.offsets, 8);
    b := Append(b, c.adj, 4);
  }

  ghost function HeaderNodes(b: seq<byte>): nat
    requires |b| >= 16
  {
    Decode(b[0..8])
  }

  ghost function HeaderAdj(b: seq<byte>): nat
    requires |b| >= 16
  {
    Decode(b[8..16])
  }

  /** Accepts exactly the buffers whose length is the one their header announces, and then what it returns
      serialises back to the buffer. */
  method FromBytes(b: seq<byte>) returns (r: Parsed)
    ensures r.Truncated? <==> |b| < 16
    ensures r.Loaded? <==> |b| >= 16 && |b| == 16 + (HeaderNodes(b) + 1) * 8 + HeaderAdj(b) * 4
    ensures r.Loaded? ==> Storable(r.csr) && Serialized(r.csr) == b
  {
    hide Encode, Decode, Pack, Unpack;
    if |b| < 16 {
      return Truncated;
    }
    var nnodes := Decode(b[0..8]);
    var totalAdj := Decode(b[8..16]);
    var noff := nnodes + 1;
    var offEnd := 16 + noff * 8;
    var adjEnd := offEnd + totalAdj * 4;
    if |b| != adjEnd {
      return LengthMismatch;
    }
    var offsets := Read(b, 16, noff, 8);
    var adj := Read(b, offEnd, totalAdj, 4);
    PackUnpack(b[16..offEnd], noff, 8);
    PackUnpack(b[offEnd..adjEnd], totalAdj, 4);
    EncodeDecode(b[0..8]);
    EncodeDecode(b[8..16]);
    assert b == b[0..8] + b[8..16] + b[16..offEnd] + b[offEnd..adjEnd];
    r := Loaded(Csr(nnodes, offsets, adj));
  }

  lemma SavedHeader(c: Csr)
    requires Storable(c)
    ensures var b := Serialized(c);
      && |b| == 16 + (c.nnodes + 1) * 8 + |c.adj| * 4
      && HeaderNodes(b) == c.nnodes && HeaderAdj(b) == |c.adj|
  {
    hide Encode, Decode, Pack;
    var b := Serialized(c);
    assert b[0..8] == Encode(c.nnodes, 8);
    assert b[8..16] == Encode(|c.adj|, 8);
    DecodeEncode(c.nnodes, 8);
    DecodeEncode(|c.adj|, 8);
  }

  lemma SavedArrays(c: Csr)
    requires Storable(c)
    ensures var b := Serialized(c);
      var offEnd := 16 + (c.nnodes + 1) * 8;
      && |b| == offEnd + |c.adj| * 4
      && Unpack(b[16..offEnd], c.nnodes + 1, 8) == c.offsets
      && Unpack(b[offEnd..], |c.adj|, 4) == c.adj
  {
    hide Encode, Decode, Pack, Unpack;
    var b := Serialized(c);
    var offEnd := 16 + (c.nnodes + 1) * 8;
    assert b[16..offEnd] == Pack(c.offsets, 8);
    assert b[offEnd..] == Pack(c.adj, 4);
    UnpackPack(c.offsets, 8);
    UnpackPack(c.adj, 4);
  }

  /** The fields of the stored form: the node count, the number of neighbour slots, then the offsets in 8 bytes each and
      the neighbours in 4. */
  lemma StoredFields(c: Csr, i: nat, k: nat)
    requires |c.offsets| == c.nnodes + 1 && i <= c.nnodes && k < |c.adj|
    ensures var b, adj := Serialized(c), 16 + (c.nnodes + 1) * 8;
      && |b| == adj + |c.adj| * 4
      && b[0..8] == Encode(c.nnodes, 8) && b[8..16] == Encode(|c.adj|, 8)
      && b[16 + i * 8..16 + i * 8 + 8] == Encode(c.offsets[i], 8)
      && b[adj + k * 4..adj + k * 4 + 4] == Encode(c.adj[k], 4)
  {
    hide Encode, Pack;
    var b, adj := Serialized(c), 16 + (c.nnodes + 1) * 8;
    PackedAt(c.offsets, 8, i);
    PackedAt(c.adj, 4, k);
    assert b[16..adj] == Pack(c.offsets, 8);
    assert b[adj..] == Pack(c.adj, 4);
    assert b[16 + i * 8..16 + i * 8 + 8] == b[16..adj][i * 8..i * 8 + 8];
    assert b[adj + k * 4..adj + k * 4 + 4] == b[adj..][k * 4..k * 4 + 4];
  }

  /** The stored form determines the adjacency, so loading what was saved returns it. */
  lemma SerializedInjective(c: Csr, d: Csr)
    requires Storable(c) && Storable(d) && Serialized(c) == Serialized(d)
    ensures c == d
  {
    hide Storable, Serialized;
    SavedHeader(c);
    SavedHeader(d);
    SavedArrays(c);
    SavedArrays(d);
  }

  /** Save, then load: what `graph_build` persists is what a query gets. */
  method SaveLoad(c: Csr) returns (r: Parsed)
    requires Storable(c)
    ensures r == Loaded(c)
  {
    var b := ToBytes(c);
    r := FromBytes(b);
    SavedHeader(c);
    SerializedInjective(c, r.csr);
  }

  /** Node identifiers fit in 32 bits, so what is built can be stored. */
  lemma BuiltIsStorable(c: Csr, rows: seq<BuildCsr.Row>)
    requires BuildCsr.Accepted(rows) && BuildCsr.Represents(c, rows) && 2 * |rows| < Pow256(8)
    ensures Storable(c)
  {
    hide Pow256, BuildCsr.Incident;
    Widths();
    BuildCsr.MaxNodeBounds(rows);
    MaxNodeFits(rows);
    forall i | 0 <= i < |c.offsets| ensures c.offsets[i] < Pow256(8) {
      OffsetAtMost(c, i);
    }
  }

  lemma {:induction false} OffsetAtMost(c: Csr, i: nat)
    requires c.InBounds() && i <= c.nnodes
    ensures c.offsets[i] <= c.offsets[c.nnodes]
    decreases c.nnodes - i
  {
    if i < c.nnodes { OffsetAtMost(c, i + 1); }
  }

  lemma {:induction false} MaxNodeFits(rows: seq<BuildCsr.Row>)
    requires BuildCsr.Accepted(rows)
    ensures BuildCsr.MaxNode(rows) <= BuildCsr.U32_MAX
  {
    if rows != [] {
      assert BuildCsr.Check(rows[|rows| - 1]) == [];
      MaxNodeFits(rows[..|rows| - 1]);
    }
  }

  /** What `graph_build` persists for a table of edges, loaded back, represents those edges. */
  method BuildSaveLoad(rows: seq<BuildCsr.Row>) returns (built: BuildCsr.Built, r: Parsed)
    requires 2 * |rows| < Pow256(8)
    ensures built.Built? <==> BuildCsr.Accepted(rows)
    ensures built.Built? ==> r == Loaded(built.csr) && BuildCsr.Represents(built.csr, rows)
  {
    hide BuildCsr.Represents, Storable, Pow256;
    built := BuildCsr.BuildCsr(rows);
    r := Truncated;
    if built.Built? {
      BuiltIsStorable(built.csr, rows);
      r := SaveLoad(built.csr);
    }
  }
}

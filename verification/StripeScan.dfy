/** Writing a columnar stripe and scanning it back through its header and directory, with chunk groups skipped by their
    ranges. */
module StripeScan {
  import opened LittleEndian
  import opened ColumnCodec
  import opened ZoneMap
  import F = StripeFormat

  const CHUNK_GROUP_ROWS := 10_000

  datatype Column = Column(width: Width, kind: Kind)

  type Row = seq<Cell>

  datatype Predicate = Predicate(col: nat, op: Op, constBits: nat)

  /** The compressor, as a pair of functions. */
  datatype Codec = Codec(compress: seq<byte> -> seq<byte>, decompress: seq<byte> -> Result<seq<byte>>)

  ghost predicate Lossless(z: Codec) {
    forall raw :: z.decompress(z.compress(raw)) == Ok(raw)
  }

  // ----- pages -----

  function Concat(pages: seq<seq<byte>>): seq<byte> {
    if pages == [] then [] else Concat(pages[..|pages| - 1]) + pages[|pages| - 1]
  }

  lemma ConcatSnoc(pages: seq<seq<byte>>, page: seq<byte>)
    ensures Concat([]) == [] && Concat(pages + [page]) == Concat(pages) + page
  {
    assert (pages + [page])[..|pages|] == pages;
  }

  /** `read_chunked`: the items of n pages, one after the other. */
  function Region(pages: seq<seq<byte>>, first: nat, n: nat): Result<seq<byte>> {
    if first + n <= |pages| then Ok(Concat(pages[first..first + n])) else Truncated
  }

  lemma RegionStays(pages: seq<seq<byte>>, pages': seq<seq<byte>>, first: nat, n: nat)
    requires pages <= pages' && Region(pages, first, n).Ok?
    ensures Region(pages', first, n) == Region(pages, first, n)
  {
    assert pages'[first..first + n] == pages[first..first + n];
  }

  class Relation {
    /** How many bytes one page takes. */
    const capacity: nat

    var pages: seq<seq<byte>>

    constructor (capacity: nat)
      ensures pages == [] && this.capacity == capacity
    {
      this.capacity := capacity;
      pages := [];
    }

    method ExtendPage(item: seq<byte>) returns (block: nat)
      modifies this
      ensures pages == old(pages) + [item] && block == |old(pages)|
    {
      block := |pages|;
      pages := pages + [item];
    }

    /** The bytes spread over new pages; an empty payload still takes one. */
    method WriteChunk(bytes: seq<byte>) returns (first: nat, n: nat)
      requires capacity > 0
      modifies this
      ensures old(pages) <= pages && n >= 1
      ensures first == |old(pages)| && |pages| == first + n
      ensures Region(pages, first, n) == Ok(bytes)
    {
      hide Concat, Region;
      first, n := |pages|, 0;
      ConcatSnoc([], []);
      ghost var before, items := pages, [];
      if bytes == [] {
        first := ExtendPage([]);
        items := items + [[]];
        assert items == [] + [[]] && Concat(items) == Concat([]) + [] == [];
        assert pages == before + items;
        RegionOfTail(before, items);
        return first, 1;
      }
      var off := 0;
      while off < |bytes|
        invariant 0 <= off <= |bytes| && (off > 0 ==> n >= 1)
        invariant pages == before + items && n == |items|
        invariant Concat(items) == bytes[..off]
        decreases |bytes| - off
      {
        var end := if off + capacity <= |bytes| then off + capacity else |bytes|;
        PageStep(items, bytes, off, end);
        var _ := ExtendPage(bytes[off..end]);
        items := items + [bytes[off..end]];
        off, n := end, n + 1;
      }
      assert bytes[..off] == bytes;
      RegionOfTail(before, items);
    }
  }

  lemma PageStep(items: seq<seq<byte>>, bytes: seq<byte>, off: nat, end: nat)
    requires off <= end <= |bytes| && Concat(items) == bytes[..off]
    ensures Concat(items + [bytes[off..end]]) == bytes[..end]
  {
    hide Concat;
    ConcatSnoc(items, bytes[off..end]);
    assert bytes[..end] == bytes[..off] + bytes[off..end];
  }

  lemma RegionOfTail(pages: seq<seq<byte>>, items: seq<seq<byte>>)
    ensures Region(pages + items, |pages|, |items|) == Ok(Concat(items))
  {
    hide Concat;
    assert (pages + items)[|pages|..|pages| + |items|] == items;
  }

  // ----- what a written stripe is -----

  function Groups(rows: nat): nat { (rows + CHUNK_GROUP_ROWS - 1) / CHUNK_GROUP_ROWS }

  function Lo(cg: nat): nat { cg * CHUNK_GROUP_ROWS }

  function Hi(cg: nat, rows: nat): nat {
    if Lo(cg) + CHUNK_GROUP_ROWS <= rows then Lo(cg) + CHUNK_GROUP_ROWS else rows
  }

  lemma GroupBounds(cg: nat, rows: nat)
    requires cg < Groups(rows)
    ensures Lo(cg) < Hi(cg, rows) <= rows
    ensures Hi(cg, rows) == if cg + 1 < Groups(rows) then Lo(cg + 1) else rows
  {
  }

  /** The values of one column in one chunk group. */
  ghost function Group(values: seq<Cell>, cg: nat): seq<Cell>
    requires cg < Groups(|values|)
  {
    GroupBounds(cg, |values|);
    values[Lo(cg)..Hi(cg, |values|)]
  }

  function RangeOf(e: F.ChunkDirEntry): Range {
    if e.hasMinmax then Range(e.minBits, e.maxBits) else NoRange
  }

  /** The entry's pages hold the compressed bytes, and its statistics are those of the values. */
  ghost predicate HoldsChunk(pages: seq<seq<byte>>, e: F.ChunkDirEntry, raw: seq<byte>, values: seq<Cell>, c: Column,
                             z: Codec)
  {
    && Encodes(raw, values, c.width)
    && Region(pages, e.firstBlock, e.nPages) == Ok(z.compress(raw))
    && e.compLen == |z.compress(raw)| && e.rawLen == |raw|
    && e.rowCount == |values| && e.nullCount == CountNulls(values)
    && e.hasNulls == HasNull(values)
    && (e.allNull <==> |values| > 0 && forall i :: 0 <= i < |values| ==> values[i].Null?)
    && IsRange(RangeOf(e), values, c.kind) && (e.hasMinmax || e.minBits == e.maxBits == 0)
  }

  ghost predicate Describes(pages: seq<seq<byte>>, e: F.ChunkDirEntry, values: seq<Cell>, c: Column, z: Codec) {
    exists raw :: HoldsChunk(pages, e, raw, values, c, z)
  }

  lemma DescribesStays(pages: seq<seq<byte>>, pages': seq<seq<byte>>, e: F.ChunkDirEntry, values: seq<Cell>, c: Column,
                       z: Codec)
    requires Describes(pages, e, values, c, z) && pages <= pages'
    ensures Describes(pages', e, values, c, z)
  {
    hide Encodes, Region, CountNulls, HasNull, IsRange;
    var raw :| HoldsChunk(pages, e, raw, values, c, z);
    RegionStays(pages, pages', e.firstBlock, e.nPages);
    assert HoldsChunk(pages', e, raw, values, c, z);
  }

  /** A table's rows by column. */
  datatype Table = Table(schema: seq<Column>, columns: seq<seq<Cell>>, rows: nat) {
    ghost predicate Valid() {
      && |schema| == |columns| >= 1
      && forall c :: 0 <= c < |columns| ==> |columns[c]| == rows && AllFit(columns[c], schema[c].width)
    }

    ghost predicate Cell(pages: seq<seq<byte>>, e: F.ChunkDirEntry, cg: nat, col: nat, z: Codec)
      requires Valid() && cg < Groups(rows) && col < |columns|
    {
      Describes(pages, e, Group(columns[col], cg), schema[col], z)
    }

    /** The directory in grid order, as far as it goes. */
    ghost predicate Grid(pages: seq<seq<byte>>, entries: seq<F.ChunkDirEntry>, z: Codec)
      requires Valid()
    {
      forall cg, col :: 0 <= cg < Groups(rows) && 0 <= col < |columns| && At(cg, col, |columns|) < |entries| ==>
        Cell(pages, entries[At(cg, col, |columns|)], cg, col, z)
    }
  }

  /** Where the grid keeps cell (cg, col). */
  function At(cg: nat, col: nat, ncols: nat): nat { cg * ncols + col }

  lemma RowBelow(cg: nat, cg': nat, n: nat)
    requires cg < cg'
    ensures cg * n + n == (cg + 1) * n <= cg' * n
  {
  }

  lemma AtInjective(cg: nat, col: nat, cg': nat, col': nat, n: nat)
    requires col < n && col' < n && At(cg, col, n) == At(cg', col', n)
    ensures cg == cg' && col == col'
  {
    if cg < cg' {
      RowBelow(cg, cg', n);
    } else if cg' < cg {
      RowBelow(cg', cg, n);
    }
  }

  lemma AtBound(cg: nat, col: nat, groups: nat, n: nat)
    requires cg < groups && col < n
    ensures At(cg, col, n) < At(groups, 0, n)
    ensures At(cg + 1, 0, n) == At(cg, n, n)
  {
    RowBelow(cg, groups, n);
  }

  lemma GridStays(t: Table, pages: seq<seq<byte>>, pages': seq<seq<byte>>, entries: seq<F.ChunkDirEntry>, z: Codec)
    requires t.Valid() && t.Grid(pages, entries, z) && pages <= pages'
    ensures t.Grid(pages', entries, z)
  {
    hide Describes, At;
    forall cg, col | 0 <= cg < Groups(t.rows) && 0 <= col < |t.columns| && At(cg, col, |t.columns|) < |entries|
      ensures t.Cell(pages', entries[At(cg, col, |t.columns|)], cg, col, z)
    {
      var e := entries[At(cg, col, |t.columns|)];
      assert t.Cell(pages, e, cg, col, z);
      DescribesStays(pages, pages', e, Group(t.columns[col], cg), t.schema[col], z);
    }
  }

  /** The next cell of the grid. */
  lemma GridSnoc(t: Table, pages: seq<seq<byte>>, entries: seq<F.ChunkDirEntry>, e: F.ChunkDirEntry, cg: nat, col: nat,
                 z: Codec)
    requires t.Valid() && t.Grid(pages, entries, z) && cg < Groups(t.rows) && col < |t.columns|
    requires |entries| == At(cg, col, |t.columns|) && t.Cell(pages, e, cg, col, z)
    ensures t.Grid(pages, entries + [e], z)
  {
    hide Describes, At;
    forall cg', col' | 0 <= cg' < Groups(t.rows) && 0 <= col' < |t.columns| && At(cg', col', |t.columns|) <= |entries|
      ensures t.Cell(pages, (entries + [e])[At(cg', col', |t.columns|)], cg', col', z)
    {
      if At(cg', col', |t.columns|) == |entries| {
        AtInjective(cg, col, cg', col', |t.columns|);
      }
    }
  }

  /** The stripe of a table: a header page pointing at the directory, whose entries point at the column chunks. */
  ghost predicate Written(pages: seq<seq<byte>>, block: nat, h: F.StripeHeader, entries: seq<F.ChunkDirEntry>, t: Table,
                          z: Codec)
  {
    && t.Valid()
    && block < |pages| && pages[block] == F.HeaderToBytes(h)
    && h.ncols == |t.columns| && h.nChunkGroups == Groups(t.rows) && h.rowCount == t.rows
    && Region(pages, h.dirFirstBlock, h.dirNPages) == Ok(F.DirectoryBytes(entries))
    && h.dirLen == |entries| * F.CHUNK_DIR_ENTRY_LEN
    && |entries| == At(Groups(t.rows), 0, |t.columns|)
    && t.Grid(pages, entries, z)
  }

  // ----- writing -----

  method WriteColumnChunk(rel: Relation, values: seq<Cell>, c: Column, z: Codec) returns (e: F.ChunkDirEntry)
    requires rel.capacity > 0
    modifies rel
    ensures old(rel.pages) <= rel.pages
    ensures Describes(rel.pages, e, values, c, z)
  {
    hide Encodes, Region, CountNulls, HasNull, IsRange;
    var enc := EncodeColumn(values, c.width);
    var r := ComputeMinMax(values, c.kind);
    var compressed := z.compress(enc.raw);
    var first, n := rel.WriteChunk(compressed);
    if enc.allNull { AllNullHasNoRange(r, values, c.kind); }
    e := F.ChunkDirEntry(first, n, |compressed|, |enc.raw|, |values|, enc.nullCount, enc.hasNulls, r.Range? && !enc.allNull,
      enc.allNull, if r.Range? then r.min else 0, if r.Range? then r.max else 0);
    assert RangeOf(e) == r;
    assert HoldsChunk(rel.pages, e, enc.raw, values, c, z);
  }

  lemma AllNullHasNoRange(r: Range, values: seq<Cell>, k: Kind)
    requires IsRange(r, values, k) && forall i :: 0 <= i < |values| ==> values[i].Null?
    ensures r == NoRange
  {
    hide ReadValue;
  }

  /** Chunks, then the directory, then the header. */
  method FlushStripe(rel: Relation, t: Table, base: nat, z: Codec)
    returns (block: nat, h: F.StripeHeader, dir: seq<F.ChunkDirEntry>)
    requires t.Valid() && rel.capacity > 0
    modifies rel
    ensures old(rel.pages) <= rel.pages
    ensures Written(rel.pages, block, h, dir, t, z) && h.firstRowNumber == base
  {
    hide Describes, Region, F.HeaderToBytes, F.DirectoryBytes;
    var ncols := |t.columns|;
    dir := [];
    for cg := 0 to Groups(t.rows)
      invariant old(rel.pages) <= rel.pages
      invariant |dir| == At(cg, 0, ncols) && t.Grid(rel.pages, dir, z)
    {
      var lo, hi := Lo(cg), Hi(cg, t.rows);
      GroupBounds(cg, t.rows);
      for col := 0 to ncols
        invariant old(rel.pages) <= rel.pages
        invariant |dir| == At(cg, col, ncols) && t.Grid(rel.pages, dir, z)
      {
        ghost var pages := rel.pages;
        var e := WriteColumnChunk(rel, t.columns[col][lo..hi], t.schema[col], z);
        GridStays(t, pages, rel.pages, dir, z);
        GridSnoc(t, rel.pages, dir, e, cg, col, z);
        dir := dir + [e];
      }
      AtBound(cg, 0, Groups(t.rows), ncols);
    }
    var dirBytes := F.SerializeDirectory(dir);
    ghost var pages := rel.pages;
    var dirFirst, dirN := rel.WriteChunk(dirBytes);
    GridStays(t, pages, rel.pages, dir, z);
    h := F.StripeHeader(ncols, Groups(t.rows), t.rows, base, dirFirst, dirN, |dirBytes|);
    pages := rel.pages;
    block := rel.ExtendPage(F.HeaderToBytes(h));
    GridStays(t, pages, rel.pages, dir, z);
    RegionStays(pages, rel.pages, dirFirst, dirN);
  }

  // ----- scanning -----

  datatype Scan = Rows(rows: seq<Row>) | Corrupt

  /** The sizes fit the fields they are stored in. */
  ghost predicate FieldsFit(h: F.StripeHeader, entries: seq<F.ChunkDirEntry>) {
    F.HeaderFits(h) && forall i :: 0 <= i < |entries| ==> F.EntryFits(entries[i])
  }

  /** Some pushed predicate rules the chunk group out. */
  predicate Skips(entries: seq<F.ChunkDirEntry>, schema: seq<Column>, preds: seq<Predicate>, cg: nat) {
    exists i :: 0 <= i < |preds| && SkipsFor(entries, schema, preds[i], cg)
  }

  predicate SkipsFor(entries: seq<F.ChunkDirEntry>, schema: seq<Column>, p: Predicate, cg: nat) {
    && p.col < |schema| && At(cg, p.col, |schema|) < |entries|
    && !ChunkCanMatch(RangeOf(entries[At(cg, p.col, |schema|)]), schema[p.col].kind, p.op, p.constBits)
  }

  /** A row, with NULL for the columns projected away. */
  function RowOf(cols: seq<seq<Cell>>, want: seq<bool>, r: nat): (row: Row)
    requires |want| == |cols| && forall c :: 0 <= c < |cols| && want[c] ==> r < |cols[c]|
    ensures |row| == |cols|
  {
    seq(|cols|, c requires 0 <= c < |cols| => if want[c] then cols[c][r] else Null)
  }

  ghost function GroupRows(t: Table, want: seq<bool>, cg: nat): (rows: seq<Row>)
    requires t.Valid() && |want| == |t.columns| && cg < Groups(t.rows)
    ensures |rows| == Hi(cg, t.rows) - Lo(cg)
    ensures forall r :: 0 <= r < |rows| ==> rows[r] == RowOf(t.columns, want, Lo(cg) + r)
  {
    GroupBounds(cg, t.rows);
    seq(Hi(cg, t.rows) - Lo(cg), r requires 0 <= r < Hi(cg, t.rows) - Lo(cg) => RowOf(t.columns, want, Lo(cg) + r))
  }

  /** The rows of the first n chunk groups, without the skipped ones. */
  ghost function Surviving(t: Table, want: seq<bool>, entries: seq<F.ChunkDirEntry>, preds: seq<Predicate>, skip: bool,
                           n: nat): seq<Row>
    requires t.Valid() && |want| == |t.columns| && n <= Groups(t.rows)
  {
    if n == 0 then []
    else
      Surviving(t, want, entries, preds, skip, n - 1)
      + if skip && Skips(entries, t.schema, preds, n - 1) then [] else GroupRows(t, want, n - 1)
  }

  /** One column chunk: its pages, decompressed, decoded. */
  method ReadColumnChunk(pages: seq<seq<byte>>, e: F.ChunkDirEntry, c: Column, rows: nat, z: Codec, ghost values: seq<Cell>)
    returns (r: Result<seq<Cell>>)
    ensures r.Ok? ==> |r.value| == rows
    ensures Describes(pages, e, values, c, z) && AllFit(values, c.width) && rows == |values| && Lossless(z) ==> r == Ok(values)
  {
    hide Region, Encodes, Decoded, AllFit, CountNulls, HasNull, IsRange;
    ghost var good := Describes(pages, e, values, c, z) && AllFit(values, c.width) && rows == |values| && Lossless(z);
    var comp := Region(pages, e.firstBlock, e.nPages);
    ghost var bytes := [];
    if good {
      bytes :| HoldsChunk(pages, e, bytes, values, c, z);
      assert z.decompress(z.compress(bytes)) == Ok(bytes);
      DecodesEncoded(bytes, values, c.width);
    }
    if comp.Truncated? || |comp.value| < e.compLen {
      return Truncated;
    }
    assert good ==> comp.value[..e.compLen] == z.compress(bytes);
    var raw := z.decompress(comp.value[..e.compLen]);
    if raw.Truncated? {
      return Truncated;
    }
    r := DecodeColumn(raw.value, c.width, rows, e.hasNulls);
  }

  /** What is known of a directory that describes a table. */
  ghost predicate Grounded(pages: seq<seq<byte>>, dir: seq<F.ChunkDirEntry>, t: Table, schema: seq<Column>, z: Codec) {
    && t.Valid() && t.schema == schema && Lossless(z)
    && |dir| == At(Groups(t.rows), 0, |t.columns|) && t.Grid(pages, dir, z)
  }

  lemma GroundedCell(pages: seq<seq<byte>>, dir: seq<F.ChunkDirEntry>, t: Table, schema: seq<Column>, z: Codec, cg: nat,
                     col: nat)
    requires Grounded(pages, dir, t, schema, z) && cg < Groups(t.rows) && col < |t.columns|
    ensures At(cg, col, |schema|) < |dir|
    ensures Describes(pages, dir[At(cg, col, |schema|)], Group(t.columns[col], cg), schema[col], z)
    ensures AllFit(Group(t.columns[col], cg), schema[col].width)
    ensures dir[At(cg, col, |schema|)].rowCount == Hi(cg, t.rows) - Lo(cg) == |Group(t.columns[col], cg)|
  {
    hide At, Encodes, Region, CountNulls, HasNull, IsRange, Fits;
    AtBound(cg, col, Groups(t.rows), |schema|);
    GroupBounds(cg, t.rows);
    assert t.Cell(pages, dir[At(cg, col, |schema|)], cg, col, z);
  }

  /** The rows of one chunk group. */
  method ReadGroup(pages: seq<seq<byte>>, dir: seq<F.ChunkDirEntry>, schema: seq<Column>, want: seq<bool>, cg: nat,
                   z: Codec, ghost t: Table)
    returns (r: Scan)
    requires |want| == |schema| >= 1 && At(cg, |schema|, |schema|) <= |dir|
    ensures Grounded(pages, dir, t, schema, z) && cg < Groups(t.rows) ==> r == Rows(GroupRows(t, want, cg))
  {
    hide Describes, AllFit, Grounded, At;
    var n := |schema|;
    ghost var good := Grounded(pages, dir, t, schema, z) && cg < Groups(t.rows);
    CellsInside(cg, n);
    var rows := dir[At(cg, 0, n)].rowCount;
    var cols := [];
    if good { GroundedSchema(pages, dir, t, schema, z); GroundedCell(pages, dir, t, schema, z, cg, 0); }
    for col := 0 to n
      invariant |cols| == col
      invariant forall c :: 0 <= c < col && want[c] ==> |cols[c]| == rows
      invariant good ==> forall c :: 0 <= c < col && want[c] ==> cols[c] == Group(t.columns[c], cg)
    {
      if !want[col] {
        cols := cols + [[]];
      } else {
        if good { GroundedCell(pages, dir, t, schema, z, cg, col); }
        var cells := ReadColumnChunk(pages, dir[At(cg, col, n)], schema[col], rows, z,
                                     if good then Group(t.columns[col], cg) else []);
        if cells.Truncated? {
          return Corrupt;
        }
        cols := cols + [cells.value];
      }
    }
    var out := [];
    for i := 0 to rows
      invariant |out| == i
      invariant forall j :: 0 <= j < i ==> out[j] == RowOf(cols, want, j)
    {
      out := out + [RowOf(cols, want, i)];
    }
    if good {
      Assembled(t, want, cg, cols, out);
    }
    r := Rows(out);
  }

  lemma Assembled(t: Table, want: seq<bool>, cg: nat, cols: seq<seq<Cell>>, out: seq<Row>)
    requires t.Valid() && |want| == |t.columns| == |cols| && cg < Groups(t.rows)
    requires forall c :: 0 <= c < |cols| && want[c] ==> cols[c] == Group(t.columns[c], cg)
    requires |out| == Hi(cg, t.rows) - Lo(cg)
    requires forall c :: 0 <= c < |cols| && want[c] ==> |cols[c]| == |out|
    requires forall j :: 0 <= j < |out| ==> out[j] == RowOf(cols, want, j)
    ensures out == GroupRows(t, want, cg)
  {
    GroupBounds(cg, t.rows);
    forall j | 0 <= j < |out| ensures out[j] == RowOf(t.columns, want, Lo(cg) + j) {
      assert forall c :: 0 <= c < |cols| && want[c] ==> cols[c][j] == t.columns[c][Lo(cg) + j];
    }
  }

  lemma CellsInside(cg: nat, n: nat)
    ensures forall c :: 0 <= c < n ==> At(cg, c, n) < At(cg, n, n)
  {
  }

  lemma GroundedSchema(pages: seq<seq<byte>>, dir: seq<F.ChunkDirEntry>, t: Table, schema: seq<Column>, z: Codec)
    requires Grounded(pages, dir, t, schema, z)
    ensures t.Valid() && t.schema == schema && Lossless(z)
  {
  }

  datatype Directory = Directory(groups: nat, entries: seq<F.ChunkDirEntry>) | NoDirectory

  /** The header page and the directory it points at. */
  method ReadDirectory(pages: seq<seq<byte>>, block: nat, ncols: nat, z: Codec, ghost h: F.StripeHeader,
                       ghost entries: seq<F.ChunkDirEntry>, ghost t: Table)
    returns (r: Directory)
    ensures r.Directory? ==> |r.entries| == At(r.groups, 0, ncols)
    ensures Written(pages, block, h, entries, t, z) && FieldsFit(h, entries) && Lossless(z) && |t.schema| == ncols ==>
      r == Directory(Groups(t.rows), entries) && Grounded(pages, entries, t, t.schema, z)
  {
    hide Region, Grounded, Groups, FieldsFit, F.HeaderFromBytes, F.HeaderToBytes;
    ghost var good := Written(pages, block, h, entries, t, z) && FieldsFit(h, entries) && Lossless(z) && |t.schema| == ncols;
    if good { WrittenHeader(pages, block, h, entries, t, z); }
    if block >= |pages| {
      return NoDirectory;
    }
    var parsed := F.HeaderFromBytes(pages[block]);
    if !parsed.Header? || parsed.header.ncols != ncols {
      return NoDirectory;
    }
    var header := parsed.header;
    var dirBytes := Region(pages, header.dirFirstBlock, header.dirNPages);
    if dirBytes.Truncated? || |dirBytes.value| < header.dirLen {
      return NoDirectory;
    }
    var dir := F.DeserializeDirectory(dirBytes.value, At(header.nChunkGroups, 0, ncols));
    if good { WrittenDirectory(pages, block, h, entries, t, z, dir); }
    if dir.Truncated? {
      return NoDirectory;
    }
    r := Directory(header.nChunkGroups, dir.entries);
  }

  /** Scan a stripe. On any pages at all the scan returns rows or reports corruption; on a written stripe it returns the
      table's rows, without the chunk groups its predicates skip. */
  method DecodeStripe(pages: seq<seq<byte>>, block: nat, schema: seq<Column>, want: seq<bool>, preds: seq<Predicate>,
                      skip: bool, z: Codec, ghost h: F.StripeHeader, ghost entries: seq<F.ChunkDirEntry>, ghost t: Table)
    returns (r: Scan)
    requires |want| == |schema| >= 1
    ensures Written(pages, block, h, entries, t, z) && FieldsFit(h, entries) && Lossless(z) && t.schema == schema ==>
      r == Rows(Surviving(t, want, entries, preds, skip, Groups(t.rows)))
  {
    hide Written, At, Grounded, Skips, FieldsFit, Groups, Lossless;
    ghost var good := Written(pages, block, h, entries, t, z) && FieldsFit(h, entries) && Lossless(z) && t.schema == schema;
    var dir := ReadDirectory(pages, block, |schema|, z, h, entries, t);
    if dir.NoDirectory? {
      return Corrupt;
    }
    if good { GroundedSchema(pages, entries, t, schema, z); }
    var out := [];
    for cg := 0 to dir.groups
      invariant good ==> out == Surviving(t, want, entries, preds, skip, cg)
    {
      GroupInside(cg, dir.groups, |schema|);
      if !(skip && Skips(dir.entries, schema, preds, cg)) {
        var rows := ReadGroup(pages, dir.entries, schema, want, cg, z, t);
        if rows.Corrupt? {
          return Corrupt;
        }
        out := out + rows.rows;
      }
    }
    r := Rows(out);
  }

  lemma GroupInside(cg: nat, groups: nat, n: nat)
    requires cg < groups
    ensures At(cg, n, n) <= At(groups, 0, n)
  {
    RowBelow(cg, groups, n);
  }

  lemma WrittenHeader(pages: seq<seq<byte>>, block: nat, h: F.StripeHeader, entries: seq<F.ChunkDirEntry>, t: Table, z: Codec)
    requires Written(pages, block, h, entries, t, z) && FieldsFit(h, entries)
    ensures block < |pages| && F.HeaderFromBytes(pages[block]) == F.Header(h)
    ensures Region(pages, h.dirFirstBlock, h.dirNPages) == Ok(F.DirectoryBytes(entries))
    ensures h.dirLen == |F.DirectoryBytes(entries)| && h.ncols == |t.schema| && h.nChunkGroups == Groups(t.rows)
  {
    hide F.HeaderFromBytes, F.HeaderToBytes, Region, F.HeaderFits;
    F.HeaderRoundTrip(h, []);
    assert pages[block] + [] == pages[block];
  }

  lemma WrittenDirectory(pages: seq<seq<byte>>, block: nat, h: F.StripeHeader, entries: seq<F.ChunkDirEntry>, t: Table,
                         z: Codec, parsed: F.Directory)
    requires Written(pages, block, h, entries, t, z) && FieldsFit(h, entries) && Lossless(z)
    requires parsed.Directory? <==> |F.DirectoryBytes(entries)| >= |entries| * F.CHUNK_DIR_ENTRY_LEN
    requires parsed.Directory? ==> |parsed.entries| == |entries|
    requires parsed.Directory? ==>
      forall i :: 0 <= i < |entries| ==> parsed.entries[i] == F.ReadEntry(F.EntryAt(F.DirectoryBytes(entries), i))
    ensures parsed == F.Directory(entries) && Grounded(pages, entries, t, t.schema, z)
  {
    hide F.ReadEntry, F.EntryAt, F.EntryBytes, F.EntryFits;
    var b := F.DirectoryBytes(entries);
    assert b + [] == b;
    forall i | 0 <= i < |entries| ensures parsed.entries[i] == entries[i] {
      F.EntryStays(entries, [], i);
      F.EntryRoundTrip(entries[i]);
    }
  }

  ghost predicate IsRow(t: Table, row: Row, r: nat)
    requires t.Valid() && r < t.rows
  {
    |row| == |t.columns| && forall c :: 0 <= c < |t.columns| ==> row[c] == t.columns[c][r]
  }

  /** The row's wanted cells, and NULL in the columns that are not wanted. */
  ghost predicate IsProjection(t: Table, want: seq<bool>, row: Row, r: nat)
    requires t.Valid() && |want| == |t.columns| && r < t.rows
  {
    |row| == |t.columns| && forall c :: 0 <= c < |t.columns| ==> row[c] == if want[c] then t.columns[c][r] else Null
  }

  /** Without skipping, a scan returns the wanted columns of the table, row by row, in order. */
  lemma {:induction false} ScanProjects(t: Table, want: seq<bool>, entries: seq<F.ChunkDirEntry>, preds: seq<Predicate>, n: nat)
    requires t.Valid() && |want| == |t.columns| && n <= Groups(t.rows)
    ensures var rows := Surviving(t, want, entries, preds, false, n);
      && |rows| == (if n < Groups(t.rows) then Lo(n) else t.rows)
      && forall r :: 0 <= r < |rows| ==> IsProjection(t, want, rows[r], r)
  {
    hide IsProjection;
    var rows := Surviving(t, want, entries, preds, false, n);
    if n > 0 {
      ScanProjects(t, want, entries, preds, n - 1);
      GroupBounds(n - 1, t.rows);
      var init, last := Surviving(t, want, entries, preds, false, n - 1), GroupRows(t, want, n - 1);
      forall r | 0 <= r < |rows| ensures IsProjection(t, want, rows[r], r) {
        if r < |init| {
          assert rows[r] == init[r];
        } else {
          assert rows[r] == last[r - |init|];
          ProjectedRow(t, want, r);
        }
      }
    } else {
      assert t.rows == 0 || Groups(t.rows) > 0;
    }
  }

  lemma ProjectedRow(t: Table, want: seq<bool>, r: nat)
    requires t.Valid() && |want| == |t.columns| && r < t.rows
    ensures IsProjection(t, want, RowOf(t.columns, want, r), r)
  {
  }

  /** Without skipping, a scan of every column returns the table, row by row, in order. */
  lemma ScanReturnsTable(t: Table, entries: seq<F.ChunkDirEntry>, preds: seq<Predicate>, n: nat)
    requires t.Valid() && n <= Groups(t.rows)
    ensures var rows := Surviving(t, seq(|t.columns|, _ => true), entries, preds, false, n);
      && |rows| == (if n < Groups(t.rows) then Lo(n) else t.rows)
      && forall r :: 0 <= r < |rows| ==> IsRow(t, rows[r], r)
  {
    hide Surviving;
    var all := seq(|t.columns|, _ => true);
    ScanProjects(t, all, entries, preds, n);
    forall r | 0 <= r < |Surviving(t, all, entries, preds, false, n)|
      ensures IsRow(t, Surviving(t, all, entries, preds, false, n)[r], r)
    {
      assert IsProjection(t, all, Surviving(t, all, entries, preds, false, n)[r], r);
    }
  }

  // ----- a stripe written and scanned back -----

  /** The table's sizes fit the fields that hold them: rows and columns, each chunk before and after compression, and
      the directory. */
  ghost predicate Modest(t: Table, base: nat, z: Codec)
    requires t.Valid()
  {
    && |t.columns| < Pow256(2) && t.rows < Pow256(4) && base < Pow256(8)
    && At(Groups(t.rows), 0, |t.columns|) * F.CHUNK_DIR_ENTRY_LEN < Pow256(4)
    && forall cg, col :: 0 <= cg < Groups(t.rows) && 0 <= col < |t.columns| ==>
         ModestChunk(Group(t.columns[col], cg), t.schema[col], z)
  }

  ghost predicate ModestChunk(values: seq<Cell>, c: Column, z: Codec) {
    forall raw :: Encodes(raw, values, c.width) ==> |raw| < Pow256(4) && |z.compress(raw)| < Pow256(4)
  }

  /** An entry that describes a modest chunk fits, unless the relation has outgrown its block numbers. */
  lemma EntryOfChunkFits(pages: seq<seq<byte>>, e: F.ChunkDirEntry, values: seq<Cell>, c: Column, z: Codec)
    requires Describes(pages, e, values, c, z) && ModestChunk(values, c, z) && |values| < Pow256(4)
    requires |pages| < Pow256(4)
    ensures F.EntryFits(e)
  {
    hide Encodes, CountNulls, HasNull, Concat, Pow256;
    Widths();
    var raw :| HoldsChunk(pages, e, raw, values, c, z);
    StoredRangeFits(RangeOf(e), values, c.kind);
  }

  lemma StoredRangeFits(r: Range, values: seq<Cell>, k: Kind)
    requires IsRange(r, values, k)
    ensures r.Range? ==> r.min < TWO64 && r.max < TWO64
  {
    hide ReadValue;
  }

  lemma GridCell(i: nat, groups: nat, n: nat)
    requires n > 0 && i < At(groups, 0, n)
    ensures i / n < groups && i % n < n && i == At(i / n, i % n, n)
  {
    if groups <= i / n { assert groups * n <= i / n * n by { RowsBelow(groups, i / n, n); } }
  }

  lemma RowsBelow(a: nat, b: nat, n: nat)
    requires a <= b
    ensures a * n <= b * n
  {
  }

  lemma WrittenFits(pages: seq<seq<byte>>, block: nat, h: F.StripeHeader, entries: seq<F.ChunkDirEntry>, t: Table, z: Codec)
    requires Written(pages, block, h, entries, t, z) && Modest(t, h.firstRowNumber, z) && |pages| < Pow256(4)
    ensures FieldsFit(h, entries)
  {
    hide Describes, ModestChunk, F.EntryFits, Pow256, At, Concat, F.DirectoryBytes, F.HeaderToBytes;
    Widths();
    var n := |t.columns|;
    forall i: nat | i < |entries| ensures F.EntryFits(entries[i]) {
      GridCell(i, Groups(t.rows), n);
      var cg, col := i / n, i % n;
      assert t.Cell(pages, entries[At(cg, col, n)], cg, col, z);
      GroupBounds(cg, t.rows);
      EntryOfChunkFits(pages, entries[i], Group(t.columns[col], cg), t.schema[col], z);
    }
  }

  /** A table whose sizes fit, flushed at the end of a relation and scanned back, is the table row by row, as long as
      the relation's block numbers fit. */
  method RoundTrip(rel: Relation, t: Table, base: nat, z: Codec) returns (r: Scan)
    requires t.Valid() && Modest(t, base, z) && Lossless(z) && rel.capacity > 0
    modifies rel
    ensures old(rel.pages) <= rel.pages
    ensures |rel.pages| < Pow256(4) ==> r.Rows? && IsTable(t, r.rows)
  {
    hide Written, FieldsFit, Modest, Lossless, Surviving, Pow256, Groups;
    var block, h, dir := FlushStripe(rel, t, base, z);
    if |rel.pages| < Pow256(4) { WrittenFits(rel.pages, block, h, dir, t, z); }
    var want := seq(|t.columns|, _ => true);
    r := DecodeStripe(rel.pages, block, t.schema, want, [], false, z, h, dir, t);
    ScanReturnsTable(t, dir, [], Groups(t.rows));
  }

  ghost predicate IsTable(t: Table, rows: seq<Row>)
    requires t.Valid()
  {
    |rows| == t.rows && forall r :: 0 <= r < |rows| ==> IsRow(t, rows[r], r)
  }

  // ----- skipping and the re-check above it -----

  predicate Passes(row: Row, schema: seq<Column>, p: Predicate) {
    p.col < |row| && p.col < |schema| && Matches(row[p.col], schema[p.col].kind, p.op, p.constBits)
  }

  predicate PassesAll(row: Row, schema: seq<Column>, preds: seq<Predicate>) {
    forall i :: 0 <= i < |preds| ==> Passes(row, schema, preds[i])
  }

  /** The rows the executor keeps after re-checking the predicates. */
  function Filter(rows: seq<Row>, schema: seq<Column>, preds: seq<Predicate>): seq<Row> {
    if rows == [] then []
    else
      Filter(rows[..|rows| - 1], schema, preds)
      + if PassesAll(rows[|rows| - 1], schema, preds) then [rows[|rows| - 1]] else []
  }

  lemma {:induction false} FilterAppend(a: seq<Row>, b: seq<Row>, schema: seq<Column>, preds: seq<Predicate>)
    ensures Filter(a + b, schema, preds) == Filter(a, schema, preds) + Filter(b, schema, preds)
  {
    hide PassesAll;
    if b == [] {
      assert a + b == a;
    } else {
      FilterAppend(a, b[..|b| - 1], schema, preds);
      assert (a + b)[..|a + b| - 1] == a + b[..|b| - 1];
    }
  }

  ghost predicate NonePass(rows: seq<Row>, schema: seq<Column>, preds: seq<Predicate>) {
    forall r :: 0 <= r < |rows| ==> !PassesAll(rows[r], schema, preds)
  }

  lemma NonePassSnoc(rows: seq<Row>, schema: seq<Column>, preds: seq<Predicate>)
    requires rows != []
    ensures NonePass(rows, schema, preds)
       <==> NonePass(rows[..|rows| - 1], schema, preds) && !PassesAll(rows[|rows| - 1], schema, preds)
  {
    hide PassesAll;
    var init := rows[..|rows| - 1];
    assert forall r :: 0 <= r < |init| ==> init[r] == rows[r];
  }

  lemma {:induction false} FilterEmptyIff(rows: seq<Row>, schema: seq<Column>, preds: seq<Predicate>)
    ensures Filter(rows, schema, preds) == [] <==> NonePass(rows, schema, preds)
  {
    hide PassesAll, NonePass;
    if rows == [] {
      NothingPasses(schema, preds);
    } else {
      FilterEmptyIff(rows[..|rows| - 1], schema, preds);
      NonePassSnoc(rows, schema, preds);
    }
  }

  lemma NothingPasses(schema: seq<Column>, preds: seq<Predicate>)
    ensures NonePass([], schema, preds)
  {
  }

  /** The predicates read columns that are scanned, and compare in the column's domain. */
  ghost predicate Pushable(t: Table, want: seq<bool>, preds: seq<Predicate>)
    requires |want| == |t.columns|
  {
    forall i :: 0 <= i < |preds| ==> preds[i].col < |t.columns| && want[preds[i].col]
  }

  /** A skipped chunk group still holds a row that passes. */
  ghost predicate Loses(t: Table, want: seq<bool>, entries: seq<F.ChunkDirEntry>, preds: seq<Predicate>, cg: nat)
    requires t.Valid() && |want| == |t.columns| && cg < Groups(t.rows)
  {
    && Skips(entries, t.schema, preds, cg)
    && exists r :: 0 <= r < |GroupRows(t, want, cg)| && PassesAll(GroupRows(t, want, cg)[r], t.schema, preds)
  }

  lemma {:induction false} FilteredPrefix(t: Table, want: seq<bool>, entries: seq<F.ChunkDirEntry>, preds: seq<Predicate>,
                                          n: nat)
    requires t.Valid() && |want| == |t.columns| && n <= Groups(t.rows)
    ensures var got := Filter(Surviving(t, want, entries, preds, true, n), t.schema, preds);
      var all := Filter(Surviving(t, want, entries, preds, false, n), t.schema, preds);
      && |got| <= |all|
      && (got == all <==> forall cg :: 0 <= cg < n ==> !Loses(t, want, entries, preds, cg))
  {
    hide Skips, PassesAll, Filter;
    if n > 0 {
      FilteredPrefix(t, want, entries, preds, n - 1);
      var last := GroupRows(t, want, n - 1);
      var full := Surviving(t, want, entries, preds, false, n - 1);
      var part := Surviving(t, want, entries, preds, true, n - 1);
      FilterAppend(full, last, t.schema, preds);
      FilterEmptyIff(last, t.schema, preds);
      if Skips(entries, t.schema, preds, n - 1) {
        assert part + [] == part;
        assert Loses(t, want, entries, preds, n - 1) <==> Filter(last, t.schema, preds) != [];
        AppendsNothingIff(Filter(full, t.schema, preds), Filter(last, t.schema, preds));
      } else {
        FilterAppend(part, last, t.schema, preds);
        CancelRight(Filter(part, t.schema, preds), Filter(full, t.schema, preds), Filter(last, t.schema, preds));
      }
    }
  }

  lemma AppendsNothingIff<T>(a: seq<T>, b: seq<T>)
    ensures b == [] ==> a + b == a
  {
  }

  lemma CancelRight<T>(a: seq<T>, b: seq<T>, c: seq<T>)
    ensures a + c == b + c ==> a == b
  {
    if a + c == b + c {
      assert |a| == |b|;
      assert a == (a + c)[..|a|] == (b + c)[..|b|] == b;
    }
  }

  lemma WrittenIsGrounded(pages: seq<seq<byte>>, block: nat, h: F.StripeHeader, entries: seq<F.ChunkDirEntry>, t: Table,
                          z: Codec)
    requires Written(pages, block, h, entries, t, z) && Lossless(z)
    ensures Grounded(pages, entries, t, t.schema, z)
  {
  }

  /** The predicate rules the chunk group out though row r passes it, being a NaN under > or >=; or it does not rule the
      group out, and row r passes it. */
  ghost predicate LetsDown(t: Table, entries: seq<F.ChunkDirEntry>, p: Predicate, cg: nat, r: nat)
    requires t.Valid() && p.col < |t.columns| && r < t.rows
  {
    var cell, kind := t.columns[p.col][r], t.schema[p.col].kind;
    if SkipsFor(entries, t.schema, p, cg) then NaNUnder(cell, kind, p.op) else Matches(cell, kind, p.op, p.constBits)
  }

  ghost predicate Lost(t: Table, want: seq<bool>, entries: seq<F.ChunkDirEntry>, preds: seq<Predicate>, cg: nat, r: nat)
    requires t.Valid() && |want| == |t.columns| && Pushable(t, want, preds) && r < t.rows
  {
    forall i :: 0 <= i < |preds| ==> LetsDown(t, entries, preds[i], cg, r)
  }

  ghost predicate InGroup(t: Table, cg: nat, r: nat): (inside: bool)
    ensures inside ==> r < t.rows
  {
    Lo(cg) <= r < Hi(cg, t.rows)
  }

  lemma PassesIff(pages: seq<seq<byte>>, entries: seq<F.ChunkDirEntry>, t: Table, want: seq<bool>, p: Predicate, cg: nat,
                  r: nat, z: Codec)
    requires Grounded(pages, entries, t, t.schema, z) && |want| == |t.columns| && cg < Groups(t.rows)
    requires p.col < |t.columns| && want[p.col] && InGroup(t, cg, r)
    ensures Passes(RowOf(t.columns, want, r), t.schema, p) <==> LetsDown(t, entries, p, cg, r)
  {
    hide At, Matches, NaNUnder, ChunkCanMatch, Encodes, Region, CountNulls, HasNull, IsRange;
    if SkipsFor(entries, t.schema, p, cg) {
      GroundedCell(pages, entries, t, t.schema, z, cg, p.col);
      GroupBounds(cg, t.rows);
      var values, e := Group(t.columns[p.col], cg), entries[At(cg, p.col, |t.schema|)];
      var raw :| HoldsChunk(pages, e, raw, values, t.schema[p.col], z);
      SkippedMatches(values, t.schema[p.col].kind, RangeOf(e), p.op, p.constBits, r - Lo(cg));
    }
  }

  lemma PassesAllIff(pages: seq<seq<byte>>, entries: seq<F.ChunkDirEntry>, t: Table, want: seq<bool>,
                     preds: seq<Predicate>, cg: nat, r: nat, z: Codec)
    requires Grounded(pages, entries, t, t.schema, z) && |want| == |t.columns| && cg < Groups(t.rows)
    requires Pushable(t, want, preds) && InGroup(t, cg, r)
    ensures PassesAll(RowOf(t.columns, want, r), t.schema, preds) <==> Lost(t, want, entries, preds, cg, r)
  {
    hide Grounded, LetsDown, Passes, Groups, InGroup;
    GroundedSchema(pages, entries, t, t.schema, z);
    forall i | 0 <= i < |preds|
      ensures Passes(RowOf(t.columns, want, r), t.schema, preds[i]) <==> LetsDown(t, entries, preds[i], cg, r)
    {
      PassesIff(pages, entries, t, want, preds[i], cg, r, z);
    }
  }

  /** For any conjunction, skipping and re-checking gives what scanning and re-checking gives exactly when no skipped
      chunk group has a row that is a NaN for each predicate that rules the group out, under > or >=, and passes the
      rest. */
  lemma SkippingIsExactIff(pages: seq<seq<byte>>, block: nat, h: F.StripeHeader, entries: seq<F.ChunkDirEntry>, t: Table,
                           want: seq<bool>, preds: seq<Predicate>, z: Codec)
    requires Written(pages, block, h, entries, t, z) && Lossless(z) && |want| == |t.columns| && Pushable(t, want, preds)
    ensures Filter(Surviving(t, want, entries, preds, true, Groups(t.rows)), t.schema, preds)
         == Filter(Surviving(t, want, entries, preds, false, Groups(t.rows)), t.schema, preds)
       <==> forall cg, r: nat :: 0 <= cg < Groups(t.rows) && Skips(entries, t.schema, preds, cg) && InGroup(t, cg, r) ==>
              !Lost(t, want, entries, preds, cg, r)
  {
    hide Filter, Surviving, Skips, PassesAll, Groups, Written, Grounded, Lossless, Pushable, Lost;
    WrittenIsGrounded(pages, block, h, entries, t, z);
    GroundedSchema(pages, entries, t, t.schema, z);
    FilteredPrefix(t, want, entries, preds, Groups(t.rows));
    forall cg: nat, r: nat | cg < Groups(t.rows) && InGroup(t, cg, r)
      ensures PassesAll(GroupRows(t, want, cg)[r - Lo(cg)], t.schema, preds) <==> Lost(t, want, entries, preds, cg, r)
    {
      PassesAllIff(pages, entries, t, want, preds, cg, r, z);
    }
    forall cg: nat | cg < Groups(t.rows)
      ensures Loses(t, want, entries, preds, cg) <==>
        Skips(entries, t.schema, preds, cg) && exists r: nat :: InGroup(t, cg, r) && Lost(t, want, entries, preds, cg, r)
    {
      if Loses(t, want, entries, preds, cg) {
        var k :| 0 <= k < |GroupRows(t, want, cg)| && PassesAll(GroupRows(t, want, cg)[k], t.schema, preds);
        assert InGroup(t, cg, Lo(cg) + k);
      }
    }
  }

  /** A chunk group is skipped exactly when one of the predicates alone would skip it. */
  lemma SkipsIff(entries: seq<F.ChunkDirEntry>, schema: seq<Column>, preds: seq<Predicate>, cg: nat)
    ensures Skips(entries, schema, preds, cg) <==> exists i :: 0 <= i < |preds| && Skips(entries, schema, [preds[i]], cg)
  {
    hide SkipsFor;
    forall i | 0 <= i < |preds| ensures Skips(entries, schema, [preds[i]], cg) <==> SkipsFor(entries, schema, preds[i], cg) {
      assert [preds[i]][0] == preds[i];
    }
  }

  /** An inequality on a column whose group holds a value in its range and no NaN skips the group exactly when no row of
      it matches: nothing is skipped wrongly, and nothing scanned in vain. */
  lemma SkipsExactly(pages: seq<seq<byte>>, block: nat, h: F.StripeHeader, entries: seq<F.ChunkDirEntry>, t: Table,
                     p: Predicate, cg: nat, z: Codec)
    requires Written(pages, block, h, entries, t, z) && Lossless(z) && cg < Groups(t.rows) && p.col < |t.columns|
    requires var kind := t.schema[p.col].kind; !kind.Unordered? && !(IsFloat(kind) && IsNaN(p.constBits))
    requires p.op == Lt || p.op == Le || p.op == Ge || p.op == Gt
    requires forall r: nat :: InGroup(t, cg, r) ==> !IsNaNCell(t.columns[p.col][r], t.schema[p.col].kind)
    requires exists r: nat :: InGroup(t, cg, r) && Counts(t.columns[p.col][r], t.schema[p.col].kind)
    ensures Skips(entries, t.schema, [p], cg) <==>
      forall r: nat :: InGroup(t, cg, r) ==> !Matches(t.columns[p.col][r], t.schema[p.col].kind, p.op, p.constBits)
  {
    hide At, Matches, IsNaNCell, Counts, ChunkCanMatch, Encodes, Region, CountNulls, HasNull, IsRange, Groups, Written,
      Grounded, Lossless;
    WrittenIsGrounded(pages, block, h, entries, t, z);
    GroundedSchema(pages, entries, t, t.schema, z);
    GroundedCell(pages, entries, t, t.schema, z, cg, p.col);
    var e, kind := entries[At(cg, p.col, |t.schema|)], t.schema[p.col].kind;
    GroupBounds(cg, t.rows);
    var values := Group(t.columns[p.col], cg);
    var raw :| HoldsChunk(pages, e, raw, values, t.schema[p.col], z);
    forall i: nat | i < |values| ensures InGroup(t, cg, Lo(cg) + i) && values[i] == t.columns[p.col][Lo(cg) + i] {
    }
    forall r: nat | InGroup(t, cg, r) ensures r - Lo(cg) < |values| && values[r - Lo(cg)] == t.columns[p.col][r] {
    }
    CountedHasRange(values, kind, RangeOf(e));
    SkipIsExact(values, kind, RangeOf(e), p.op, p.constBits);
    OnePredicate(t, entries, p, cg);
  }

  lemma CountedHasRange(values: seq<Cell>, k: Kind, r: Range)
    requires IsRange(r, values, k) && exists i :: 0 <= i < |values| && Counts(values[i], k)
    ensures r.Range?
  {
    hide Counts;
    var i :| 0 <= i < |values| && Counts(values[i], k);
    assert Within(values[i], k, r);
  }

  /** A row lies in the chunk group of its number over ten thousand. */
  lemma GroupOfRow(t: Table, r: nat)
    requires r < t.rows
    ensures r / 10_000 < Groups(t.rows) && InGroup(t, r / 10_000, r)
  {
  }

  /** The predicate is > or >= on a float column, with a NaN in the chunk group. */
  ghost predicate NaNAbove(t: Table, p: Predicate, cg: nat)
    requires t.Valid() && cg < Groups(t.rows) && p.col < |t.columns|
  {
    (p.op == Gt || p.op == Ge) && HasNaN(Group(t.columns[p.col], cg), t.schema[p.col].kind)
  }

  lemma NaNAboveIff(t: Table, p: Predicate, cg: nat)
    requires t.Valid() && cg < Groups(t.rows) && p.col < |t.columns|
    ensures NaNAbove(t, p, cg) <==>
      exists r: nat :: InGroup(t, cg, r) && NaNUnder(t.columns[p.col][r], t.schema[p.col].kind, p.op)
  {
    hide IsNaNCell;
    GroupBounds(cg, t.rows);
    var values, kind := Group(t.columns[p.col], cg), t.schema[p.col].kind;
    if NaNAbove(t, p, cg) {
      var i :| 0 <= i < |values| && IsNaNCell(values[i], kind);
      assert InGroup(t, cg, Lo(cg) + i) && t.columns[p.col][Lo(cg) + i] == values[i];
    }
    if r: nat :| InGroup(t, cg, r) && NaNUnder(t.columns[p.col][r], kind, p.op) {
      assert values[r - Lo(cg)] == t.columns[p.col][r];
    }
  }

  /** With one pushed predicate, skipping changes the filtered rows exactly when it is > or >= and some skipped chunk
      group holds a NaN in its column. */
  lemma SkippingKeepsRowsIff(pages: seq<seq<byte>>, block: nat, h: F.StripeHeader, entries: seq<F.ChunkDirEntry>, t: Table,
                             want: seq<bool>, p: Predicate, z: Codec)
    requires Written(pages, block, h, entries, t, z) && Lossless(z) && |want| == |t.columns| && Pushable(t, want, [p])
    ensures Filter(Surviving(t, want, entries, [p], true, Groups(t.rows)), t.schema, [p])
         == Filter(Surviving(t, want, entries, [p], false, Groups(t.rows)), t.schema, [p])
       <==> forall cg :: 0 <= cg < Groups(t.rows) && SkipsFor(entries, t.schema, p, cg) ==> !NaNAbove(t, p, cg)
  {
    hide Filter, Surviving, NaNAbove, Groups, Written, Grounded, Lossless, InGroup, SkipsFor, NaNUnder;
    WrittenIsGrounded(pages, block, h, entries, t, z);
    GroundedSchema(pages, entries, t, t.schema, z);
    assert [p][0] == p && Pushable(t, want, [p]);
    SkippingIsExactIff(pages, block, h, entries, t, want, [p], z);
    forall cg | 0 <= cg < Groups(t.rows) && SkipsFor(entries, t.schema, p, cg)
      ensures Skips(entries, t.schema, [p], cg)
      ensures NaNAbove(t, p, cg) <==> exists r: nat :: InGroup(t, cg, r) && Lost(t, want, entries, [p], cg, r)
    {
      NaNAboveIff(t, p, cg);
    }
    forall cg: nat | Skips(entries, t.schema, [p], cg) ensures SkipsFor(entries, t.schema, p, cg) {
      OnePredicate(t, entries, p, cg);
    }
  }

  lemma OnePredicate(t: Table, entries: seq<F.ChunkDirEntry>, p: Predicate, cg: nat)
    ensures Skips(entries, t.schema, [p], cg) <==> SkipsFor(entries, t.schema, p, cg)
  {
    hide SkipsFor;
    assert [p][0] == p;
  }

  /** Any conjunction of predicates may skip freely when no > or >= reads a float column with a NaN in it. */
  lemma SkippingIsSafe(pages: seq<seq<byte>>, block: nat, h: F.StripeHeader, entries: seq<F.ChunkDirEntry>, t: Table,
                       want: seq<bool>, preds: seq<Predicate>, z: Codec)
    requires Written(pages, block, h, entries, t, z) && Lossless(z) && |want| == |t.columns| && Pushable(t, want, preds)
    requires forall i, cg :: 0 <= i < |preds| && 0 <= cg < Groups(t.rows) ==> !NaNAbove(t, preds[i], cg)
    ensures Filter(Surviving(t, want, entries, preds, true, Groups(t.rows)), t.schema, preds)
         == Filter(Surviving(t, want, entries, preds, false, Groups(t.rows)), t.schema, preds)
  {
    hide Filter, Surviving, NaNAbove, Groups, Written, Grounded, Lossless, InGroup, SkipsFor, NaNUnder;
    WrittenIsGrounded(pages, block, h, entries, t, z);
    GroundedSchema(pages, entries, t, t.schema, z);
    SkippingIsExactIff(pages, block, h, entries, t, want, preds, z);
    forall cg: nat, r: nat | cg < Groups(t.rows) && Skips(entries, t.schema, preds, cg) && InGroup(t, cg, r)
      ensures !Lost(t, want, entries, preds, cg, r)
    {
      var i :| 0 <= i < |preds| && SkipsFor(entries, t.schema, preds[i], cg);
      NaNAboveIff(t, preds[i], cg);
    }
  }
}

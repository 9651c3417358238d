/** The minimum and maximum kept for each column chunk, and skipping the chunks they rule out. */
module ZoneMap {
  import opened LittleEndian
  import opened ColumnCodec

  /** The comparison domain of a column. */
  datatype Kind = Unordered | I2 | I4 | I8 | F4 | F8 | Bool

  predicate IsFloat(k: Kind) { k.F4? || k.F8? }

  const TWO63 := 0x8000_0000_0000_0000
  const TWO64 := 0x1_0000_0000_0000_0000
  const TWO52 := 0x10_0000_0000_0000
  const INFINITY := 0x7FF0_0000_0000_0000

  // ----- 64-bit patterns and their order -----

  /** A two's-complement integer of `w` bytes. */
  function Signed(x: nat, w: nat): int {
    if 2 * x < Pow256(w) then x else x - Pow256(w)
  }

  /** `x as u64` for a signed 64-bit `x`. */
  function AsU64(x: int): nat
    requires -TWO63 <= x < TWO63
  {
    if x >= 0 then x else x + TWO64
  }

  /** `b as i64`. */
  function AsI64(b: nat): int
  {
    if b < TWO63 then b else b - TWO64
  }

  lemma AsI64Undoes(x: int)
    requires -TWO63 <= x < TWO63
    ensures AsI64(AsU64(x)) == x && AsU64(x) < TWO64
  {
  }

  function Magnitude(b: nat): nat { b % TWO63 }

  predicate IsNaN(b: nat) { Magnitude(b) > INFINITY }

  /** Where a stored 64-bit pattern stands in PostgreSQL's order of its type: integers by value, and floats by value
      with every NaN equal and above infinity. Consecutive doubles have consecutive magnitudes, so the magnitude with
      its sign orders them. */
  function Rank(b: nat, k: Kind): int {
    if !IsFloat(k) then AsI64(b)
    else if IsNaN(b) then INFINITY + 1
    else if b < TWO63 then Magnitude(b) else 0 - Magnitude(b)
  }

  // ----- widening a single to a double -----

  const TWO23 := 0x80_0000
  const TWO29 := 0x2000_0000
  const TWO31 := 0x8000_0000
  const INFINITY32 := 0x7F80_0000

  /** Shift a subnormal's fraction left until its leading one appears, lowering the exponent with it. */
  function Normalize(m: nat, exponent: int): int
    requires m < 2 * TWO23
    decreases TWO23 - m
  {
    if m == 0 then 0
    else if m >= TWO23 then exponent * TWO52 + (m - TWO23) * TWO29
    else Normalize(2 * m, exponent - 1)
  }

  lemma {:induction false} NormalizeBelow(m: nat, exponent: int)
    requires 0 < m < TWO23
    ensures Normalize(m, exponent) < exponent * TWO52
    decreases TWO23 - m
  {
    if 2 * m < TWO23 { NormalizeBelow(2 * m, exponent - 1); }
  }

  lemma {:induction false} NormalizeMonotone(a: nat, b: nat, exponent: int)
    requires 0 < a < b < 2 * TWO23
    ensures Normalize(a, exponent) < Normalize(b, exponent)
    decreases TWO23 - a
  {
    if a < TWO23 {
      if b < TWO23 { NormalizeMonotone(2 * a, 2 * b, exponent - 1); } else { NormalizeBelow(a, exponent); }
    }
  }

  /** The smallest subnormal single is the normal double two to the -149. */
  lemma SmallestSubnormal()
    ensures Normalize(1, 897) == 874 * TWO52
  {
    assert Normalize(4096, 885) == 874 * TWO52;
    assert Normalize(16, 893) == 874 * TWO52;
  }

  /** The magnitude of `x as f64` for a single `x`. */
  function WidenMagnitude(m: nat): (w: int)
    requires m < TWO31
  {
    var exponent, fraction := m / TWO23, m % TWO23;
    if exponent == 0 then Normalize(fraction, 897)
    else if exponent == 255 then INFINITY + fraction * TWO29
    else (exponent + 896) * TWO52 + fraction * TWO29
  }

  lemma WidenStep(a: nat, b: nat)
    requires a < b < TWO31
    ensures 0 <= WidenMagnitude(a) < WidenMagnitude(b) < TWO63
  {
    SmallestSubnormal();
    if 1 < a < TWO23 { NormalizeMonotone(1, a, 897); }
    if 0 < a < b < TWO23 { NormalizeMonotone(a, b, 897); }
    if 1 < b < TWO23 { NormalizeMonotone(1, b, 897); }
    if 0 < a < TWO23 { NormalizeBelow(a, 897); }
    if 0 < b < TWO23 { NormalizeBelow(b, 897); }
  }

  lemma WidenInRange(m: nat)
    requires m < TWO31
    ensures 0 <= WidenMagnitude(m) < TWO63
  {
    if m == 0 { WidenStep(0, 1); } else { WidenStep(0, m); }
  }

  /** `x as f64`, bit pattern to bit pattern. */
  function Widen(b: nat): (w: nat)
    requires b < 2 * TWO31
    ensures w < TWO64
  {
    WidenInRange(b % TWO31);
    if b < TWO31 then WidenMagnitude(b) else TWO63 + WidenMagnitude(b - TWO31)
  }

  function Rank32(b: nat): int
    requires b < 2 * TWO31
  {
    if b % TWO31 > INFINITY32 then INFINITY32 + 1
    else if b < TWO31 then b else -(b - TWO31)
  }

  /** The rank of a widened single, from the single's own rank. */
  function WidenedRank(r: int): int
    requires -TWO31 < r < TWO31
  {
    if r > INFINITY32 then INFINITY + 1 else if r >= 0 then WidenMagnitude(r) else -WidenMagnitude(-r)
  }

  lemma WidenedRankStep(x: int, y: int)
    requires -TWO31 < x < y <= INFINITY32 + 1
    ensures WidenedRank(x) < WidenedRank(y)
  {
    hide WidenMagnitude;
    WidenedZero();
    if y < 0 {
      WidenStep(-y, -x);
    } else {
      if x < 0 { WidenStep(0, -x); } else if x < INFINITY32 { WidenStep(x, INFINITY32); }
      if x >= 0 { WidenStep(x, y); }
      WidenInRange(y);
    }
  }

  /** Widening keeps the order of singles: NaN stays NaN, equal stays equal, smaller stays smaller. */
  lemma WideningKeepsOrder(a: nat, b: nat)
    requires a < 2 * TWO31 && b < 2 * TWO31
    ensures Rank32(a) < Rank32(b) <==> Rank(Widen(a), F4) < Rank(Widen(b), F4)
  {
    hide WidenedRank, Widen, Rank;
    RankOfWidened(a);
    RankOfWidened(b);
    if Rank32(a) < Rank32(b) { WidenedRankStep(Rank32(a), Rank32(b)); }
    if Rank32(b) < Rank32(a) { WidenedRankStep(Rank32(b), Rank32(a)); }
  }

  lemma WidenedZero()
    ensures WidenMagnitude(0) == 0 && WidenMagnitude(INFINITY32) == INFINITY && WidenMagnitude(INFINITY32 + 1) > INFINITY
  {
  }

  lemma RankOfWidened(b: nat)
    requires b < 2 * TWO31
    ensures Rank(Widen(b), F4) == WidenedRank(Rank32(b))
  {
    hide WidenMagnitude;
    WidenedZero();
    var m := b % TWO31;
    WidenInRange(m);
    if m > INFINITY32 { WidenStep(INFINITY32, m); } else if m < INFINITY32 { WidenStep(m, INFINITY32); }
  }

  // ----- a value's contribution -----

  datatype Reading = Unreadable | Bits(b: nat)

  /** The 64-bit pattern of a stored value, when the value is wide enough for its kind. */
  function ReadValue(v: seq<byte>, k: Kind): (r: Reading)
    ensures r.Bits? ==> r.b < TWO64
  {
    hide Decode, Widen, Signed;
    Widths();
    match k
    case Unordered => Unreadable
    case Bool => Bits(if |v| == 0 then 0 else v[0])
    case I2 => if |v| >= 2 then SignedFits(Decode(v[..2]), 2); Bits(AsU64(Signed(Decode(v[..2]), 2))) else Unreadable
    case I4 => if |v| >= 4 then SignedFits(Decode(v[..4]), 4); Bits(AsU64(Signed(Decode(v[..4]), 4))) else Unreadable
    case I8 => if |v| >= 8 then SignedFits(Decode(v[..8]), 8); Bits(AsU64(Signed(Decode(v[..8]), 8))) else Unreadable
    case F4 => if |v| >= 4 then Bits(Widen(Decode(v[..4]))) else Unreadable
    case F8 => if |v| >= 8 then Bits(Decode(v[..8])) else Unreadable
  }

  lemma SignedFits(x: nat, w: nat)
    requires (w == 2 || w == 4 || w == 8) && x < Pow256(w)
    ensures -TWO63 <= Signed(x, w) < TWO63
  {
    Widths();
    assert Pow256(2) == 65536;
  }

  /** The value takes part in the minimum and maximum: present, readable, and not NaN. */
  predicate Counts(c: Cell, k: Kind): (r: bool)
    ensures r ==> c.Present? && ReadValue(c.bytes, k).Bits?
  {
    c.Present? && ReadValue(c.bytes, k).Bits? && !(IsFloat(k) && IsNaN(ReadValue(c.bytes, k).b))
  }

  function RankOf(c: Cell, k: Kind): int
    requires c.Present? && ReadValue(c.bytes, k).Bits?
  {
    Rank(ReadValue(c.bytes, k).b, k)
  }

  /** How many bytes an integer kind reads. */
  function IntegerLen(k: Kind): nat
    requires k.I2? || k.I4? || k.I8?
  {
    match k
    case I2 => 2
    case I4 => 4
    case I8 => 8
  }

  /** The pattern kept for an integer, sign-extended to 64 bits, stands where the integer itself does. */
  lemma IntegersRankByValue(v: seq<byte>, k: Kind)
    requires k.I2? || k.I4? || k.I8?
    requires |v| >= IntegerLen(k)
    ensures ReadValue(v, k).Bits?
    ensures RankOf(Present(v), k) == Signed(Decode(v[..IntegerLen(k)]), IntegerLen(k))
  {
    hide Decode, Signed;
    var w := IntegerLen(k);
    SignedFits(Decode(v[..w]), w);
    AsI64Undoes(Signed(Decode(v[..w]), w));
  }

  datatype Range = NoRange | Range(min: nat, max: nat)

  predicate Within(c: Cell, k: Kind, r: Range) {
    Counts(c, k) ==> r.Range? && Rank(r.min, k) <= RankOf(c, k) <= Rank(r.max, k)
  }

  predicate Holds(c: Cell, k: Kind, b: nat) {
    Counts(c, k) && ReadValue(c.bytes, k).b == b
  }

  /** The range of a column chunk encloses every value that counts, and both its ends are such values; there is none
      when no value counts. */
  ghost predicate IsRange(r: Range, values: seq<Cell>, k: Kind) {
    && (forall i :: 0 <= i < |values| ==> Within(values[i], k, r))
    && (r.Range? ==>
          && (exists i :: 0 <= i < |values| && Holds(values[i], k, r.min))
          && (exists i :: 0 <= i < |values| && Holds(values[i], k, r.max)))
  }

  function Extend(r: Range, c: Cell, k: Kind): Range {
    if !Counts(c, k) then r
    else
      var x := ReadValue(c.bytes, k).b;
      match r
      case NoRange => Range(x, x)
      case Range(min, max) =>
        Range(if Rank(x, k) < Rank(min, k) then x else min, if Rank(x, k) > Rank(max, k) then x else max)
  }

  lemma ExtendWidens(r: Range, c: Cell, k: Kind)
    ensures Within(c, k, Extend(r, c, k))
    ensures forall v :: Within(v, k, r) ==> Within(v, k, Extend(r, c, k))
    ensures Extend(r, c, k) == r || Holds(c, k, Extend(r, c, k).min) || Holds(c, k, Extend(r, c, k).max)
    ensures r.Range? ==> Extend(r, c, k).Range?
    ensures Extend(r, c, k).Range? ==>
              && (Holds(c, k, Extend(r, c, k).min) || (r.Range? && Extend(r, c, k).min == r.min))
              && (Holds(c, k, Extend(r, c, k).max) || (r.Range? && Extend(r, c, k).max == r.max))
  {
    hide ReadValue, Rank, IsNaN;
  }

  lemma ExtendKeepsRange(r: Range, values: seq<Cell>, c: Cell, k: Kind)
    requires IsRange(r, values, k)
    ensures IsRange(Extend(r, c, k), values + [c], k)
  {
    hide Within, Holds, Extend;
    ExtendWidens(r, c, k);
    var all, n := values + [c], |values|;
    assert all[n] == c && forall i :: 0 <= i < n ==> all[i] == values[i];
  }

  method ComputeMinMax(values: seq<Cell>, k: Kind) returns (r: Range)
    ensures IsRange(r, values, k)
  {
    hide ReadValue, Rank, IsNaN, IsRange;
    r := NoRange;
    NothingHasNoRange(k);
    for i := 0 to |values|
      invariant IsRange(r, values[..i], k)
    {
      ExtendKeepsRange(r, values[..i], values[i], k);
      assert values[..i + 1] == values[..i] + [values[i]];
      if Counts(values[i], k) {
        var x := ReadValue(values[i].bytes, k).b;
        match r
        case NoRange => r := Range(x, x);
        case Range(min, max) =>
          r := Range(if Rank(x, k) < Rank(min, k) then x else min, if Rank(x, k) > Rank(max, k) then x else max);
      }
    }
    assert values[..|values|] == values;
  }

  lemma NothingHasNoRange(k: Kind)
    ensures IsRange(NoRange, [], k)
  {
  }

  // ----- skipping a chunk -----

  datatype Op = Lt | Le | Eq | Ge | Gt | Ne

  predicate Excluded(min: int, max: int, c: int, op: Op) {
    match op
    case Lt => min >= c
    case Le => min > c
    case Gt => max <= c
    case Ge => max < c
    case Eq => c < min || c > max
    case Ne => false
  }

  /** `chunk_can_match`: without a range, or with a NaN to compare, the chunk is scanned. */
  predicate ChunkCanMatch(r: Range, k: Kind, op: Op, const_: nat) {
    if r.NoRange? || k.Unordered? then true
    else if IsFloat(k) && (IsNaN(r.min) || IsNaN(r.max) || IsNaN(const_)) then true
    else !Excluded(Rank(r.min, k), Rank(r.max, k), Rank(const_, k), op)
  }

  predicate Compares(x: int, op: Op, c: int) {
    match op
    case Lt => x < c
    case Le => x <= c
    case Eq => x == c
    case Ge => x >= c
    case Gt => x > c
    case Ne => x != c
  }

  /** What PostgreSQL evaluates for the row: NULL never matches, and NaN is above every other float. */
  predicate Matches(cell: Cell, k: Kind, op: Op, const_: nat) {
    cell.Present? && ReadValue(cell.bytes, k).Bits? && Compares(RankOf(cell, k), op, Rank(const_, k))
  }

  ghost predicate SomeMatch(values: seq<Cell>, k: Kind, op: Op, const_: nat) {
    exists i :: 0 <= i < |values| && Matches(values[i], k, op, const_)
  }

  predicate IsNaNCell(c: Cell, k: Kind) {
    c.Present? && IsFloat(k) && ReadValue(c.bytes, k).Bits? && IsNaN(ReadValue(c.bytes, k).b)
  }

  ghost predicate HasNaN(values: seq<Cell>, k: Kind) {
    exists i :: 0 <= i < |values| && IsNaNCell(values[i], k)
  }

  /** A NaN value stands above every constant that is not NaN. */
  lemma NaNIsAbove(cell: Cell, k: Kind, op: Op, const_: nat)
    requires IsNaNCell(cell, k) && !IsNaN(const_)
    ensures Matches(cell, k, op, const_) <==> op == Gt || op == Ge || op == Ne
  {
    hide ReadValue;
  }

  /** A NaN under a comparison that NaN passes. */
  predicate NaNUnder(cell: Cell, k: Kind, op: Op) {
    (op == Gt || op == Ge) && IsNaNCell(cell, k)
  }

  /** Of a skipped chunk's rows, exactly the NaNs under > or >= match: NaN takes no part in the range, yet PostgreSQL
      orders it above everything. */
  lemma SkippedMatches(values: seq<Cell>, k: Kind, r: Range, op: Op, const_: nat, i: nat)
    requires IsRange(r, values, k) && !ChunkCanMatch(r, k, op, const_) && i < |values|
    ensures Matches(values[i], k, op, const_) <==> NaNUnder(values[i], k, op)
  {
    hide ReadValue, Rank, IsNaN;
    assert Within(values[i], k, r);
    if IsNaNCell(values[i], k) {
      NaNIsAbove(values[i], k, op, const_);
    }
  }

  /** A skipped chunk holds a matching row exactly when the comparison is > or >= and the chunk holds a NaN. */
  lemma SkipLosesARowIff(values: seq<Cell>, k: Kind, r: Range, op: Op, const_: nat)
    requires IsRange(r, values, k) && !ChunkCanMatch(r, k, op, const_)
    ensures SomeMatch(values, k, op, const_) <==> (op == Gt || op == Ge) && HasNaN(values, k)
  {
    hide ChunkCanMatch, Matches, IsNaNCell, IsRange;
    forall i: nat | i < |values| ensures Matches(values[i], k, op, const_) <==> NaNUnder(values[i], k, op) {
      SkippedMatches(values, k, r, op, const_, i);
    }
  }

  /** Without NaN, an inequality skips a chunk exactly when nothing in it matches. */
  lemma SkipIsExact(values: seq<Cell>, k: Kind, r: Range, op: Op, const_: nat)
    requires IsRange(r, values, k) && r.Range? && !k.Unordered?
    requires !HasNaN(values, k) && !(IsFloat(k) && IsNaN(const_))
    requires op == Lt || op == Le || op == Ge || op == Gt
    ensures ChunkCanMatch(r, k, op, const_) <==> SomeMatch(values, k, op, const_)
  {
    hide ReadValue, Rank, IsNaN;
    if !ChunkCanMatch(r, k, op, const_) {
      SkipLosesARowIff(values, k, r, op, const_);
    } else {
      var i :| 0 <= i < |values| && Holds(values[i], k, r.min);
      var j :| 0 <= j < |values| && Holds(values[j], k, r.max);
      assert Matches(values[i], k, op, const_) || Matches(values[j], k, op, const_);
    }
  }

  /** An equality skips a chunk exactly when every value that counts lies on the same side of the constant; an inequality
      with `<>` never does. */
  lemma EqualitySkipIff(values: seq<Cell>, k: Kind, r: Range, const_: nat)
    requires IsRange(r, values, k) && r.Range? && !k.Unordered? && !(IsFloat(k) && IsNaN(const_))
    ensures ChunkCanMatch(r, k, Ne, const_)
    ensures ChunkCanMatch(r, k, Eq, const_) <==>
      && (exists i :: 0 <= i < |values| && AtMostConst(values[i], k, const_))
      && (exists i :: 0 <= i < |values| && AtLeastConst(values[i], k, const_))
  {
    hide ReadValue, Rank, IsNaN;
    var i :| 0 <= i < |values| && Holds(values[i], k, r.min);
    var j :| 0 <= j < |values| && Holds(values[j], k, r.max);
    if ChunkCanMatch(r, k, Eq, const_) {
      assert AtMostConst(values[i], k, const_) && AtLeastConst(values[j], k, const_);
    }
  }

  predicate AtMostConst(c: Cell, k: Kind, const_: nat) {
    Counts(c, k) && RankOf(c, k) <= Rank(const_, k)
  }

  predicate AtLeastConst(c: Cell, k: Kind, const_: nat) {
    Counts(c, k) && RankOf(c, k) >= Rank(const_, k)
  }

  /** Ten, then NaN, in a double column: `col > 100` skips the chunk, and the NaN row is lost. */
  lemma SkipLosesNaN()
    ensures var ten, nan, hundred := 0x4024_0000_0000_0000, 0x7FF8_0000_0000_0000, 0x4059_0000_0000_0000;
      var values := [Present(Encode(ten, 8)), Present(Encode(nan, 8))];
      && IsRange(Range(ten, ten), values, F8)
      && !ChunkCanMatch(Range(ten, ten), F8, Gt, hundred)
      && Matches(values[1], F8, Gt, hundred)
  {
    var ten, nan := 0x4024_0000_0000_0000, 0x7FF8_0000_0000_0000;
    var values := [Present(Encode(ten, 8)), Present(Encode(nan, 8))];
    hide Encode, Decode, ReadValue;
    DoubleReadsBack(ten);
    DoubleReadsBack(nan);
    assert Holds(values[0], F8, ten);
  }

  lemma DoubleReadsBack(b: nat)
    requires b < TWO64
    ensures ReadValue(Encode(b, 8), F8) == Bits(b)
  {
    hide Encode, Decode;
    Widths();
    DecodeEncode(b, 8);
    assert Encode(b, 8)[..8] == Encode(b, 8);
  }
}

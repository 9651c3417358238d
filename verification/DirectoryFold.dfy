/** Answering min(col) and max(col) from the ranges in the directory, without decoding a chunk. */
module DirectoryFold {
  import opened ColumnCodec
  import opened ZoneMap

  /** What the directory says of the column in one chunk group. */
  datatype GroupStat = GroupStat(rows: nat, range: Range)

  datatype Answer = FallBack | SqlNull | Value(bits: nat)

  /** Every present value of the column's type can be read. */
  ghost predicate Readable(values: seq<Cell>, k: Kind) {
    forall i :: 0 <= i < |values| && values[i].Present? ==> ReadValue(values[i].bytes, k).Bits?
  }

  ghost predicate Describes(stats: seq<GroupStat>, groups: seq<seq<Cell>>, k: Kind) {
    && |stats| == |groups|
    && forall g :: 0 <= g < |stats| ==>
         stats[g].rows == |groups[g]| && IsRange(stats[g].range, groups[g], k) && Readable(groups[g], k)
  }

  /** No present value lies beyond the bits in the wanted direction, in PostgreSQL's order. */
  ghost predicate Bounds(bits: nat, values: seq<Cell>, k: Kind, wantMax: bool) {
    forall i :: 0 <= i < |values| && values[i].Present? && ReadValue(values[i].bytes, k).Bits? ==>
      if wantMax then RankOf(values[i], k) <= Rank(bits, k) else Rank(bits, k) <= RankOf(values[i], k)
  }

  ghost predicate Attains(bits: nat, values: seq<Cell>, k: Kind) {
    exists i :: 0 <= i < |values| && Holds(values[i], k, bits)
  }

  predicate NoneIsPresent(values: seq<Cell>) {
    forall i :: 0 <= i < |values| ==> values[i].Null?
  }

  /** The extreme of the groups so far and of the pending rows, if any. */
  ghost predicate IsExtreme(a: Answer, groups: seq<seq<Cell>>, k: Kind, wantMax: bool) {
    match a
    case FallBack => true
    case SqlNull => forall g :: 0 <= g < |groups| ==> NoneIsPresent(groups[g])
    case Value(bits) =>
      && (forall g :: 0 <= g < |groups| ==> Bounds(bits, groups[g], k, wantMax))
      && exists g :: 0 <= g < |groups| && Attains(bits, groups[g], k)
  }

  function Pick(a: Answer, candidate: nat, k: Kind, wantMax: bool): Answer {
    match a
    case Value(bits) =>
      if (if wantMax then Rank(candidate, k) > Rank(bits, k) else Rank(candidate, k) < Rank(bits, k))
      then Value(candidate) else a
    case _ => Value(candidate)
  }

  function End(r: Range, wantMax: bool): nat
    requires r.Range?
  {
    if wantMax then r.max else r.min
  }

  /** A range's end is the extreme of its values: for a maximum over integers, and for a minimum over anything, since NaN
      is above all that the range encloses. */
  lemma EndIsExtreme(r: Range, values: seq<Cell>, k: Kind, wantMax: bool)
    requires IsRange(r, values, k) && r.Range? && !(wantMax && IsFloat(k))
    ensures Bounds(End(r, wantMax), values, k, wantMax) && Attains(End(r, wantMax), values, k)
  {
    hide ReadValue;
    var i :| 0 <= i < |values| && Holds(values[i], k, r.min);
    forall j | 0 <= j < |values| && values[j].Present? && ReadValue(values[j].bytes, k).Bits?
      ensures if wantMax then RankOf(values[j], k) <= Rank(r.max, k) else Rank(r.min, k) <= RankOf(values[j], k)
    {
      assert Within(values[j], k, r);
    }
  }

  lemma BoundsFarther(bits: nat, bits': nat, values: seq<Cell>, k: Kind, wantMax: bool)
    requires Bounds(bits, values, k, wantMax)
    requires if wantMax then Rank(bits, k) <= Rank(bits', k) else Rank(bits', k) <= Rank(bits, k)
    ensures Bounds(bits', values, k, wantMax)
  {
    hide ReadValue, Rank;
  }

  lemma NoneBounds(bits: nat, values: seq<Cell>, k: Kind, wantMax: bool)
    requires NoneIsPresent(values)
    ensures Bounds(bits, values, k, wantMax)
  {
  }

  lemma PickExtends(a: Answer, groups: seq<seq<Cell>>, values: seq<Cell>, candidate: nat, k: Kind, wantMax: bool)
    requires !a.FallBack? && IsExtreme(a, groups, k, wantMax)
    requires Bounds(candidate, values, k, wantMax) && Attains(candidate, values, k)
    ensures IsExtreme(Pick(a, candidate, k, wantMax), groups + [values], k, wantMax)
  {
    hide Bounds, Attains, NoneIsPresent, Rank;
    var all, picked := groups + [values], Pick(a, candidate, k, wantMax).bits;
    assert all[|groups|] == values && forall g :: 0 <= g < |groups| ==> all[g] == groups[g];
    BoundsFarther(candidate, picked, values, k, wantMax);
    forall g | 0 <= g < |groups| ensures Bounds(picked, groups[g], k, wantMax) {
      match a
      case SqlNull => NoneBounds(picked, groups[g], k, wantMax);
      case Value(bits) => BoundsFarther(bits, picked, groups[g], k, wantMax);
    }
    if a.Value? && picked == a.bits {
      var g :| 0 <= g < |groups| && Attains(a.bits, groups[g], k);
      assert Attains(picked, all[g], k);
    } else {
      assert Attains(picked, all[|groups|], k);
    }
  }

  lemma NoneExtends(a: Answer, groups: seq<seq<Cell>>, values: seq<Cell>, k: Kind, wantMax: bool)
    requires !a.FallBack? && IsExtreme(a, groups, k, wantMax) && NoneIsPresent(values)
    ensures IsExtreme(a, groups + [values], k, wantMax)
  {
    hide Bounds, Attains, NoneIsPresent;
    var all := groups + [values];
    assert all[|groups|] == values && forall g :: 0 <= g < |groups| ==> all[g] == groups[g];
    if a.Value? {
      NoneBounds(a.bits, values, k, wantMax);
      var g :| 0 <= g < |groups| && Attains(a.bits, groups[g], k);
      assert Attains(a.bits, all[g], k);
    }
  }

  /** The column has no order, or a float's maximum is wanted; or some group's values, or the pending ones, have no
      range. */
  ghost predicate NotAnswered(stats: seq<GroupStat>, pending: seq<Cell>, k: Kind, wantMax: bool) {
    || k.Unordered? || (wantMax && IsFloat(k))
    || (exists g :: 0 <= g < |stats| && stats[g].rows > 0 && stats[g].range.NoRange?)
    || ((exists i :: 0 <= i < |pending| && pending[i].Present?)
        && forall i :: 0 <= i < |pending| ==> !Counts(pending[i], k))
  }

  lemma RangeOfCounted(r: Range, values: seq<Cell>, k: Kind)
    requires IsRange(r, values, k)
    ensures r.Range? <==> exists i :: 0 <= i < |values| && Counts(values[i], k)
  {
    hide ReadValue, Rank, Counts;
    if i :| 0 <= i < |values| && Counts(values[i], k) { assert Within(values[i], k, r); }
  }

  /** Whenever the directory answers, the answer is the extreme of all stored and pending values, and NULL exactly for
      want of any; otherwise the caller scans. */
  method DirectoryMinMax(stats: seq<GroupStat>, pending: seq<Cell>, k: Kind, wantMax: bool, ghost groups: seq<seq<Cell>>)
    returns (r: Answer)
    requires Describes(stats, groups, k) && Readable(pending, k)
    ensures IsExtreme(r, groups + [pending], k, wantMax)
    ensures r.FallBack? <==> NotAnswered(stats, pending, k, wantMax)
  {
    hide IsExtreme, Bounds, Attains, IsRange, Readable, Rank;
    FallingBackIsSafe(groups + [pending], k, wantMax);
    if k.Unordered? || (wantMax && IsFloat(k)) {
      return FallBack;
    }
    r := SqlNull;
    NothingIsNull(k, wantMax);
    for g := 0 to |stats|
      invariant !r.FallBack? && IsExtreme(r, groups[..g], k, wantMax)
      invariant forall h :: 0 <= h < g ==> !(stats[h].rows > 0 && stats[h].range.NoRange?)
    {
      assert groups[..g + 1] == groups[..g] + [groups[g]];
      if stats[g].rows == 0 {
        NoneExtends(r, groups[..g], groups[g], k, wantMax);
      } else if stats[g].range.NoRange? {
        return FallBack;
      } else {
        var candidate := End(stats[g].range, wantMax);
        EndIsExtreme(stats[g].range, groups[g], k, wantMax);
        PickExtends(r, groups[..g], groups[g], candidate, k, wantMax);
        r := Pick(r, candidate, k, wantMax);
      }
    }
    assert groups[..|stats|] == groups;
    var range := ComputeMinMax(pending, k);
    RangeOfCounted(range, pending, k);
    if range.Range? {
      var candidate := End(range, wantMax);
      EndIsExtreme(range, pending, k, wantMax);
      PickExtends(r, groups, pending, candidate, k, wantMax);
      r := Pick(r, candidate, k, wantMax);
    } else if !NoneIsPresent(pending) {
      return FallBack;
    } else {
      NoneExtends(r, groups, pending, k, wantMax);
    }
  }

  lemma FallingBackIsSafe(groups: seq<seq<Cell>>, k: Kind, wantMax: bool)
    ensures IsExtreme(FallBack, groups, k, wantMax)
  {
  }

  lemma NothingIsNull(k: Kind, wantMax: bool)
    ensures IsExtreme(SqlNull, [], k, wantMax)
  {
  }
}

/** 64-bit words seen as sets of bit positions: the visited bitset of the breadth-first search, the lane
    masks of the multi-source search and packed quantizer codes all live in such words. Bit-vector facts
    stay in the first half of the file; everything else speaks of `Bit` only. */
module Bits {

  lemma SuccessorIndex(x: bv8)
    requires x as nat < 63
    ensures x < 63 && (x + 1) as nat == x as nat + 1
  {
  }

  /** A bit position as a shift amount. */
  function Index(k: nat): (x: bv8)
    requires k < 64
    ensures x as nat == k && x < 64
  {
    if k == 0 then 0 else
      SuccessorIndex(Index(k - 1));
      Index(k - 1) + 1
  }

  /** `1u64 << k`. */
  function OneHot(k: nat): bv64
    requires k < 64
  {
    1 << Index(k)
  }

  /** `a | b`, named so that callers can keep the bit-vector operation out of their proofs. */
  function Or(a: bv64, b: bv64): bv64 {
    a | b
  }

  /** `a & !b`. */
  function AndNot(a: bv64, b: bv64): bv64 {
    a & !b
  }

  /** `m & (m - 1)`. */
  function WithoutLowest(m: bv64): bv64 {
    m & (m - 1)
  }

  predicate Meets(w: bv64, m: bv64) {
    w & m != 0
  }

  /** Position `k` of the word is set. */
  predicate Bit(w: bv64, k: nat)
    requires k < 64
  {
    Meets(w, OneHot(k))
  }

  predicate Misses(w: bv64, m: bv64) {
    w & (m - 1) == 0
  }

  /** No position below `k` is set. */
  predicate ClearBelow(w: bv64, k: nat)
    requires k < 64
  {
    Misses(w, OneHot(k))
  }

  predicate Single(m: bv64) {
    m != 0 && m & (m - 1) == 0
  }

  // ----- bit-vector facts -----

  lemma ShiftSingle(x: bv8)
    requires x < 64
    ensures Single(1 << x)
  {
  }

  lemma ShiftDisjoint(x: bv8, y: bv8)
    requires x < 64 && y < 64 && x != y
    ensures !Meets(1 << x, 1 << y)
  {
  }

  lemma ShiftLowMask(x: bv8)
    requires x < 63
    ensures (1 as bv64 << (x + 1)) - 1 == ((1 as bv64 << x) - 1) | (1 << x)
  {
  }

  lemma MaskAllOrNothing(w: bv64, m: bv64)
    requires Single(m)
    ensures w & m == 0 || w & m == m
  {
  }

  lemma MaskTables(m: bv64)
    ensures m ^ m == 0 && 0 ^ m == m && m & m == m && m & 0 == 0 && 0 & m == 0
  {
  }

  lemma MaskOr(a: bv64, b: bv64, m: bv64)
    ensures Meets(a | b, m) <==> Meets(a, m) || Meets(b, m)
  {
    assert (a | b) & m == (a & m) | (b & m);
  }

  lemma MaskAndNot(a: bv64, b: bv64, m: bv64)
    requires Single(m)
    ensures Meets(a & !b, m) <==> Meets(a, m) && !Meets(b, m)
  {
    assert (a & !b) & m == (a & m) & ((b & m) ^ m);
    MaskAllOrNothing(a, m);
    MaskAllOrNothing(b, m);
    MaskTables(m);
  }

  lemma MaskXor(a: bv64, b: bv64, m: bv64)
    requires Single(m)
    ensures Meets(a ^ b, m) <==> Meets(a, m) != Meets(b, m)
  {
    assert (a ^ b) & m == (a & m) ^ (b & m);
    MaskAllOrNothing(a, m);
    MaskAllOrNothing(b, m);
    MaskTables(m);
  }

  lemma MaskZero(m: bv64)
    ensures !Meets(0, m)
  {
    MaskTables(m);
  }

  lemma MaskSelf(m: bv64)
    requires Single(m)
    ensures Meets(m, m)
  {
    MaskTables(m);
  }

  /** The positions up to that of a single bit, itself included. */
  function UpTo(m: bv64): bv64 {
    (m - 1) | m
  }

  lemma MaskUnionClear(w: bv64, m: bv64, next: bv64)
    requires Misses(w, m) && !Meets(w, m) && next - 1 == UpTo(m)
    ensures Misses(w, next)
  {
    assert w & ((m - 1) | m) == (w & (m - 1)) | (w & m);
  }

  lemma ClearLowestMask(x: bv64, m: bv64)
    requires Single(m) && Meets(x, m) && Misses(x, m)
    ensures x & (x - 1) == x ^ m
  {
    MaskAllOrNothing(x, m);
  }

  lemma AllClear(w: bv64, top: bv64)
    requires top == 1 << 63 && Misses(w, top) && !Meets(w, top)
    ensures w == 0
  {
  }

  // ----- the same facts about bit positions -----

  lemma OneHotSingle(k: nat)
    requires k < 64
    ensures Single(OneHot(k))
  {
    hide Single, Index;
    ShiftSingle(Index(k));
  }

  lemma ZeroHasNoBits(k: nat)
    requires k < 64
    ensures !Bit(0, k)
  {
    hide Meets, OneHot;
    MaskZero(OneHot(k));
  }

  lemma OrBits(a: bv64, b: bv64, k: nat)
    requires k < 64
    ensures Bit(Or(a, b), k) <==> Bit(a, k) || Bit(b, k)
  {
    hide Meets, OneHot;
    MaskOr(a, b, OneHot(k));
  }

  lemma AndNotBits(a: bv64, b: bv64, k: nat)
    requires k < 64
    ensures Bit(AndNot(a, b), k) <==> Bit(a, k) && !Bit(b, k)
  {
    hide Meets, OneHot, Single;
    OneHotSingle(k);
    MaskAndNot(a, b, OneHot(k));
  }

  lemma XorBits(a: bv64, b: bv64, k: nat)
    requires k < 64
    ensures Bit(a ^ b, k) <==> Bit(a, k) != Bit(b, k)
  {
    hide Meets, OneHot, Single;
    OneHotSingle(k);
    MaskXor(a, b, OneHot(k));
  }

  lemma OneHotDisjoint(j: nat, k: nat)
    requires j < 64 && k < 64 && j != k
    ensures !Meets(OneHot(j), OneHot(k))
  {
    hide Meets, Index;
    assert Index(j) != Index(k);
    ShiftDisjoint(Index(j), Index(k));
  }

  lemma OneHotBits(j: nat, k: nat)
    requires j < 64 && k < 64
    ensures Bit(OneHot(j), k) <==> j == k
  {
    hide Meets, OneHot, Single;
    if j == k {
      OneHotSingle(k);
      MaskSelf(OneHot(k));
    } else {
      OneHotDisjoint(j, k);
    }
  }

  /** Setting bit `j` adds exactly position `j`. */
  lemma SetBitBits(w: bv64, j: nat, k: nat)
    requires j < 64 && k < 64
    ensures Bit(Or(w, OneHot(j)), k) <==> Bit(w, k) || j == k
  {
    hide Bit, OneHot, Or;
    OrBits(w, OneHot(j), k);
    OneHotBits(j, k);
  }

  // ----- the lowest set bit: `trailing_zeros` and `m &= m - 1` -----

  lemma OneHotLowMask(k: nat)
    requires k < 63
    ensures OneHot(k + 1) - 1 == UpTo(OneHot(k))
  {
    assert Index(k + 1) == Index(k) + 1;
    ShiftLowMask(Index(k));
  }

  lemma NoLowerBits(w: bv64, k: nat)
    requires k < 63 && ClearBelow(w, k) && !Bit(w, k)
    ensures ClearBelow(w, k + 1)
  {
    hide OneHot, Misses, Meets, UpTo;
    OneHotLowMask(k);
    MaskUnionClear(w, OneHot(k), OneHot(k + 1));
  }

  lemma TopBitFound(w: bv64)
    requires ClearBelow(w, 63) && w != 0
    ensures Bit(w, 63)
  {
    hide Meets, Misses;
    if !Bit(w, 63) {
      AllClear(w, OneHot(63));
    }
  }

  lemma NothingBelowZero(m: bv64)
    ensures ClearBelow(m, 0)
  {
  }

  /** The position of the lowest set bit, found from position `k` up. */
  function LowestFrom(m: bv64, k: nat): (z: nat)
    requires k < 64 && m != 0 && ClearBelow(m, k)
    ensures k <= z < 64 && Bit(m, z) && ClearBelow(m, z)
    decreases 64 - k
  {
    hide ClearBelow, Bit;
    if k == 63 then TopBitFound(m); 63
    else if Bit(m, k) then k
    else
      NoLowerBits(m, k);
      LowestFrom(m, k + 1)
  }

  /** `u64::trailing_zeros` of a nonzero word. */
  function TrailingZeros(m: bv64): (z: nat)
    requires m != 0
    ensures z < 64 && Bit(m, z) && ClearBelow(m, z)
  {
    hide ClearBelow, Bit;
    NothingBelowZero(m);
    LowestFrom(m, 0)
  }

  lemma ClearLowestIsFlip(m: bv64, z: nat)
    requires z < 64 && Bit(m, z) && ClearBelow(m, z)
    ensures m & (m - 1) == m ^ OneHot(z)
  {
    hide OneHot, Single, Meets, Misses;
    OneHotSingle(z);
    ClearLowestMask(m, OneHot(z));
  }

  /** `m & (m - 1)` removes exactly the lowest set bit. */
  lemma ClearLowestBits(m: bv64, k: nat)
    requires m != 0 && k < 64
    ensures Bit(WithoutLowest(m), k) <==> Bit(m, k) && k != TrailingZeros(m)
  {
    hide OneHot, Bit, ClearBelow, TrailingZeros;
    var z := TrailingZeros(m);
    ClearLowestIsFlip(m, z);
    XorBits(m, OneHot(z), k);
    OneHotBits(z, k);
  }

  lemma WithoutLowestSmaller(m: bv64)
    requires m != 0
    ensures WithoutLowest(m) < m
  {
  }

  /** A word is nonzero exactly when one of its bits is set. */
  lemma NonzeroHasBit(w: bv64)
    ensures w != 0 <==> exists k :: 0 <= k < 64 && Bit(w, k)
  {
    hide Bit, ClearBelow, TrailingZeros;
    if w != 0 {
      assert Bit(w, TrailingZeros(w));
    } else {
      forall k | 0 <= k < 64 ensures !Bit(w, k) { ZeroHasNoBits(k); }
    }
  }

  // ----- a slice of words as one long bitset -----

  predicate IsSet(bs: seq<bv64>, i: nat)
    requires i / 64 < |bs|
  {
    Bit(bs[i / 64], i % 64)
  }

  function WithBit(bs: seq<bv64>, i: nat): seq<bv64>
    requires i / 64 < |bs|
  {
    bs[i / 64 := Or(bs[i / 64], OneHot(i % 64))]
  }

  lemma WithBitLength(bs: seq<bv64>, i: nat)
    requires i / 64 < |bs|
    ensures |WithBit(bs, i)| == |bs|
  {
  }

  lemma WithBitIsSet(bs: seq<bv64>, i: nat, j: nat)
    requires i / 64 < |bs| && j / 64 < |bs|
    ensures IsSet(WithBit(bs, i), j) <==> IsSet(bs, j) || i == j
  {
    hide Bit, OneHot, Or;
    if i / 64 == j / 64 {
      SetBitBits(bs[i / 64], i % 64, j % 64);
      assert i % 64 == j % 64 <==> i == j;
    }
  }

  /** `words[i / 64] |= 1 << (i % 64)`. */
  method SetBit(words: array<bv64>, i: nat)
    requires i / 64 < words.Length
    modifies words
    ensures words[..] == WithBit(old(words[..]), i)
  {
    hide Or, OneHot;
    words[i / 64] := Or(words[i / 64], OneHot(i % 64));
  }
}

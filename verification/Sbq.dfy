/** Scalar bit quantization: each dimension becomes a unary run of bits packed into 64-bit words, and codes are
    compared by the number of differing bits. */
module Sbq {
  import opened Bits
  import opened RealSums

  /** `std` is used with two or more bits per dimension only. */
  datatype Quantizer = Quantizer(bits: nat, mean: seq<real>, std: seq<real>) {

    /** What indexing and dividing by the codebook demands of a vector of `dim` components. */
    ghost predicate Fits(dim: nat) {
      && 1 <= bits <= 8
      && (bits > 1 ==> dim <= |mean| && dim <= |std| && forall d :: 0 <= d < dim ==> std[d] != 0.0)
    }

    /** How many of the dimension's bits are set: its threshold or its z-score bucket. */
    function Ones(v: seq<real>, d: nat): (n: nat)
      requires d < |v| && Fits(|v|)
      ensures n <= bits
    {
      if bits == 1 then
        if d < |mean| && v[d] > mean[d] then 1 else 0
      else
        var z := (v[d] - mean[d]) / std[d];
        Bucket(z, bits)
    }

    function Unary(v: seq<real>): (r: seq<nat>)
      requires Fits(|v|)
      ensures |r| == |v| && forall d :: 0 <= d < |v| ==> r[d] == Ones(v, d) <= bits
    {
      seq(|v|, d requires 0 <= d < |v| => Ones(v, d))
    }
  }

  /** `(frac * bits).round()` for `frac` in `[0, 1]`: halves round up. */
  function Bucket(z: real, bits: nat): (n: nat)
    ensures n <= bits
  {
    var frac := Clamp((z + 2.0) / 4.0, 0.0, 1.0);
    ScaledFraction(frac, bits);
    var ones := (frac * bits as real + 0.5).Floor;
    if ones < bits then ones else bits
  }

  lemma ScaledFraction(frac: real, bits: nat)
    requires 0.0 <= frac <= 1.0
    ensures 0.0 <= frac * bits as real <= bits as real
  {
  }

  /** A larger component never gets fewer bits. */
  lemma BucketMonotone(y: real, z: real, bits: nat)
    requires y <= z
    ensures Bucket(y, bits) <= Bucket(z, bits)
  {
    var a, b := Clamp((y + 2.0) / 4.0, 0.0, 1.0), Clamp((z + 2.0) / 4.0, 0.0, 1.0);
    ScaleMonotone(a, b, bits as real);
    FloorMonotone(a * bits as real + 0.5, b * bits as real + 0.5);
  }

  /** Bit `j` of a run is set from the z-score -2 + (4 j + 2) / bits on: the thresholds divide [-2, 2] evenly, half a
      step in from its ends. */
  lemma BucketThreshold(z: real, bits: nat, j: nat)
    requires j < bits
    ensures j < Bucket(z, bits) <==> (z + 2.0) * bits as real >= 4.0 * j as real + 2.0
  {
    var b, frac := bits as real, Clamp((z + 2.0) / 4.0, 0.0, 1.0);
    ScaledFraction(frac, bits);
    if z < -2.0 {
      ScaleMonotone(z + 2.0, 0.0, b);
    } else if z > 2.0 {
      ScaleMonotone(4.0, z + 2.0, b);
    } else {
      assert frac * b == (z + 2.0) * b / 4.0;
    }
  }

  lemma FloorMonotone(x: real, y: real)
    requires x <= y
    ensures x.Floor <= y.Floor
  {
  }

  lemma ScaleMonotone(a: real, b: real, c: real)
    requires a <= b && c >= 0.0
    ensures a * c <= b * c
  {
  }

  // ----- packed codes -----

  function Words(n: nat): nat {
    (n + 63) / 64
  }

  /** Where bit `j` of dimension `d` goes. */
  function Position(d: nat, j: nat, bits: nat): nat {
    d * bits + j
  }

  /** Bit `d * bits + j` is set exactly for `j` below the dimension's count; the rest of the words is clear. */
  ghost predicate Packed(code: seq<bv64>, ones: seq<nat>, bits: nat) {
    && |code| == Words(|ones| * bits)
    && (forall d: nat, j: nat :: d < |ones| && j < bits ==> BitAt(code, Position(d, j, bits), j < ones[d]))
    && (forall p :: |ones| * bits <= p < 64 * |code| ==> BitAt(code, p, false))
  }

  ghost predicate BitAt(code: seq<bv64>, p: int, set_: bool) {
    0 <= p < 64 * |code| && (IsSet(code, p) <==> set_)
  }

  /** The bits of the first `done` runs, and `part` bits of the next one, have been written. */
  ghost predicate Written(code: seq<bv64>, ones: seq<nat>, bits: nat, done: nat, part: nat) {
    && |code| == Words(|ones| * bits)
    && (forall d: nat, j: nat :: d < |ones| && j < bits ==>
          BitAt(code, Position(d, j, bits), j < ones[d] && (d < done || (d == done && j < part))))
    && (forall p :: |ones| * bits <= p < 64 * |code| ==> BitAt(code, p, false))
  }

  lemma PositionInRange(d: nat, j: nat, n: nat, bits: nat)
    requires d < n && j < bits
    ensures Position(d, j, bits) < n * bits
  {
    assert (d + 1) * bits <= n * bits;
  }

  lemma PositionOrder(d: nat, j: nat, e: nat, k: nat, bits: nat)
    requires j < bits && d < e
    ensures Position(d, j, bits) < Position(e, k, bits)
  {
    PositionInRange(d, j, e, bits);
  }

  lemma PositionUnique(d: nat, j: nat, e: nat, k: nat, bits: nat)
    requires j < bits && k < bits && Position(d, j, bits) == Position(e, k, bits)
    ensures d == e && j == k
  {
    if d < e { PositionOrder(d, j, e, k, bits); }
    if e < d { PositionOrder(e, k, d, j, bits); }
  }

  lemma NothingWritten(code: seq<bv64>, ones: seq<nat>, bits: nat)
    requires |code| == Words(|ones| * bits) && forall w :: 0 <= w < |code| ==> code[w] == 0
    ensures Written(code, ones, bits, 0, 0)
  {
    hide Bit;
    forall p: nat | p < 64 * |code| ensures !IsSet(code, p) {
      ZeroHasNoBits(p % 64);
    }
    forall d: nat, j: nat | d < |ones| && j < bits ensures BitAt(code, Position(d, j, bits), false) {
      PositionInRange(d, j, |ones|, bits);
    }
  }

  lemma WriteNext(code: seq<bv64>, ones: seq<nat>, bits: nat, d: nat, j: nat)
    requires Written(code, ones, bits, d, j) && d < |ones| && j < bits && j < ones[d]
    ensures Position(d, j, bits) / 64 < |code|
    ensures Written(WithBit(code, Position(d, j, bits)), ones, bits, d, j + 1)
  {
    hide IsSet, WithBit, Position;
    PositionInRange(d, j, |ones|, bits);
    var p := Position(d, j, bits);
    WithBitLength(code, p);
    var code' := WithBit(code, p);
    forall e: nat, k: nat | e < |ones| && k < bits
      ensures BitAt(code', Position(e, k, bits), k < ones[e] && (e < d || (e == d && k < j + 1)))
    {
      assert BitAt(code, Position(e, k, bits), k < ones[e] && (e < d || (e == d && k < j)));
      WithBitIsSet(code, p, Position(e, k, bits));
      if p == Position(e, k, bits) { PositionUnique(d, j, e, k, bits); }
    }
    forall q | |ones| * bits <= q < 64 * |code'| ensures BitAt(code', q, false) {
      assert BitAt(code, q, false);
      WithBitIsSet(code, p, q);
    }
  }

  lemma RunDone(code: seq<bv64>, ones: seq<nat>, bits: nat, d: nat)
    requires d < |ones| && Written(code, ones, bits, d, ones[d])
    ensures Written(code, ones, bits, d + 1, 0)
  {
    hide BitAt, Position, Words;
    forall e: nat, k: nat | e < |ones| && k < bits
      ensures BitAt(code, Position(e, k, bits), k < ones[e] && (e < d + 1 || (e == d + 1 && k < 0)))
    {
      assert BitAt(code, Position(e, k, bits), k < ones[e] && (e < d || (e == d && k < ones[d])));
    }
  }

  lemma AllWritten(code: seq<bv64>, ones: seq<nat>, bits: nat)
    requires Written(code, ones, bits, |ones|, 0)
    ensures Packed(code, ones, bits)
  {
    hide BitAt, Position, Words;
    forall e: nat, k: nat | e < |ones| && k < bits ensures BitAt(code, Position(e, k, bits), k < ones[e]) {
      assert BitAt(code, Position(e, k, bits), k < ones[e] && (e < |ones| || (e == |ones| && k < 0)));
    }
  }

  /** The unary code of a vector, packed into words. */
  method Quantize(q: Quantizer, v: seq<real>) returns (code: seq<bv64>)
    requires q.Fits(|v|)
    ensures Packed(code, q.Unary(v), q.bits)
    ensures |code| == (|v| * q.bits + 63) / 64
  {
    hide Written, Packed, Position, WithBit;
    ghost var ones := q.Unary(v);
    var words := new bv64[Words(|v| * q.bits)](_ => 0);
    NothingWritten(words[..], ones, q.bits);
    for d := 0 to |v|
      invariant Written(words[..], ones, q.bits, d, 0)
    {
      var n := q.Ones(v, d);
      for j := 0 to n
        invariant Written(words[..], ones, q.bits, d, j)
      {
        WriteNext(words[..], ones, q.bits, d, j);
        SetBit(words, Position(d, j, q.bits));
      }
      RunDone(words[..], ones, q.bits, d);
    }
    AllWritten(words[..], ones, q.bits);
    code := words[..];
  }

  // ----- Hamming distance -----

  /** Set bits among the first `n`. */
  function CountBits(w: bv64, n: nat): nat
    requires n <= 64
  {
    if n == 0 then 0 else CountBits(w, n - 1) + (if Bit(w, n - 1) then 1 else 0)
  }

  /** `count_ones`. */
  function PopCount(w: bv64): nat {
    CountBits(w, 64)
  }

  function Xor(a: bv64, b: bv64): bv64 {
    a ^ b
  }

  /** `hamming`: the popcount of the xor, over the words both codes have. */
  function Hamming(a: seq<bv64>, b: seq<bv64>): nat {
    if a == [] || b == [] then 0
    else if |a| > |b| then Hamming(a[..|b|], b)
    else if |b| > |a| then Hamming(a, b[..|a|])
    else Hamming(a[..|a| - 1], b[..|a| - 1]) + PopCount(Xor(a[|a| - 1], b[|a| - 1]))
  }

  /** Positions below `n` at which the codes differ. */
  ghost function Diff(a: seq<bv64>, b: seq<bv64>, n: nat): nat
    requires |a| == |b| && n <= 64 * |a|
  {
    if n == 0 then 0 else
      Diff(a, b, n - 1) + (if IsSet(a, n - 1) != IsSet(b, n - 1) then 1 else 0)
  }

  lemma {:induction false} WordDiff(a: seq<bv64>, b: seq<bv64>, w: nat, k: nat)
    requires |a| == |b| && w < |a| && k <= 64
    ensures Diff(a, b, 64 * w + k) == Diff(a, b, 64 * w) + CountBits(Xor(a[w], b[w]), k)
  {
    hide Bit, Xor;
    if k > 0 {
      WordDiff(a, b, w, k - 1);
      XorBit(a[w], b[w], k - 1);
      var p := 64 * w + (k - 1);
      assert p / 64 == w && p % 64 == k - 1;
    }
  }

  lemma XorBit(a: bv64, b: bv64, k: nat)
    requires k < 64
    ensures Bit(Xor(a, b), k) <==> Bit(a, k) != Bit(b, k)
  {
    hide Bit;
    XorBits(a, b, k);
  }

  lemma {:induction false} DiffPrefix(a: seq<bv64>, b: seq<bv64>, m: nat, n: nat)
    requires |a| == |b| && m <= |a| && n <= 64 * m
    ensures Diff(a[..m], b[..m], n) == Diff(a, b, n)
  {
    hide Bit;
    if n > 0 { DiffPrefix(a, b, m, n - 1); }
  }

  lemma {:induction false} HammingIsDiff(a: seq<bv64>, b: seq<bv64>)
    requires |a| == |b|
    ensures Hamming(a, b) == Diff(a, b, 64 * |a|)
  {
    hide Bit, Xor, IsSet, CountBits;
    if a != [] {
      var n := |a| - 1;
      HammingIsDiff(a[..n], b[..n]);
      DiffPrefix(a, b, n, 64 * n);
      WordDiff(a, b, n, 64);
    }
  }

  function AbsDiff(m: nat, n: nat): nat {
    if m < n then n - m else m - n
  }

  /** The L1 distance of two unary vectors. */
  function L1(u: seq<nat>, v: seq<nat>): nat
    requires |u| == |v|
  {
    if u == [] then 0 else L1(u[..|u| - 1], v[..|u| - 1]) + AbsDiff(u[|u| - 1], v[|u| - 1])
  }

  function Min(a: nat, b: nat): nat {
    if a < b then a else b
  }

  /** Within one run, the first `j` bits differ as much as the counts cut off at `j`. */
  lemma {:induction false} RunDiff(a: seq<bv64>, b: seq<bv64>, u: seq<nat>, v: seq<nat>, bits: nat, d: nat, j: nat)
    requires Packed(a, u, bits) && Packed(b, v, bits) && |u| == |v| && d < |u| && j <= bits
    ensures Position(d, j, bits) <= 64 * |a| == 64 * |b|
    ensures Diff(a, b, Position(d, j, bits)) == Diff(a, b, Position(d, 0, bits)) + AbsDiff(Min(u[d], j), Min(v[d], j))
  {
    hide IsSet;
    if j == 0 {
      if bits > 0 {
        PositionInRange(d, 0, |u|, bits);
      }
    } else {
      RunDiff(a, b, u, v, bits, d, j - 1);
      assert BitAt(a, Position(d, j - 1, bits), j - 1 < u[d]);
      assert BitAt(b, Position(d, j - 1, bits), j - 1 < v[d]);
      assert Position(d, j, bits) == Position(d, j - 1, bits) + 1;
    }
  }

  lemma {:induction false} RunsDiff(a: seq<bv64>, b: seq<bv64>, u: seq<nat>, v: seq<nat>, bits: nat, d: nat)
    requires Packed(a, u, bits) && Packed(b, v, bits) && |u| == |v| && d <= |u|
    requires forall e :: 0 <= e < |u| ==> u[e] <= bits && v[e] <= bits
    ensures d * bits <= 64 * |a| == 64 * |b|
    ensures Diff(a, b, d * bits) == L1(u[..d], v[..d])
  {
    hide IsSet, Packed, Position, Diff;
    CodeLength(a, u, bits);
    CodeLength(b, v, bits);
    if d == 0 {
      DiffNone(a, b);
    } else {
      RunsDiff(a, b, u, v, bits, d - 1);
      RunDiff(a, b, u, v, bits, d - 1, bits);
      RunEnds(d - 1, bits);
      L1Next(u, v, d - 1);
    }
  }

  lemma RunEnds(d: nat, bits: nat)
    ensures Position(d, 0, bits) == d * bits && Position(d, bits, bits) == (d + 1) * bits
  {
  }

  lemma DiffNone(a: seq<bv64>, b: seq<bv64>)
    requires |a| == |b|
    ensures Diff(a, b, 0) == 0
  {
  }

  lemma L1Next(u: seq<nat>, v: seq<nat>, d: nat)
    requires |u| == |v| && d < |u|
    ensures L1(u[..d + 1], v[..d + 1]) == L1(u[..d], v[..d]) + AbsDiff(u[d], v[d])
  {
    assert u[..d + 1][..d] == u[..d] && v[..d + 1][..d] == v[..d];
  }

  lemma CodeLength(a: seq<bv64>, u: seq<nat>, bits: nat)
    requires Packed(a, u, bits)
    ensures |a| == Words(|u| * bits)
  {
  }

  lemma {:induction false} PaddingAgrees(a: seq<bv64>, b: seq<bv64>, u: seq<nat>, v: seq<nat>, bits: nat, n: nat)
    requires Packed(a, u, bits) && Packed(b, v, bits) && |u| == |v| && |u| * bits <= n <= 64 * |a|
    ensures |a| == |b| && Diff(a, b, n) == Diff(a, b, |u| * bits)
  {
    hide IsSet;
    if n > |u| * bits {
      PaddingAgrees(a, b, u, v, bits, n - 1);
      assert BitAt(a, n - 1, false);
      assert BitAt(b, n - 1, false);
    }
  }

  /** The Hamming distance of two codes is the L1 distance of the unary counts, whatever words the runs cross. */
  lemma HammingIsL1(a: seq<bv64>, b: seq<bv64>, u: seq<nat>, v: seq<nat>, bits: nat)
    requires Packed(a, u, bits) && Packed(b, v, bits) && |u| == |v|
    requires forall e :: 0 <= e < |u| ==> u[e] <= bits && v[e] <= bits
    ensures Hamming(a, b) == L1(u, v)
  {
    hide IsSet, Packed, Hamming;
    CodeLength(a, u, bits);
    CodeLength(b, v, bits);
    HammingIsDiff(a, b);
    PaddingAgrees(a, b, u, v, bits, 64 * |a|);
    RunsDiff(a, b, u, v, bits, |u|);
    assert u[..|u|] == u && v[..|v|] == v;
  }

  lemma {:induction false} L1Triangle(u: seq<nat>, v: seq<nat>, w: seq<nat>)
    requires |u| == |v| == |w|
    ensures L1(u, w) <= L1(u, v) + L1(v, w)
  {
    if u != [] {
      var n := |u| - 1;
      L1Triangle(u[..n], v[..n], w[..n]);
    }
  }

  lemma {:induction false} L1Symmetric(u: seq<nat>, v: seq<nat>)
    requires |u| == |v|
    ensures L1(u, v) == L1(v, u)
  {
    if u != [] {
      L1Symmetric(u[..|u| - 1], v[..|u| - 1]);
    }
  }

  lemma {:induction false} L1Zero(u: seq<nat>, v: seq<nat>)
    requires |u| == |v|
    ensures L1(u, v) == 0 <==> u == v
  {
    if u != [] {
      var n := |u| - 1;
      L1Zero(u[..n], v[..n]);
      assert u == u[..n] + [u[n]] && v == v[..n] + [v[n]];
    }
  }

  /** Hamming distance is a metric on the codes of any three vectors. */
  lemma CodesFormAMetric(q: Quantizer, u: seq<real>, v: seq<real>, w: seq<real>,
                         a: seq<bv64>, b: seq<bv64>, c: seq<bv64>)
    requires |u| == |v| == |w| && q.Fits(|u|)
    requires Packed(a, q.Unary(u), q.bits) && Packed(b, q.Unary(v), q.bits) && Packed(c, q.Unary(w), q.bits)
    ensures Hamming(a, b) == L1(q.Unary(u), q.Unary(v))
    ensures Hamming(a, c) <= Hamming(a, b) + Hamming(b, c)
    ensures Hamming(a, b) == Hamming(b, a)
    ensures Hamming(a, b) == 0 <==> q.Unary(u) == q.Unary(v)
  {
    hide Hamming, Packed, L1;
    HammingIsL1(a, b, q.Unary(u), q.Unary(v), q.bits);
    HammingIsL1(b, a, q.Unary(v), q.Unary(u), q.bits);
    HammingIsL1(b, c, q.Unary(v), q.Unary(w), q.bits);
    HammingIsL1(a, c, q.Unary(u), q.Unary(w), q.bits);
    L1Triangle(q.Unary(u), q.Unary(v), q.Unary(w));
    L1Symmetric(q.Unary(u), q.Unary(v));
    L1Zero(q.Unary(u), q.Unary(v));
  }

  /** What a bit of a packed code says of the vector: with one bit that the component is above the mean, with more that
      its z-score has reached the bit's threshold. */
  lemma BitsAreThresholds(q: Quantizer, v: seq<real>, code: seq<bv64>, d: nat, j: nat)
    requires q.Fits(|v|) && Packed(code, q.Unary(v), q.bits) && d < |v| && j < q.bits
    ensures d * q.bits + j < 64 * |code|
    ensures q.bits == 1 ==> (IsSet(code, d * q.bits + j) <==> d < |q.mean| && v[d] > q.mean[d])
    ensures q.bits > 1 ==> (IsSet(code, d * q.bits + j) <==>
        ((v[d] - q.mean[d]) / q.std[d] + 2.0) * q.bits as real >= 4.0 * j as real + 2.0)
  {
    hide IsSet, Bucket;
    var ones := q.Unary(v);
    assert BitAt(code, Position(d, j, q.bits), j < ones[d]);
    if q.bits > 1 { BucketThreshold((v[d] - q.mean[d]) / q.std[d], q.bits, j); }
  }
}

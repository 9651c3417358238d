/** What the float patterns of column statistics stand for: their order is the order of the values, and widening a single
    to a double keeps the value. */
module FloatValues {
  import opened ColumnCodec
  import opened LittleEndian
  import opened Powers
  import opened ZoneMap

  lemma {:induction false} Pow2Add(a: nat, b: nat)
    ensures Pow2(a + b) == Pow2(a) * Pow2(b)
  {
    if a > 0 {
      Pow2Add(a - 1, b);
      DoubledProduct(Pow2(a - 1), Pow2(b));
    }
  }

  lemma DoubledProduct(p: nat, q: nat)
    ensures 2 * (p * q) == (2 * p) * q
  {
  }

  lemma {:induction false} Pow2Grows(a: nat, b: nat)
    requires a <= b
    ensures Pow2(a) <= Pow2(b)
  {
    if a < b { Pow2Grows(a, b - 1); }
  }

  ghost function Times(a: nat, b: nat): nat { a * b }

  lemma TimesLess(a: nat, b: nat, p: nat)
    requires a < b && p > 0
    ensures Times(a, p) < Times(b, p)
  {
  }

  lemma TimesAtMost(a: nat, p: nat, q: nat)
    requires p <= q
    ensures Times(a, p) <= Times(a, q)
  {
  }

  lemma TimesDouble(a: nat, p: nat)
    ensures Times(2 * a, p) == Times(a, 2 * p)
  {
  }

  // ----- doubles -----

  /** The value of a finite double's magnitude in units of two to the power of -1074, the least subnormal. */
  ghost function Units(m: nat): nat {
    var exponent, fraction := m / TWO52, m % TWO52;
    if exponent == 0 then fraction else Times(TWO52 + fraction, Pow2(exponent - 1))
  }

  predicate Finite(b: nat) { b < TWO64 && Magnitude(b) < INFINITY }

  ghost function Value(b: nat): int {
    if b < TWO63 then Units(Magnitude(b)) else 0 - Units(Magnitude(b))
  }

  lemma UnitsIncrease(m: nat, n: nat)
    requires m < n
    ensures Units(m) < Units(n)
  {
    hide Times, Pow2;
    var d, e := m / TWO52, n / TWO52;
    if d == e {
      if d > 0 { TimesLess(TWO52 + m % TWO52, TWO52 + n % TWO52, Pow2(d - 1)); }
    } else {
      UnitsBelowNext(m);
      UnitsFromPower(n);
      Pow2Grows(d, e - 1);
      TimesAtMost(TWO52, Pow2(d), Pow2(e - 1));
    }
  }

  /** Below the next power of two. */
  lemma UnitsBelowNext(m: nat)
    ensures Units(m) < Times(TWO52, Pow2(m / TWO52))
  {
    hide Times;
    var d := m / TWO52;
    if d > 0 {
      TimesLess(TWO52 + m % TWO52, 2 * TWO52, Pow2(d - 1));
      TimesDouble(TWO52, Pow2(d - 1));
    } else {
      TimesOne(TWO52);
    }
  }

  lemma TimesOne(a: nat)
    ensures Times(a, Pow2(0)) == a
  {
  }

  lemma UnitsFromPower(n: nat)
    requires n >= TWO52
    ensures Units(n) >= Times(TWO52, Pow2(n / TWO52 - 1))
  {
    hide Times;
    if n % TWO52 > 0 { TimesLess(TWO52, TWO52 + n % TWO52, Pow2(n / TWO52 - 1)); }
  }

  /** On finite doubles the rank orders as the value does; infinities and NaN stand beyond them. */
  lemma RankIsValueOrder(a: nat, b: nat, k: Kind)
    requires IsFloat(k) && Finite(a) && b < TWO64
    ensures Finite(b) ==> (Rank(a, k) < Rank(b, k) <==> Value(a) < Value(b))
    ensures IsNaN(b) ==> Rank(a, k) < Rank(b, k)
    ensures Magnitude(b) == INFINITY ==> (Rank(a, k) < Rank(b, k) <==> b < TWO63)
  {
    hide Units;
    UnitsOfZero();
    var m, n := Magnitude(a), Magnitude(b);
    if m < n { UnitsIncrease(m, n); }
    if n < m { UnitsIncrease(n, m); }
    if m > 0 { UnitsIncrease(0, m); }
    if n > 0 { UnitsIncrease(0, n); }
  }

  lemma UnitsOfZero()
    ensures Units(0) == 0
  {
  }

  // ----- singles -----

  /** The value of a finite single's magnitude in units of two to the power of -149. */
  ghost function Units32(m: nat): nat {
    var exponent, fraction := m / TWO23, m % TWO23;
    if exponent == 0 then fraction else Times(TWO23 + fraction, Pow2(exponent - 1))
  }

  predicate Finite32(b: nat) { b < 2 * TWO31 && b % TWO31 < INFINITY32 }

  ghost function Value32(b: nat): int {
    if b < TWO31 then Units32(b % TWO31) else 0 - Units32(b % TWO31)
  }

  lemma Assembled(exponent: nat, fraction: nat)
    requires exponent > 0 && fraction < TWO23
    ensures Units(exponent * TWO52 + fraction * TWO29) == Times(TWO23 + fraction, Pow2(exponent + 28))
  {
    hide Times, Pow2;
    var m := exponent * TWO52 + fraction * TWO29;
    assert m / TWO52 == exponent && m % TWO52 == fraction * TWO29;
    Pow2Add(29, exponent - 1);
    TwentyNine();
    TimesRegroup(TWO23 + fraction, TWO29, Pow2(exponent - 1));
    assert TWO52 + fraction * TWO29 == (TWO23 + fraction) * TWO29;
  }

  lemma TwentyNine()
    ensures Pow2(29) == TWO29 && Pow2(23) == TWO23
  {
    assert Pow2(5) == 32;
    Pow2Add(5, 5);
    Pow2Add(10, 10);
    Pow2Add(20, 9);
    Pow2Add(5, 4);
    Pow2Add(20, 3);
  }

  lemma TimesRegroup(a: nat, p: nat, q: nat)
    ensures Times(a * p, q) == Times(a, p * q)
  {
  }

  /** Normalising a subnormal keeps its value. */
  lemma {:induction false} NormalizedUnits(m: nat, exponent: nat, k: nat)
    requires 0 < m < 2 * TWO23 && Times(m, Pow2(k)) >= TWO23 && exponent > k
    ensures Normalize(m, exponent) >= 0 && Units(Normalize(m, exponent)) == Times(m, Pow2(exponent + 28))
    decreases TWO23 - m
  {
    hide Times, Units;
    if m >= TWO23 {
      Assembled(exponent, m - TWO23);
    } else if k == 0 {
      TimesOne(m);
      assert false;
    } else {
      TimesDouble(m, Pow2(k - 1));
      NormalizedUnits(2 * m, exponent - 1, k - 1);
      TimesDouble(m, Pow2(exponent + 27));
    }
  }

  /** Widening keeps the value of every finite single: the units differ by two to the power of 925. */
  lemma WideningKeepsValue(b: nat)
    requires Finite32(b)
    ensures Finite(Widen(b)) && Value(Widen(b)) == Value32(b) * Pow2(925)
  {
    hide Pow2, Units, Units32, WidenMagnitude;
    var m := b % TWO31;
    WidenInRange(m);
    WidenStep(m, INFINITY32);
    WidenedZero();
    WidenedUnits(m);
    SignedProduct(Units32(m), Pow2(925));
  }

  lemma SignedProduct(a: nat, p: nat)
    ensures 0 - a * p == (0 - a) * p
  {
  }

  lemma WidenedUnits(m: nat)
    requires m < INFINITY32
    ensures WidenMagnitude(m) >= 0 && Units(WidenMagnitude(m)) == Units32(m) * Pow2(925)
  {
    hide Units, Pow2, Normalize, Times;
    var exponent, fraction := m / TWO23, m % TWO23;
    if exponent > 0 {
      Assembled(exponent + 896, fraction);
      Pow2Add(exponent - 1, 925);
      assert exponent + 896 + 28 == exponent - 1 + 925;
      TimesIs(TWO23 + fraction, Pow2(exponent - 1), Pow2(925));
    } else if fraction > 0 {
      TwentyNine();
      AtLeastOne(fraction, TWO23);
      NormalizedUnits(fraction, 897, 23);
      TimesPlain(fraction, Pow2(925));
    } else {
      UnitsOfZero();
      NormalizeZero();
    }
  }

  lemma NormalizeZero()
    ensures Normalize(0, 897) == 0
  {
  }

  lemma AtLeastOne(a: nat, p: nat)
    requires a > 0
    ensures Times(a, p) >= p
  {
  }

  lemma TimesPlain(a: nat, p: nat)
    ensures Times(a, p) == a * p
  {
  }

  lemma TimesIs(a: nat, p: nat, q: nat)
    ensures Times(a, p * q) == Times(a, p) * q
  {
  }

  /** A float column's value is read exactly when its bytes suffice, and as the number they stand for. */
  lemma FloatsReadByValue(v: seq<byte>)
    ensures ReadValue(v, F4).Bits? <==> |v| >= 4
    ensures ReadValue(v, F8).Bits? <==> |v| >= 8
    ensures |v| >= 4 && Finite32(Decode(v[..4])) ==>
      Finite(ReadValue(v, F4).b) && Value(ReadValue(v, F4).b) == Value32(Decode(v[..4])) * Pow2(925)
    ensures |v| >= 8 ==> ReadValue(v, F8).b == Decode(v[..8])
  {
    hide Decode, Widen, Value, Value32, Finite, Finite32, Pow2;
    if |v| >= 4 && Finite32(Decode(v[..4])) { WideningKeepsValue(Decode(v[..4])); }
  }

  /** A boolean's bytes are its first one, and an empty value is false. */
  lemma BoolsReadByValue(v: seq<byte>)
    ensures ReadValue(v, Bool).Bits? && RankOf(Present(v), Bool) == if v == [] then 0 else v[0] as int
  {
  }
}

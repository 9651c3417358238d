/** Quotients and remainders of integers. */
module Division {

  lemma {:induction false} TimesAtLeast(d: nat, a: int, b: int)
    requires a < b
    ensures d * b >= d * a + d
    decreases b - a
  {
    if a + 1 < b {
      TimesAtLeast(d, a, b - 1);
      assert d * b == d * (b - 1) + d;
    } else {
      assert d * (a + 1) == d * a + d;
    }
  }

  /** Quotient and remainder are unique. */
  lemma DivisionIs(x: int, d: nat, q: int, rest: nat)
    requires d > 0 && x == d * q + rest && rest < d
    ensures x / d == q && x % d == rest
  {
    var p := x / d;
    assert x == d * p + x % d;
    if q < p {
      TimesAtLeast(d, q, p);
    } else if p < q {
      TimesAtLeast(d, p, q);
    }
  }

  lemma Divided(x: int, d: nat) returns (q: int, rest: nat)
    requires d > 0
    ensures q == x / d && rest == x % d && rest < d && x == d * q + rest
  {
    q, rest := x / d, x % d;
  }

  lemma Sum(d: nat, p: int, q: int)
    ensures d * (p + q) == d * p + d * q
  {
  }

  lemma Grouped(a: nat, b: nat, c: int)
    ensures (a * b) * c == a * (b * c)
  {
  }

  /** Dividing by a product is dividing twice. */
  lemma DivideTwice(x: nat, a: nat, b: nat)
    requires a > 0 && b > 0 && a * b > 0
    ensures x / (a * b) == x / a / b
  {
    var q, low := Divided(x, a);
    var r, high := Divided(q, b);
    Sum(a, b * r, high);
    Grouped(a, b, r);
    SmallRemainder(a, b, low, high);
    DivisionIs(x, a * b, r, a * high + low);
  }

  lemma SmallRemainder(a: nat, b: nat, low: nat, high: nat)
    requires low < a && high < b
    ensures 0 <= a * high + low < a * b
  {
    TimesAtLeast(a, high, b);
  }
}

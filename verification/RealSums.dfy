/** Finite sums of reals, and what else the models share about reals. */
module RealSums {

  function Sum(xs: seq<real>): real {
    if xs == [] then 0.0 else Sum(xs[..|xs| - 1]) + xs[|xs| - 1]
  }

  lemma SumSnoc(xs: seq<real>, x: real)
    ensures Sum(xs + [x]) == Sum(xs) + x
  {
    assert (xs + [x])[..|xs|] == xs;
  }

  lemma {:induction false} SumAdd(xs: seq<real>, ys: seq<real>, zs: seq<real>)
    requires |xs| == |ys| == |zs| && forall i :: 0 <= i < |xs| ==> zs[i] == xs[i] + ys[i]
    ensures Sum(zs) == Sum(xs) + Sum(ys)
  {
    if xs != [] {
      var n := |xs| - 1;
      SumAdd(xs[..n], ys[..n], zs[..n]);
    }
  }

  lemma {:induction false} SumScale(c: real, xs: seq<real>, zs: seq<real>)
    requires |xs| == |zs| && forall i :: 0 <= i < |xs| ==> zs[i] == c * xs[i]
    ensures Sum(zs) == c * Sum(xs)
  {
    if xs != [] {
      var n := |xs| - 1;
      SumScale(c, xs[..n], zs[..n]);
    }
  }

  lemma {:induction false} SumLe(xs: seq<real>, ys: seq<real>)
    requires |xs| == |ys| && forall i :: 0 <= i < |xs| ==> xs[i] <= ys[i]
    ensures Sum(xs) <= Sum(ys)
  {
    if xs != [] {
      var n := |xs| - 1;
      SumLe(xs[..n], ys[..n]);
    }
  }

  lemma {:induction false} SumConstant(xs: seq<real>, c: real)
    requires forall i :: 0 <= i < |xs| ==> xs[i] == c
    ensures Sum(xs) == c * |xs| as real
  {
    if xs != [] {
      SumConstant(xs[..|xs| - 1], c);
    }
  }

  /** A sum of non-negative terms is non-negative, and positive exactly when some term is. */
  lemma {:induction false} SumPositive(xs: seq<real>)
    requires forall i :: 0 <= i < |xs| ==> xs[i] >= 0.0
    ensures Sum(xs) >= 0.0
    ensures Sum(xs) > 0.0 <==> exists i :: 0 <= i < |xs| && xs[i] > 0.0
  {
    if xs != [] {
      var init := xs[..|xs| - 1];
      SumPositive(init);
      if exists i :: 0 <= i < |xs| && xs[i] > 0.0 {
        var i :| 0 <= i < |xs| && xs[i] > 0.0;
        assert i < |xs| - 1 ==> init[i] > 0.0;
      }
    }
  }

  /** Changing one term changes the sum by as much. */
  lemma {:induction false} SumPoint(xs: seq<real>, k: nat, c: real, zs: seq<real>)
    requires k < |xs| == |zs|
    requires forall i :: 0 <= i < |xs| ==> zs[i] == xs[i] + (if i == k then c else 0.0)
    ensures Sum(zs) == Sum(xs) + c
  {
    var n := |xs| - 1;
    if k == n {
      assert zs[..n] == xs[..n];
    } else {
      SumPoint(xs[..n], k, c, zs[..n]);
    }
  }

  function Abs(x: real): real {
    if x < 0.0 then -x else x
  }

  function Power(d: real, k: nat): real {
    if k == 0 then 1.0 else d * Power(d, k - 1)
  }

  function Clamp(x: real, lo: real, hi: real): real {
    if x < lo then lo else if x > hi then hi else x
  }

  /** Clamping takes the nearest point of the interval. */
  lemma ClampIsNearest(x: real, lo: real, hi: real, y: real)
    requires lo <= y <= hi
    ensures lo <= Clamp(x, lo, hi) <= hi && Abs(x - Clamp(x, lo, hi)) <= Abs(x - y)
  {
  }
}

/**
 The slow fluctuations of `gen_data` (utils.py): the temporal background
 `truef` and the spatial background `trueb` are each shifted so that their
 mean is exactly one, and the spatial one is scaled by the fluorescence
 baseline. Without fluctuations both are constant ones.

 The correlated noise the fluctuations start from (a Cholesky factor applied
 to Gaussian draws) is the input sequence.
 */
module Fluctuations {

  /** `bkgrd`: the fluorescence baseline. */
  const Baseline: real := 10.0

  function Sum(x: seq<real>): real {
    if x == [] then 0.0 else Sum(x[..|x| - 1]) + x[|x| - 1]
  }

  function Mean(x: seq<real>): (m: real)
    requires |x| > 0
    ensures m * |x| as real == Sum(x)
  {
    Sum(x) / |x| as real
  }

  /** Every entry of `x` plus `d`. */
  function Shift(x: seq<real>, d: real): (y: seq<real>)
    ensures |y| == |x|
  {
    seq(|x|, i requires 0 <= i < |x| => x[i] + d)
  }

  /** Every entry of `x` times `f`. */
  function Scale(x: seq<real>, f: real): (y: seq<real>)
    ensures |y| == |x|
  {
    seq(|x|, i requires 0 <= i < |x| => x[i] * f)
  }

  /** `x -= x.mean(); x += 1`; an empty sequence stays empty. */
  function CentreAtOne(x: seq<real>): (y: seq<real>)
    ensures |y| == |x|
  {
    if x == [] then [] else Shift(Shift(x, -Mean(x)), 1.0)
  }

  /** Shifting every entry by d moves the sum by |x| d. */
  lemma {:induction false} SumShift(x: seq<real>, d: real)
    ensures Sum(Shift(x, d)) == Sum(x) + |x| as real * d
  {
    if x != [] {
      var n := |x| - 1;
      assert Shift(x, d)[..n] == Shift(x[..n], d);
      SumShift(x[..n], d);
      assert |x| as real * d == n as real * d + d;
    }
  }

  /** Scaling every entry by f scales the sum by f. */
  lemma {:induction false} SumScale(x: seq<real>, f: real)
    ensures Sum(Scale(x, f)) == Sum(x) * f
  {
    if x != [] {
      var n := |x| - 1;
      assert forall i :: 0 <= i < n ==> Scale(x, f)[..n][i] == Scale(x[..n], f)[i];
      assert Scale(x, f)[..n] == Scale(x[..n], f);
      SumScale(x[..n], f);
      assert (Sum(x[..n]) + x[n]) * f == Sum(x[..n]) * f + x[n] * f;
    }
  }

  /** After centring, the mean is exactly one, and the differences between entries are unchanged. */
  lemma CentredMeanIsOne(x: seq<real>)
    requires |x| > 0
    ensures Mean(CentreAtOne(x)) == 1.0
    ensures forall i, j :: 0 <= i < |x| && 0 <= j < |x| ==> CentreAtOne(x)[i] - CentreAtOne(x)[j] == x[i] - x[j]
  {
    var n := |x| as real;
    SumShift(x, -Mean(x));
    SumShift(Shift(x, -Mean(x)), 1.0);
    assert Sum(CentreAtOne(x)) == Sum(x) - n * (Sum(x) / n) + n;
    assert n * (Sum(x) / n) == Sum(x);
  }

  /** `trueb`: the centred spatial fluctuation times the baseline, or the baseline everywhere without fluctuations. */
  function SpatialBackground(fluctuating: bool, x: seq<real>): (b: seq<real>)
    ensures |b| == |x|
    ensures !fluctuating ==> forall i :: 0 <= i < |b| ==> b[i] == Baseline
  {
    if fluctuating then Scale(CentreAtOne(x), Baseline) else Scale(Ones(|x|), Baseline)
  }

  /** `truef`: the centred temporal fluctuation, or ones without fluctuations. */
  function TemporalBackground(fluctuating: bool, x: seq<real>): (f: seq<real>)
    ensures |f| == |x|
    ensures !fluctuating ==> forall i :: 0 <= i < |f| ==> f[i] == 1.0
  {
    if fluctuating then CentreAtOne(x) else Ones(|x|)
  }

  function Ones(n: nat): (y: seq<real>)
    ensures |y| == n && forall i :: 0 <= i < n ==> y[i] == 1.0
  {
    seq(n, _ => 1.0)
  }

  lemma {:induction false} SumOnes(n: nat)
    ensures Sum(Ones(n)) == n as real
  {
    if n > 0 {
      assert Ones(n)[..n - 1] == Ones(n - 1);
      SumOnes(n - 1);
    }
  }

  /**
   Either way, the temporal background has mean one and the spatial
   background has mean equal to the baseline.
   */
  lemma BackgroundMeans(fluctuating: bool, x: seq<real>)
    requires |x| > 0
    ensures Mean(TemporalBackground(fluctuating, x)) == 1.0
    ensures Mean(SpatialBackground(fluctuating, x)) == Baseline
  {
    var unit := TemporalBackground(fluctuating, x);
    UnitBackgroundSum(fluctuating, x);
    MeanFromSum(unit, 1.0);
    SumScale(unit, Baseline);
    assert SpatialBackground(fluctuating, x) == Scale(unit, Baseline);
    MeanFromSum(Scale(unit, Baseline), Baseline);
  }

  lemma UnitBackgroundSum(fluctuating: bool, x: seq<real>)
    requires |x| > 0
    ensures Sum(TemporalBackground(fluctuating, x)) == |x| as real
  {
    if fluctuating {
      CentredMeanIsOne(x);
      SumFromMean(CentreAtOne(x));
    } else {
      SumOnes(|x|);
    }
  }

  /** A sequence whose sum is its length times c has mean c. */
  lemma MeanFromSum(y: seq<real>, c: real)
    requires |y| > 0 && Sum(y) == |y| as real * c
    ensures Mean(y) == c
  {
  }

  /** A sequence with mean 1 sums to its length. */
  lemma SumFromMean(y: seq<real>)
    requires |y| > 0 && Mean(y) == 1.0
    ensures Sum(y) == |y| as real
  {
  }

}

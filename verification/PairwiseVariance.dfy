/** The sample variance without any mean: the squared differences of all pairs, over n (n - 1). */
module PairwiseVariance {
  import opened Variance
  import opened Vectors

  function Squares(xs: seq<real>): real {
    if |xs| == 0 then 0.0 else Squares(xs[..|xs| - 1]) + Times(xs[|xs| - 1], xs[|xs| - 1])
  }

  /** The squared differences of x and each of xs. */
  function Differences(xs: seq<real>, x: real): real {
    if |xs| == 0 then 0.0
    else Differences(xs[..|xs| - 1], x) + Times(x - xs[|xs| - 1], x - xs[|xs| - 1])
  }

  /** The squared differences of every two of xs. */
  function PairSum(xs: seq<real>): real {
    if |xs| == 0 then 0.0 else PairSum(xs[..|xs| - 1]) + Differences(xs[..|xs| - 1], xs[|xs| - 1])
  }

  lemma DifferenceStep(n: real, x: real, y: real, s: real, q: real)
    ensures Times(n, Times(x, x)) - 2.0 * Times(x, s) + q + Times(x - y, x - y)
      == Times(n + 1.0, Times(x, x)) - 2.0 * Times(x, s + y) + (q + Times(y, y))
  {
  }

  lemma {:induction false} DifferencesAre(xs: seq<real>, x: real)
    ensures Differences(xs, x) == Times(|xs| as real, Times(x, x)) - 2.0 * Times(x, Sum(xs)) + Squares(xs)
  {
    if |xs| == 0 {
      NoDifference(x);
    } else {
      var n := |xs| - 1;
      var y, s, q := xs[n], Sum(xs[..n]), Squares(xs[..n]);
      DifferencesAre(xs[..n], x);
      DifferenceStep(n as real, x, y, s, q);
      assert |xs| as real == n as real + 1.0;
      hide Times;
    }
  }

  lemma NoDifference(x: real)
    ensures Times(0.0, Times(x, x)) == 0.0 && Times(x, 0.0) == 0.0
  {
  }

  lemma PairStep(n: real, x: real, s: real, q: real)
    ensures Times(n, q) - Times(s, s) + (Times(n, Times(x, x)) - 2.0 * Times(x, s) + q)
      == Times(n + 1.0, q + Times(x, x)) - Times(s + x, s + x)
  {
  }

  lemma LastValue(xs: seq<real>)
    requires |xs| > 0
    ensures var n, x := |xs| - 1, xs[|xs| - 1];
      && PairSum(xs) == PairSum(xs[..n]) + Differences(xs[..n], x)
      && Sum(xs) == Sum(xs[..n]) + x && Squares(xs) == Squares(xs[..n]) + Times(x, x) && |xs| as real == n as real + 1.0
  {
    hide Differences;
  }

  lemma {:induction false} PairsAre(xs: seq<real>)
    ensures PairSum(xs) == Times(|xs| as real, Squares(xs)) - Times(Sum(xs), Sum(xs))
  {
    if |xs| == 0 {
      NoDifference(0.0);
      assert Times(0.0, 0.0) == 0.0;
    } else {
      var n := |xs| - 1;
      var x, s, q := xs[n], Sum(xs[..n]), Squares(xs[..n]);
      LastValue(xs);
      hide *;
      PairsAre(xs[..n]);
      DifferencesAre(xs[..n], x);
      PairStep(n as real, x, s, q);
    }
  }

  lemma {:induction false} AboutZero(xs: seq<real>)
    ensures Deviations(xs, 0.0) == Squares(xs)
  {
    if |xs| > 0 {
      AboutZero(xs[..|xs| - 1]);
    }
  }

  lemma AboutMean(n: real, s: real, q: real)
    requires n > 0.0
    ensures Times(n, q + Drift(s, n, 0.0, s / n)) == Times(n, q) - Times(s, s)
  {
    var d := s / n;
    assert s == n * d;
    DriftFromZero(n, d);
    SquareOfProduct(n, d);
    DistributeOver(n, q, -(n * (d * d)));
    hide Drift, Times;
  }

  lemma DriftFromZero(n: real, d: real)
    ensures Drift(n * d, n, 0.0, d) == -(n * (d * d))
  {
    assert n * 0.0 == 0.0;
    assert d * (n * d) == n * (d * d);
  }

  lemma SquareOfProduct(n: real, d: real)
    ensures Times(n * d, n * d) == Times(n, n * (d * d))
  {
  }

  lemma DistributeOver(n: real, q: real, p: real)
    ensures Times(n, q + p) == Times(n, q) + Times(n, p) && Times(n, p) == -Times(n, -p)
  {
  }

  /** n times the sum of squared deviations from the mean is the sum over all pairs. */
  lemma DeviationsArePairs(xs: seq<real>)
    requires |xs| > 0
    ensures Times(|xs| as real, Deviations(xs, Mean(xs))) == PairSum(xs)
  {
    var n, s := |xs| as real, Sum(xs);
    Shift(xs, 0.0, s / n);
    AboutZero(xs);
    AboutMean(n, s, Squares(xs));
    PairsAre(xs);
    assert 0.0 + s / n == Mean(xs);
    hide Times, Drift, Deviations, Squares, PairSum;
  }

  /** Two values or more: n (n - 1) times the variance is the sum of the squared differences of all pairs. */
  lemma VarianceIsPairwise(xs: seq<real>)
    ensures |xs| <= 1 ==> SampleVariance(xs) == 0.0
    ensures |xs| > 1 ==> Times(|xs| as real, Times((|xs| - 1) as real, SampleVariance(xs))) == PairSum(xs)
  {
    if |xs| > 1 {
      DeviationsArePairs(xs);
      Divided((|xs| - 1) as real, Deviations(xs, Mean(xs)));
      hide Times, Deviations, PairSum, Mean;
    }
  }
}

/** What a fitted spline is: the thin-plate kernel r * r * log(r), what near collinearity means, and three points. */
module SplineMeaning {
  import opened Vectors
  import opened LinearSystem
  import opened LeastSquares
  import opened ControlPointSet
  import opened ThinPlateSpline

  // ----- the kernel -----

  /** The thin-plate kernel at distance r. */
  function ThinPlate(log: real -> real, r: real): real {
    if r == 0.0 then 0.0 else r * r * log(r)
  }

  /** r is the distance of two points, and log treats its square as a logarithm does. */
  ghost predicate Apart(log: real -> real, x1: real, y1: real, x2: real, y2: real, r: real) {
    && r >= 0.0 && r * r == (x1 - x2) * (x1 - x2) + (y1 - y2) * (y1 - y2)
    && (r > 0.0 ==> log(r * r) == 2.0 * log(r))
  }

  /** The function computed from the squared distance is the kernel of the distance. */
  lemma KernelIs(log: real -> real, x1: real, y1: real, x2: real, y2: real, r: real)
    requires Apart(log, x1, y1, x2, y2, r)
    ensures Base(log, x1, y1, x2, y2) == ThinPlate(log, r)
  {
    var dx, dy := x1 - x2, y1 - y2;
    OtherWay(x1, x2);
    OtherWay(y1, y2);
    SquaresVanish(dx, dy);
    if r > 0.0 {
      Positive(r);
      Halved(r * r, log(r));
    }
  }

  lemma OtherWay(x: real, y: real)
    ensures (y - x) * (y - x) == (x - y) * (x - y)
  {
  }

  lemma SquaresVanish(dx: real, dy: real)
    ensures dx * dx + dy * dy == 0.0 <==> dx == 0.0 && dy == 0.0
    ensures dx * dx + dy * dy >= 0.0
  {
    SquareZero(dx);
    SquareZero(dy);
    assert Sqr(dx) >= 0.0 && Sqr(dy) >= 0.0;
  }

  lemma Positive(r: real)
    requires r > 0.0
    ensures r * r > 0.0
  {
  }

  lemma Halved(d: real, l: real)
    ensures d * (2.0 * l) * 0.5 == d * l
  {
  }

  /** r[j] is the distance of (e, n) from centre j. */
  ghost predicate Distances(log: real -> real, e: real, n: real, es: Vec, ns: Vec, act: seq<nat>, r: Vec)
    requires Inside(act, es, ns)
  {
    |r| == |act| && forall j :: 0 <= j < |act| ==> Apart(log, e, n, es[act[j]], ns[act[j]], r[j])
  }

  /** The first m weights times the kernel at their distances. */
  function Kernels(log: real -> real, C: Vec, r: Vec, m: nat): real
    requires m <= |r| && m + 3 <= |C|
  {
    if m == 0 then 0.0 else Kernels(log, C, r, m - 1) + Times(C[m + 2], ThinPlate(log, r[m - 1]))
  }

  /** The evaluator computes an affine part plus a thin-plate kernel around every centre. */
  lemma {:induction false} SplineIs(
    log: real -> real, e: real, n: real, es: Vec, ns: Vec, act: seq<nat>, C: Vec, r: Vec, m: nat)
    requires Inside(act, es, ns) && m <= |act| && m + 3 <= |C| && Distances(log, e, n, es, ns, act, r)
    ensures Spline(log, e, n, es, ns, act, C, m) == C[0] + e * C[1] + n * C[2] + Kernels(log, C, r, m)
  {
    if m > 0 {
      SplineIs(log, e, n, es, ns, act, C, r, m - 1);
      SplineGrows(log, e, n, es, ns, act, C, m - 1);
      KernelIs(log, e, n, es[act[m - 1]], ns[act[m - 1]], r[m - 1]);
      hide Spline, Base, ThinPlate, Times, Apart;
    }
  }

  // ----- near collinearity -----

  /** Sum of (x - a) * (y - b) over the first m listed points, x and y being any of their coordinates. */
  function Products(xs: Vec, ys: Vec, act: seq<nat>, a: real, b: real, m: nat): real
    requires Inside(act, xs, ys) && m <= |act|
  {
    if m == 0 then 0.0
    else Products(xs, ys, act, a, b, m - 1) + Times(xs[act[m - 1]] - a, ys[act[m - 1]] - b)
  }

  function Total(xs: Vec, act: seq<nat>, m: nat): real
    requires Inside(act, xs, xs) && m <= |act|
  {
    if m == 0 then 0.0 else Total(xs, act, m - 1) + xs[act[m - 1]]
  }

  lemma {:induction false} SumsAre(x0: real, y0: real, es: Vec, ns: Vec, act: seq<nat>, m: nat)
    requires Inside(act, es, ns) && m <= |act|
    ensures var s := MomentsFrom(x0, y0, es, ns, act, m);
      && s.sumx == Total(es, act, m) && s.sumy == Total(ns, act, m)
      && s.sumx2 == Products(es, es, act, 0.0, 0.0, m) && s.sumy2 == Products(ns, ns, act, 0.0, 0.0, m)
      && s.sumxy == Products(es, ns, act, 0.0, 0.0, m)
  {
    hide Times;
    if m > 0 {
      SumsAre(x0, y0, es, ns, act, m - 1);
    }
  }

  lemma Shifted(x: real, y: real, a: real, b: real)
    ensures Times(x - a, y - b) == Times(x - 0.0, y - 0.0) - Times(b, x) - Times(a, y) + Times(a, b)
  {
  }

  lemma Spread(k: real, a: real, b: real)
    ensures Times(k + 1.0, Times(a, b)) == Times(k, Times(a, b)) + Times(a, b)
  {
  }

  lemma Distribute(c: real, x: real, y: real)
    ensures Times(c, x + y) == Times(c, x) + Times(c, y)
  {
  }

  lemma NoTerms(a: real, b: real)
    ensures Times(a, 0.0) == 0.0 == Times(0.0, Times(a, b)) && Times(b, 0.0) == 0.0
  {
  }

  /** Sums of products about any point, from the plain sums. */
  lemma {:induction false} ProductsShift(xs: Vec, ys: Vec, act: seq<nat>, a: real, b: real, m: nat)
    requires Inside(act, xs, ys) && m <= |act|
    ensures Products(xs, ys, act, a, b, m) == Products(xs, ys, act, 0.0, 0.0, m)
      - Times(b, Total(xs, act, m)) - Times(a, Total(ys, act, m)) + Times(m as real, Times(a, b))
  {
    hide Times;
    if m == 0 {
      NoTerms(a, b);
    } else {
      ProductsShift(xs, ys, act, a, b, m - 1);
      var x, y := xs[act[m - 1]], ys[act[m - 1]];
      Shifted(x, y, a, b);
      Spread((m - 1) as real, a, b);
      Distribute(b, Total(xs, act, m - 1), x);
      Distribute(a, Total(ys, act, m - 1), y);
      hide Products, Total;
      assert m as real == (m - 1) as real + 1.0;
      ProductsMore(xs, ys, act, a, b, m);
      ProductsMore(xs, ys, act, 0.0, 0.0, m);
      TotalMore(xs, act, m);
      TotalMore(ys, act, m);
    }
  }

  lemma ProductsMore(xs: Vec, ys: Vec, act: seq<nat>, a: real, b: real, m: nat)
    requires Inside(act, xs, ys) && 0 < m <= |act|
    ensures Products(xs, ys, act, a, b, m)
      == Products(xs, ys, act, a, b, m - 1) + Times(xs[act[m - 1]] - a, ys[act[m - 1]] - b)
  {
  }

  lemma TotalMore(xs: Vec, act: seq<nat>, m: nat)
    requires Inside(act, xs, xs) && 0 < m <= |act|
    ensures Total(xs, act, m) == Total(xs, act, m - 1) + xs[act[m - 1]]
  {
  }

  function Mean(xs: Vec, act: seq<nat>): real
    requires Inside(act, xs, xs) && |act| > 0
  {
    Total(xs, act, |act|) / |act| as real
  }

  /** Sum of products of deviations from the means. */
  function Covariation(xs: Vec, ys: Vec, act: seq<nat>): real
    requires Inside(act, xs, ys) && |act| > 0
  {
    Products(xs, ys, act, Mean(xs, act), Mean(ys, act), |act|)
  }

  lemma MeanAlgebra(k: real, x: real, y: real)
    requires k > 0.0
    ensures Times(y / k, x) == x * y / k == Times(x / k, y) == Times(k, Times(x / k, y / k))
  {
    var a, b := x / k, y / k;
    assert x == k * a && y == k * b;
    Commuted(k, a, b);
    var p := k * (a * b);
    FourFactors(k, a, b);
    assert x * y == k * p;
    assert x * y / k == p by { Cancelled(k, p); }
  }

  lemma Commuted(k: real, a: real, b: real)
    ensures b * (k * a) == k * (a * b) == a * (k * b)
  {
  }

  lemma FourFactors(k: real, a: real, b: real)
    ensures (k * a) * (k * b) == k * (k * (a * b))
  {
  }

  lemma Cancelled(k: real, p: real)
    requires k > 0.0
    ensures k * p / k == p
  {
  }

  lemma CovariationIs(xs: Vec, ys: Vec, act: seq<nat>)
    requires Inside(act, xs, ys) && |act| > 0
    ensures Covariation(xs, ys, act)
      == Centred(Products(xs, ys, act, 0.0, 0.0, |act|), Total(xs, act, |act|), Total(ys, act, |act|), |act|)
  {
    hide Products, Total, Times;
    ProductsShift(xs, ys, act, Mean(xs, act), Mean(ys, act), |act|);
    AboutMeans(|act| as real, Total(xs, act, |act|), Total(ys, act, |act|));
  }

  lemma AboutMeans(k: real, x: real, y: real)
    requires k > 0.0
    ensures Times(k, Times(x / k, y / k)) - Times(y / k, x) - Times(x / k, y) == -(x * y / k)
  {
    MeanAlgebra(k, x, y);
    hide Times;
  }

  lemma {:induction false} SquaresAdd(xs: Vec, act: seq<nat>, a: real, m: nat)
    requires Inside(act, xs, xs) && m <= |act|
    ensures Products(xs, xs, act, a, a, m) >= 0.0
  {
    if m > 0 {
      SquaresAdd(xs, act, a, m - 1);
      assert Sqr(xs[act[m - 1]] - a) >= 0.0;
      ProductsMore(xs, xs, act, a, a, m);
      hide Products;
    }
  }

  /** |u / v| > 0.99, without dividing; a zero denominator gives infinity, or NaN when u is zero as well. */
  lemma AboveMeans(u: real, v: real)
    requires u >= 0.0 && v >= 0.0
    ensures CorrelationAbove(u, v) <==> if v == 0.0 then u > 0.0 else 100.0 * u > 99.0 * v
  {
    if v > 0.0 {
      var q := u / v;
      QuotientAbove(u, v, q);
    }
  }

  lemma QuotientAbove(u: real, v: real, q: real)
    requires u >= 0.0 && v > 0.0 && u == q * v
    ensures q >= 0.0 && (q > 0.99 <==> u > 0.99 * v)
  {
    if q < 0.0 {
      NegativeProduct(q, v);
    }
    if q > 0.99 {
      Larger(0.99, q, v);
    } else if q < 0.99 {
      Larger(q, 0.99, v);
    } else {
      assert q == 0.99;
    }
  }

  lemma NegativeProduct(q: real, v: real)
    requires q < 0.0 && v > 0.0
    ensures q * v < 0.0
  {
  }

  lemma Larger(a: real, b: real, v: real)
    requires a < b && v > 0.0
    ensures a * v < b * v
  {
    NegativeProduct(a - b, v);
  }

  lemma ProductNotNegative(x: real, y: real)
    requires x >= 0.0 && y >= 0.0
    ensures Times(x, y) >= 0.0
  {
  }

  lemma SquareNotNegative(x: real)
    ensures Times(x, x) >= 0.0 && (Times(x, x) == 0.0 <==> x == 0.0)
  {
    assert Sqr(x) >= 0.0;
    SquareZero(x);
  }

  /**
   The test in terms of the points: their box is more than a thousand times as long as it is wide, or the square of
   their correlation, taken about their means, is above 99 hundredths.
   */
  lemma NearlyCollinearMeans(es: Vec, ns: Vec, act: seq<nat>)
    requires Inside(act, es, ns) && |act| > 0 && |es| > 0 && |ns| > 0
    ensures var s := MomentsOf(es, ns, act, |act|);
      var delx, dely := s.xmax - s.xmin, s.ymax - s.ymin;
      var sxx, syy, sxy := Covariation(es, es, act), Covariation(ns, ns, act), Covariation(es, ns, act);
      NearlyCollinear(s, |act|) <==>
        1000.0 * delx < dely || 1000.0 * dely < delx
        || if Times(sxx, syy) == 0.0 then sxy != 0.0 else 100.0 * Times(sxy, sxy) > 99.0 * Times(sxx, syy)
  {
    var s := MomentsOf(es, ns, act, |act|);
    assert s == MomentsFrom(es[0], ns[0], es, ns, act, |act|);
    SumsAre(es[0], ns[0], es, ns, act, |act|);
    hide NearlyCollinear, CorrelationAbove, Products, Total, Covariation, MomentsFrom, MomentsOf, Centred, Times;
    CovariationIs(es, es, act);
    CovariationIs(ns, ns, act);
    CovariationIs(es, ns, act);
    var sxx, syy, sxy := Covariation(es, es, act), Covariation(ns, ns, act), Covariation(es, ns, act);
    SpreadNotNegative(es, act);
    SpreadNotNegative(ns, act);
    NearlyIs(s, |act|, sxx, syy, sxy);
    ProductNotNegative(sxx, syy);
    SquareNotNegative(sxy);
    AboveMeans(Times(sxy, sxy), Times(sxx, syy));
  }

  lemma SpreadNotNegative(xs: Vec, act: seq<nat>)
    requires Inside(act, xs, xs) && |act| > 0
    ensures Covariation(xs, xs, act) >= 0.0
  {
    SquaresAdd(xs, act, Mean(xs, act), |act|);
  }

  lemma NearlyIs(s: Moments, k: nat, sxx: real, syy: real, sxy: real)
    requires k > 0 && sxx == Centred(s.sumx2, s.sumx, s.sumx, k)
    requires syy == Centred(s.sumy2, s.sumy, s.sumy, k) && sxy == Centred(s.sumxy, s.sumx, s.sumy, k)
    ensures var delx, dely := s.xmax - s.xmin, s.ymax - s.ymin;
      NearlyCollinear(s, k) <==>
        1000.0 * delx < dely || 1000.0 * dely < delx || CorrelationAbove(Times(sxy, sxy), Times(sxx, syy))
  {
    hide CorrelationAbove, Centred, Times;
  }

  // ----- how many points, and three of them -----

  /** Between 3 and 100000 active points, no more and no fewer. */
  lemma CountsAllowed(log: real -> real, es: Vec, ns: Vec, te: Vec, tn: Vec, act: seq<nat>)
    requires Inside(act, es, ns) && Inside(act, te, tn)
    ensures TpsStatus(log, es, ns, te, tn, act) == MNPTERR <==> |act| < 3 || |act| > 100000
  {
    hide NearlyCollinear, Singular, SplineSystem, MomentsOf;
  }

  function Cross(x1: real, y1: real, x2: real, y2: real, x3: real, y3: real): real {
    (x2 - x1) * (y3 - y1) - (x3 - x1) * (y2 - y1)
  }

  /** Two equations in two unknowns. */
  lemma Cramer(a: real, b: real, c: real, d: real, u: real, v: real)
    requires a * u + b * v == 0.0 && c * u + d * v == 0.0 && a * d - b * c != 0.0
    ensures u == 0.0 && v == 0.0
  {
    var det := a * d - b * c;
    assert d * (a * u + b * v) - b * (c * u + d * v) == det * u by { Eliminate(a, b, c, d, u, v); }
    assert a * (c * u + d * v) - c * (a * u + b * v) == det * v by { Eliminate(d, c, b, a, v, u); }
    NoZeroProduct(det, u);
    NoZeroProduct(det, v);
  }

  lemma Eliminate(a: real, b: real, c: real, d: real, u: real, v: real)
    ensures d * (a * u + b * v) - b * (c * u + d * v) == (a * d - b * c) * u
  {
  }

  lemma NoZeroProduct(x: real, y: real)
    requires x != 0.0 && x * y == 0.0
    ensures y == 0.0
  {
  }

  /** Three active points that are not on a line always have a regular spline system, whatever the kernel. */
  lemma ThreePointsRegular(log: real -> real, es: Vec, ns: Vec, act: seq<nat>)
    requires Inside(act, es, ns) && |act| == 3
    requires Cross(es[act[0]], ns[act[0]], es[act[1]], ns[act[1]], es[act[2]], ns[act[2]]) != 0.0
    ensures !Singular(SplineSystem(log, es, ns, act), 6)
  {
    hide SplineSystem, Solves, NonZero, Cross;
    forall C: Vec | |C| == 6 && Solves(SplineSystem(log, es, ns, act), 6, Zeros(6), C) ensures !NonZero(C) {
      ThreeKernel(log, es, ns, act, C);
    }
  }

  lemma ThreeKernel(log: real -> real, es: Vec, ns: Vec, act: seq<nat>, C: Vec)
    requires Inside(act, es, ns) && |act| == 3 && |C| == 6
    requires Cross(es[act[0]], ns[act[0]], es[act[1]], ns[act[1]], es[act[2]], ns[act[2]]) != 0.0
    requires Solves(SplineSystem(log, es, ns, act), 6, Zeros(6), C)
    ensures !NonZero(C)
  {
    var t: Vec := Zeros(|es|);
    assert SplineTargets(t, act) == Zeros(6);
    hide SplineSystem, Solves, Interpolates, Balanced, Cross;
    SolvesMeaning(log, es, ns, t, act, C);
    ThreeWeights(es, ns, act, C);
    ThreeValues(log, es, ns, act, C);
  }

  lemma ThreeWeights(es: Vec, ns: Vec, act: seq<nat>, C: Vec)
    requires Inside(act, es, ns) && |act| == 3 && |C| == 6 && Balanced(es, ns, act, C)
    requires Cross(es[act[0]], ns[act[0]], es[act[1]], ns[act[1]], es[act[2]], ns[act[2]]) != 0.0
    ensures C[3] == C[4] == C[5] == 0.0
  {
    WeightedThree(C, seq(3, _ => 1.0));
    WeightedThree(C, Picked(es, act));
    WeightedThree(C, Picked(ns, act));
    var x1, x2, x3 := es[act[0]], es[act[1]], es[act[2]];
    var y1, y2, y3 := ns[act[0]], ns[act[1]], ns[act[2]];
    hide Weighted;
    FirstOut(x1, x2, x3, C[3], C[4], C[5]);
    FirstOut(y1, y2, y3, C[3], C[4], C[5]);
    Cramer(x2 - x1, x3 - x1, y2 - y1, y3 - y1, C[4], C[5]);
  }

  lemma WeightedThree(C: Vec, xs: Vec)
    requires |C| == 6 && |xs| == 3
    ensures Weighted(C, xs, 3) == xs[0] * C[3] + xs[1] * C[4] + xs[2] * C[5]
  {
    assert Weighted(C, xs, 0) == 0.0;
    assert Weighted(C, xs, 1) == xs[0] * C[3];
    assert Weighted(C, xs, 2) == Weighted(C, xs, 1) + xs[1] * C[4];
  }

  lemma FirstOut(x1: real, x2: real, x3: real, u: real, v: real, w: real)
    requires u + v + w == 0.0 && x1 * u + x2 * v + x3 * w == 0.0
    ensures (x2 - x1) * v + (x3 - x1) * w == 0.0
  {
    assert u == -v - w;
  }

  lemma ThreeValues(log: real -> real, es: Vec, ns: Vec, act: seq<nat>, C: Vec)
    requires Inside(act, es, ns) && |act| == 3 && |C| == 6 && C[3] == C[4] == C[5] == 0.0
    requires Interpolates(log, es, ns, Zeros(|es|), act, C)
    requires Cross(es[act[0]], ns[act[0]], es[act[1]], ns[act[1]], es[act[2]], ns[act[2]]) != 0.0
    ensures C[0] == C[1] == C[2] == 0.0
  {
    var x1, x2, x3 := es[act[0]], es[act[1]], es[act[2]];
    var y1, y2, y3 := ns[act[0]], ns[act[1]], ns[act[2]];
    AffineOnly(log, x1, y1, es, ns, act, C);
    AffineOnly(log, x2, y2, es, ns, act, C);
    AffineOnly(log, x3, y3, es, ns, act, C);
    assert Spline(log, es[act[0]], ns[act[0]], es, ns, act, C, 3) == 0.0;
    assert Spline(log, es[act[1]], ns[act[1]], es, ns, act, C, 3) == 0.0;
    assert Spline(log, es[act[2]], ns[act[2]], es, ns, act, C, 3) == 0.0;
    hide Spline, Interpolates;
    Difference(x1, y1, x2, y2, C[0], C[1], C[2]);
    Difference(x1, y1, x3, y3, C[0], C[1], C[2]);
    Cramer(x2 - x1, y2 - y1, x3 - x1, y3 - y1, C[1], C[2]);
  }

  lemma Difference(x1: real, y1: real, x2: real, y2: real, a: real, b: real, c: real)
    requires a + x1 * b + y1 * c == 0.0 && a + x2 * b + y2 * c == 0.0
    ensures (x2 - x1) * b + (y2 - y1) * c == 0.0
  {
  }

  lemma AffineOnly(log: real -> real, e: real, n: real, es: Vec, ns: Vec, act: seq<nat>, C: Vec)
    requires Inside(act, es, ns) && |act| == 3 && |C| == 6 && C[3] == C[4] == C[5] == 0.0
    ensures Spline(log, e, n, es, ns, act, C, 3) == C[0] + e * C[1] + n * C[2]
  {
    hide Base;
    forall j | 0 <= j < 3 ensures Times(C[j + 3], Base(log, e, n, es[act[j]], ns[act[j]])) == 0.0 {
      NoWeight(Base(log, e, n, es[act[j]], ns[act[j]]));
    }
    SplineGrows(log, e, n, es, ns, act, C, 0);
    SplineGrows(log, e, n, es, ns, act, C, 1);
    SplineGrows(log, e, n, es, ns, act, C, 2);
    assert Spline(log, e, n, es, ns, act, C, 0) == C[0] + e * C[1] + n * C[2];
    hide Times, Spline;
  }

  lemma NoWeight(b: real)
    ensures Times(0.0, b) == 0.0
  {
  }
}

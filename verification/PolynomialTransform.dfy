/** Transforming points with coefficients out of a BLOB; value gives the number a bit pattern denotes. */
module PolynomialTransform {
  import opened Bytes
  import opened ControlPointSet
  import opened Options
  import opened PolynomialBlob
  import opened PolynomialReaders
  import opened Vectors
  import G = Georef
  import G3 = Georef3D
  import T = ThinPlateSpline

  function Reals(w: seq<Word64>, value: Word64 -> real): (v: Vec)
    ensures |v| == |w|
  {
    seq(|w|, i requires 0 <= i < |w| => value(w[i]))
  }

  /** Coefficients the decoder can have produced. */
  predicate Complete(c: Coeffs) {
    && KnownKind(c.kind) && 1 <= c.order <= 3
    && (c.kind == POLYNOMIAL_2D ==> |c.E| == |c.N| == Terms(c.kind, c.order))
    && (c.kind == POLYNOMIAL_3D ==> |c.E| == |c.N| == |c.Z| == Terms(c.kind, c.order))
    && (c.kind == THIN_PLATE_SPLINE ==>
      PointsOf(c.points, |c.status|) && |c.E| == |c.N| == |c.status| + 3)
  }

  lemma DecodedComplete(blob: seq<byte>, arch: bool)
    ensures Decode(blob, arch).Some? ==> Complete(Decode(blob, arch).value)
  {
  }

  /** Whatever blob_decode accepts with a count that fits, every point can be transformed with it. */
  lemma DecodedTransforms(
    log: real -> real, blob: seq<byte>, arch: bool, x: real, y: real, z: real, value: Word64 -> real)
    requires Read(blob, arch).Decoded? && Read(blob, arch).count >= 0
    ensures Complete(Read(blob, arch).coeffs) && Transform3D(log, Read(blob, arch).coeffs, x, y, z, value).Some?
    ensures Transform2D(log, Read(blob, arch).coeffs, x, y, value).Some?
  {
    hide Decode, SplineAt, G3.Expand, G.Expand;
    ReadIs(blob, arch);
    DecodedComplete(blob, arch);
  }

  lemma TermsAreSize(order: byte)
    requires 1 <= order <= 3
    ensures Terms(POLYNOMIAL_2D, order) == G.Size(order) && Terms(POLYNOMIAL_3D, order) == G3.Size(order)
  {
  }

  /** gcp_I_georef_tps in the forward direction, on decoded weights and points. */
  function SplineAt(log: real -> real, x: real, y: real, C: seq<Word64>, c: Coeffs, value: Word64 -> real): real
    requires c.kind == THIN_PLATE_SPLINE && Complete(c) && |C| == |c.status| + 3
  {
    var act := Active(c.status, |c.status|);
    T.Spline(log, x, y, Reals(c.points.e1, value), Reals(c.points.n1, value), act, Reals(C, value), |act|)
  }

  /** gaia_point_transform2D: coefficients for space are taken for coefficients of the plane. */
  function Transform2D(log: real -> real, c: Coeffs, x: real, y: real, value: Word64 -> real): Option<(real, real)>
    requires Complete(c)
  {
    if c.kind == THIN_PLATE_SPLINE then
      Some((SplineAt(log, x, y, c.E, c, value), SplineAt(log, x, y, c.N, c, value)))
    else
      TermsAreSize(c.order);
      G.Evaluate(x, y, Reals(c.E, value), Reals(c.N, value), c.order)
  }

  /** gaia_point_transform3D: plane transforms keep the height. */
  function Transform3D(log: real -> real, c: Coeffs, x: real, y: real, z: real, value: Word64 -> real)
    : Option<(real, real, real)>
    requires Complete(c)
  {
    if c.kind == POLYNOMIAL_3D then
      TermsAreSize(c.order);
      G3.Evaluate(x, y, z, Reals(c.E, value), Reals(c.N, value), Reals(c.Z, value), c.order)
    else
      match Transform2D(log, c, x, y, value)
      case None => None
      case Some((x1, y1)) => Some((x1, y1, z))
  }

  // ----- plane points and coefficients for space -----

  /** The terms without height have the coefficients that the plane evaluator pairs them with. */
  predicate SamePlane(order: nat, C: Vec)
    requires 1 <= order <= 3 && |C| == G3.Size(order)
  {
    && (order >= 2 ==> C[3] == C[4] == C[5] == C[7])
    && (order == 3 ==> C[6] == C[10] && C[7] == C[11] && C[8] == C[13] && C[9] == C[16])
  }

  /** The spatial polynomial at height zero. */
  lemma AtHeightZero(x: real, y: real, C: Vec, order: nat)
    requires 1 <= order <= 3 && |C| == G3.Size(order)
    ensures G3.Expand(x, y, 0.0, C, order)
      == C[0] + C[1] * x + C[2] * y
        + (if order < 2 then 0.0 else C[4] * (x * x) + C[5] * (x * y) + C[7] * (y * y))
        + if order < 3 then 0.0
          else C[10] * (x * (x * x)) + C[11] * ((x * x) * y) + C[13] * (x * (y * y)) + C[16] * (y * (y * y))
  {
  }

  /** The plane evaluator on as many of the coefficients as it reads. */
  lemma InPlane(x: real, y: real, C: Vec, order: nat)
    requires 1 <= order <= 3 && |C| == G3.Size(order)
    ensures G.Size(order) <= |C|
    ensures G.Expand(x, y, C, order)
      == C[0] + C[1] * x + C[2] * y
        + (if order < 2 then 0.0 else C[3] * (x * x) + C[4] * (x * y) + C[5] * (y * y))
        + if order < 3 then 0.0
          else C[6] * (x * (x * x)) + C[7] * ((x * x) * y) + C[8] * (x * (y * y)) + C[9] * (y * (y * y))
  {
  }

  ghost predicate AgreesAt(x: real, y: real, C: Vec, order: nat)
    requires 1 <= order <= 3 && |C| == G3.Size(order)
  {
    InPlane(x, y, C, order);
    G.Expand(x, y, C, order) == G3.Expand(x, y, 0.0, C, order)
  }

  /** Both evaluators agree on the whole plane exactly if the coefficients happen to be the same. */
  lemma PlaneExact(C: Vec, order: nat)
    requires 1 <= order <= 3 && |C| == G3.Size(order)
    ensures (forall x: real, y: real :: AgreesAt(x, y, C, order)) <==> SamePlane(order, C)
  {
    if SamePlane(order, C) {
      forall x: real, y: real ensures AgreesAt(x, y, C, order) {
        SameAgrees(x, y, C, order);
      }
    }
    hide AgreesAt, SamePlane;
    if forall x: real, y: real :: AgreesAt(x, y, C, order) {
      AgreeingCoefficients(C, order);
    }
  }

  /** The coefficients of the terms without height, in the order of the plane. */
  function WithoutHeight(C: Vec, order: nat): (P: Vec)
    requires 1 <= order <= 3 && |C| == G3.Size(order)
    ensures |P| == G.Size(order)
  {
    if order == 1 then [C[0], C[1], C[2]]
    else if order == 2 then [C[0], C[1], C[2], C[4], C[5], C[7]]
    else [C[0], C[1], C[2], C[4], C[5], C[7], C[10], C[11], C[13], C[16]]
  }

  lemma SpaceIsPlane(x: real, y: real, C: Vec, order: nat)
    requires 1 <= order <= 3 && |C| == G3.Size(order)
    ensures G3.Expand(x, y, 0.0, C, order) == G.Expand(x, y, WithoutHeight(C, order), order)
  {
    AtHeightZero(x, y, C, order);
    hide G3.Expand;
  }

  lemma FrontCounts(x: real, y: real, C: Vec, order: nat)
    requires 1 <= order <= 3 && |C| == G3.Size(order)
    ensures G.Size(order) <= |C| && G.Expand(x, y, C, order) == G.Expand(x, y, C[..G.Size(order)], order)
  {
  }

  lemma SameAgrees(x: real, y: real, C: Vec, order: nat)
    requires 1 <= order <= 3 && |C| == G3.Size(order) && SamePlane(order, C)
    ensures AgreesAt(x, y, C, order)
  {
    FrontCounts(x, y, C, order);
    SpaceIsPlane(x, y, C, order);
    assert C[..G.Size(order)] == WithoutHeight(C, order);
    hide G.Expand, G3.Expand;
  }

  /** Seven points with coordinates -1, 0 and 1 tell all the coefficients apart. */
  lemma AgreeingCoefficients(C: Vec, order: nat)
    requires 1 <= order <= 3 && |C| == G3.Size(order)
    requires forall x: real, y: real :: AgreesAt(x, y, C, order)
    ensures SamePlane(order, C)
  {
    DifferenceAt(C, order, 1.0, 0.0);
    DifferenceAt(C, order, -1.0, 0.0);
    DifferenceAt(C, order, 0.0, 1.0);
    DifferenceAt(C, order, 0.0, -1.0);
    DifferenceAt(C, order, 1.0, 1.0);
    DifferenceAt(C, order, 1.0, -1.0);
    DifferenceAt(C, order, -1.0, 1.0);
    hide AgreesAt;
  }

  /** What agreement at one point says about the coefficients. */
  lemma DifferenceAt(C: Vec, order: nat, x: real, y: real)
    requires 1 <= order <= 3 && |C| == G3.Size(order) && AgreesAt(x, y, C, order)
    ensures order == 2 ==>
      (C[3] - C[4]) * (x * x) + (C[4] - C[5]) * (x * y) + (C[5] - C[7]) * (y * y) == 0.0
    ensures order == 3 ==>
      (C[3] - C[4]) * (x * x) + (C[4] - C[5]) * (x * y) + (C[5] - C[7]) * (y * y)
      + (C[6] - C[10]) * (x * (x * x)) + (C[7] - C[11]) * ((x * x) * y)
      + (C[8] - C[13]) * (x * (y * y)) + (C[9] - C[16]) * (y * (y * y)) == 0.0
  {
    InPlane(x, y, C, order);
    AtHeightZero(x, y, C, order);
    hide G.Expand, G3.Expand;
  }

  function Flat(p: Option<(real, real, real)>): Option<(real, real)> {
    match p
    case None => None
    case Some((x, y, _)) => Some((x, y))
  }

  /**
   Plane points through a spatial blob: at order 1 they go where the spatial transform takes them at height zero, and at
   orders 2 and 3 all of them do so only if both vectors happen to have the same coefficients.
   */
  lemma PlaneThroughSpatial(log: real -> real, c: Coeffs, value: Word64 -> real)
    requires Complete(c) && c.kind == POLYNOMIAL_3D
    ensures |c.E| == |c.N| == G3.Size(c.order)
    ensures
      (forall x: real, y: real ::
        Transform2D(log, c, x, y, value) == Flat(Transform3D(log, c, x, y, 0.0, value)))
      <==> SamePlane(c.order, Reals(c.E, value)) && SamePlane(c.order, Reals(c.N, value))
  {
    TermsAreSize(c.order);
    var E, N := Reals(c.E, value), Reals(c.N, value);
    PlaneExact(E, c.order);
    PlaneExact(N, c.order);
    forall x: real, y: real
      ensures Transform2D(log, c, x, y, value) == Flat(Transform3D(log, c, x, y, 0.0, value))
        <==> AgreesAt(x, y, E, c.order) && AgreesAt(x, y, N, c.order)
    {
      hide G.Expand, G3.Expand;
    }
    hide Transform2D, Transform3D, SamePlane, AgreesAt;
  }

  /** The second-order blob whose easting is the height sends (1, 0) to easting 1, where space gives 0 at height 0. */
  lemma PlaneGoesWrong(log: real -> real)
    ensures var zero := seq(10, _ => 0);
      var c := Coeffs(POLYNOMIAL_3D, 2, zero[3 := 1], zero, zero, NO_POINTS, []);
      var value := (w: Word64) => w as real;
      && Complete(c) && Transform2D(log, c, 1.0, 0.0, value) == Some((1.0, 0.0))
      && Transform3D(log, c, 1.0, 0.0, 0.0, value) == Some((0.0, 0.0, 0.0))
  {
  }

  /** Every point of a spline blob is active. */
  lemma {:induction false} AllActive(count: nat, k: nat)
    requires k <= count
    ensures Active(seq(count, _ => 1), k) == seq(k, i => i)
  {
    if k > 0 {
      AllActive(count, k - 1);
      assert seq(k, i => i) == seq(k - 1, i => i) + [k - 1];
    }
  }

  /** Applying a 2D blob is applying the coefficients it was made from. */
  lemma Through2D(
    log: real -> real, E: seq<Word64>, N: seq<Word64>, order: byte, writer: bool, reader: bool, x: real, y: real,
    value: Word64 -> real)
    requires 1 <= order <= 3 && |E| == |N| == G.Size(order)
    ensures Terms(POLYNOMIAL_2D, order) == G.Size(order)
    ensures var d := Decode(Blob2D(E, N, order, writer), reader);
      d.Some? && Complete(d.value) && d.value.kind == POLYNOMIAL_2D
      && Transform2D(log, d.value, x, y, value) == G.Evaluate(x, y, Reals(E, value), Reals(N, value), order)
  {
    hide Decode, Blob2D;
    TermsAreSize(order);
    Decode2D(E, N, order, writer, reader);
    assert E[..|E|] == E && N[..|N|] == N;
  }

  /** A polynomial with the minimum number of points still meets every one of them after the trip. */
  lemma FitSurvivesBlob(
    log: real -> real, E: seq<Word64>, N: seq<Word64>, order: byte, writer: bool, reader: bool, value: Word64 -> real,
    act: seq<nat>, es: Vec, ns: Vec, te: Vec, tn: Vec, r: nat)
    requires 1 <= order <= 3 && |E| == |N| == G.Size(order) == |act| && r < |act|
    requires forall r :: 0 <= r < |act| ==> act[r] < |es| && act[r] < |ns| && act[r] < |te| && act[r] < |tn|
    requires G.Maps(G.Size(order), act, es, ns, te, tn, Reals(E, value), Reals(N, value))
    ensures Terms(POLYNOMIAL_2D, order) == G.Size(order)
    ensures var d := Decode(Blob2D(E, N, order, writer), reader);
      d.Some? && Complete(d.value) && d.value.kind == POLYNOMIAL_2D
      && Transform2D(log, d.value, es[act[r]], ns[act[r]], value) == Some((te[act[r]], tn[act[r]]))
      && forall z: real ::
        Transform3D(log, d.value, es[act[r]], ns[act[r]], z, value) == Some((te[act[r]], tn[act[r]], z))
  {
    hide Decode, Blob2D, Complete, Terms, G.Maps, G.Evaluate, Reals;
    Through2D(log, E, N, order, writer, reader, es[act[r]], ns[act[r]], value);
    G.FitInterpolates(order, act, es, ns, te, tn, Reals(E, value), Reals(N, value), r);
  }

  /** Applying a 3D blob is applying the coefficients it was made from. */
  lemma Through3D(
    log: real -> real, E: seq<Word64>, N: seq<Word64>, Z: seq<Word64>, order: byte, writer: bool, reader: bool,
    x: real, y: real, z: real, value: Word64 -> real)
    requires 1 <= order <= 3 && |E| == |N| == |Z| == G3.Size(order)
    ensures Terms(POLYNOMIAL_3D, order) == G3.Size(order)
    ensures var d := Decode(Blob3D(E, N, Z, order, writer), reader);
      d.Some? && Complete(d.value) && d.value.kind == POLYNOMIAL_3D
      && Transform3D(log, d.value, x, y, z, value)
        == G3.Evaluate(x, y, z, Reals(E, value), Reals(N, value), Reals(Z, value), order)
  {
    hide Decode, Blob3D;
    TermsAreSize(order);
    Decode3D(E, N, Z, order, writer, reader);
    assert E[..|E|] == E && N[..|N|] == N && Z[..|Z|] == Z;
  }

  /** The same in space: every active point of a minimum-size fit is still met. */
  lemma Fit3DSurvivesBlob(
    log: real -> real, E: seq<Word64>, N: seq<Word64>, Z: seq<Word64>, order: byte, writer: bool, reader: bool,
    value: Word64 -> real, cp: G3.ControlPoints3D, k: nat)
    requires cp.Valid() && 1 <= order <= 3 && |E| == |N| == |Z| == G3.Size(order) == |cp.ActivePoints()|
    requires G3.Maps(cp, G3.Size(order), Reals(E, value), Reals(N, value), Reals(Z, value))
    requires k < cp.count && cp.status[k] > 0
    ensures Terms(POLYNOMIAL_3D, order) == G3.Size(order)
    ensures var d := Decode(Blob3D(E, N, Z, order, writer), reader);
      d.Some? && Complete(d.value)
      && Transform3D(log, d.value, cp.e1[k], cp.n1[k], cp.z1[k], value) == Some((cp.e2[k], cp.n2[k], cp.z2[k]))
  {
    hide Decode, Blob3D, Complete, Terms, G3.Maps, G3.Evaluate, Reals, G3.Size;
    Through3D(log, E, N, Z, order, writer, reader, cp.e1[k], cp.n1[k], cp.z1[k], value);
    G3.FitInterpolates(cp, order, Reals(E, value), Reals(N, value), Reals(Z, value), k);
  }

  /** Applying a spline blob is applying the weights it was made from, centred on the same source points. */
  lemma ThroughTps(
    log: real -> real, E: seq<Word64>, N: seq<Word64>, p: Points, writer: bool, reader: bool, x: real, y: real,
    value: Word64 -> real)
    requires |p.e1| < 0x8000_0000 && PointsOf(p, |p.e1|) && |E| == |N| == |p.e1| + 3
    ensures var d := Decode(BlobTps(E, N, p, |p.e1|, writer), reader); d.Some? <==> |p.e1| <= MAX_POINTS
    ensures var n := |p.e1|; var d := Decode(BlobTps(E, N, p, n, writer), reader); var act := seq(n, i => i);
      d.Some? ==>
        Complete(d.value) && d.value.kind == THIN_PLATE_SPLINE
        && Transform2D(log, d.value, x, y, value)
          == Some((T.Spline(log, x, y, Reals(p.e1, value), Reals(p.n1, value), act, Reals(E, value), n),
                     T.Spline(log, x, y, Reals(p.e1, value), Reals(p.n1, value), act, Reals(N, value), n)))
  {
    hide Decode, BlobTps, T.Spline;
    var n := |p.e1|;
    DecodeTps(E, N, p, n, writer, reader);
    AllActive(n, n);
    assert E[..|E|] == E && N[..|N|] == N;
  }

  /** A fitted spline still meets every control point after the trip. */
  lemma SplineSurvivesBlob(
    log: real -> real, E: seq<Word64>, N: seq<Word64>, p: Points, writer: bool, reader: bool, value: Word64 -> real,
    r: nat)
    requires |p.e1| <= MAX_POINTS && PointsOf(p, |p.e1|) && |E| == |N| == |p.e1| + 3 && r < |p.e1|
    requires T.SplineFitted(log, seq(|p.e1|, i => i), Reals(p.e1, value), Reals(p.n1, value),
                            Reals(p.e2, value), Reals(p.n2, value), Reals(E, value), Reals(N, value))
    ensures var d := Decode(BlobTps(E, N, p, |p.e1|, writer), reader);
      d.Some? && Complete(d.value) && d.value.kind == THIN_PLATE_SPLINE
      && Transform2D(log, d.value, value(p.e1[r]), value(p.n1[r]), value)
        == Some((value(p.e2[r]), value(p.n2[r])))
    ensures var d := Decode(BlobTps(E, N, p, |p.e1|, writer), reader);
      forall z: real ::
        Transform3D(log, d.value, value(p.e1[r]), value(p.n1[r]), z, value)
        == Some((value(p.e2[r]), value(p.n2[r]), z))
  {
    hide Decode, BlobTps, T.SplineFitted, Transform2D, Complete, T.Spline;
    var act := seq(|p.e1|, i => i);
    var es, ns, te, tn := Reals(p.e1, value), Reals(p.n1, value), Reals(p.e2, value), Reals(p.n2, value);
    ThroughTps(log, E, N, p, writer, reader, value(p.e1[r]), value(p.n1[r]), value);
    FittedMeets(log, es, ns, te, tn, act, Reals(E, value), Reals(N, value), r);
    assert act[r] == r;
  }

  lemma FittedMeets(log: real -> real, es: Vec, ns: Vec, te: Vec, tn: Vec, act: seq<nat>, E: Vec, N: Vec, r: nat)
    requires T.Inside(act, es, ns) && T.Inside(act, te, tn) && |E| == |N| == |act| + 3 && r < |act|
    requires T.SplineFitted(log, act, es, ns, te, tn, E, N)
    ensures T.Spline(log, es[act[r]], ns[act[r]], es, ns, act, E, |act|) == te[act[r]]
    ensures T.Spline(log, es[act[r]], ns[act[r]], es, ns, act, N, |act|) == tn[act[r]]
  {
    T.SplineCharacterised(log, act, es, ns, te, tn, E, N, E);
    T.SplineCharacterised(log, act, es, ns, te, tn, E, N, N);
    hide T.Spline;
  }
}

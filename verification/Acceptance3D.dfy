/**
 Which fits in space the thresholded solver accepts, with the threshold written out: the pivots of an upper triangular
 matrix are its diagonal, and a staircase of four points leads to one.
 */
module Acceptance3D {
  import opened Vectors
  import opened Elimination
  import opened LinearSystem
  import opened SolveMat
  import opened SolveMat3
  import opened LeastSquares
  import opened Georef3D

  /** 1.0e-15 */
  predicate LargeEnough(x: real) {
    x <= -0.000000000000001 || x >= 0.000000000000001
  }

  /** From column i on there is nothing below the diagonal. */
  ghost predicate Upper(A: Table, w: nat, i: nat)
    requires Wide(A, w)
  {
    forall r, c :: 0 <= r < |A| && i <= c < r && c < w ==> A[r][c] == 0.0
  }

  lemma {:induction false} PivotStays(A: Table, w: nat, i: nat, top: nat)
    requires Wide(A, w) && i < w && i < top <= |A| && forall r :: i < r < top ==> A[r][i] == 0.0
    ensures PivotRow(A, w, i, top) == i
  {
    if top > i + 1 {
      PivotStays(A, w, i, top - 1);
    }
  }

  lemma UpperPass(A: Table, w: nat, i: nat)
    requires Wide(A, w) && i < |A| <= w && Upper(A, w, i) && A[i][i] != 0.0
    ensures PivotRow(A, w, i, |A|) == i
    ensures var B := PassResult(A, w, i);
      Upper(B, w, i + 1) && forall r :: i < r < |A| ==> B[r] == A[r]
  {
    PivotStays(A, w, i, |A|);
    assert Exchange(A, i, i) == A;
    var B := PassResult(A, w, i);
    forall r | i < r < |A| ensures B[r] == A[r] {
      assert B[r] == Minus(A[r], A[r][i] / A[i][i], A[i]);
      assert A[r][i] / A[i][i] == 0.0;
      hide PassResult, PivotRow;
    }
    hide PassResult, PivotRow;
  }

  ghost predicate DiagonalHolds(A: Table, w: nat, i: nat, eps: real)
    requires Wide(A, w) && |A| <= w
  {
    forall j :: i <= j < |A| ==> Abs(A[j][j]) >= eps
  }

  lemma DiagonalStep(A: Table, B: Table, w: nat, i: nat, eps: real)
    requires Wide(A, w) && Wide(B, w) && i < |A| == |B| <= w && forall r :: i < r < |A| ==> B[r] == A[r]
    ensures DiagonalHolds(A, w, i, eps) <==> Abs(A[i][i]) >= eps && DiagonalHolds(B, w, i + 1, eps)
  {
    hide Abs;
  }

  lemma NonZeroPivot(x: real, eps: real)
    requires eps > 0.0 && Abs(x) >= eps
    ensures x != 0.0
  {
  }

  /** Elimination meets the diagonal of an upper triangular matrix. */
  lemma {:induction false} UpperPivots(A: Table, w: nat, i: nat, eps: real)
    requires Wide(A, w) && i <= |A| <= w && Upper(A, w, i) && eps > 0.0
    ensures PivotsHold(A, w, i, eps) <==> DiagonalHolds(A, w, i, eps)
    decreases |A| - i
  {
    PivotsStep(A, w, i, eps);
    if i < |A| {
      PivotStays(A, w, i, |A|);
      DiagonalStep(A, A, w, i, eps);
      hide PivotsHold, PassResult, PivotRow, Upper, DiagonalHolds, Abs;
      if Abs(A[i][i]) >= eps {
        NonZeroPivot(A[i][i], eps);
        UpperPass(A, w, i);
        var B := PassResult(A, w, i);
        UpperPivots(B, w, i + 1, eps);
        DiagonalStep(A, B, w, i, eps);
      }
    }
  }

  /** First-order design of a point, and of three more that lie off it by (a, b, c), (0, d, e) and (0, 0, f). */
  function StairPoints(x: real, y: real, z: real, a: real, b: real, c: real, d: real, e: real, f: real): (P: Table)
    ensures |P| == 4 && Wide(P, 4)
  {
    [TermRow(4, x, y, z), TermRow(4, x + a, y + b, z + c), TermRow(4, x, y + d, z + e), TermRow(4, x, y, z + f)]
  }

  lemma StairPass(x: real, y: real, z: real, a: real, b: real, c: real, d: real, e: real, f: real)
    ensures var P := StairPoints(x, y, z, a, b, c, d, e, f);
      && PivotRow(P, 4, 0, 4) == 0 && P[0][0] == 1.0
      && var B := PassResult(P, 4, 0);
      && Upper(B, 4, 1) && B[1][1] == a && B[2][2] == d && B[3][3] == f
  {
    var P := StairPoints(x, y, z, a, b, c, d, e, f);
    OnesStay(P);
    assert Exchange(P, 0, 0) == P;
    var B := PassResult(P, 4, 0);
    forall r, k | 1 <= r < 4 && 0 <= k < 4 ensures B[r][k] == P[r][k] - P[0][k] {
      assert B[r] == Minus(P[r], P[r][0] / P[0][0], P[0]);
    }
    hide PassResult, PivotRow;
  }

  /** A table whose first column is all ones keeps row 0 as pivot row. */
  lemma OnesStay(P: Table)
    requires |P| == 4 && Wide(P, 4) && forall r :: 0 <= r < 4 ==> P[r][0] == 1.0
    ensures PivotRow(P, 4, 0, 4) == 0
  {
    assert PivotRow(P, 4, 0, 1) == 0;
    assert PivotRow(P, 4, 0, 2) == 0;
    assert PivotRow(P, 4, 0, 3) == 0;
  }

  /** A staircase is accepted exactly if none of its steps is below 1.0e-15. */
  lemma StairsAccepted(x: real, y: real, z: real, a: real, b: real, c: real, d: real, e: real, f: real)
    ensures FitStatus3(StairPoints(x, y, z, a, b, c, d, e, f), 4)
      == if LargeEnough(a) && LargeEnough(d) && LargeEnough(f) then MSUCCESS else MUNSOLVABLE
  {
    var P := StairPoints(x, y, z, a, b, c, d, e, f);
    StairPass(x, y, z, a, b, c, d, e, f);
    var B := PassResult(P, 4, 0);
    PivotsStep(P, 4, 0, GRASS_EPSILON);
    UpperPivots(B, 4, 1, GRASS_EPSILON);
    hide StairPoints, PassResult, PivotRow, PivotsHold, Upper;
    assert Abs(P[0][0]) >= GRASS_EPSILON;
  }

  /** A staircase whose steps are not zero has full rank. */
  lemma StairsFullRank(x: real, y: real, z: real, a: real, b: real, c: real, d: real, e: real, f: real)
    requires a != 0.0 && d != 0.0 && f != 0.0
    ensures !Degenerate(StairPoints(x, y, z, a, b, c, d, e, f), 4)
  {
    var P := StairPoints(x, y, z, a, b, c, d, e, f);
    forall w: Vec | |w| == 4 && Vanishes(P, 4, w) ensures !NonZero(w) {
      assert Dot(P[0], w, 4) == 0.0 && Dot(P[1], w, 4) == 0.0 && Dot(P[2], w, 4) == 0.0 && Dot(P[3], w, 4) == 0.0;
      StairRow(x, y, z, 0.0, 0.0, 0.0, w);
      StairRow(x, y, z, a, b, c, w);
      StairRow(x, y, z, 0.0, d, e, w);
      StairRow(x, y, z, 0.0, 0.0, f, w);
      DotFour(P[0], w);
      hide Dot, TermRow;
      assert f * w[3] == 0.0;
      ZeroFactor(f, w[3]);
      assert d * w[2] == 0.0;
      ZeroFactor(d, w[2]);
      assert a * w[1] == 0.0;
      ZeroFactor(a, w[1]);
      assert w == Zeros(4);
    }
  }

  /** One row, seen from the corner of the staircase. */
  lemma StairRow(x: real, y: real, z: real, a: real, b: real, c: real, w: Vec)
    requires |w| == 4
    ensures Dot(TermRow(4, x + a, y + b, z + c), w, 4)
      == Dot(TermRow(4, x, y, z), w, 4) + a * w[1] + b * w[2] + c * w[3]
  {
    hide Dot;
    DotFour(TermRow(4, x + a, y + b, z + c), w);
    DotFour(TermRow(4, x, y, z), w);
  }

  lemma ZeroFactor(x: real, y: real)
    ensures x != 0.0 && x * y == 0.0 ==> y == 0.0
  {
  }

  /** Points on which no polynomial but zero vanishes are refused as well when one step is too small. */
  lemma TinyPivotRefused(d: real)
    requires 0.0 < d < 0.000000000000001
    ensures var P := StairPoints(0.0, 0.0, 0.0, d, 0.0, 0.0, 1.0, 0.0, 1.0);
      !Degenerate(P, 4) && FitStatus3(P, 4) == MUNSOLVABLE
  {
    StairsFullRank(0.0, 0.0, 0.0, d, 0.0, 0.0, 1.0, 0.0, 1.0);
    StairsAccepted(0.0, 0.0, 0.0, d, 0.0, 0.0, 1.0, 0.0, 1.0);
    hide Degenerate, FitStatus3, StairPoints;
  }
}

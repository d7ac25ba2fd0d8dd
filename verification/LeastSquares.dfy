/**
 Least squares over design rows: P[k] holds the polynomial terms at control point k, t[k] its target.
 The normal equations the source accumulates point by point have exactly the unique minimiser of the
 squared residuals as their solution, and are singular exactly when the design is degenerate.
 */
module LeastSquares {
  import opened Vectors
  import opened LinearSystem

  /** Some non-zero coefficient vector is annihilated by every design row. */
  ghost predicate Degenerate(P: Table, n: nat)
    requires Wide(P, n)
  {
    exists w: Vec :: |w| == n && NonZero(w) && Vanishes(P, n, w)
  }

  ghost predicate Vanishes(P: Table, n: nat, w: Vec)
    requires Wide(P, n) && |w| == n
  {
    forall k :: 0 <= k < |P| ==> Dot(P[k], w, n) == 0.0
  }

  function Sqr(d: real): (s: real)
    ensures s >= 0.0
  {
    d * d
  }

  /** Sum of squared residuals of the first m design rows. */
  function Loss(P: Table, t: Vec, n: nat, c: Vec, m: nat): (s: real)
    requires Wide(P, n) && |t| == |P| && |c| == n && m <= |P|
    ensures s >= 0.0
  {
    if m == 0 then 0.0
    else
      Loss(P, t, n, c, m - 1) + Sqr(Dot(P[m - 1], c, n) - t[m - 1])
  }

  /** c hits every target. */
  ghost predicate Fits(P: Table, t: Vec, n: nat, c: Vec)
    requires Wide(P, n) && |t| == |P| && |c| == n
  {
    forall k :: 0 <= k < |P| ==> Dot(P[k], c, n) == t[k]
  }

  /** c has a strictly smaller sum of squared residuals than every other coefficient vector. */
  ghost predicate BestFit(P: Table, t: Vec, n: nat, c: Vec)
    requires Wide(P, n) && |t| == |P| && |c| == n
  {
    forall d: Vec :: |d| == n && d != c ==> Loss(P, t, n, c, |P|) < Loss(P, t, n, d, |P|)
  }

  /** c is the strict least-squares optimum, and hits every target when there are no points to spare. */
  ghost predicate Fitted(P: Table, t: Vec, n: nat, c: Vec)
    requires Wide(P, n) && |t| == |P| && |c| == n
  {
    BestFit(P, t, n, c) && (|P| == n ==> Fits(P, t, n, c))
  }

  /** The status a fit over this design has to return. */
  ghost function FitStatus(P: Table, n: nat): Status
    requires Wide(P, n)
  {
    if |P| < n then MNPTERR else if Degenerate(P, n) then MUNSOLVABLE else MSUCCESS
  }

  /** Entry (i, j) of the normal matrix over the first m rows. */
  function Gram(P: Table, n: nat, m: nat, i: nat, j: nat): real
    requires Wide(P, n) && m <= |P| && i < n && j < n
  {
    if m == 0 then 0.0 else Gram(P, n, m - 1, i, j) + Times(P[m - 1][i], P[m - 1][j])
  }

  /** Entry i of the normal right-hand side over the first m rows. */
  function Moment(P: Table, t: Vec, n: nat, m: nat, i: nat): real
    requires Wide(P, n) && |t| == |P| && m <= |P| && i < n
  {
    if m == 0 then 0.0 else Moment(P, t, n, m - 1, i) + Times(t[m - 1], P[m - 1][i])
  }

  function GramRow(P: Table, n: nat, m: nat, i: nat): (g: Vec)
    requires Wide(P, n) && m <= |P| && i < n
    ensures |g| == n
  {
    seq(n, j requires 0 <= j < n => Gram(P, n, m, i, j))
  }

  function NormalMatrix(P: Table, n: nat): (M: Table)
    requires Wide(P, n)
    ensures Square(M, n)
  {
    seq(n, i requires 0 <= i < n => GramRow(P, n, |P|, i))
  }

  function NormalSide(P: Table, t: Vec, n: nat): (a: Vec)
    requires Wide(P, n) && |t| == |P|
    ensures |a| == n
  {
    seq(n, i requires 0 <= i < n => Moment(P, t, n, |P|, i))
  }

  lemma {:induction false} GramSymmetric(P: Table, n: nat, m: nat, i: nat, j: nat)
    requires Wide(P, n) && m <= |P| && i < n && j < n
    ensures Gram(P, n, m, i, j) == Gram(P, n, m, j, i)
  {
    if m > 0 {
      GramSymmetric(P, n, m - 1, i, j);
    }
  }

  /** What normal equation i is short of, over the first m rows. */
  function Defect(P: Table, t: Vec, n: nat, c: Vec, m: nat): (d: Vec)
    requires Wide(P, n) && |t| == |P| && |c| == n && m <= |P|
    ensures |d| == n
  {
    seq(n, i requires 0 <= i < n => Dot(GramRow(P, n, m, i), c, n) - Moment(P, t, n, m, i))
  }

  lemma GramRowStep(P: Table, n: nat, m: nat, i: nat)
    requires Wide(P, n) && 0 < m <= |P| && i < n
    ensures GramRow(P, n, m, i) == Minus(GramRow(P, n, m - 1, i), - P[m - 1][i], P[m - 1])
  {
  }

  lemma GramRowGrows(P: Table, n: nat, c: Vec, m: nat, i: nat)
    requires Wide(P, n) && |c| == n && 0 < m <= |P| && i < n
    ensures Dot(GramRow(P, n, m, i), c, n) == Dot(GramRow(P, n, m - 1, i), c, n) + P[m - 1][i] * Dot(P[m - 1], c, n)
  {
    hide Dot;
    GramRowStep(P, n, m, i);
    DotMinus(GramRow(P, n, m - 1, i), - P[m - 1][i], P[m - 1], c, n);
    NegatedFactor(P[m - 1][i], Dot(P[m - 1], c, n));
  }

  lemma DefectGrowsAt(P: Table, t: Vec, n: nat, c: Vec, m: nat, i: nat)
    requires Wide(P, n) && |t| == |P| && |c| == n && 0 < m <= |P| && i < n
    ensures Defect(P, t, n, c, m)[i]
         == Defect(P, t, n, c, m - 1)[i] - (t[m - 1] - Dot(P[m - 1], c, n)) * P[m - 1][i]
  {
    hide Dot, GramRow;
    GramRowGrows(P, n, c, m, i);
    DefectStep(Dot(GramRow(P, n, m - 1, i), c, n), Moment(P, t, n, m - 1, i),
      P[m - 1][i], Dot(P[m - 1], c, n), t[m - 1]);
  }

  lemma DefectGrows(P: Table, t: Vec, n: nat, c: Vec, m: nat)
    requires Wide(P, n) && |t| == |P| && |c| == n && 0 < m <= |P|
    ensures Defect(P, t, n, c, m) == Minus(Defect(P, t, n, c, m - 1), t[m - 1] - Dot(P[m - 1], c, n), P[m - 1])
  {
    hide Dot;
    var before, after, f := Defect(P, t, n, c, m - 1), Defect(P, t, n, c, m), t[m - 1] - Dot(P[m - 1], c, n);
    forall i | 0 <= i < n
      ensures after[i] == Minus(before, f, P[m - 1])[i]
    {
      DefectGrowsAt(P, t, n, c, m, i);
    }
  }

  lemma NegatedFactor(x: real, y: real)
    ensures (-x) * y == -(x * y)
  {
  }

  lemma DefectStep(g: real, h: real, x: real, d: real, t: real)
    ensures (g + x * d) - (h + t * x) == (g - h) - (t - d) * x
  {
  }

  lemma LossStep(l: real, g: real, g': real, q: real, r: real, s: real)
    requires g' == g + r * s
    ensures (l + 2.0 * g + q) + Sqr(r + s) == (l + Sqr(r)) + 2.0 * g' + (q + Sqr(s))
  {
  }

  /** Moving from c to c + w changes the loss by twice the pairing of w with the defect, plus a square. */
  lemma {:induction false} LossExpansion(P: Table, t: Vec, n: nat, c: Vec, w: Vec, m: nat)
    requires Wide(P, n) && |t| == |P| && |c| == n && |w| == n && m <= |P|
    ensures Loss(P, t, n, Minus(c, -1.0, w), m)
         == Loss(P, t, n, c, m) + 2.0 * Dot(Defect(P, t, n, c, m), w, n) + Loss(P, Zeros(|P|), n, w, m)
  {
    hide Dot, Defect, Sqr;
    if m == 0 {
      DefectEmpty(P, t, n, c, w);
    } else {
      var r, s := Dot(P[m - 1], c, n) - t[m - 1], Dot(P[m - 1], w, n);
      LossExpansion(P, t, n, c, w, m - 1);
      PairingGrows(P, t, n, c, w, m, r, s);
      ShiftedResidual(P[m - 1], c, w, n);
      LossStep(Loss(P, t, n, c, m - 1), Dot(Defect(P, t, n, c, m - 1), w, n), Dot(Defect(P, t, n, c, m), w, n),
        Loss(P, Zeros(|P|), n, w, m - 1), r, s);
    }
  }

  lemma PairingGrows(P: Table, t: Vec, n: nat, c: Vec, w: Vec, m: nat, r: real, s: real)
    requires Wide(P, n) && |t| == |P| && |c| == n && |w| == n && 0 < m <= |P|
    requires r == Dot(P[m - 1], c, n) - t[m - 1] && s == Dot(P[m - 1], w, n)
    ensures Dot(Defect(P, t, n, c, m), w, n) == Dot(Defect(P, t, n, c, m - 1), w, n) + r * s
  {
    hide Dot, Defect, Minus;
    DefectGrows(P, t, n, c, m);
    assert t[m - 1] - Dot(P[m - 1], c, n) == -r;
    DotMinus(Defect(P, t, n, c, m - 1), -r, P[m - 1], w, n);
    NegatedFactor(r, s);
  }

  lemma ShiftedResidual(p: Vec, c: Vec, w: Vec, n: nat)
    requires |p| == |c| == |w| == n
    ensures Dot(p, Minus(c, -1.0, w), n) == Dot(p, c, n) + Dot(p, w, n)
  {
    DotSymmetric(p, Minus(c, -1.0, w), n);
    DotMinus(c, -1.0, w, p, n);
    DotSymmetric(p, c, n);
    DotSymmetric(p, w, n);
  }

  lemma DefectEmpty(P: Table, t: Vec, n: nat, c: Vec, w: Vec)
    requires Wide(P, n) && |t| == |P| && |c| == n && |w| == n
    ensures Dot(Defect(P, t, n, c, 0), w, n) == 0.0
  {
    forall i | 0 <= i < n ensures Defect(P, t, n, c, 0)[i] == 0.0 {
      var g := GramRow(P, n, 0, i);
      DotDiagonal(g, c, n, n);
    }
    DotDiagonal(Defect(P, t, n, c, 0), w, n, n);
  }

  /** A loss of zero means that every target is hit. */
  lemma {:induction false} ZeroLoss(P: Table, t: Vec, n: nat, c: Vec, m: nat)
    requires Wide(P, n) && |t| == |P| && |c| == n && m <= |P|
    ensures Loss(P, t, n, c, m) == 0.0 <==> forall k :: 0 <= k < m ==> Dot(P[k], c, n) == t[k]
  {
    if m > 0 {
      ZeroLoss(P, t, n, c, m - 1);
      var d := Dot(P[m - 1], c, n) - t[m - 1];
      SquareZero(d);
    }
  }

  lemma NonZeroSquare(d: real)
    requires d != 0.0
    ensures Sqr(d) != 0.0
  {
    var i := 1.0 / d;
    assert i * d == 1.0;
    Regroup(i, d, d);
  }

  lemma Regroup(a: real, b: real, c: real)
    ensures (a * b) * c == a * (b * c)
  {
  }

  lemma SquareZero(d: real)
    ensures Sqr(d) == 0.0 <==> d == 0.0
  {
    if d != 0.0 {
      NonZeroSquare(d);
    }
  }

  /** Solving the normal equations is the same as having no defect. */
  lemma NormalIsNoDefect(P: Table, t: Vec, n: nat, c: Vec)
    requires Wide(P, n) && |t| == |P| && |c| == n
    ensures Solves(NormalMatrix(P, n), n, NormalSide(P, t, n), c) <==> Defect(P, t, n, c, |P|) == Zeros(n)
  {
    var M, a, d := NormalMatrix(P, n), NormalSide(P, t, n), Defect(P, t, n, c, |P|);
    assert forall i :: 0 <= i < n ==> d[i] == Dot(M[i], c, n) - a[i];
    if d == Zeros(n) {
      forall i | 0 <= i < n ensures Dot(M[i], c, n) == a[i] { assert d[i] == 0.0; }
    }
  }

  lemma {:induction false} MomentOfZeros(P: Table, n: nat, m: nat, i: nat)
    requires Wide(P, n) && m <= |P| && i < n
    ensures Moment(P, Zeros(|P|), n, m, i) == 0.0
  {
    if m > 0 {
      MomentOfZeros(P, n, m - 1, i);
    }
  }

  lemma NormalKernel(P: Table, n: nat, w: Vec)
    requires Wide(P, n) && |w| == n
    ensures Solves(NormalMatrix(P, n), n, Zeros(n), w) <==> Vanishes(P, n, w)
  {
    var z := Zeros(|P|);
    forall i | 0 <= i < n ensures NormalSide(P, z, n)[i] == 0.0 { MomentOfZeros(P, n, |P|, i); }
    assert NormalSide(P, z, n) == Zeros(n);
    NormalIsNoDefect(P, z, n, w);
    ZeroLoss(P, z, n, w, |P|);
    if Solves(NormalMatrix(P, n), n, Zeros(n), w) {
      // The loss at w and at w - w = 0 differ by w paired with the zero defect.
      var o := Minus(w, 1.0, w);
      var v := Minus(Zeros(n), 1.0, w);
      assert Minus(w, -1.0, v) == Zeros(n);
      LossExpansion(P, z, n, w, v, |P|);
      DotDiagonal(Defect(P, z, n, w, |P|), v, n, n);
      LossOfZero(P, n, |P|);
    }
    if Vanishes(P, n, w) {
      VanishingDefect(P, n, w, |P|);
    }
  }

  lemma {:induction false} LossOfZero(P: Table, n: nat, m: nat)
    requires Wide(P, n) && m <= |P|
    ensures Loss(P, Zeros(|P|), n, Zeros(n), m) == 0.0
  {
    if m > 0 {
      LossOfZero(P, n, m - 1);
      ZerosDot(P[m - 1], n, n);
    }
  }

  lemma {:induction false} VanishingDefect(P: Table, n: nat, w: Vec, m: nat)
    requires Wide(P, n) && |w| == n && Vanishes(P, n, w) && m <= |P|
    ensures Defect(P, Zeros(|P|), n, w, m) == Zeros(n)
  {
    if m == 0 {
      forall i | 0 <= i < n ensures Defect(P, Zeros(|P|), n, w, 0)[i] == 0.0 {
        DotDiagonal(GramRow(P, n, 0, i), w, n, n);
      }
    } else {
      VanishingDefect(P, n, w, m - 1);
      DefectGrows(P, Zeros(|P|), n, w, m);
      assert Dot(P[m - 1], w, n) == 0.0;
      hide Dot, Defect;
      assert Minus(Zeros(n), 0.0, P[m - 1]) == Zeros(n);
    }
  }

  /** The normal matrix is singular exactly when the design is degenerate. */
  lemma NormalSingular(P: Table, n: nat)
    requires Wide(P, n)
    ensures Singular(NormalMatrix(P, n), n) <==> Degenerate(P, n)
  {
    forall w: Vec | |w| == n
      ensures Solves(NormalMatrix(P, n), n, Zeros(n), w) <==> Vanishes(P, n, w)
    {
      NormalKernel(P, n, w);
    }
  }

  /** A solution of non-singular normal equations is the strict minimiser of the squared residuals. */
  lemma NormalIsBest(P: Table, t: Vec, n: nat, c: Vec)
    requires Wide(P, n) && |t| == |P| > n && |c| == n && !Degenerate(P, n)
    requires SolvedExactlyBy(NormalMatrix(P, n), n, NormalSide(P, t, n), c)
    ensures Fitted(P, t, n, c)
  {
    hide Dot;
    assert Solves(NormalMatrix(P, n), n, NormalSide(P, t, n), c);
    NormalIsNoDefect(P, t, n, c);
    forall d: Vec | |d| == n && d != c
      ensures Loss(P, t, n, c, |P|) < Loss(P, t, n, d, |P|)
    {
      var w := Minus(d, 1.0, c);
      StepTo(c, d);
      LossExpansion(P, t, n, c, w, |P|);
      DotDiagonal(Defect(P, t, n, c, |P|), w, n, n);
      var i :| 0 <= i < n && d[i] != c[i];
      assert w[i] != 0.0;
      ZeroLoss(P, Zeros(|P|), n, w, |P|);
      assert !Vanishes(P, n, w);
    }
  }

  /** A square, non-degenerate design solved exactly has no residual at all, and nothing else does. */
  lemma ExactIsBest(P: Table, t: Vec, n: nat, c: Vec)
    requires Square(P, n) && |t| == n && |c| == n
    requires SolvedExactlyBy(P, n, t, c)
    ensures Fitted(P, t, n, c)
  {
    assert Solves(P, n, t, c);
    ZeroLoss(P, t, n, c, n);
    forall d: Vec | |d| == n && d != c
      ensures Loss(P, t, n, c, n) < Loss(P, t, n, d, n)
    {
      ZeroLoss(P, t, n, d, n);
      assert !Solves(P, n, t, d);
    }
  }

  lemma SquareDegenerate(P: Table, n: nat)
    requires Square(P, n)
    ensures Singular(P, n) <==> Degenerate(P, n)
  {
  }
}

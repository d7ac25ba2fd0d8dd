/** Polynomial georeferencing of orders 1 to 3 in space (grass_crs3d.c). */
module Georef3D {
  import opened Options
  import opened Vectors
  import opened Elimination
  import opened LinearSystem
  import opened SolveMat
  import opened SolveMat3
  import opened LeastSquares
  import opened ControlPointSet
  import Georef

  const MAXORDER := 3

  class ControlPoints3D {
    var count: nat
    var e1: array<real>
    var n1: array<real>
    var z1: array<real>
    var e2: array<real>
    var n2: array<real>
    var z2: array<real>
    var status: array<int>

    ghost predicate Valid()
      reads this
    {
      && count <= e1.Length && count <= n1.Length && count <= z1.Length
      && count <= e2.Length && count <= n2.Length && count <= z2.Length && count <= status.Length
    }

    ghost function ActivePoints(): (act: seq<nat>)
      requires Valid()
      reads this, status
      ensures forall r :: 0 <= r < |act| ==> act[r] < count && status[act[r]] > 0
    {
      Active(status[..], count)
    }
  }

  /** Coefficients of one output coordinate: 4, 10 or 20. */
  function Size(order: nat): nat {
    if order == 1 then 4 else if order == 2 then 10 else 20
  }

  /** The term with the given 1-based number. */
  function Term(term: int, e: real, n: real, z: real): real {
    match term
    case 1 => 1.0
    case 2 => e
    case 3 => n
    case 4 => z
    case 5 => e * e
    case 6 => e * n
    case 7 => e * z
    case 8 => n * n
    case 9 => n * z
    case 10 => z * z
    case 11 => e * e * e
    case 12 => e * e * n
    case 13 => e * e * z
    case 14 => e * n * n
    case 15 => e * n * z
    case 16 => e * z * z
    case 17 => n * n * n
    case 18 => n * n * z
    case 19 => n * z * z
    case 20 => z * z * z
    case _ => 0.0
  }

  function TermRow(size: nat, e: real, n: real, z: real): (row: Vec)
    ensures |row| == size
  {
    seq(size, j requires 0 <= j < size => Term(j + 1, e, n, z))
  }

  ghost predicate Inside(act: seq<nat>, es: Vec, ns: Vec, zs: Vec) {
    forall r :: 0 <= r < |act| ==> act[r] < |es| && act[r] < |ns| && act[r] < |zs|
  }

  /** One row of terms per listed point. */
  function Design(size: nat, es: Vec, ns: Vec, zs: Vec, act: seq<nat>): (P: Table)
    requires Inside(act, es, ns, zs)
    ensures |P| == |act| && Wide(P, size)
  {
    seq(|act|, r requires 0 <= r < |act| => TermRow(size, es[act[r]], ns[act[r]], zs[act[r]]))
  }

  /** Order 1 part of one output coordinate, shared by all orders. */
  function Linear(e1: real, n1: real, z1: real, C: Vec): real
    requires 4 <= |C|
  {
    C[0] + C[1] * e1 + C[2] * n1 + C[3] * z1
  }

  /** What order 2 adds. */
  function Quadratic(e1: real, n1: real, z1: real, C: Vec): real
    requires 10 <= |C|
  {
    var e2 := e1 * e1;
    var en := e1 * n1;
    var ez := e1 * z1;
    var n2 := n1 * n1;
    var nz := n1 * z1;
    var z2 := z1 * z1;
    C[4] * e2 + C[5] * en + C[6] * ez + C[7] * n2 + C[8] * nz + C[9] * z2
  }

  /** What order 3 adds, coefficients 10 to 14. */
  function CubicLow(e1: real, n1: real, z1: real, C: Vec): real
    requires 20 <= |C|
  {
    var e2 := e1 * e1;
    var n2 := n1 * n1;
    var e3 := e1 * e2;
    var e2n := e2 * n1;
    var e2z := e2 * z1;
    var en2 := e1 * n2;
    var enz := e1 * n1 * z1;
    C[10] * e3 + C[11] * e2n + C[12] * e2z + C[13] * en2 + C[14] * enz
  }

  /** What order 3 adds, coefficients 15 to 19. */
  function CubicHigh(e1: real, n1: real, z1: real, C: Vec): real
    requires 20 <= |C|
  {
    var n2 := n1 * n1;
    var z2 := z1 * z1;
    var ez2 := e1 * z2;
    var n3 := n1 * n2;
    var n2z := n2 * z1;
    var nz2 := n1 * z2;
    var z3 := z1 * z2;
    C[15] * ez2 + C[16] * n3 + C[17] * n2z + C[18] * nz2 + C[19] * z3
  }

  /** One output coordinate; the source writes the same expansion out for E, N and Z. */
  function Expand(e1: real, n1: real, z1: real, C: Vec, order: nat): real
    requires 1 <= order <= MAXORDER && Size(order) <= |C|
  {
    if order == 1 then Linear(e1, n1, z1, C)
    else if order == 2 then Linear(e1, n1, z1, C) + Quadratic(e1, n1, z1, C)
    else Linear(e1, n1, z1, C) + Quadratic(e1, n1, z1, C) + CubicLow(e1, n1, z1, C) + CubicHigh(e1, n1, z1, C)
  }

  /** Transform one point; None stands for MPARMERR. */
  function Evaluate(e1: real, n1: real, z1: real, E: Vec, N: Vec, Z: Vec, order: int): Option<(real, real, real)>
    requires 1 <= order <= MAXORDER ==> Size(order) <= |E| && Size(order) <= |N| && Size(order) <= |Z|
  {
    if 1 <= order <= MAXORDER then
      Some((Expand(e1, n1, z1, E, order), Expand(e1, n1, z1, N, order), Expand(e1, n1, z1, Z, order)))
    else None
  }

  lemma DotFour(u: Vec, v: Vec)
    requires |u| >= 4 && |v| >= 4
    ensures Dot(u, v, 4) == u[0] * v[0] + u[1] * v[1] + u[2] * v[2] + u[3] * v[3]
  {
    Georef.DotThree(u, v);
  }

  lemma DotNext(u: Vec, v: Vec, k: nat)
    requires k < |u| && k < |v|
    ensures Dot(u, v, k + 1) == Dot(u, v, k) + u[k] * v[k]
  {
  }

  lemma DotFiveMore(u: Vec, v: Vec, k: nat)
    requires k + 5 <= |u| && k + 5 <= |v|
    ensures Dot(u, v, k + 5)
         == Dot(u, v, k) + u[k] * v[k] + u[k + 1] * v[k + 1] + u[k + 2] * v[k + 2]
           + u[k + 3] * v[k + 3] + u[k + 4] * v[k + 4]
  {
    DotNext(u, v, k);
    DotNext(u, v, k + 1);
    DotNext(u, v, k + 2);
    DotNext(u, v, k + 3);
    DotNext(u, v, k + 4);
  }

  /** The terms of a point, however many coefficients the order has. */
  ghost predicate Terms(row: Vec, e1: real, n1: real, z1: real) {
    |row| <= 20 && forall j :: 0 <= j < |row| ==> row[j] == Term(j + 1, e1, n1, z1)
  }

  lemma LinearIsDot(row: Vec, e1: real, n1: real, z1: real, C: Vec)
    requires Terms(row, e1, n1, z1) && |row| >= 4 && |C| >= 4
    ensures Dot(row, C, 4) == Linear(e1, n1, z1, C)
  {
    DotFour(row, C);
  }

  lemma QuadraticIsDot(row: Vec, e1: real, n1: real, z1: real, C: Vec)
    requires Terms(row, e1, n1, z1) && |row| >= 10 && |C| >= 10
    ensures Dot(row, C, 10) == Dot(row, C, 4) + Quadratic(e1, n1, z1, C)
  {
    hide Dot;
    DotFiveMore(row, C, 4);
    DotNext(row, C, 9);
    assert row[4] * C[4] == C[4] * (e1 * e1);
    assert row[5] * C[5] == C[5] * (e1 * n1);
    assert row[6] * C[6] == C[6] * (e1 * z1);
    assert row[7] * C[7] == C[7] * (n1 * n1);
    assert row[8] * C[8] == C[8] * (n1 * z1);
    assert row[9] * C[9] == C[9] * (z1 * z1);
  }

  lemma CubicLowIsDot(row: Vec, e1: real, n1: real, z1: real, C: Vec)
    requires Terms(row, e1, n1, z1) && |row| == 20 && |C| >= 20
    ensures Dot(row, C, 15) == Dot(row, C, 10) + CubicLow(e1, n1, z1, C)
  {
    hide Dot;
    DotFiveMore(row, C, 10);
    Georef.Regroup(C[10], e1, e1, e1);
    assert row[10] * C[10] == C[10] * (e1 * (e1 * e1));
    assert row[11] * C[11] == C[11] * (e1 * e1 * n1);
    assert row[12] * C[12] == C[12] * (e1 * e1 * z1);
    Georef.Regroup(C[13], e1, n1, n1);
    assert row[13] * C[13] == C[13] * (e1 * (n1 * n1));
    assert row[14] * C[14] == C[14] * (e1 * n1 * z1);
  }

  lemma CubicHighIsDot(row: Vec, e1: real, n1: real, z1: real, C: Vec)
    requires Terms(row, e1, n1, z1) && |row| == 20 && |C| >= 20
    ensures Dot(row, C, 20) == Dot(row, C, 15) + CubicHigh(e1, n1, z1, C)
  {
    hide Dot;
    DotFiveMore(row, C, 15);
    Georef.Regroup(C[15], e1, z1, z1);
    assert row[15] * C[15] == C[15] * (e1 * (z1 * z1));
    Georef.Regroup(C[16], n1, n1, n1);
    assert row[16] * C[16] == C[16] * (n1 * (n1 * n1));
    assert row[17] * C[17] == C[17] * (n1 * n1 * z1);
    Georef.Regroup(C[18], n1, z1, z1);
    assert row[18] * C[18] == C[18] * (n1 * (z1 * z1));
    Georef.Regroup(C[19], z1, z1, z1);
    assert row[19] * C[19] == C[19] * (z1 * (z1 * z1));
  }

  /** The hand-expanded evaluation pairs each coefficient with the term of the same number. */
  lemma ExpandIsDot(e1: real, n1: real, z1: real, C: Vec, order: nat)
    requires 1 <= order <= MAXORDER && Size(order) <= |C|
    ensures Expand(e1, n1, z1, C, order) == Dot(TermRow(Size(order), e1, n1, z1), C, Size(order))
  {
    hide Linear, Quadratic, CubicLow, CubicHigh, Dot, Term;
    var row := TermRow(Size(order), e1, n1, z1);
    LinearIsDot(row, e1, n1, z1, C);
    if order >= 2 {
      QuadraticIsDot(row, e1, n1, z1, C);
    }
    if order == 3 {
      CubicLowIsDot(row, e1, n1, z1, C);
      CubicHighIsDot(row, e1, n1, z1, C);
    }
  }

  /** The matrix handed to the solver: the design itself, or its normal matrix when there are points to spare. */
  ghost function SystemMatrix(P: Table, n: nat): (M: Table)
    requires Wide(P, n) && |P| >= n
    ensures Square(M, n)
  {
    if |P| == n then P else NormalMatrix(P, n)
  }

  /** The status a fit over this design has to return. */
  ghost function FitStatus3(P: Table, n: nat): Status
    requires Wide(P, n)
  {
    if |P| < n then MNPTERR
    else if PivotsHold(SystemMatrix(P, n), n, 0, GRASS_EPSILON) then MSUCCESS
    else MUNSOLVABLE
  }

  /** The design has full rank and c is its unique best fit. */
  ghost predicate Sound(P: Table, t: Vec, n: nat, c: Vec)
    requires Wide(P, n) && |t| == |P| && |c| == n
  {
    !Degenerate(P, n) && Fitted(P, t, n, c)
  }

  lemma ExactIsSound(P: Table, t: Vec, n: nat, c: Vec)
    requires Square(P, n) && |t| == n && |c| == n && !Singular(P, n) && SolvedExactlyBy(P, n, t, c)
    ensures Sound(P, t, n, c)
  {
    hide Singular, Degenerate, Fitted, SolvedExactlyBy;
    SquareDegenerate(P, n);
    ExactIsBest(P, t, n, c);
  }

  lemma NormalIsSound(P: Table, t: Vec, n: nat, c: Vec)
    requires Wide(P, n) && |t| == |P| > n && |c| == n
    requires !Singular(NormalMatrix(P, n), n) && SolvedExactlyBy(NormalMatrix(P, n), n, NormalSide(P, t, n), c)
    ensures Sound(P, t, n, c)
  {
    hide Singular, Degenerate, Fitted, SolvedExactlyBy, NormalMatrix, NormalSide;
    NormalSingular(P, n);
    NormalIsBest(P, t, n, c);
  }

  method FillRow(m: array2<real>, row: nat, e: real, n: real, z: real)
    requires row < m.Length0
    modifies m
    ensures forall k :: 0 <= k < m.Length1 ==> m[row, k] == TermRow(m.Length1, e, n, z)[k]
    ensures forall r, k :: 0 <= r < m.Length0 && r != row && 0 <= k < m.Length1 ==> m[r, k] == old(m[r, k])
  {
    hide Term;
    for j := 0 to m.Length1
      invariant forall k :: 0 <= k < j ==> m[row, k] == Term(k + 1, e, n, z)
      invariant forall r, k :: 0 <= r < m.Length0 && r != row && 0 <= k < m.Length1 ==> m[r, k] == old(m[r, k])
    {
      m[row, j] := Term(j + 1, e, n, z);
    }
  }

  /** The first k rows of m and of the column vectors are the first k design rows and targets. */
  ghost predicate Filled(m: array2<real>, a: array<real>, b: array<real>, c: array<real>,
                         P: Table, te: Vec, tn: Vec, tz: Vec, k: nat)
    requires m.Length0 == m.Length1 == a.Length == b.Length == c.Length
    requires Wide(P, m.Length0) && |te| == |tn| == |tz| == |P| && k <= |P| && k <= m.Length0
    reads m, a, b, c
  {
    var n := m.Length0;
    && (forall r, j :: 0 <= r < k && 0 <= j < n ==> m[r, j] == P[r][j])
    && (forall r :: 0 <= r < k ==> a[r] == te[r] && b[r] == tn[r] && c[r] == tz[r])
  }

  /** Populate row k from the control point behind design row k. */
  method PlacePoint(m: array2<real>, a: array<real>, b: array<real>, c: array<real>, k: nat,
                    e1: real, n1: real, z1: real, e2: real, n2: real, z2: real,
                    ghost P: Table, ghost te: Vec, ghost tn: Vec, ghost tz: Vec)
    requires m.Length0 == m.Length1 == a.Length == b.Length == c.Length && a != b && b != c && a != c
    requires Wide(P, m.Length0) && |te| == |tn| == |tz| == |P| && k < |P| && k < m.Length0
    requires Filled(m, a, b, c, P, te, tn, tz, k)
    requires P[k] == TermRow(m.Length0, e1, n1, z1) && te[k] == e2 && tn[k] == n2 && tz[k] == z2
    modifies m, a, b, c
    ensures Filled(m, a, b, c, P, te, tn, tz, k + 1)
  {
    hide TermRow;
    FillRow(m, k, e1, n1, z1);
    a[k] := e2;
    b[k] := n2;
    c[k] := z2;
  }

  /** Design and targets of a control-point set. */
  ghost predicate Describes(P: Table, te: Vec, tn: Vec, tz: Vec, cp: ControlPoints3D, size: nat)
    requires cp.Valid()
    reads cp, cp.e1, cp.n1, cp.z1, cp.e2, cp.n2, cp.z2, cp.status
  {
    var act := cp.ActivePoints();
    && P == Design(size, cp.e1[..], cp.n1[..], cp.z1[..], act)
    && te == Picked(cp.e2[..], act) && tn == Picked(cp.n2[..], act) && tz == Picked(cp.z2[..], act)
  }

  lemma DescribedAt(P: Table, te: Vec, tn: Vec, tz: Vec, cp: ControlPoints3D, size: nat, k: nat)
    requires cp.Valid() && Describes(P, te, tn, tz, cp, size) && k < cp.count && cp.status[k] > 0
    ensures |te| == |tn| == |tz| == |P| && Wide(P, size)
    ensures var r := |Active(cp.status[..], k)|;
      && r < |P| && P[r] == TermRow(size, cp.e1[k], cp.n1[k], cp.z1[k])
      && te[r] == cp.e2[k] && tn[r] == cp.n2[k] && tz[r] == cp.z2[k]
      && |Active(cp.status[..], k + 1)| == r + 1
  {
    hide TermRow;
    ActivePosition(cp.status[..], k, cp.count);
  }

  /** Populate the matrix and the column vectors, one row per active point. */
  method Populate(cp: ControlPoints3D, m: array2<real>, a: array<real>, b: array<real>, c: array<real>,
                  ghost P: Table, ghost te: Vec, ghost tn: Vec, ghost tz: Vec)
    returns (currow: nat)
    requires cp.Valid() && Describes(P, te, tn, tz, cp, m.Length0)
    requires m.Length0 == m.Length1 == a.Length == b.Length == c.Length && |P| <= m.Length0
    requires a != b && b != c && a != c && {a, b, c} !! {cp.e1, cp.n1, cp.z1, cp.e2, cp.n2, cp.z2}
    modifies m, a, b, c
    ensures Wide(P, m.Length0) && |te| == |tn| == |tz| == |P|
    ensures currow == |P| && Filled(m, a, b, c, P, te, tn, tz, |P|)
  {
    assert |te| == |tn| == |tz| == |P| == |Active(cp.status[..], cp.count)| && Wide(P, m.Length0);
    hide TermRow, Filled, Describes;
    assert Filled(m, a, b, c, P, te, tn, tz, 0) by { FilledNone(m, a, b, c, P, te, tn, tz); }
    currow := 0;
    for pntnow := 0 to cp.count
      invariant currow == |Active(cp.status[..], pntnow)| <= |P|
      invariant Filled(m, a, b, c, P, te, tn, tz, currow) && Describes(P, te, tn, tz, cp, m.Length0)
    {
      if cp.status[pntnow] > 0 {
        DescribedAt(P, te, tn, tz, cp, m.Length0, pntnow);
        PlacePoint(m, a, b, c, currow, cp.e1[pntnow], cp.n1[pntnow], cp.z1[pntnow],
          cp.e2[pntnow], cp.n2[pntnow], cp.z2[pntnow], P, te, tn, tz);
        currow := currow + 1;
      }
    }
  }

  lemma FilledNone(m: array2<real>, a: array<real>, b: array<real>, c: array<real>,
                   P: Table, te: Vec, tn: Vec, tz: Vec)
    requires m.Length0 == m.Length1 == a.Length == b.Length == c.Length
    requires Wide(P, m.Length0) && |te| == |tn| == |tz| == |P|
    ensures Filled(m, a, b, c, P, te, tn, tz, 0)
  {
  }

  /** Add the products of term i with the terms from i on to row i of the normal matrix. */
  method AddToRow(m: array2<real>, i: nat, e1: real, n1: real, z1: real)
    requires m.Length0 == m.Length1 && i < m.Length0
    modifies m
    ensures var p := TermRow(m.Length0, e1, n1, z1);
      forall j :: i <= j < m.Length0 ==> m[i, j] == old(m[i, j]) + Times(p[i], p[j])
    ensures forall r, j :: 0 <= r < m.Length0 && r != i && 0 <= j < m.Length0 ==> m[r, j] == old(m[r, j])
  {
    hide Times, Term;
    var n := m.Length0;
    ghost var p := TermRow(n, e1, n1, z1);
    for j := i to n
      invariant forall k :: i <= k < j ==> m[i, k] == old(m[i, k]) + Times(p[i], p[k])
      invariant forall k :: j <= k < n ==> m[i, k] == old(m[i, k])
      invariant forall r, k :: 0 <= r < n && r != i && 0 <= k < n ==> m[r, k] == old(m[r, k])
    {
      m[i, j] := m[i, j] + Times(Term(i + 1, e1, n1, z1), Term(j + 1, e1, n1, z1));
    }
  }

  /** Column vector a is a0 with t times each of the first i terms added. */
  ghost predicate SideAdded(a: array<real>, a0: Vec, t: real, p: Vec, i: nat)
    requires i <= a.Length == |p| == |a0|
    reads a
  {
    && (forall r :: 0 <= r < i ==> a[r] == a0[r] + Times(t, p[r]))
    && (forall r :: i <= r < a.Length ==> a[r] == a0[r])
  }

  method AddToSide(a: array<real>, i: nat, t: real, term: real, ghost a0: Vec, ghost p: Vec)
    requires i < a.Length == |p| == |a0| && term == p[i] && SideAdded(a, a0, t, p, i)
    modifies a
    ensures SideAdded(a, a0, t, p, i + 1)
  {
    hide Times;
    a[i] := a[i] + Times(t, term);
  }

  /** Add one point to the upper half of the normal matrix and to the three normal right-hand sides. */
  method AddPoint(m: array2<real>, a: array<real>, b: array<real>, c: array<real>,
                  e1: real, n1: real, z1: real, e2: real, n2: real, z2: real)
    requires m.Length0 == m.Length1 == a.Length == b.Length == c.Length && a != b && b != c && a != c
    modifies m, a, b, c
    ensures var p := TermRow(m.Length0, e1, n1, z1);
      && (forall i, j :: 0 <= i <= j < m.Length0 ==> m[i, j] == old(m[i, j]) + Times(p[i], p[j]))
      && SideAdded(a, old(a[..]), e2, p, m.Length0)
      && SideAdded(b, old(b[..]), n2, p, m.Length0)
      && SideAdded(c, old(c[..]), z2, p, m.Length0)
  {
    ghost var p, a0, b0, c0 := TermRow(m.Length0, e1, n1, z1), a[..], b[..], c[..];
    assert SideAdded(a, a0, e2, p, 0) && SideAdded(b, b0, n2, p, 0) && SideAdded(c, c0, z2, p, 0);
    hide Times, Term, SideAdded;
    for i := 0 to m.Length0
      invariant forall r, j :: 0 <= r < i && r <= j < m.Length0 ==> m[r, j] == old(m[r, j]) + Times(p[r], p[j])
      invariant forall r, j :: i <= r <= j < m.Length0 ==> m[r, j] == old(m[r, j])
      invariant SideAdded(a, a0, e2, p, i) && SideAdded(b, b0, n2, p, i) && SideAdded(c, c0, z2, p, i)
    {
      AddToRow(m, i, e1, n1, z1);
      AddToSide(a, i, e2, Term(i + 1, e1, n1, z1), a0, p);
      AddToSide(b, i, n2, Term(i + 1, e1, n1, z1), b0, p);
      AddToSide(c, i, z2, Term(i + 1, e1, n1, z1), c0, p);
    }
  }

  /** m (upper half), a, b and c hold the normal equations of the first k design rows. */
  ghost predicate Summed(m: array2<real>, a: array<real>, b: array<real>, c: array<real>,
                         P: Table, te: Vec, tn: Vec, tz: Vec, k: nat)
    requires m.Length0 == m.Length1 == a.Length == b.Length == c.Length
    requires Wide(P, m.Length0) && |te| == |tn| == |tz| == |P| && k <= |P|
    reads m, a, b, c
  {
    var n := m.Length0;
    && (forall i, j :: 0 <= i <= j < n ==> m[i, j] == Gram(P, n, k, i, j))
    && (forall i :: 0 <= i < n ==> a[i] == Moment(P, te, n, k, i))
    && (forall i :: 0 <= i < n ==> b[i] == Moment(P, tn, n, k, i))
    && (forall i :: 0 <= i < n ==> c[i] == Moment(P, tz, n, k, i))
  }

  /** Zero the upper half of the matrix and the column vectors. */
  method Initialise(m: array2<real>, a: array<real>, b: array<real>, c: array<real>,
                    ghost P: Table, ghost te: Vec, ghost tn: Vec, ghost tz: Vec)
    requires m.Length0 == m.Length1 == a.Length == b.Length == c.Length && a != b && b != c && a != c
    requires Wide(P, m.Length0) && |te| == |tn| == |tz| == |P|
    modifies m, a, b, c
    ensures Summed(m, a, b, c, P, te, tn, tz, 0)
  {
    var n := m.Length0;
    for i := 0 to n
      invariant forall r, j :: 0 <= r < i && r <= j < n ==> m[r, j] == 0.0
      invariant forall r :: 0 <= r < i ==> a[r] == 0.0
      invariant forall r :: 0 <= r < i ==> b[r] == 0.0
      invariant forall r :: 0 <= r < i ==> c[r] == 0.0
    {
      for j := i to n
        modifies m
        invariant forall r, k :: 0 <= r < i && r <= k < n ==> m[r, k] == 0.0
        invariant forall k :: i <= k < j ==> m[i, k] == 0.0
      {
        m[i, j] := 0.0;
      }
      a[i] := 0.0;
      b[i] := 0.0;
      c[i] := 0.0;
    }
  }

  /** Add the control point behind design row k to the normal equations. */
  method SumPoint(m: array2<real>, a: array<real>, b: array<real>, c: array<real>, k: nat,
                  e1: real, n1: real, z1: real, e2: real, n2: real, z2: real,
                  ghost P: Table, ghost te: Vec, ghost tn: Vec, ghost tz: Vec)
    requires m.Length0 == m.Length1 == a.Length == b.Length == c.Length && a != b && b != c && a != c
    requires Wide(P, m.Length0) && |te| == |tn| == |tz| == |P| && k < |P|
    requires Summed(m, a, b, c, P, te, tn, tz, k)
    requires P[k] == TermRow(m.Length0, e1, n1, z1) && te[k] == e2 && tn[k] == n2 && tz[k] == z2
    modifies m, a, b, c
    ensures Summed(m, a, b, c, P, te, tn, tz, k + 1)
  {
    hide TermRow, Times;
    AddPoint(m, a, b, c, e1, n1, z1, e2, n2, z2);
  }

  /** Sum the normal equations over the active points. */
  method Accumulate(cp: ControlPoints3D, m: array2<real>, a: array<real>, b: array<real>, c: array<real>,
                    ghost P: Table, ghost te: Vec, ghost tn: Vec, ghost tz: Vec)
    returns (numactive: nat)
    requires cp.Valid() && Describes(P, te, tn, tz, cp, m.Length0)
    requires m.Length0 == m.Length1 == a.Length == b.Length == c.Length
    requires a != b && b != c && a != c && {a, b, c} !! {cp.e1, cp.n1, cp.z1, cp.e2, cp.n2, cp.z2}
    requires Wide(P, m.Length0) && |te| == |tn| == |tz| == |P| && Summed(m, a, b, c, P, te, tn, tz, 0)
    modifies m, a, b, c
    ensures numactive == |P| && Summed(m, a, b, c, P, te, tn, tz, |P|)
  {
    ghost var act := cp.ActivePoints();
    numactive := SumAll(cp.e1, cp.n1, cp.z1, cp.e2, cp.n2, cp.z2, cp.status, cp.count, m, a, b, c, act, P, te, tn, tz);
  }

  /** The loop over the points. */
  method SumAll(e1: array<real>, n1: array<real>, z1: array<real>, e2: array<real>, n2: array<real>, z2: array<real>,
                status: array<int>, count: nat, m: array2<real>, a: array<real>, b: array<real>, c: array<real>,
                ghost act: seq<nat>, ghost P: Table, ghost te: Vec, ghost tn: Vec, ghost tz: Vec)
    returns (numactive: nat)
    requires count <= e1.Length && count <= n1.Length && count <= z1.Length
    requires count <= e2.Length && count <= n2.Length && count <= z2.Length && count <= status.Length
    requires act == Active(status[..], count) && m.Length0 == m.Length1 == a.Length == b.Length == c.Length
    requires P == Design(m.Length0, e1[..], n1[..], z1[..], act)
    requires te == Picked(e2[..], act) && tn == Picked(n2[..], act) && tz == Picked(z2[..], act)
    requires a != b && b != c && a != c && {a, b, c} !! {e1, n1, z1, e2, n2, z2}
    requires Summed(m, a, b, c, P, te, tn, tz, 0)
    modifies m, a, b, c
    ensures numactive == |act| && Summed(m, a, b, c, P, te, tn, tz, |P|)
  {
    hide TermRow, Summed, Active;
    numactive := 0;
    for n := 0 to count
      invariant numactive == |Active(status[..], n)| <= |act| && Summed(m, a, b, c, P, te, tn, tz, numactive)
    {
      if status[n] > 0 {
        ActivePosition(status[..], n, count);
        SumPoint(m, a, b, c, numactive, e1[n], n1[n], z1[n], e2[n], n2[n], z2[n], P, te, tn, tz);
        numactive := numactive + 1;
      } else {
        ActiveSkips(status[..], n);
      }
    }
  }

  /** The three coefficient vectors fit the design soundly. */
  ghost predicate AllSound(P: Table, te: Vec, tn: Vec, tz: Vec, n: nat, E: Vec, N: Vec, Z: Vec)
    requires Wide(P, n) && |te| == |tn| == |tz| == |P| && |E| == |N| == |Z| == n
  {
    Sound(P, te, n, E) && Sound(P, tn, n, N) && Sound(P, tz, n, Z)
  }

  lemma ExactAllSound(P: Table, te: Vec, tn: Vec, tz: Vec, n: nat, E: Vec, N: Vec, Z: Vec)
    requires Square(P, n) && |te| == |tn| == |tz| == n && |E| == |N| == |Z| == n
    requires SolvedThree(P, n, [te, tn, tz], E, N, Z)
    ensures AllSound(P, te, tn, tz, n, E, N, Z)
  {
    hide Sound, Singular, SolvedExactlyBy;
    ExactIsSound(P, te, n, E);
    ExactIsSound(P, tn, n, N);
    ExactIsSound(P, tz, n, Z);
  }

  lemma NormalAllSound(P: Table, te: Vec, tn: Vec, tz: Vec, n: nat, E: Vec, N: Vec, Z: Vec)
    requires Wide(P, n) && |te| == |tn| == |tz| == |P| > n && |E| == |N| == |Z| == n
    requires
      var sides := [NormalSide(P, te, n), NormalSide(P, tn, n), NormalSide(P, tz, n)];
      SolvedThree(NormalMatrix(P, n), n, sides, E, N, Z)
    ensures AllSound(P, te, tn, tz, n, E, N, Z)
  {
    hide Sound, Singular, SolvedExactlyBy, NormalMatrix, NormalSide;
    NormalIsSound(P, te, n, E);
    NormalIsSound(P, tn, n, N);
    NormalIsSound(P, tz, n, Z);
  }

  /** The coordinate arrays, work arrays and coefficient vectors are all separate. */
  ghost predicate Separate(a: array<real>, b: array<real>, c: array<real>,
                           E: array<real>, N: array<real>, Z: array<real>, cp: ControlPoints3D)
    reads cp
  {
    && a != b && b != c && a != c && E != N && N != Z && E != Z && {a, b, c} !! {E, N, Z}
    && {a, b, c, E, N, Z} !! {cp.e1, cp.n1, cp.z1, cp.e2, cp.n2, cp.z2}
  }

  /** Exactly as many active points as terms: solve for them directly. */
  method ExactDet(cp: ControlPoints3D, m: array2<real>, a: array<real>, b: array<real>, c: array<real>,
                  E: array<real>, N: array<real>, Z: array<real>,
                  ghost P: Table, ghost te: Vec, ghost tn: Vec, ghost tz: Vec)
    returns (result: Status)
    requires cp.Valid() && Describes(P, te, tn, tz, cp, m.Length0)
    requires m.Length0 == m.Length1 == a.Length == b.Length == c.Length && |P| <= m.Length0
    requires m.Length0 <= E.Length && m.Length0 <= N.Length && m.Length0 <= Z.Length
    requires Separate(a, b, c, E, N, Z, cp) && Wide(P, m.Length0) && |te| == |tn| == |tz| == |P|
    modifies m, a, b, c, E, N, Z
    ensures result == if |P| < m.Length0 then MINTERR else FitStatus3(P, m.Length0)
    ensures result == MSUCCESS ==>
      AllSound(P, te, tn, tz, m.Length0, E[..m.Length0], N[..m.Length0], Z[..m.Length0])
    ensures result != MSUCCESS ==> E[..] == old(E[..]) && N[..] == old(N[..]) && Z[..] == old(Z[..])
  {
    hide PivotsHold, SolvedThree, AllSound, Describes;
    var n := m.Length0;
    var currow := Populate(cp, m, a, b, c, P, te, tn, tz);
    if currow != n {
      return MINTERR;
    }
    RowsAre(m, P);
    assert a[..] == te && b[..] == tn && c[..] == tz;
    result := SolveMatThree(m, a, b, c, E, N, Z);
    if result == MSUCCESS {
      ExactAllSound(P, te, tn, tz, n, E[..n], N[..n], Z[..n]);
    }
  }

  /** More active points than terms: least squares. */
  method CalcLs(cp: ControlPoints3D, m: array2<real>, a: array<real>, b: array<real>, c: array<real>,
                E: array<real>, N: array<real>, Z: array<real>,
                ghost P: Table, ghost te: Vec, ghost tn: Vec, ghost tz: Vec)
    returns (result: Status)
    requires cp.Valid() && Describes(P, te, tn, tz, cp, m.Length0)
    requires m.Length0 == m.Length1 == a.Length == b.Length == c.Length
    requires m.Length0 <= E.Length && m.Length0 <= N.Length && m.Length0 <= Z.Length
    requires Separate(a, b, c, E, N, Z, cp) && Wide(P, m.Length0) && |te| == |tn| == |tz| == |P|
    modifies m, a, b, c, E, N, Z
    ensures result == if |P| <= m.Length0 then MINTERR else FitStatus3(P, m.Length0)
    ensures result == MSUCCESS ==>
      AllSound(P, te, tn, tz, m.Length0, E[..m.Length0], N[..m.Length0], Z[..m.Length0])
    ensures result != MSUCCESS ==> E[..] == old(E[..]) && N[..] == old(N[..]) && Z[..] == old(Z[..])
  {
    hide PivotsHold, SolvedThree, AllSound, Describes;
    var n := m.Length0;
    Initialise(m, a, b, c, P, te, tn, tz);
    var numactive := Accumulate(cp, m, a, b, c, P, te, tn, tz);
    if numactive <= n {
      return MINTERR;
    }
    Georef.Mirror(m);
    Georef.MirroredIsNormal(m, P);
    assert a[..] == NormalSide(P, te, n) && b[..] == NormalSide(P, tn, n) && c[..] == NormalSide(P, tz, n);
    result := SolveMatThree(m, a, b, c, E, N, Z);
    if result == MSUCCESS {
      NormalAllSound(P, te, tn, tz, n, E[..n], N[..n], Z[..n]);
    }
  }

  /** E, N and Z are the fitted coefficients from the first point set of cp to the second. */
  ghost predicate Maps(cp: ControlPoints3D, n: nat, E: Vec, N: Vec, Z: Vec)
    requires cp.Valid() && |E| == |N| == |Z| == n
    reads cp, cp.e1, cp.n1, cp.z1, cp.e2, cp.n2, cp.z2, cp.status
  {
    var act := cp.ActivePoints();
    AllSound(Design(n, cp.e1[..], cp.n1[..], cp.z1[..], act),
      Picked(cp.e2[..], act), Picked(cp.n2[..], act), Picked(cp.z2[..], act), n, E, N, Z)
  }

  ghost function ForwardStatus(cp: ControlPoints3D, n: nat): Status
    requires cp.Valid()
    reads cp, cp.e1, cp.n1, cp.z1, cp.status
  {
    FitStatus3(Design(n, cp.e1[..], cp.n1[..], cp.z1[..], cp.ActivePoints()), n)
  }

  /** The three vectors have room for the coefficients of the order, if it is one. */
  predicate Roomy(order: int, E: array<real>, N: array<real>, Z: array<real>) {
    1 <= order <= MAXORDER ==> Size(order) <= E.Length && Size(order) <= N.Length && Size(order) <= Z.Length
  }

  /** Allocate the system for n terms and fit it, exactly or by least squares. */
  method FitSized(cp: ControlPoints3D, E: array<real>, N: array<real>, Z: array<real>, n: nat, numactive: nat)
    returns (result: Status)
    requires cp.Valid() && numactive == |cp.ActivePoints()| >= n
    requires n <= E.Length && n <= N.Length && n <= Z.Length
    requires E != N && N != Z && E != Z && {E, N, Z} !! {cp.e1, cp.n1, cp.z1, cp.e2, cp.n2, cp.z2}
    modifies E, N, Z
    ensures result == ForwardStatus(cp, n)
    ensures result == MSUCCESS ==> Maps(cp, n, E[..n], N[..n], Z[..n])
    ensures result != MSUCCESS ==> E[..] == old(E[..]) && N[..] == old(N[..]) && Z[..] == old(Z[..])
  {
    hide FitStatus3, AllSound;
    var m := new real[n, n]((i, j) => 0.0);
    var a := new real[n](i => 0.0);
    var b := new real[n](i => 0.0);
    var c := new real[n](i => 0.0);
    ghost var act := cp.ActivePoints();
    ghost var P := Design(n, cp.e1[..], cp.n1[..], cp.z1[..], act);
    ghost var te, tn, tz := Picked(cp.e2[..], act), Picked(cp.n2[..], act), Picked(cp.z2[..], act);
    if numactive == n {
      result := ExactDet(cp, m, a, b, c, E, N, Z, P, te, tn, tz);
    } else {
      result := CalcLs(cp, m, a, b, c, E, N, Z, P, te, tn, tz);
    }
  }

  /** Coefficients of the given order that take (e1, n1, z1) to (e2, n2, z2). */
  method CalcCoef(cp: ControlPoints3D, E: array<real>, N: array<real>, Z: array<real>, order: nat)
    returns (result: Status)
    requires cp.Valid() && 1 <= order <= MAXORDER
    requires Size(order) <= E.Length && Size(order) <= N.Length && Size(order) <= Z.Length
    requires E != N && N != Z && E != Z && {E, N, Z} !! {cp.e1, cp.n1, cp.z1, cp.e2, cp.n2, cp.z2}
    modifies E, N, Z
    ensures result == ForwardStatus(cp, Size(order))
    ensures result == MSUCCESS ==> Maps(cp, Size(order), E[..Size(order)], N[..Size(order)], Z[..Size(order)])
    ensures result != MSUCCESS ==> E[..] == old(E[..]) && N[..] == old(N[..]) && Z[..] == old(Z[..])
  {
    hide PivotsHold, AllSound;
    var numactive := CountActive(cp.status, cp.count);
    var n := numactive + 1;
    if order == 1 {
      n := 4;
    } else if order == 2 {
      n := 10;
    } else if order == 3 {
      n := 20;
    }
    if numactive < n {
      return MNPTERR;
    }
    result := FitSized(cp, E, N, Z, n, numactive);
  }

  /** Exchange the 1 and 2 easting, northing and height arrays. */
  method SwitchArrays(cp: ControlPoints3D)
    modifies cp`e1, cp`n1, cp`z1, cp`e2, cp`n2, cp`z2
    ensures cp.e1 == old(cp.e2) && cp.n1 == old(cp.n2) && cp.z1 == old(cp.z2)
    ensures cp.e2 == old(cp.e1) && cp.n2 == old(cp.n1) && cp.z2 == old(cp.z1)
  {
    var tempptr := cp.e1;
    cp.e1 := cp.e2;
    cp.e2 := tempptr;
    tempptr := cp.n1;
    cp.n1 := cp.n2;
    cp.n2 := tempptr;
    tempptr := cp.z1;
    cp.z1 := cp.z2;
    cp.z2 := tempptr;
  }

  /** The status of fitting the second point set back to the first. */
  ghost function BackwardStatus(cp: ControlPoints3D, n: nat): Status
    requires cp.Valid()
    reads cp, cp.e2, cp.n2, cp.z2, cp.status
  {
    FitStatus3(Design(n, cp.e2[..], cp.n2[..], cp.z2[..], cp.ActivePoints()), n)
  }

  /** The forward status or, when that is success, the backward one. */
  ghost function BothStatus(cp: ControlPoints3D, n: nat): Status
    requires cp.Valid()
    reads cp, cp.e1, cp.n1, cp.z1, cp.e2, cp.n2, cp.z2, cp.status
  {
    if ForwardStatus(cp, n) == MSUCCESS then BackwardStatus(cp, n) else ForwardStatus(cp, n)
  }

  ghost predicate MapsBack(cp: ControlPoints3D, n: nat, E: Vec, N: Vec, Z: Vec)
    requires cp.Valid() && |E| == |N| == |Z| == n
    reads cp, cp.e1, cp.n1, cp.z1, cp.e2, cp.n2, cp.z2, cp.status
  {
    var act := cp.ActivePoints();
    AllSound(Design(n, cp.e2[..], cp.n2[..], cp.z2[..], act),
      Picked(cp.e1[..], act), Picked(cp.n1[..], act), Picked(cp.z1[..], act), n, E, N, Z)
  }

  /** Forward and backward coefficients; the exchanged coordinate arrays are back in place on every exit. */
  method ComputeGeorefEquations3D(cp: ControlPoints3D, E12: array<real>, N12: array<real>, Z12: array<real>,
                                  E21: array<real>, N21: array<real>, Z21: array<real>, order: int)
    returns (result: Status)
    requires cp.Valid()
    requires Roomy(order, E12, N12, Z12) && Roomy(order, E21, N21, Z21)
    requires E12 != N12 && N12 != Z12 && E12 != Z12 && E21 != N21 && N21 != Z21 && E21 != Z21
    requires {E12, N12, Z12} !! {E21, N21, Z21}
    requires {E12, N12, Z12, E21, N21, Z21} !! {cp.e1, cp.n1, cp.z1, cp.e2, cp.n2, cp.z2}
    modifies cp`e1, cp`n1, cp`z1, cp`e2, cp`n2, cp`z2, E12, N12, Z12, E21, N21, Z21
    ensures cp.e1 == old(cp.e1) && cp.n1 == old(cp.n1) && cp.z1 == old(cp.z1)
    ensures cp.e2 == old(cp.e2) && cp.n2 == old(cp.n2) && cp.z2 == old(cp.z2)
    ensures !(1 <= order <= MAXORDER) ==> result == MPARMERR
    ensures 1 <= order <= MAXORDER ==> result == BothStatus(cp, Size(order))
    ensures 1 <= order <= MAXORDER && ForwardStatus(cp, Size(order)) == MSUCCESS ==>
      Maps(cp, Size(order), E12[..Size(order)], N12[..Size(order)], Z12[..Size(order)])
    ensures result == MSUCCESS ==>
      MapsBack(cp, Size(order), E21[..Size(order)], N21[..Size(order)], Z21[..Size(order)])
  {
    hide AllSound, FitStatus3, Design, Picked, Size;
    if order < 1 || order > MAXORDER {
      return MPARMERR;
    }
    result := CalcCoef(cp, E12, N12, Z12, order);
    if result != MSUCCESS {
      return result;
    }
    result := FitBack(cp, E21, N21, Z21, order);
  }

  /** The fit in the other direction, between two exchanges of the arrays. */
  method FitBack(cp: ControlPoints3D, E: array<real>, N: array<real>, Z: array<real>, order: nat)
    returns (result: Status)
    requires cp.Valid() && 1 <= order <= MAXORDER
    requires Size(order) <= E.Length && Size(order) <= N.Length && Size(order) <= Z.Length
    requires E != N && N != Z && E != Z && {E, N, Z} !! {cp.e1, cp.n1, cp.z1, cp.e2, cp.n2, cp.z2}
    modifies cp`e1, cp`n1, cp`z1, cp`e2, cp`n2, cp`z2, E, N, Z
    ensures cp.e1 == old(cp.e1) && cp.n1 == old(cp.n1) && cp.z1 == old(cp.z1)
    ensures cp.e2 == old(cp.e2) && cp.n2 == old(cp.n2) && cp.z2 == old(cp.z2)
    ensures result == BackwardStatus(cp, Size(order))
    ensures result == MSUCCESS ==> MapsBack(cp, Size(order), E[..Size(order)], N[..Size(order)], Z[..Size(order)])
  {
    hide AllSound, FitStatus3, Design, Picked, Size;
    SwitchArrays(cp);
    result := CalcCoef(cp, E, N, Z, order);
    SwitchArrays(cp);
  }

  /** With exactly the minimum number of active points, each of them is sent exactly to its target. */
  lemma FitInterpolates(cp: ControlPoints3D, order: nat, E: Vec, N: Vec, Z: Vec, k: nat)
    requires cp.Valid() && 1 <= order <= MAXORDER && |E| == |N| == |Z| == Size(order) == |cp.ActivePoints()|
    requires Maps(cp, Size(order), E, N, Z) && k < cp.count && cp.status[k] > 0
    ensures Evaluate(cp.e1[k], cp.n1[k], cp.z1[k], E, N, Z, order) == Some((cp.e2[k], cp.n2[k], cp.z2[k]))
  {
    hide Expand, TermRow, Degenerate, BestFit;
    var n, act := Size(order), cp.ActivePoints();
    var P := Design(n, cp.e1[..], cp.n1[..], cp.z1[..], act);
    var r := ActiveListed(cp.status[..], k, cp.count);
    ExpandIsDot(cp.e1[k], cp.n1[k], cp.z1[k], E, order);
    ExpandIsDot(cp.e1[k], cp.n1[k], cp.z1[k], N, order);
    ExpandIsDot(cp.e1[k], cp.n1[k], cp.z1[k], Z, order);
    assert Dot(P[r], E, n) == cp.e2[k] && Dot(P[r], N, n) == cp.n2[k] && Dot(P[r], Z, n) == cp.z2[k];
  }

  /** The backward coefficients send each target exactly to its source. */
  lemma FitInterpolatesBack(cp: ControlPoints3D, order: nat, E: Vec, N: Vec, Z: Vec, k: nat)
    requires cp.Valid() && 1 <= order <= MAXORDER && |E| == |N| == |Z| == Size(order) == |cp.ActivePoints()|
    requires MapsBack(cp, Size(order), E, N, Z) && k < cp.count && cp.status[k] > 0
    ensures Evaluate(cp.e2[k], cp.n2[k], cp.z2[k], E, N, Z, order) == Some((cp.e1[k], cp.n1[k], cp.z1[k]))
  {
    hide Expand, TermRow, Degenerate, BestFit;
    var n, act := Size(order), cp.ActivePoints();
    var P := Design(n, cp.e2[..], cp.n2[..], cp.z2[..], act);
    var r := ActiveListed(cp.status[..], k, cp.count);
    ExpandIsDot(cp.e2[k], cp.n2[k], cp.z2[k], E, order);
    ExpandIsDot(cp.e2[k], cp.n2[k], cp.z2[k], N, order);
    ExpandIsDot(cp.e2[k], cp.n2[k], cp.z2[k], Z, order);
    assert Dot(P[r], E, n) == cp.e1[k] && Dot(P[r], N, n) == cp.n1[k] && Dot(P[r], Z, n) == cp.z1[k];
  }

  /** Distances of the transformed active points from one target coordinate. */
  function Errors(order: nat, act: seq<nat>, es: Vec, ns: Vec, zs: Vec, target: Vec, C: Vec): (v: Vec)
    requires 1 <= order <= MAXORDER && Size(order) <= |C| && Inside(act, es, ns, zs)
    requires forall r :: 0 <= r < |act| ==> act[r] < |target|
    ensures |v| == |act|
  {
    seq(|act|, r requires 0 <= r < |act| => Expand(es[act[r]], ns[act[r]], zs[act[r]], C, order) - target[act[r]])
  }

  lemma {:induction false} ErrorsAreResiduals(
    order: nat, act: seq<nat>, es: Vec, ns: Vec, zs: Vec, target: Vec, C: Vec, m: nat)
    requires 1 <= order <= MAXORDER && |C| == Size(order) && m <= |act| && Inside(act, es, ns, zs)
    requires forall r :: 0 <= r < |act| ==> act[r] < |target|
    ensures Georef.SumOfSquares(Errors(order, act, es, ns, zs, target, C), m)
         == Loss(Design(Size(order), es, ns, zs, act), Picked(target, act), Size(order), C, m)
  {
    hide Expand, TermRow, Dot, Sqr;
    if m > 0 {
      ErrorsAreResiduals(order, act, es, ns, zs, target, C, m - 1);
      ExpandIsDot(es[act[m - 1]], ns[act[m - 1]], zs[act[m - 1]], C, order);
    }
  }

  /** Least squares: any other coefficients of a coordinate evaluate to a larger sum of squared errors. */
  lemma FitIsOptimal(order: nat, act: seq<nat>, es: Vec, ns: Vec, zs: Vec, target: Vec, E: Vec, C: Vec)
    requires 1 <= order <= MAXORDER && |E| == |C| == Size(order) && C != E && Inside(act, es, ns, zs)
    requires forall r :: 0 <= r < |act| ==> act[r] < |target|
    requires Sound(Design(Size(order), es, ns, zs, act), Picked(target, act), Size(order), E)
    ensures Georef.SumOfSquares(Errors(order, act, es, ns, zs, target, E), |act|)
          < Georef.SumOfSquares(Errors(order, act, es, ns, zs, target, C), |act|)
  {
    hide Expand, Loss, Georef.SumOfSquares, Degenerate;
    ErrorsAreResiduals(order, act, es, ns, zs, target, E, |act|);
    ErrorsAreResiduals(order, act, es, ns, zs, target, C, |act|);
  }

  /** Elimination of a singular matrix always meets a pivot below the threshold. */
  lemma SingularStops(A: Table, n: nat, i: nat)
    requires |A| == n && Wide(A, n) && i <= n && Reduced(A, n, i) && PivotsHold(A, n, i, GRASS_EPSILON)
    ensures !Singular(A, n)
    decreases n - i
  {
    hide PivotsHold, PivotRow, PassResult, Reduced, SameNull, Singular;
    if i == n {
      ReducedRegular(A, n);
    } else {
      NextPass(A, n, i, GRASS_EPSILON);
      var B := PassResult(A, n, i);
      SingularStops(B, n, i + 1);
      SameNullSingular(A, B, n);
    }
  }

  /** A pass whose pivot holds. */
  lemma NextPass(A: Table, n: nat, i: nat, eps: real)
    requires |A| == n && Wide(A, n) && i < n && Reduced(A, n, i) && eps > 0.0 && PivotsHold(A, n, i, eps)
    ensures A[PivotRow(A, n, i, n)][i] != 0.0
    ensures var B := PassResult(A, n, i);
      Reduced(B, n, i + 1) && SameNull(A, B, n) && PivotsHold(B, n, i + 1, eps)
  {
    PivotsStep(A, n, i, eps);
    var k := PivotRow(A, n, i, n);
    assert A[k][i] != 0.0;
    hide PivotsHold, PivotRow, PassResult, Reduced, SameNull, Exchange, ClearColumn, Abs;
    PassInvariant(A, n, i, k);
    PassResultIs(A, n, i, k);
  }

  lemma ReducedRegular(A: Table, n: nat)
    requires |A| == n && Wide(A, n) && Reduced(A, n, n)
    ensures !Singular(A, n)
  {
    hide Reduced, Dot;
    forall x: Vec | |x| == n && Solves(A, n, Zeros(n), x) ensures !NonZero(x) {
      assert x == x + Zeros(0);
      ReducedKernel(A, n, 0, x);
    }
  }

  lemma SameNullSingular(A: Table, B: Table, n: nat)
    requires Square(A, n) && Square(B, n) && SameNull(A, B, n)
    ensures Singular(A, n) == Singular(B, n)
  {
    forall x: Vec | |x| == n
      ensures Solves(A, n, Zeros(n), x) <==> Solves(B, n, Zeros(n), x)
    {
      assert Null(A, x) <==> Null(B, x);
      assert Null(A, x) <==> Solves(A, n, Zeros(n), x);
      assert Null(B, x) <==> Solves(B, n, Zeros(n), x);
    }
  }

  /** Points on which a non-zero polynomial of the order vanishes are always refused. */
  lemma DegenerateRefused(P: Table, n: nat)
    requires Wide(P, n) && |P| >= n && Degenerate(P, n)
    ensures FitStatus3(P, n) == MUNSOLVABLE
  {
    var M := SystemMatrix(P, n);
    if |P| == n {
      SquareDegenerate(P, n);
    } else {
      NormalSingular(P, n);
    }
    if PivotsHold(M, n, 0, GRASS_EPSILON) {
      SingularStops(M, n, 0);
    }
  }
}

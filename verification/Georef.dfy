/** Polynomial georeferencing of orders 1 to 3 in the plane (grass_georef.c). */
module Georef {
  import opened Options
  import opened Vectors
  import opened LinearSystem
  import opened SolveMat
  import opened LeastSquares
  import opened ControlPointSet

  const MAXORDER := 3

  class ControlPoints {
    var count: nat
    var e1: array<real>
    var n1: array<real>
    var e2: array<real>
    var n2: array<real>
    var status: array<int>

    ghost predicate Valid()
      reads this
    {
      && count <= e1.Length && count <= n1.Length && count <= e2.Length && count <= n2.Length
      && count <= status.Length
    }

    ghost function ActivePoints(): (act: seq<nat>)
      requires Valid()
      reads this, status
      ensures forall r :: 0 <= r < |act| ==> act[r] < count && status[act[r]] > 0
    {
      Active(status[..], count)
    }
  }

  function Size(order: nat): nat {
    ((order + 1) * (order + 2)) / 2
  }

  /** The term with the given 1-based number: 1, e, n, e2, en, n2, e3, e2n, en2, n3. */
  function Term(term: int, e: real, n: real): real {
    match term
    case 1 => 1.0
    case 2 => e
    case 3 => n
    case 4 => e * e
    case 5 => e * n
    case 6 => n * n
    case 7 => e * e * e
    case 8 => e * e * n
    case 9 => e * n * n
    case 10 => n * n * n
    case _ => 0.0
  }

  function TermRow(size: nat, e: real, n: real): (row: Vec)
    ensures |row| == size
  {
    seq(size, j requires 0 <= j < size => Term(j + 1, e, n))
  }

  /** One row of terms per listed point. */
  function Design(size: nat, es: Vec, ns: Vec, act: seq<nat>): (P: Table)
    requires forall r :: 0 <= r < |act| ==> act[r] < |es| && act[r] < |ns|
    ensures |P| == |act| && Wide(P, size)
  {
    seq(|act|, r requires 0 <= r < |act| => TermRow(size, es[act[r]], ns[act[r]]))
  }

  /** One output coordinate; the source writes the same expansion out for E and for N. */
  function Expand(e1: real, n1: real, C: Vec, order: nat): real
    requires 1 <= order <= MAXORDER && Size(order) <= |C|
  {
    if order == 1 then
      C[0] + C[1] * e1 + C[2] * n1
    else if order == 2 then
      var e2 := e1 * e1;
      var n2 := n1 * n1;
      var en := e1 * n1;
      C[0] + C[1] * e1 + C[2] * n1 + C[3] * e2 + C[4] * en + C[5] * n2
    else
      var e2 := e1 * e1;
      var en := e1 * n1;
      var n2 := n1 * n1;
      var e3 := e1 * e2;
      var e2n := e2 * n1;
      var en2 := e1 * n2;
      var n3 := n1 * n2;
      C[0] +
      C[1] * e1 + C[2] * n1 +
      C[3] * e2 + C[4] * en + C[5] * n2 +
      C[6] * e3 + C[7] * e2n + C[8] * en2 + C[9] * n3
  }

  /** Transform one coordinate pair; None stands for MPARMERR. */
  function Evaluate(e1: real, n1: real, E: Vec, N: Vec, order: int): Option<(real, real)>
    requires 1 <= order <= MAXORDER ==> Size(order) <= |E| && Size(order) <= |N|
  {
    if 1 <= order <= MAXORDER then Some((Expand(e1, n1, E, order), Expand(e1, n1, N, order))) else None
  }

  lemma DotThree(u: Vec, v: Vec)
    requires |u| >= 3 && |v| >= 3
    ensures Dot(u, v, 3) == u[0] * v[0] + u[1] * v[1] + u[2] * v[2]
  {
    assert Dot(u, v, 0) == 0.0;
    assert Dot(u, v, 1) == u[0] * v[0];
    assert Dot(u, v, 2) == Dot(u, v, 1) + u[1] * v[1];
  }

  lemma DotSix(u: Vec, v: Vec)
    requires |u| >= 6 && |v| >= 6
    ensures Dot(u, v, 6) == Dot(u, v, 3) + u[3] * v[3] + u[4] * v[4] + u[5] * v[5]
  {
    assert Dot(u, v, 4) == Dot(u, v, 3) + u[3] * v[3];
    assert Dot(u, v, 5) == Dot(u, v, 4) + u[4] * v[4];
  }

  lemma DotTen(u: Vec, v: Vec)
    requires |u| >= 10 && |v| >= 10
    ensures Dot(u, v, 10) == Dot(u, v, 6) + u[6] * v[6] + u[7] * v[7] + u[8] * v[8] + u[9] * v[9]
  {
    assert Dot(u, v, 7) == Dot(u, v, 6) + u[6] * v[6];
    assert Dot(u, v, 8) == Dot(u, v, 7) + u[7] * v[7];
    assert Dot(u, v, 9) == Dot(u, v, 8) + u[8] * v[8];
  }

  lemma Regroup(c: real, x: real, y: real, z: real)
    ensures c * (x * (y * z)) == x * y * z * c
  {
  }

  lemma ExpandLinear(e1: real, n1: real, C: Vec)
    requires |C| >= 3
    ensures Expand(e1, n1, C, 1) == Dot(TermRow(3, e1, n1), C, 3)
  {
    DotThree(TermRow(3, e1, n1), C);
  }

  /** The terms numbered 1 to 10. */
  lemma RowTerms(size: nat, e1: real, n1: real)
    requires 6 <= size
    ensures var row := TermRow(size, e1, n1);
      && row[0] == 1.0 && row[1] == e1 && row[2] == n1
      && row[3] == e1 * e1 && row[4] == e1 * n1 && row[5] == n1 * n1
      && (size >= 10 ==>
        row[6] == e1 * e1 * e1 && row[7] == e1 * e1 * n1 && row[8] == e1 * n1 * n1 && row[9] == n1 * n1 * n1)
  {
  }

  lemma Swap(c: real, x: real)
    ensures c * x == x * c
  {
  }

  lemma SwapProduct(c: real, x: real, y: real)
    ensures c * (x * y) == x * y * c
  {
  }

  lemma ExpandQuadratic(e1: real, n1: real, C: Vec)
    requires |C| >= 6
    ensures Expand(e1, n1, C, 2) == Dot(TermRow(6, e1, n1), C, 6)
  {
    var row := TermRow(6, e1, n1);
    RowTerms(6, e1, n1);
    hide Dot, TermRow;
    DotThree(row, C);
    DotSix(row, C);
    Swap(C[1], e1);
    Swap(C[2], n1);
    SwapProduct(C[3], e1, e1);
    SwapProduct(C[4], e1, n1);
    SwapProduct(C[5], n1, n1);
  }

  /** The part of order 3 that is not in order 2. */
  lemma CubicPart(e1: real, n1: real, C: Vec)
    requires |C| >= 10
    ensures Expand(e1, n1, C, 3) == Expand(e1, n1, C, 2)
      + C[6] * (e1 * (e1 * e1)) + C[7] * (e1 * e1 * n1) + C[8] * (e1 * (n1 * n1)) + C[9] * (n1 * (n1 * n1))
  {
  }

  lemma ExpandCubic(e1: real, n1: real, C: Vec)
    requires |C| >= 10
    ensures Expand(e1, n1, C, 3) == Dot(TermRow(10, e1, n1), C, 10)
  {
    var row := TermRow(10, e1, n1);
    CubicPart(e1, n1, C);
    ExpandQuadratic(e1, n1, C);
    FrontDot(e1, n1, C);
    RowTerms(10, e1, n1);
    hide Dot, TermRow, Expand;
    DotTen(row, C);
    Regroup(C[6], e1, e1, e1);
    SwapProduct(C[7], e1 * e1, n1);
    Regroup(C[8], e1, n1, n1);
    Regroup(C[9], n1, n1, n1);
  }

  lemma FrontDot(e1: real, n1: real, C: Vec)
    requires |C| >= 10
    ensures Dot(TermRow(10, e1, n1), C, 6) == Dot(TermRow(6, e1, n1), C, 6)
  {
    var long, short := TermRow(10, e1, n1), TermRow(6, e1, n1);
    RowTerms(10, e1, n1);
    RowTerms(6, e1, n1);
    hide TermRow, Dot;
    DotAgree(long, short, C, C, 6);
  }

  /** The hand-expanded evaluation pairs each coefficient with the term of the same number. */
  lemma ExpandIsDot(e1: real, n1: real, C: Vec, order: nat)
    requires 1 <= order <= MAXORDER && Size(order) <= |C|
    ensures Expand(e1, n1, C, order) == Dot(TermRow(Size(order), e1, n1), C, Size(order))
  {
    hide Expand, Dot, TermRow;
    if order == 1 {
      ExpandLinear(e1, n1, C);
    } else if order == 2 {
      ExpandQuadratic(e1, n1, C);
    } else {
      ExpandCubic(e1, n1, C);
    }
  }

  /** Populate one matrix row with the terms of one point. */
  method FillRow(m: array2<real>, row: nat, e: real, n: real)
    requires row < m.Length0
    modifies m
    ensures forall c :: 0 <= c < m.Length1 ==> m[row, c] == TermRow(m.Length1, e, n)[c]
    ensures forall r, c :: 0 <= r < m.Length0 && r != row && 0 <= c < m.Length1 ==> m[r, c] == old(m[r, c])
  {
    for j := 0 to m.Length1
      invariant forall c :: 0 <= c < j ==> m[row, c] == Term(c + 1, e, n)
      invariant forall r, c :: 0 <= r < m.Length0 && r != row && 0 <= c < m.Length1 ==> m[r, c] == old(m[r, c])
    {
      m[row, j] := Term(j + 1, e, n);
    }
  }

  /** The first k rows of m, a and b are the first k design rows and targets. */
  ghost predicate Filled(m: array2<real>, a: array<real>, b: array<real>, P: Table, te: Vec, tn: Vec, k: nat)
    requires m.Length0 == m.Length1 == a.Length == b.Length
    requires Wide(P, m.Length0) && |te| == |tn| == |P| && k <= |P| && k <= m.Length0
    reads m, a, b
  {
    var n := m.Length0;
    && (forall r, c :: 0 <= r < k && 0 <= c < n ==> m[r, c] == P[r][c])
    && (forall r :: 0 <= r < k ==> a[r] == te[r] && b[r] == tn[r])
  }

  /** Populate row k from the control point behind design row k. */
  method PlacePoint(m: array2<real>, a: array<real>, b: array<real>, k: nat, e1: real, n1: real, e2: real, n2: real,
                    ghost P: Table, ghost te: Vec, ghost tn: Vec)
    requires m.Length0 == m.Length1 == a.Length == b.Length && a != b
    requires Wide(P, m.Length0) && |te| == |tn| == |P| && k < |P| && k < m.Length0
    requires Filled(m, a, b, P, te, tn, k)
    requires P[k] == TermRow(m.Length0, e1, n1) && te[k] == e2 && tn[k] == n2
    modifies m, a, b
    ensures Filled(m, a, b, P, te, tn, k + 1)
  {
    hide TermRow;
    FillRow(m, k, e1, n1);
    a[k] := e2;
    b[k] := n2;
  }

  /** Populate the matrix and both column vectors, one row per active point. */
  method Populate(e1: array<real>, n1: array<real>, e2: array<real>, n2: array<real>, status: array<int>,
                  count: nat, m: array2<real>, a: array<real>, b: array<real>, ghost act: seq<nat>,
                  ghost P: Table, ghost te: Vec, ghost tn: Vec)
    returns (currow: nat)
    requires count <= e1.Length && count <= n1.Length && count <= e2.Length && count <= n2.Length
    requires count <= status.Length
    requires act == Active(status[..], count) && |act| <= m.Length0
    requires m.Length0 == m.Length1 == a.Length == b.Length
    requires P == Design(m.Length0, e1[..], n1[..], act) && te == Picked(e2[..], act) && tn == Picked(n2[..], act)
    requires a != b && {a, b} !! {e1, n1, e2, n2}
    modifies m, a, b
    ensures currow == |act| && Filled(m, a, b, P, te, tn, |act|)
  {
    assert Filled(m, a, b, P, te, tn, 0);
    hide TermRow, Filled;
    currow := 0;
    for pntnow := 0 to count
      invariant currow == |Active(status[..], pntnow)| <= |act| && Filled(m, a, b, P, te, tn, currow)
    {
      if status[pntnow] > 0 {
        ActivePosition(status[..], pntnow, count);
        PlacePoint(m, a, b, currow, e1[pntnow], n1[pntnow], e2[pntnow], n2[pntnow], P, te, tn);
        currow := currow + 1;
      }
    }
  }

  /** Exactly as many active points as terms: solve for them directly. */
  method ExactDet(e1: array<real>, n1: array<real>, e2: array<real>, n2: array<real>, status: array<int>,
                  count: nat, m: array2<real>, a: array<real>, b: array<real>, E: array<real>, N: array<real>,
                  ghost act: seq<nat>)
    returns (result: Status)
    requires count <= e1.Length && count <= n1.Length && count <= e2.Length && count <= n2.Length
    requires count <= status.Length
    requires act == Active(status[..], count) && |act| <= m.Length0
    requires m.Length0 == m.Length1 == a.Length == b.Length && m.Length0 <= E.Length && m.Length0 <= N.Length
    requires a != b && a != E && a != N && b != E && b != N && E != N
    requires {a, b, E, N} !! {e1, n1, e2, n2}
    modifies m, a, b, E, N
    ensures var n, P := m.Length0, Design(m.Length0, e1[..], n1[..], act);
      result == if |P| < n then MINTERR else FitStatus(P, n)
    ensures result == MSUCCESS ==>
      var n, P := m.Length0, Design(m.Length0, e1[..], n1[..], act);
      Fitted(P, Picked(e2[..], act), n, E[..n]) && Fitted(P, Picked(n2[..], act), n, N[..n])
    ensures result != MSUCCESS ==> E[..] == old(E[..]) && N[..] == old(N[..])
  {
    var n := m.Length0;
    ghost var P, te, tn := Design(n, e1[..], n1[..], act), Picked(e2[..], act), Picked(n2[..], act);
    var currow := Populate(e1, n1, e2, n2, status, count, m, a, b, act, P, te, tn);
    if currow != n {
      return MINTERR;
    }
    RowsAre(m, P);
    assert a[..] == te && b[..] == tn;
    result := SolveMat2(m, a, b, E, N);
    SquareDegenerate(P, n);
    if result == MSUCCESS {
      ExactIsBest(P, te, n, E[..n]);
      ExactIsBest(P, tn, n, N[..n]);
    }
  }

  /** Add the products of term i with the terms from i on to row i of the normal matrix. */
  method AddToRow(m: array2<real>, i: nat, e1: real, n1: real)
    requires m.Length0 == m.Length1 && i < m.Length0
    modifies m
    ensures var p := TermRow(m.Length0, e1, n1);
      forall c :: i <= c < m.Length0 ==> m[i, c] == old(m[i, c]) + Times(p[i], p[c])
    ensures forall r, c :: 0 <= r < m.Length0 && r != i && 0 <= c < m.Length0 ==> m[r, c] == old(m[r, c])
  {
    hide Times, Term;
    var n := m.Length0;
    ghost var p := TermRow(n, e1, n1);
    for j := i to n
      invariant forall c :: i <= c < j ==> m[i, c] == old(m[i, c]) + Times(p[i], p[c])
      invariant forall c :: j <= c < n ==> m[i, c] == old(m[i, c])
      invariant forall r, c :: 0 <= r < n && r != i && 0 <= c < n ==> m[r, c] == old(m[r, c])
    {
      m[i, j] := m[i, j] + Times(Term(i + 1, e1, n1), Term(j + 1, e1, n1));
    }
  }

  /** Add one point to the upper half of the normal matrix and to both normal right-hand sides. */
  method AddPoint(m: array2<real>, a: array<real>, b: array<real>, e1: real, n1: real, e2: real, n2: real)
    requires m.Length0 == m.Length1 == a.Length == b.Length && a != b
    modifies m, a, b
    ensures var p := TermRow(m.Length0, e1, n1);
      && (forall i, j :: 0 <= i <= j < m.Length0 ==> m[i, j] == old(m[i, j]) + Times(p[i], p[j]))
      && (forall i :: 0 <= i < m.Length0 ==> a[i] == old(a[i]) + Times(e2, p[i]) && b[i] == old(b[i]) + Times(n2, p[i]))
  {
    hide Times, Term;
    var n := m.Length0;
    ghost var p := TermRow(n, e1, n1);
    for i := 0 to n
      invariant forall r, c :: 0 <= r < i && r <= c < n ==> m[r, c] == old(m[r, c]) + Times(p[r], p[c])
      invariant forall r, c :: i <= r <= c < n ==> m[r, c] == old(m[r, c])
      invariant forall r :: 0 <= r < i ==> a[r] == old(a[r]) + Times(e2, p[r]) && b[r] == old(b[r]) + Times(n2, p[r])
      invariant forall r :: i <= r < n ==> a[r] == old(a[r]) && b[r] == old(b[r])
    {
      AddToRow(m, i, e1, n1);
      a[i] := a[i] + Times(e2, Term(i + 1, e1, n1));
      b[i] := b[i] + Times(n2, Term(i + 1, e1, n1));
    }
  }

  /** Zero the upper half of the matrix and the two column vectors. */
  method Initialise(m: array2<real>, a: array<real>, b: array<real>)
    requires m.Length0 == m.Length1 == a.Length == b.Length && a != b
    modifies m, a, b
    ensures forall i, j :: 0 <= i <= j < m.Length0 ==> m[i, j] == 0.0
    ensures forall i :: 0 <= i < m.Length0 ==> a[i] == 0.0 && b[i] == 0.0
  {
    var n := m.Length0;
    for i := 0 to n
      invariant forall r, c :: 0 <= r < i && r <= c < n ==> m[r, c] == 0.0
      invariant forall r :: 0 <= r < i ==> a[r] == 0.0
      invariant forall r :: 0 <= r < i ==> b[r] == 0.0
    {
      for j := i to n
        modifies m
        invariant forall r, c :: 0 <= r < i && r <= c < n ==> m[r, c] == 0.0
        invariant forall c :: i <= c < j ==> m[i, c] == 0.0
      {
        m[i, j] := 0.0;
      }
      a[i] := 0.0;
      b[i] := 0.0;
    }
  }

  /** Copy the upper half of the matrix onto the lower half. */
  method Mirror(m: array2<real>)
    requires m.Length0 == m.Length1
    modifies m
    ensures forall i, j :: 0 <= i <= j < m.Length0 ==> m[i, j] == old(m[i, j]) && m[j, i] == old(m[i, j])
  {
    var n := m.Length0;
    var i := 1;
    while i < n
      invariant 1 <= i
      invariant forall r, c :: 0 <= r <= c < n ==> m[r, c] == old(m[r, c])
      invariant forall r, c :: 0 <= c < r < i && r < n ==> m[r, c] == old(m[c, r])
    {
      for j := 0 to i
        invariant forall r, c :: 0 <= r <= c < n ==> m[r, c] == old(m[r, c])
        invariant forall r, c :: 0 <= c < r < n && (r < i || (r == i && c < j)) ==> m[r, c] == old(m[c, r])
      {
        m[i, j] := m[j, i];
      }
      i := i + 1;
    }
  }

  /** m (upper half), a and b hold the normal equations of the first k design rows. */
  ghost predicate Summed(m: array2<real>, a: array<real>, b: array<real>, P: Table, te: Vec, tn: Vec, k: nat)
    requires m.Length0 == m.Length1 == a.Length == b.Length
    requires Wide(P, m.Length0) && |te| == |tn| == |P| && k <= |P|
    reads m, a, b
  {
    var n := m.Length0;
    && (forall i, j :: 0 <= i <= j < n ==> m[i, j] == Gram(P, n, k, i, j))
    && (forall i :: 0 <= i < n ==> a[i] == Moment(P, te, n, k, i))
    && (forall i :: 0 <= i < n ==> b[i] == Moment(P, tn, n, k, i))
  }

  /** Add the control point behind design row k to the normal equations. */
  method SumPoint(m: array2<real>, a: array<real>, b: array<real>, k: nat, e1: real, n1: real, e2: real, n2: real,
                  ghost P: Table, ghost te: Vec, ghost tn: Vec)
    requires m.Length0 == m.Length1 == a.Length == b.Length && a != b
    requires Wide(P, m.Length0) && |te| == |tn| == |P| && k < |P|
    requires Summed(m, a, b, P, te, tn, k)
    requires P[k] == TermRow(m.Length0, e1, n1) && te[k] == e2 && tn[k] == n2
    modifies m, a, b
    ensures Summed(m, a, b, P, te, tn, k + 1)
  {
    hide TermRow, Times;
    AddPoint(m, a, b, e1, n1, e2, n2);
  }

  /** Sum the normal equations over the active points. */
  method Accumulate(e1: array<real>, n1: array<real>, e2: array<real>, n2: array<real>, status: array<int>,
                    count: nat, m: array2<real>, a: array<real>, b: array<real>, ghost act: seq<nat>,
                    ghost P: Table, ghost te: Vec, ghost tn: Vec)
    returns (numactive: nat)
    requires count <= e1.Length && count <= n1.Length && count <= e2.Length && count <= n2.Length
    requires count <= status.Length
    requires act == Active(status[..], count)
    requires m.Length0 == m.Length1 == a.Length == b.Length
    requires P == Design(m.Length0, e1[..], n1[..], act) && te == Picked(e2[..], act) && tn == Picked(n2[..], act)
    requires a != b && {a, b} !! {e1, n1, e2, n2}
    requires Summed(m, a, b, P, te, tn, 0)
    modifies m, a, b
    ensures numactive == |act| && Summed(m, a, b, P, te, tn, |P|)
  {
    hide TermRow, Summed, Active;
    numactive := 0;
    for n := 0 to count
      invariant numactive == |Active(status[..], n)| <= |act| && Summed(m, a, b, P, te, tn, numactive)
    {
      if status[n] > 0 {
        ActivePosition(status[..], n, count);
        SumPoint(m, a, b, numactive, e1[n], n1[n], e2[n], n2[n], P, te, tn);
        numactive := numactive + 1;
      } else {
        ActiveSkips(status[..], n);
      }
    }
  }

  /** More active points than terms: least squares. */
  method CalcLs(e1: array<real>, n1: array<real>, e2: array<real>, n2: array<real>, status: array<int>,
                count: nat, m: array2<real>, a: array<real>, b: array<real>, E: array<real>, N: array<real>,
                ghost act: seq<nat>)
    returns (result: Status)
    requires count <= e1.Length && count <= n1.Length && count <= e2.Length && count <= n2.Length
    requires count <= status.Length
    requires act == Active(status[..], count)
    requires m.Length0 == m.Length1 == a.Length == b.Length && m.Length0 <= E.Length && m.Length0 <= N.Length
    requires a != b && a != E && a != N && b != E && b != N && E != N
    requires {a, b, E, N} !! {e1, n1, e2, n2}
    modifies m, a, b, E, N
    ensures var n, P := m.Length0, Design(m.Length0, e1[..], n1[..], act);
      result == if |P| <= n then MINTERR else FitStatus(P, n)
    ensures result == MSUCCESS ==>
      var n, P := m.Length0, Design(m.Length0, e1[..], n1[..], act);
      Fitted(P, Picked(e2[..], act), n, E[..n]) && Fitted(P, Picked(n2[..], act), n, N[..n])
    ensures result != MSUCCESS ==> E[..] == old(E[..]) && N[..] == old(N[..])
  {
    var n := m.Length0;
    ghost var P, te, tn := Design(n, e1[..], n1[..], act), Picked(e2[..], act), Picked(n2[..], act);
    Initialise(m, a, b);
    var numactive := Accumulate(e1, n1, e2, n2, status, count, m, a, b, act, P, te, tn);
    if numactive <= n {
      return MINTERR;
    }
    Mirror(m);
    MirroredIsNormal(m, P);
    assert a[..] == NormalSide(P, te, n) && b[..] == NormalSide(P, tn, n);
    result := SolveMat2(m, a, b, E, N);
    NormalSingular(P, n);
    if result == MSUCCESS {
      NormalIsBest(P, te, n, E[..n]);
      NormalIsBest(P, tn, n, N[..n]);
    }
  }

  lemma MirroredIsNormal(m: array2<real>, P: Table)
    requires m.Length0 == m.Length1 && Wide(P, m.Length0)
    requires forall i, j :: 0 <= i <= j < m.Length0 ==> m[i, j] == Gram(P, m.Length0, |P|, i, j) && m[j, i] == m[i, j]
    ensures Rows(m) == NormalMatrix(P, m.Length0)
  {
    var n := m.Length0;
    forall i, j | 0 <= i < n && 0 <= j < n
      ensures m[i, j] == NormalMatrix(P, n)[i][j]
    {
      GramSymmetric(P, n, |P|, i, j);
    }
    RowsAre(m, NormalMatrix(P, n));
  }

  /** E and N are the fitted coefficients from the points (es, ns) to the targets (te, tn). */
  ghost predicate Maps(n: nat, act: seq<nat>, es: Vec, ns: Vec, te: Vec, tn: Vec, E: Vec, N: Vec)
    requires |E| == |N| == n
    requires forall r :: 0 <= r < |act| ==> act[r] < |es| && act[r] < |ns| && act[r] < |te| && act[r] < |tn|
  {
    var P := Design(n, es, ns, act);
    Fitted(P, Picked(te, act), n, E) && Fitted(P, Picked(tn, act), n, N)
  }

  /** The coordinate arrays and coefficient vectors are separate from the arrays a fit writes. */
  ghost predicate Separate(E: array<real>, N: array<real>, cp: ControlPoints)
    reads cp
  {
    E != N && {E, N} !! {cp.e1, cp.n1, cp.e2, cp.n2}
  }

  /** Coefficients of the given order that take (e1, n1) to (e2, n2). */
  method CalcCoef(cp: ControlPoints, E: array<real>, N: array<real>, order: nat) returns (result: Status)
    requires cp.Valid() && 1 <= order <= MAXORDER
    requires Size(order) <= E.Length && Size(order) <= N.Length && Separate(E, N, cp)
    modifies E, N
    ensures var n, act := Size(order), cp.ActivePoints();
      result == FitStatus(Design(n, cp.e1[..], cp.n1[..], act), n)
    ensures result == MSUCCESS ==>
      var n, act := Size(order), cp.ActivePoints();
      Maps(n, act, cp.e1[..], cp.n1[..], cp.e2[..], cp.n2[..], E[..n], N[..n])
    ensures result != MSUCCESS ==> E[..] == old(E[..]) && N[..] == old(N[..])
  {
    var n := Size(order);
    var numactive := CountActive(cp.status, cp.count);
    if numactive < n {
      return MNPTERR;
    }
    var m := new real[n, n]((i, j) => 0.0);
    var a := new real[n](i => 0.0);
    var b := new real[n](i => 0.0);
    ghost var act := cp.ActivePoints();
    if numactive == n {
      result := ExactDet(cp.e1, cp.n1, cp.e2, cp.n2, cp.status, cp.count, m, a, b, E, N, act);
    } else {
      result := CalcLs(cp.e1, cp.n1, cp.e2, cp.n2, cp.status, cp.count, m, a, b, E, N, act);
    }
  }

  /** The status of the forward fit or, when that succeeds, of the backward fit. */
  ghost function BothStatus(P: Table, B: Table, n: nat): Status
    requires Wide(P, n) && Wide(B, n)
  {
    if FitStatus(P, n) == MSUCCESS then FitStatus(B, n) else FitStatus(P, n)
  }

  /** Exchange the 1 and 2 easting and northing arrays. */
  method SwitchArrays(cp: ControlPoints)
    modifies cp`e1, cp`n1, cp`e2, cp`n2
    ensures cp.e1 == old(cp.e2) && cp.n1 == old(cp.n2) && cp.e2 == old(cp.e1) && cp.n2 == old(cp.n1)
  {
    var tempptr := cp.e1;
    cp.e1 := cp.e2;
    cp.e2 := tempptr;
    tempptr := cp.n1;
    cp.n1 := cp.n2;
    cp.n2 := tempptr;
  }

  /** Forward and backward coefficients; the exchanged coordinate arrays are back in place on every exit. */
  method ComputeGeorefEquations(cp: ControlPoints, E12: array<real>, N12: array<real>,
                                E21: array<real>, N21: array<real>, order: int)
    returns (result: Status)
    requires cp.Valid()
    requires 1 <= order <= MAXORDER ==>
      && Size(order) <= E12.Length && Size(order) <= N12.Length
      && Size(order) <= E21.Length && Size(order) <= N21.Length
    requires Separate(E12, N12, cp) && Separate(E21, N21, cp) && {E12, N12} !! {E21, N21}
    modifies cp`e1, cp`n1, cp`e2, cp`n2, E12, N12, E21, N21
    ensures cp.e1 == old(cp.e1) && cp.n1 == old(cp.n1) && cp.e2 == old(cp.e2) && cp.n2 == old(cp.n2)
    ensures !(1 <= order <= MAXORDER) ==> result == MPARMERR
    ensures 1 <= order <= MAXORDER ==>
      var n, act := Size(order), cp.ActivePoints();
      var P, B := Design(n, cp.e1[..], cp.n1[..], act), Design(n, cp.e2[..], cp.n2[..], act);
      && result == BothStatus(P, B, n)
      && (FitStatus(P, n) == MSUCCESS ==>
            Maps(n, act, cp.e1[..], cp.n1[..], cp.e2[..], cp.n2[..], E12[..n], N12[..n]))
      && (result == MSUCCESS ==>
            Maps(n, act, cp.e2[..], cp.n2[..], cp.e1[..], cp.n1[..], E21[..n], N21[..n]))
  {
    hide Design, FitStatus, Maps;
    if order < 1 || order > MAXORDER {
      return MPARMERR;
    }
    result := CalcCoef(cp, E12, N12, order);
    if result != MSUCCESS {
      return result;
    }
    SwitchArrays(cp);
    result := CalcCoef(cp, E21, N21, order);
    SwitchArrays(cp);
  }

  /** By how much one evaluated output coordinate misses its target at each listed point. */
  function Errors(order: nat, act: seq<nat>, es: Vec, ns: Vec, target: Vec, C: Vec): (v: Vec)
    requires 1 <= order <= MAXORDER && |C| == Size(order)
    requires forall r :: 0 <= r < |act| ==> act[r] < |es| && act[r] < |ns| && act[r] < |target|
    ensures |v| == |act|
  {
    seq(|act|, r requires 0 <= r < |act| => Expand(es[act[r]], ns[act[r]], C, order) - target[act[r]])
  }

  function SumOfSquares(v: Vec, m: nat): real
    requires m <= |v|
  {
    if m == 0 then 0.0 else SumOfSquares(v, m - 1) + Sqr(v[m - 1])
  }

  lemma {:induction false} ErrorsAreResiduals(order: nat, act: seq<nat>, es: Vec, ns: Vec, target: Vec, C: Vec, m: nat)
    requires 1 <= order <= MAXORDER && |C| == Size(order) && m <= |act|
    requires forall r :: 0 <= r < |act| ==> act[r] < |es| && act[r] < |ns| && act[r] < |target|
    ensures SumOfSquares(Errors(order, act, es, ns, target, C), m)
         == Loss(Design(Size(order), es, ns, act), Picked(target, act), Size(order), C, m)
  {
    hide Expand, TermRow, Dot, Sqr;
    if m > 0 {
      ErrorsAreResiduals(order, act, es, ns, target, C, m - 1);
      ExpandIsDot(es[act[m - 1]], ns[act[m - 1]], C, order);
    }
  }

  /** Least squares: any other coefficients evaluate to a larger sum of squared errors. */
  lemma FitIsOptimal(order: nat, act: seq<nat>, es: Vec, ns: Vec, target: Vec, E: Vec, C: Vec)
    requires 1 <= order <= MAXORDER && |E| == |C| == Size(order) && C != E
    requires forall r :: 0 <= r < |act| ==> act[r] < |es| && act[r] < |ns| && act[r] < |target|
    requires Fitted(Design(Size(order), es, ns, act), Picked(target, act), Size(order), E)
    ensures SumOfSquares(Errors(order, act, es, ns, target, E), |act|)
          < SumOfSquares(Errors(order, act, es, ns, target, C), |act|)
  {
    hide Expand, Loss, SumOfSquares;
    ErrorsAreResiduals(order, act, es, ns, target, E, |act|);
    ErrorsAreResiduals(order, act, es, ns, target, C, |act|);
  }

  /** With exactly the minimum number of active points, each of them is sent exactly to its target. */
  lemma FitInterpolates(order: nat, act: seq<nat>, es: Vec, ns: Vec, te: Vec, tn: Vec, E: Vec, N: Vec, r: nat)
    requires 1 <= order <= MAXORDER && |E| == |N| == Size(order) == |act| && r < |act|
    requires forall r :: 0 <= r < |act| ==> act[r] < |es| && act[r] < |ns| && act[r] < |te| && act[r] < |tn|
    requires Maps(Size(order), act, es, ns, te, tn, E, N)
    ensures Evaluate(es[act[r]], ns[act[r]], E, N, order) == Some((te[act[r]], tn[act[r]]))
  {
    hide Expand, TermRow;
    var k, P := act[r], Design(Size(order), es, ns, act);
    ExpandIsDot(es[k], ns[k], E, order);
    ExpandIsDot(es[k], ns[k], N, order);
    assert Dot(P[r], E, Size(order)) == Picked(te, act)[r] && Dot(P[r], N, Size(order)) == Picked(tn, act)[r];
  }

  /** A fit is refused exactly when a polynomial that is not zero vanishes at every active point. */
  lemma UnsolvableMeaning(order: nat, act: seq<nat>, es: Vec, ns: Vec)
    requires 1 <= order <= MAXORDER && Size(order) <= |act|
    requires forall r :: 0 <= r < |act| ==> act[r] < |es| && act[r] < |ns|
    ensures FitStatus(Design(Size(order), es, ns, act), Size(order)) == MUNSOLVABLE <==>
      exists C: Vec :: |C| == Size(order) && NonZero(C) &&
        forall r :: 0 <= r < |act| ==> Expand(es[act[r]], ns[act[r]], C, order) == 0.0
  {
    hide Expand, TermRow, Dot;
    var P, n := Design(Size(order), es, ns, act), Size(order);
    forall C: Vec | |C| == n
      ensures Vanishes(P, n, C) <==> forall r :: 0 <= r < |act| ==> Expand(es[act[r]], ns[act[r]], C, order) == 0.0
    {
      forall r | 0 <= r < |act| ensures Dot(P[r], C, n) == Expand(es[act[r]], ns[act[r]], C, order) {
        ExpandIsDot(es[act[r]], ns[act[r]], C, order);
      }
    }
  }
}

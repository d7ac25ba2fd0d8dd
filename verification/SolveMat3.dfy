/**
 The solver of grass_crs3d.c: three right-hand sides, and every pivot below GRASS_EPSILON in magnitude
 is refused. It therefore refuses every singular system, and some that are not singular.
 */
module SolveMat3 {
  import opened Vectors
  import opened Elimination
  import opened LinearSystem
  import opened SolveMat

  const GRASS_EPSILON: real := 0.000000000000001

  ghost predicate Holds3(A: Table, m: array2<real>, a: array<real>, b: array<real>, c: array<real>)
    reads m, a, b, c
  {
    var n := m.Length0;
    && m.Length1 == n && |A| == n && Wide(A, n + 3) && a.Length == n && b.Length == n && c.Length == n
    && (forall r, k :: 0 <= r < n && 0 <= k < n ==> A[r][k] == m[r, k])
    && (forall r :: 0 <= r < n ==> A[r][n] == a[r] && A[r][n + 1] == b[r] && A[r][n + 2] == c[r])
  }

  ghost function Start3(m: array2<real>, a: array<real>, b: array<real>, c: array<real>): (A: Table)
    requires m.Length0 == m.Length1 == a.Length == b.Length == c.Length
    reads m, a, b, c
    ensures Holds3(A, m, a, b, c)
  {
    Augment(Rows(m), Sides(m.Length0, [a[..], b[..], c[..]]), m.Length0, 3)
  }

  /** One elimination pass over column i, as a function of the table. */
  ghost function PassResult(A: Table, w: nat, i: nat): (B: Table)
    requires Wide(A, w) && i < |A| <= w && A[PivotRow(A, w, i, |A|)][i] != 0.0
    ensures |B| == |A| && Wide(B, w)
  {
    var X := Exchange(A, i, PivotRow(A, w, i, |A|));
    assert Wide(X, w);
    ClearColumn(X, i, w)
  }

  /** From column i on, every pivot the elimination meets has at least magnitude eps. */
  ghost predicate PivotsHold(A: Table, w: nat, i: nat, eps: real)
    requires Wide(A, w) && i <= |A| <= w && eps > 0.0
    decreases |A| - i
  {
    i == |A| || (
      && Abs(A[PivotRow(A, w, i, |A|)][i]) >= eps
      && PivotsHold(PassResult(A, w, i), w, i + 1, eps))
  }

  /** The first n columns of every row. */
  function Left(A: Table, w: nat, n: nat): (B: Table)
    requires Wide(A, w) && n <= w
    ensures |B| == |A| && Wide(B, n)
    ensures forall r, k :: 0 <= r < |A| && 0 <= k < n ==> B[r][k] == A[r][k]
  {
    seq(|A|, r requires 0 <= r < |A| => A[r][..n])
  }

  lemma {:induction false} PivotRowLeft(A: Table, w: nat, n: nat, i: nat, top: nat)
    requires Wide(A, w) && i < n <= w && i < top <= |A|
    ensures PivotRow(Left(A, w, n), n, i, top) == PivotRow(A, w, i, top)
  {
    if top > i + 1 {
      PivotRowLeft(A, w, n, i, top - 1);
    }
  }

  /** Elimination never looks at the right-hand sides to choose or refuse a pivot. */
  lemma {:induction false} PivotsHoldLeft(A: Table, w: nat, i: nat, eps: real)
    requires Wide(A, w) && i <= |A| <= w && eps > 0.0
    ensures PivotsHold(A, w, i, eps) == PivotsHold(Left(A, w, |A|), |A|, i, eps)
    decreases |A| - i
  {
    var n := |A|;
    var L := Left(A, w, n);
    if i < n {
      PivotRowLeft(A, w, n, i, n);
      var k := PivotRow(A, w, i, n);
      if Abs(A[k][i]) >= eps {
        LeftOfPass(A, w, i, k);
        PivotsHoldLeft(PassResult(A, w, i), w, i + 1, eps);
      }
    }
  }

  lemma LeftOfMinus(u: Vec, f: real, v: Vec, n: nat)
    requires |u| == |v| && n <= |u|
    ensures Minus(u, f, v)[..n] == Minus(u[..n], f, v[..n])
  {
    forall c | 0 <= c < n ensures Minus(u, f, v)[..n][c] == Minus(u[..n], f, v[..n])[c] {
      assert u[..n][c] == u[c] && v[..n][c] == v[c];
    }
  }

  lemma LeftOfClear(X: Table, Y: Table, w: nat, n: nat, i: nat)
    requires Wide(X, w) && Wide(Y, n) && |X| == |Y| == n <= w && i < n && X[i][i] != 0.0
    requires forall r :: 0 <= r < n ==> Y[r] == X[r][..n]
    ensures Y[i][i] == X[i][i]
    ensures forall r :: 0 <= r < n ==> ClearColumn(Y, i, n)[r] == ClearColumn(X, i, w)[r][..n]
  {
    hide Minus;
    forall r | 0 <= r < n ensures ClearColumn(Y, i, n)[r] == ClearColumn(X, i, w)[r][..n] {
      assert Y[r][i] == X[r][i];
      LeftOfMinus(X[r], X[r][i] / X[i][i], X[i], n);
    }
  }

  lemma LeftOfPass(A: Table, w: nat, i: nat, k: nat)
    requires Wide(A, w) && i < |A| <= w && k == PivotRow(A, w, i, |A|) == PivotRow(Left(A, w, |A|), |A|, i, |A|)
    requires A[k][i] != 0.0
    ensures Left(PassResult(A, w, i), w, |A|) == PassResult(Left(A, w, |A|), |A|, i)
  {
    hide ClearColumn, PivotRow;
    var n := |A|;
    var L := Left(A, w, n);
    LeftOfClear(Exchange(A, i, k), Exchange(L, i, k), w, n, i);
  }

  /** Whether a system is accepted depends on its matrix alone. */
  lemma AcceptanceIgnoresSides(M: Table, n: nat, rhs: seq<Vec>)
    requires Square(M, n) && |rhs| == 3 && forall k :: 0 <= k < 3 ==> |rhs[k]| == n
    ensures PivotsHold(Augment(M, Sides(n, rhs), n, 3), n + 3, 0, GRASS_EPSILON) == PivotsHold(M, n, 0, GRASS_EPSILON)
  {
    hide Sides, PivotsHold;
    var A := Augment(M, Sides(n, rhs), n, 3);
    forall r | 0 <= r < n ensures Left(A, n + 3, n)[r] == M[r] {
    }
    assert Left(A, n + 3, n) == M;
    PivotsHoldLeft(A, n + 3, 0, GRASS_EPSILON);
  }

  method BringUp3(m: array2<real>, a: array<real>, b: array<real>, c: array<real>, i: nat, imark: nat, ghost A: Table)
    requires a != b && b != c && a != c && Holds3(A, m, a, b, c) && i <= imark < m.Length0
    modifies m, a, b, c
    ensures Holds3(Exchange(A, i, imark), m, a, b, c)
  {
    if imark != i {
      ExchangeRows(m, i, imark);
      SwapEntries(a, i, imark);
      SwapEntries(b, i, imark);
      SwapEntries(c, i, imark);
    }
  }

  ghost predicate RowIs3(m: array2<real>, a: array<real>, b: array<real>, c: array<real>, r: nat, row: Vec)
    requires r < m.Length0 == m.Length1 == a.Length == b.Length == c.Length
    reads m, a, b, c
  {
    var n := m.Length0;
    |row| == n + 3 && (forall k :: 0 <= k < n ==> m[r, k] == row[k])
    && a[r] == row[n] && b[r] == row[n + 1] && c[r] == row[n + 2]
  }

  method SubtractEquation3(m: array2<real>, a: array<real>, b: array<real>, c: array<real>, i: nat, i2: nat,
                           factor: real, ghost u: Vec, ghost v: Vec)
    requires a != b && b != c && a != c && m.Length0 == m.Length1 == a.Length == b.Length == c.Length
    requires i < m.Length0 && i2 < m.Length0 && i != i2
    requires RowIs3(m, a, b, c, i, u) && RowIs3(m, a, b, c, i2, v) && forall k :: 0 <= k < i ==> u[k] == 0.0
    modifies m, a, b, c
    ensures RowIs3(m, a, b, c, i2, Minus(v, factor, u))
    ensures forall r, k :: 0 <= r < m.Length0 && r != i2 && 0 <= k < m.Length0 ==> m[r, k] == old(m[r, k])
    ensures forall r :: 0 <= r < m.Length0 && r != i2 ==> a[r] == old(a[r]) && b[r] == old(b[r]) && c[r] == old(c[r])
  {
    SubtractRow(m, i, i2, factor);
    a[i2] := a[i2] - factor * a[i];
    b[i2] := b[i2] - factor * b[i];
    c[i2] := c[i2] - factor * c[i];
  }

  method ClearOthers3(m: array2<real>, a: array<real>, b: array<real>, c: array<real>, i: nat, pivot: real,
                      ghost A: Table)
    requires a != b && b != c && a != c && Holds3(A, m, a, b, c) && i < m.Length0
    requires Reduced(A, m.Length0 + 3, i) && pivot == A[i][i] != 0.0
    modifies m, a, b, c
    ensures Holds3(ClearColumn(A, i, m.Length0 + 3), m, a, b, c)
  {
    hide Minus;
    var n := m.Length0;
    ghost var B := ClearColumn(A, i, n + 3);
    for i2 := 0 to n
      invariant forall r :: 0 <= r < n ==> RowIs3(m, a, b, c, r, if r < i2 then B[r] else A[r])
    {
      if i2 != i {
        assert RowIs3(m, a, b, c, i2, A[i2]) && RowIs3(m, a, b, c, i, A[i]);
        SubtractEquation3(m, a, b, c, i, i2, m[i2, i] / pivot, A[i], A[i2]);
      }
    }
    assert forall r :: 0 <= r < n ==> RowIs3(m, a, b, c, r, B[r]);
  }

  method Pass3(m: array2<real>, a: array<real>, b: array<real>, c: array<real>, i: nat, ghost A: Table)
    returns (found: bool, ghost B: Table)
    requires a != b && b != c && a != c && Holds3(A, m, a, b, c) && i < m.Length0 && Reduced(A, m.Length0 + 3, i)
    modifies m, a, b, c
    ensures var w, k := m.Length0 + 3, PivotRow(A, m.Length0 + 3, i, m.Length0);
      && found == (Abs(A[k][i]) >= GRASS_EPSILON)
      && (found ==> B == PassResult(A, w, i) && Holds3(B, m, a, b, c) && Reduced(B, w, i + 1) && SameNull(A, B, w))
  {
    hide ClearColumn, Exchange, PassResult, PivotRow, Reduced, SameNull;
    ghost var w := m.Length0 + 3;
    var pivot, imark := FindPivot(m, i, A, w);
    if Abs(pivot) < GRASS_EPSILON {
      return false, A;
    }
    PassInvariant(A, w, i, imark);
    PassResultIs(A, w, i, imark);
    hide Holds3;
    ghost var X := Exchange(A, i, imark);
    BringUp3(m, a, b, c, i, imark, A);
    ClearOthers3(m, a, b, c, i, pivot, X);
    return true, ClearColumn(X, i, w);
  }

  lemma PassResultIs(A: Table, w: nat, i: nat, k: nat)
    requires Wide(A, w) && i < |A| <= w && k == PivotRow(A, w, i, |A|) && A[k][i] != 0.0
    requires Wide(Exchange(A, i, k), w) && Exchange(A, i, k)[i] == A[k]
    ensures PassResult(A, w, i) == ClearColumn(Exchange(A, i, k), i, w)
  {
    hide ClearColumn;
  }

  method Reduce3(m: array2<real>, a: array<real>, b: array<real>, c: array<real>, ghost A0: Table)
    returns (solvable: bool, ghost A: Table)
    requires a != b && b != c && a != c && Holds3(A0, m, a, b, c)
    modifies m, a, b, c
    ensures solvable == PivotsHold(A0, m.Length0 + 3, 0, GRASS_EPSILON)
    ensures solvable ==>
      Holds3(A, m, a, b, c) && SameNull(A0, A, m.Length0 + 3) && Reduced(A, m.Length0 + 3, m.Length0)
  {
    hide Holds3, SameNull, Reduced, PivotsHold, PivotRow, PassResult, Abs;
    HoldsShape(A0, m, a, b, c);
    SameNullReflexive(A0, m.Length0 + 3);
    A := A0;
    for i := 0 to m.Length0
      invariant |A| == m.Length0 && Wide(A, m.Length0 + 3)
      invariant Holds3(A, m, a, b, c) && Reduced(A, m.Length0 + 3, i) && SameNull(A0, A, m.Length0 + 3)
      invariant PivotsHold(A0, m.Length0 + 3, 0, GRASS_EPSILON) == PivotsHold(A, m.Length0 + 3, i, GRASS_EPSILON)
    {
      var found, B := Pass3(m, a, b, c, i, A);
      if !found {
        PivotsStep(A, m.Length0 + 3, i, GRASS_EPSILON);
        return false, A;
      }
      PivotsStep(A, m.Length0 + 3, i, GRASS_EPSILON);
      HoldsShape(B, m, a, b, c);
      SameNullTransitive(A0, A, B, m.Length0 + 3);
      A := B;
    }
    PivotsStep(A, m.Length0 + 3, m.Length0, GRASS_EPSILON);
    return true, A;
  }

  lemma PivotsStep(A: Table, w: nat, i: nat, eps: real)
    requires Wide(A, w) && i <= |A| <= w && eps > 0.0
    ensures i == |A| ==> PivotsHold(A, w, i, eps)
    ensures i < |A| ==>
      (PivotsHold(A, w, i, eps)
       <==> Abs(A[PivotRow(A, w, i, |A|)][i]) >= eps && PivotsHold(PassResult(A, w, i), w, i + 1, eps))
  {
  }

  lemma SameNullReflexive(A: Table, w: nat)
    requires Wide(A, w)
    ensures SameNull(A, A, w) && Reduced(A, w, 0)
  {
  }

  lemma HoldsShape(A: Table, m: array2<real>, a: array<real>, b: array<real>, c: array<real>)
    requires Holds3(A, m, a, b, c)
    ensures |A| == m.Length0 && Wide(A, m.Length0 + 3)
  {
  }

  method ReadOut3(m: array2<real>, a: array<real>, b: array<real>, c: array<real>,
                  E: array<real>, N: array<real>, Z: array<real>, ghost A: Table)
    requires Holds3(A, m, a, b, c) && Reduced(A, m.Length0 + 3, m.Length0)
    requires E.Length >= m.Length0 && N.Length >= m.Length0 && Z.Length >= m.Length0
    requires {a, b, c} !! {E, N, Z} && E != N && N != Z && E != Z
    requires forall r :: 0 <= r < m.Length0 ==> A[r][r] != 0.0
    modifies E, N, Z
    ensures E[..m.Length0] == ReadOff(A, m.Length0, 3, 0)
    ensures N[..m.Length0] == ReadOff(A, m.Length0, 3, 1)
    ensures Z[..m.Length0] == ReadOff(A, m.Length0, 3, 2)
  {
    var n := m.Length0;
    for i := 0 to n
      invariant forall r :: 0 <= r < i ==> E[r] == ReadOff(A, n, 3, 0)[r]
      invariant forall r :: 0 <= r < i ==> N[r] == ReadOff(A, n, 3, 1)[r]
      invariant forall r :: 0 <= r < i ==> Z[r] == ReadOff(A, n, 3, 2)[r]
    {
      E[i] := a[i] / m[i, i];
      N[i] := b[i] / m[i, i];
      Z[i] := c[i] / m[i, i];
    }
  }

  /** E, N and Z are the unique solutions for the three right-hand sides of a non-singular matrix. */
  ghost predicate SolvedThree(M: Table, n: nat, rhs: seq<Vec>, E: Vec, N: Vec, Z: Vec)
    requires Square(M, n) && |rhs| == 3 && (forall k :: 0 <= k < 3 ==> |rhs[k]| == n)
    requires |E| == |N| == |Z| == n
  {
    !Singular(M, n)
    && SolvedExactlyBy(M, n, rhs[0], E) && SolvedExactlyBy(M, n, rhs[1], N) && SolvedExactlyBy(M, n, rhs[2], Z)
  }

  lemma ReductionSolvesThree(M: Table, n: nat, rhs: seq<Vec>, A: Table)
    requires Square(M, n) && |rhs| == 3 && (forall k :: 0 <= k < 3 ==> |rhs[k]| == n)
    requires |A| == n && Wide(A, n + 3) && Reduced(A, n + 3, n)
    requires SameNull(Augment(M, Sides(n, rhs), n, 3), A, n + 3)
    ensures forall r :: 0 <= r < n ==> A[r][r] != 0.0
    ensures SolvedThree(M, n, rhs, ReadOff(A, n, 3, 0), ReadOff(A, n, 3, 1), ReadOff(A, n, 3, 2))
  {
    ReductionSolves(M, Sides(n, rhs), A, n, 3);
    hide SolvedExactlyBy, SameNull, Reduced, Augment, Sides, Column, ReadOff;
    SidesColumn(n, rhs, 0);
    SidesColumn(n, rhs, 1);
    SidesColumn(n, rhs, 2);
  }

  /** Solve for three coefficient vectors at once. */
  method SolveMatThree(m: array2<real>, a: array<real>, b: array<real>, c: array<real>,
                       E: array<real>, N: array<real>, Z: array<real>)
    returns (status: Status)
    requires m.Length0 == m.Length1 == a.Length == b.Length == c.Length
    requires E.Length >= m.Length0 && N.Length >= m.Length0 && Z.Length >= m.Length0
    requires a != b && b != c && a != c && {a, b, c} !! {E, N, Z} && E != N && N != Z && E != Z
    modifies m, a, b, c, E, N, Z
    ensures status == if PivotsHold(old(Rows(m)), m.Length0, 0, GRASS_EPSILON) then MSUCCESS else MUNSOLVABLE
    ensures status == MSUCCESS ==>
      SolvedThree(old(Rows(m)), m.Length0, [old(a[..]), old(b[..]), old(c[..])],
                  E[..m.Length0], N[..m.Length0], Z[..m.Length0])
    ensures status == MUNSOLVABLE ==> E[..] == old(E[..]) && N[..] == old(N[..]) && Z[..] == old(Z[..])
  {
    hide PivotsHold, SolvedThree, Augment, Sides, Holds3, SameNull, Reduced, ReadOff, Rows;
    var n := m.Length0;
    ghost var M, rhs := Rows(m), [a[..], b[..], c[..]];
    ghost var A0 := Start3(m, a, b, c);
    AcceptanceIgnoresSides(M, n, rhs);
    var solvable, A := Reduce3(m, a, b, c, A0);
    if !solvable {
      return MUNSOLVABLE;
    }
    HoldsShape(A, m, a, b, c);
    ReductionSolvesThree(M, n, rhs, A);
    ReadOut3(m, a, b, c, E, N, Z, A);
    return MSUCCESS;
  }
}

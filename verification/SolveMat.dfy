/**
 The in-place solver of the control-point code. The source keeps the matrix in one flat buffer
 addressed by 1-based (row, column); here it is an array2 with 0-based indices.
 */
module SolveMat {
  import opened Vectors
  import opened Elimination
  import opened LinearSystem

  function Abs(x: real): (r: real)
    ensures r >= 0.0 && (r == x || r == -x)
  {
    if x < 0.0 then -x else x
  }

  ghost function Rows(m: array2<real>): (M: Table)
    requires m.Length0 == m.Length1
    reads m
    ensures Square(M, m.Length0)
    ensures forall r, c :: 0 <= r < m.Length0 && 0 <= c < m.Length0 ==> M[r][c] == m[r, c]
  {
    seq(m.Length0, r requires 0 <= r < m.Length0 reads m =>
      seq(m.Length0, c requires 0 <= c < m.Length0 reads m => m[r, c]))
  }

  lemma RowsAre(m: array2<real>, P: Table)
    requires m.Length0 == m.Length1 && Square(P, m.Length0)
    requires forall r, c :: 0 <= r < m.Length0 && 0 <= c < m.Length0 ==> m[r, c] == P[r][c]
    ensures Rows(m) == P
  {
    forall r | 0 <= r < m.Length0 ensures Rows(m)[r] == P[r] {
      assert forall c :: 0 <= c < m.Length0 ==> Rows(m)[r][c] == P[r][c];
    }
  }

  /** The right-hand sides side by side, one row per equation. */
  ghost function Sides(n: nat, rhs: seq<Vec>): (R: Table)
    requires forall k :: 0 <= k < |rhs| ==> |rhs[k]| == n
    ensures |R| == n && Wide(R, |rhs|)
    ensures forall r, k :: 0 <= r < n && 0 <= k < |rhs| ==> R[r][k] == rhs[k][r]
  {
    seq(n, r requires 0 <= r < n =>
      seq(|rhs|, k requires 0 <= k < |rhs| => rhs[k][r]))
  }

  lemma SidesColumn(n: nat, rhs: seq<Vec>, k: nat)
    requires forall k :: 0 <= k < |rhs| ==> |rhs[k]| == n
    requires k < |rhs|
    ensures Column(Sides(n, rhs), |rhs|, k) == rhs[k]
  {
  }

  /** A is the augmented table held by m with right-hand sides a and b. */
  ghost predicate Holds2(A: Table, m: array2<real>, a: array<real>, b: array<real>)
    reads m, a, b
  {
    var n := m.Length0;
    && m.Length1 == n && |A| == n && Wide(A, n + 2) && a.Length == n && b.Length == n
    && (forall r, c :: 0 <= r < n && 0 <= c < n ==> A[r][c] == m[r, c])
    && (forall r :: 0 <= r < n ==> A[r][n] == a[r] && A[r][n + 1] == b[r])
  }

  /** The row the pivot scan settles on among rows i .. top - 1: the first of largest magnitude. */
  ghost function PivotRow(A: Table, w: nat, i: nat, top: nat): (k: nat)
    requires Wide(A, w) && i < w && i < top <= |A|
    ensures i <= k < top
    ensures forall r :: i <= r < top ==> Abs(A[r][i]) <= Abs(A[k][i])
  {
    if top == i + 1 then i
    else
      var k := PivotRow(A, w, i, top - 1);
      if Abs(A[top - 1][i]) > Abs(A[k][i]) then top - 1 else k
  }

  method FindPivot(m: array2<real>, i: nat, ghost A: Table, ghost w: nat)
    returns (pivot: real, imark: nat)
    requires Wide(A, w) && |A| == m.Length0 == m.Length1 <= w && i < m.Length0
    requires forall r, c :: 0 <= r < m.Length0 && 0 <= c < m.Length0 ==> A[r][c] == m[r, c]
    ensures imark == PivotRow(A, w, i, m.Length0) && pivot == A[imark][i]
  {
    var n := m.Length0;
    pivot, imark := m[i, i], i;
    for i2 := i + 1 to n
      invariant imark == PivotRow(A, w, i, i2) && pivot == A[imark][i]
    {
      var temp := Abs(m[i2, i]);
      if temp > Abs(pivot) {
        pivot, imark := m[i2, i], i2;
      }
    }
  }

  method ExchangeRows(m: array2<real>, i: nat, imark: nat)
    requires m.Length0 == m.Length1 && i < m.Length0 && imark < m.Length0 && i != imark
    modifies m
    ensures forall c :: 0 <= c < m.Length0 ==> m[i, c] == old(m[imark, c]) && m[imark, c] == old(m[i, c])
    ensures forall r, c :: 0 <= r < m.Length0 && r != i && r != imark && 0 <= c < m.Length0 ==> m[r, c] == old(m[r, c])
  {
    var n := m.Length0;
    for j2 := 0 to n
      invariant forall c :: 0 <= c < j2 ==> m[i, c] == old(m[imark, c]) && m[imark, c] == old(m[i, c])
      invariant forall c :: j2 <= c < n ==> m[i, c] == old(m[i, c]) && m[imark, c] == old(m[imark, c])
      invariant forall r, c :: 0 <= r < n && r != i && r != imark && 0 <= c < n ==> m[r, c] == old(m[r, c])
    {
      var temp := m[imark, j2];
      m[imark, j2] := m[i, j2];
      m[i, j2] := temp;
    }
  }

  /** Subtract factor times row i from row i2, from column i on. */
  method SubtractRow(m: array2<real>, i: nat, i2: nat, factor: real)
    requires m.Length0 == m.Length1 && i < m.Length0 && i2 < m.Length0 && i != i2
    requires forall c :: 0 <= c < i ==> m[i, c] == 0.0
    modifies m
    ensures forall c :: 0 <= c < m.Length0 ==> m[i2, c] == old(m[i2, c]) - factor * old(m[i, c])
    ensures forall r, c :: 0 <= r < m.Length0 && r != i2 && 0 <= c < m.Length0 ==> m[r, c] == old(m[r, c])
  {
    var n := m.Length0;
    for j2 := i to n
      invariant forall c :: i <= c < j2 ==> m[i2, c] == old(m[i2, c]) - factor * old(m[i, c])
      invariant forall c :: 0 <= c < i || j2 <= c < n ==> m[i2, c] == old(m[i2, c])
      invariant forall r, c :: 0 <= r < n && r != i2 && 0 <= c < n ==> m[r, c] == old(m[r, c])
    {
      m[i2, j2] := m[i2, j2] - factor * m[i, j2];
    }
  }

  method SwapEntries(a: array<real>, i: nat, k: nat)
    requires i < a.Length && k < a.Length
    modifies a
    ensures a[i] == old(a[k]) && a[k] == old(a[i])
    ensures forall r :: 0 <= r < a.Length && r != i && r != k ==> a[r] == old(a[r])
  {
    var temp := a[k];
    a[k] := a[i];
    a[i] := temp;
  }

  /** Exchange equations i and imark, matrix row and right-hand sides alike. */
  method BringUp2(m: array2<real>, a: array<real>, b: array<real>, i: nat, imark: nat, ghost A: Table)
    requires a != b && Holds2(A, m, a, b) && i <= imark < m.Length0
    modifies m, a, b
    ensures Holds2(Exchange(A, i, imark), m, a, b)
  {
    if imark != i {
      ExchangeRows(m, i, imark);
      SwapEntries(a, i, imark);
      SwapEntries(b, i, imark);
    }
  }

  /** Equation r, its right-hand sides included, is the given row. */
  ghost predicate RowIs2(m: array2<real>, a: array<real>, b: array<real>, r: nat, row: Vec)
    requires r < m.Length0 == m.Length1 == a.Length == b.Length
    reads m, a, b
  {
    var n := m.Length0;
    |row| == n + 2 && (forall c :: 0 <= c < n ==> m[r, c] == row[c]) && a[r] == row[n] && b[r] == row[n + 1]
  }

  /** Subtract factor times equation i from equation i2. */
  method SubtractEquation2(m: array2<real>, a: array<real>, b: array<real>, i: nat, i2: nat, factor: real,
                           ghost u: Vec, ghost v: Vec)
    requires a != b && m.Length0 == m.Length1 == a.Length == b.Length
    requires i < m.Length0 && i2 < m.Length0 && i != i2
    requires RowIs2(m, a, b, i, u) && RowIs2(m, a, b, i2, v) && forall c :: 0 <= c < i ==> u[c] == 0.0
    modifies m, a, b
    ensures RowIs2(m, a, b, i2, Minus(v, factor, u))
    ensures forall r, c :: 0 <= r < m.Length0 && r != i2 && 0 <= c < m.Length0 ==> m[r, c] == old(m[r, c])
    ensures forall r :: 0 <= r < m.Length0 && r != i2 ==> a[r] == old(a[r]) && b[r] == old(b[r])
  {
    SubtractRow(m, i, i2, factor);
    a[i2] := a[i2] - factor * a[i];
    b[i2] := b[i2] - factor * b[i];
  }

  /** Compute zeros above and below the pivot of column i. */
  method ClearOthers2(m: array2<real>, a: array<real>, b: array<real>, i: nat, pivot: real, ghost A: Table)
    requires a != b && Holds2(A, m, a, b) && i < m.Length0
    requires Reduced(A, m.Length0 + 2, i) && pivot == A[i][i] != 0.0
    modifies m, a, b
    ensures Holds2(ClearColumn(A, i, m.Length0 + 2), m, a, b)
  {
    hide Minus;
    var n := m.Length0;
    ghost var B := ClearColumn(A, i, n + 2);
    for i2 := 0 to n
      invariant forall r :: 0 <= r < n ==> RowIs2(m, a, b, r, if r < i2 then B[r] else A[r])
    {
      if i2 != i {
        assert RowIs2(m, a, b, i2, A[i2]) && RowIs2(m, a, b, i, A[i]);
        SubtractEquation2(m, a, b, i, i2, m[i2, i] / pivot, A[i], A[i2]);
      }
    }
    assert forall r :: 0 <= r < n ==> RowIs2(m, a, b, r, B[r]);
  }

  /** Augmented table of a system with two right-hand sides. */
  ghost function Start2(m: array2<real>, a: array<real>, b: array<real>): (A: Table)
    requires m.Length0 == m.Length1 == a.Length == b.Length
    reads m, a, b
    ensures Holds2(A, m, a, b)
  {
    Augment(Rows(m), Sides(m.Length0, [a[..], b[..]]), m.Length0, 2)
  }

  /** No row from i on has a pivot for column i. */
  ghost predicate Stuck(A: Table, w: nat, i: nat)
    requires Wide(A, w)
  {
    i < |A| && i < w && Reduced(A, w, i) && forall r :: i <= r < |A| ==> A[r][i] == 0.0
  }

  /** One pass of the elimination loop: clear column i, unless it has no pivot left. */
  method Pass2(m: array2<real>, a: array<real>, b: array<real>, i: nat, ghost A: Table)
    returns (found: bool, ghost B: Table)
    requires a != b && Holds2(A, m, a, b) && i < m.Length0 && Reduced(A, m.Length0 + 2, i)
    modifies m, a, b
    ensures Holds2(B, m, a, b) && SameNull(A, B, m.Length0 + 2)
    ensures if found then Reduced(B, m.Length0 + 2, i + 1) else Stuck(B, m.Length0 + 2, i)
  {
    ghost var w := m.Length0 + 2;
    var pivot, imark := FindPivot(m, i, A, w);
    if pivot == 0.0 {
      return false, A;
    }
    PassInvariant(A, w, i, imark);
    ghost var X := Exchange(A, i, imark);
    BringUp2(m, a, b, i, imark, A);
    ClearOthers2(m, a, b, i, pivot, X);
    return true, ClearColumn(X, i, w);
  }

  /** The elimination loop: reduce every column, or stop at the first one without a pivot. */
  method Reduce2(m: array2<real>, a: array<real>, b: array<real>, ghost A0: Table)
    returns (solvable: bool, ghost A: Table, ghost stop: nat)
    requires a != b && Holds2(A0, m, a, b)
    modifies m, a, b
    ensures Holds2(A, m, a, b) && SameNull(A0, A, m.Length0 + 2)
    ensures if solvable then Reduced(A, m.Length0 + 2, m.Length0) else Stuck(A, m.Length0 + 2, stop)
  {
    A := A0;
    for i := 0 to m.Length0
      invariant Holds2(A, m, a, b) && Reduced(A, m.Length0 + 2, i) && SameNull(A0, A, m.Length0 + 2)
    {
      var found, B := Pass2(m, a, b, i, A);
      A := B;
      if !found {
        return false, A, i;
      }
    }
    return true, A, m.Length0;
  }

  /** Divide the column vectors by the diagonal. */
  method ReadOut2(m: array2<real>, a: array<real>, b: array<real>, E: array<real>, N: array<real>, ghost A: Table)
    requires Holds2(A, m, a, b) && Reduced(A, m.Length0 + 2, m.Length0)
    requires E.Length >= m.Length0 && N.Length >= m.Length0
    requires a != E && a != N && b != E && b != N && E != N
    requires forall r :: 0 <= r < m.Length0 ==> A[r][r] != 0.0
    modifies E, N
    ensures E[..m.Length0] == ReadOff(A, m.Length0, 2, 0)
    ensures N[..m.Length0] == ReadOff(A, m.Length0, 2, 1)
  {
    var n := m.Length0;
    for i := 0 to n
      invariant forall r :: 0 <= r < i ==> E[r] == ReadOff(A, n, 2, 0)[r] && N[r] == ReadOff(A, n, 2, 1)[r]
    {
      E[i] := a[i] / m[i, i];
      N[i] := b[i] / m[i, i];
    }
  }

  /** Solve for two coefficient vectors at once: grass_georef.c and, verbatim, grass_georef_tps.c. */
  method SolveMat2(m: array2<real>, a: array<real>, b: array<real>, E: array<real>, N: array<real>)
    returns (status: Status)
    requires m.Length0 == m.Length1 == a.Length == b.Length
    requires E.Length >= m.Length0 && N.Length >= m.Length0
    requires a != b && a != E && a != N && b != E && b != N && E != N
    modifies m, a, b, E, N
    ensures status == if Singular(old(Rows(m)), m.Length0) then MUNSOLVABLE else MSUCCESS
    ensures status == MSUCCESS ==>
      && SolvedExactlyBy(old(Rows(m)), m.Length0, old(a[..]), E[..m.Length0])
      && SolvedExactlyBy(old(Rows(m)), m.Length0, old(b[..]), N[..m.Length0])
    ensures status == MUNSOLVABLE ==> E[..] == old(E[..]) && N[..] == old(N[..])
  {
    var n := m.Length0;
    ghost var M, rhs := Rows(m), [a[..], b[..]];
    var solvable, A, stop := Reduce2(m, a, b, Start2(m, a, b));
    if !solvable {
      StuckIsSingular(M, Sides(n, rhs), A, n, 2, stop);
      return MUNSOLVABLE;
    }
    ReductionSolves(M, Sides(n, rhs), A, n, 2);
    SidesColumn(n, rhs, 0);
    SidesColumn(n, rhs, 1);
    ReadOut2(m, a, b, E, N, A);
    return MSUCCESS;
  }

  lemma PassInvariant(A: Table, w: nat, i: nat, k: nat)
    requires Wide(A, w) && i <= k < |A| <= w && A[k][i] != 0.0 && Reduced(A, w, i)
    ensures var X := Exchange(A, i, k);
      Wide(X, w) && X[i] == A[k] && Reduced(X, w, i) &&
      Reduced(ClearColumn(X, i, w), w, i + 1) && SameNull(A, ClearColumn(X, i, w), w)
  {
    var X := Exchange(A, i, k);
    ExchangeKeepsNull(A, i, k, w);
    ExchangeReduces(A, w, i, k);
    ClearColumnKeepsNull(X, i, w);
    ClearColumnReduces(X, w, i);
  }
}

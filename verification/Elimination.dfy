/**
 Gauss-Jordan elimination with row exchange, seen as a rewriting of an augmented table
 (matrix columns, then one column per right-hand side). Every rewriting step keeps the set of
 vectors the table annihilates; a fully reduced table reads the solution off its diagonal.
 */
module Elimination {
  import opened Vectors

  /** The table annihilates v: every row is orthogonal to it. */
  ghost predicate Null(A: Table, v: Vec)
    requires Wide(A, |v|)
  {
    forall r :: 0 <= r < |A| ==> Dot(A[r], v, |v|) == 0.0
  }

  /** Two tables annihilate exactly the same vectors. */
  ghost predicate SameNull(A: Table, B: Table, w: nat)
    requires Wide(A, w) && Wide(B, w)
  {
    forall v: Vec :: |v| == w ==> (Null(A, v) <==> Null(B, v))
  }

  function Exchange(A: Table, i: nat, k: nat): (B: Table)
    requires i < |A| && k < |A|
    ensures |B| == |A|
  {
    A[i := A[k]][k := A[i]]
  }

  /** Clear column i from every row but row i. */
  function ClearColumn(A: Table, i: nat, w: nat): (B: Table)
    requires Wide(A, w) && i < |A| && i < w && A[i][i] != 0.0
    ensures |B| == |A| && Wide(B, w)
  {
    seq(|A|, r requires 0 <= r < |A| => if r == i then A[i] else Minus(A[r], A[r][i] / A[i][i], A[i]))
  }

  /** Columns left of k hold a non-zero on the diagonal and zero everywhere else. */
  ghost predicate Reduced(A: Table, w: nat, k: nat)
    requires Wide(A, w) && k <= |A| && k <= w
  {
    forall r, c :: 0 <= r < |A| && 0 <= c < k ==> (A[r][c] == 0.0 <==> r != c)
  }

  lemma ExchangeKeepsNull(A: Table, i: nat, k: nat, w: nat)
    requires Wide(A, w) && i < |A| && k < |A|
    ensures Wide(Exchange(A, i, k), w)
    ensures SameNull(A, Exchange(A, i, k), w)
  {
    var B := Exchange(A, i, k);
    forall v: Vec | |v| == w
      ensures Null(A, v) <==> Null(B, v)
    {
      assert B[i] == A[k] && B[k] == A[i];
      assert forall r :: 0 <= r < |A| && r != i && r != k ==> B[r] == A[r];
    }
  }

  lemma ClearColumnKeepsNull(A: Table, i: nat, w: nat)
    requires Wide(A, w) && i < |A| && i < w && A[i][i] != 0.0
    ensures SameNull(A, ClearColumn(A, i, w), w)
  {
    var B := ClearColumn(A, i, w);
    forall v: Vec | |v| == w
      ensures Null(A, v) <==> Null(B, v)
    {
      forall r | 0 <= r < |A| && r != i
        ensures Dot(B[r], v, w) == Dot(A[r], v, w) - A[r][i] / A[i][i] * Dot(A[i], v, w)
      {
        DotMinus(A[r], A[r][i] / A[i][i], A[i], v, w);
      }
      assert B[i] == A[i];
      if Null(A, v) {
        forall r | 0 <= r < |B| ensures Dot(B[r], v, w) == 0.0 {
          assert Dot(A[r], v, w) == 0.0 && Dot(A[i], v, w) == 0.0;
        }
      }
      if Null(B, v) {
        forall r | 0 <= r < |A| ensures Dot(A[r], v, w) == 0.0 {
          assert Dot(B[r], v, w) == 0.0 && Dot(B[i], v, w) == 0.0;
        }
      }
    }
  }

  lemma SameNullTransitive(A: Table, B: Table, C: Table, w: nat)
    requires Wide(A, w) && Wide(B, w) && Wide(C, w)
    requires SameNull(A, B, w) && SameNull(B, C, w)
    ensures SameNull(A, C, w)
  {
  }

  /** Clearing column k extends the reduced part by one column. */
  lemma ClearColumnReduces(A: Table, w: nat, k: nat)
    requires Wide(A, w) && k < |A| && k < w && Reduced(A, w, k) && A[k][k] != 0.0
    ensures Reduced(ClearColumn(A, k, w), w, k + 1)
  {
  }

  lemma ExchangeReduces(A: Table, w: nat, k: nat, m: nat)
    requires Wide(A, w) && k <= m < |A| && k <= w && Reduced(A, w, k)
    ensures Wide(Exchange(A, k, m), w) && Reduced(Exchange(A, k, m), w, k)
  {
  }

  lemma SplitRow(row: Vec, n: nat, x: Vec, s: Vec, q: nat)
    requires |row| == n + q && |x| == n && |s| == q
    ensures Dot(row, x + s, n + q) == Dot(row[..n], x, n) + Dot(row[n..], s, q)
  {
    var u, p := row[..n], row[n..];
    assert row == u + p;
    DotConcat(u, p, x, s, q);
  }

  lemma DiagonalRow(row: Vec, n: nat, x: Vec, r: nat)
    requires n <= |row| && |x| == n && r < n
    requires forall j :: 0 <= j < n && j != r ==> row[j] == 0.0
    ensures Dot(row[..n], x, n) == row[r] * x[r]
  {
    DotDiagonal(row[..n], x, n, r);
  }

  /** In a reduced table each row ties one unknown to the right-hand-side columns. */
  lemma ReducedRow(A: Table, n: nat, x: Vec, s: Vec, q: nat, r: nat)
    requires Wide(A, n + q) && |A| == n == |x| && |s| == q && Reduced(A, n + q, n) && r < n
    ensures Dot(A[r], x + s, n + q) == A[r][r] * x[r] + Dot(A[r][n..], s, q)
  {
    hide Dot;
    var row := A[r];
    assert forall j :: 0 <= j < n && j != r ==> row[j] == 0.0;
    SplitRow(row, n, x, s, q);
    DiagonalRow(row, n, x, r);
  }

  /** A column with no pivot left gives a non-zero annihilated vector with empty right-hand sides. */
  lemma StuckKernel(A: Table, n: nat, q: nat, i: nat) returns (x: Vec)
    requires |A| == n && Wide(A, n + q) && i < n && Reduced(A, n + q, i)
    requires forall r :: i <= r < n ==> A[r][i] == 0.0
    ensures |x| == n && x[i] == 1.0 && Null(A, x + Zeros(q))
  {
    x := seq(n, c requires 0 <= c < n => if c < i then - A[c][i] / A[c][c] else if c == i then 1.0 else 0.0);
    var v := x + Zeros(q);
    forall r | 0 <= r < n ensures Dot(A[r], v, n + q) == 0.0 {
      if r < i {
        forall j | 0 <= j < n + q && j != r && j != i ensures A[r][j] * v[j] == 0.0 {
          if j < i { assert A[r][j] == 0.0; } else { assert v[j] == 0.0; }
        }
        DotPair(A[r], v, n + q, r, i);
        assert A[r][r] * (- A[r][i] / A[r][r]) == - A[r][i];
      } else {
        forall j | 0 <= j < n + q && j != i ensures A[r][j] * v[j] == 0.0 {
          if j < i { assert A[r][j] == 0.0; } else { assert v[j] == 0.0; }
        }
        DotSingle(A[r], v, n + q, i);
      }
    }
  }
}

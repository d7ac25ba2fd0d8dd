/** What it means to solve a square system, and what an eliminated augmented table says about it. */
module LinearSystem {
  import opened Vectors
  import opened Elimination

  datatype Status = MSUCCESS | MNPTERR | MUNSOLVABLE | MMEMERR | MPARMERR | MINTERR

  ghost predicate Square(M: Table, n: nat) {
    |M| == n && Wide(M, n)
  }

  ghost predicate Solves(M: Table, n: nat, a: Vec, x: Vec)
    requires Square(M, n) && |a| == n && |x| == n
  {
    forall r :: 0 <= r < n ==> Dot(M[r], x, n) == a[r]
  }

  ghost predicate NonZero(x: Vec) {
    exists i :: 0 <= i < |x| && x[i] != 0.0
  }

  /** The matrix sends some non-zero vector to zero. */
  ghost predicate Singular(M: Table, n: nat)
    requires Square(M, n)
  {
    exists x: Vec :: |x| == n && NonZero(x) && Solves(M, n, Zeros(n), x)
  }

  /** x is the one and only solution. */
  ghost predicate SolvedExactlyBy(M: Table, n: nat, a: Vec, x: Vec)
    requires Square(M, n) && |a| == n && |x| == n
  {
    forall y: Vec :: |y| == n ==> (Solves(M, n, a, y) <==> y == x)
  }

  function Column(R: Table, q: nat, k: nat): (a: Vec)
    requires Wide(R, q) && k < q
    ensures |a| == |R|
  {
    seq(|R|, r requires 0 <= r < |R| => R[r][k])
  }

  /** The matrix with its right-hand sides attached, row by row. */
  function Augment(M: Table, R: Table, n: nat, q: nat): (A: Table)
    requires Square(M, n) && |R| == n && Wide(R, q)
    ensures |A| == n && Wide(A, n + q)
    ensures forall r :: 0 <= r < n ==> A[r] == M[r] + R[r]
  {
    seq(n, r requires 0 <= r < n => M[r] + R[r])
  }

  /** Minus one in place k: appended to x it turns annihilation into solving for right-hand side k. */
  function Pick(q: nat, k: nat): (s: Vec)
    ensures |s| == q
  {
    seq(q, j => if j == k then -1.0 else 0.0)
  }

  lemma PickDot(p: Vec, q: nat, k: nat)
    requires |p| == q && k < q
    ensures Dot(p, Pick(q, k), q) == - p[k]
  {
    DotSingle(p, Pick(q, k), q, k);
  }

  lemma {:induction false} ZerosDot(p: Vec, q: nat, k: nat)
    requires k <= q == |p|
    ensures Dot(p, Zeros(q), k) == 0.0
  {
    DotSingle(p, Zeros(q), k, q);
  }

  lemma NullIsSolving(M: Table, R: Table, n: nat, q: nat, k: nat, x: Vec)
    requires Square(M, n) && |R| == n && Wide(R, q) && k < q && |x| == n
    ensures Null(Augment(M, R, n, q), x + Pick(q, k)) <==> Solves(M, n, Column(R, q, k), x)
  {
    var A, a := Augment(M, R, n, q), Column(R, q, k);
    forall r | 0 <= r < n
      ensures Dot(A[r], x + Pick(q, k), n + q) == Dot(M[r], x, n) - a[r]
    {
      DotConcat(M[r], R[r], x, Pick(q, k), q);
      PickDot(R[r], q, k);
    }
  }

  lemma NullIsKernel(M: Table, R: Table, n: nat, q: nat, x: Vec)
    requires Square(M, n) && |R| == n && Wide(R, q) && |x| == n
    ensures Null(Augment(M, R, n, q), x + Zeros(q)) <==> Solves(M, n, Zeros(n), x)
  {
    var A := Augment(M, R, n, q);
    forall r | 0 <= r < n
      ensures Dot(A[r], x + Zeros(q), n + q) == Dot(M[r], x, n)
    {
      DotConcat(M[r], R[r], x, Zeros(q), q);
      ZerosDot(R[r], q, q);
    }
  }

  /** The value on row r that the diagonal division reads off for right-hand side k. */
  function ReadOff(A: Table, n: nat, q: nat, k: nat): (x: Vec)
    requires |A| == n && Wide(A, n + q) && k < q
    requires forall r :: 0 <= r < n ==> A[r][r] != 0.0
    ensures |x| == n
  {
    seq(n, r requires 0 <= r < n => A[r][n + k] / A[r][r])
  }

  lemma ReducedSolution(A: Table, n: nat, q: nat, k: nat, y: Vec)
    requires |A| == n && Wide(A, n + q) && Reduced(A, n + q, n) && k < q && |y| == n
    ensures forall r :: 0 <= r < n ==> A[r][r] != 0.0
    ensures Null(A, y + Pick(q, k)) <==> y == ReadOff(A, n, q, k)
  {
    forall r | 0 <= r < n
      ensures A[r][r] != 0.0
      ensures Dot(A[r], y + Pick(q, k), n + q) == 0.0 <==> y[r] == A[r][n + k] / A[r][r]
    {
      ReducedRow(A, n, y, Pick(q, k), q, r);
      PickDot(A[r][n..], q, k);
      DivideOut(A[r][r], y[r], A[r][n + k]);
    }
  }

  lemma DivideOut(d: real, y: real, a: real)
    requires d != 0.0
    ensures d * y - a == 0.0 <==> y == a / d
  {
  }

  lemma ReducedKernel(A: Table, n: nat, q: nat, y: Vec)
    requires |A| == n && Wide(A, n + q) && Reduced(A, n + q, n) && |y| == n
    requires Null(A, y + Zeros(q))
    ensures !NonZero(y)
  {
    forall r | 0 <= r < n ensures y[r] == 0.0 {
      ReducedRow(A, n, y, Zeros(q), q, r);
      ZerosDot(A[r][n..], q, q);
      assert A[r][r] * y[r] == 0.0 && A[r][r] != 0.0;
    }
  }

  /** Full reduction: one solution for each right-hand side of the original system, and no kernel. */
  lemma ReductionSolves(M: Table, R: Table, A: Table, n: nat, q: nat)
    requires Square(M, n) && |R| == n && Wide(R, q)
    requires |A| == n && Wide(A, n + q) && Reduced(A, n + q, n)
    requires SameNull(Augment(M, R, n, q), A, n + q)
    ensures !Singular(M, n)
    ensures forall r :: 0 <= r < n ==> A[r][r] != 0.0
    ensures forall k :: 0 <= k < q ==> SolvedExactlyBy(M, n, Column(R, q, k), ReadOff(A, n, q, k))
  {
    forall x: Vec | |x| == n && Solves(M, n, Zeros(n), x) ensures !NonZero(x) {
      NullIsKernel(M, R, n, q, x);
      ReducedKernel(A, n, q, x);
    }
    forall k, y: Vec | 0 <= k < q && |y| == n
      ensures Solves(M, n, Column(R, q, k), y) <==> y == ReadOff(A, n, q, k)
    {
      NullIsSolving(M, R, n, q, k, y);
      ReducedSolution(A, n, q, k, y);
    }
  }

  /** No pivot left in a column: the original matrix was singular. */
  lemma StuckIsSingular(M: Table, R: Table, A: Table, n: nat, q: nat, i: nat)
    requires Square(M, n) && |R| == n && Wide(R, q)
    requires |A| == n && Wide(A, n + q) && i < n && Reduced(A, n + q, i)
    requires SameNull(Augment(M, R, n, q), A, n + q)
    requires forall r :: i <= r < n ==> A[r][i] == 0.0
    ensures Singular(M, n)
  {
    var x := StuckKernel(A, n, q, i);
    NullIsKernel(M, R, n, q, x);
    assert NonZero(x);
  }
}

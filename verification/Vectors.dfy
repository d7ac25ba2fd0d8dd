/** Finite sums of products over exact reals: the arithmetic beneath the control-point solvers. */
module Vectors {

  type Vec = seq<real>
  type Table = seq<Vec>

  ghost predicate Wide(A: Table, w: nat) {
    forall r :: 0 <= r < |A| ==> |A[r]| == w
  }

  /** A product under a name, so that proofs about loops can hide the multiplication. */
  function Times(x: real, y: real): real {
    x * y
  }

  /** The sum of u[j] * v[j] over j < k. */
  function Dot(u: Vec, v: Vec, k: nat): real
    requires k <= |u| && k <= |v|
  {
    if k == 0 then 0.0 else Dot(u, v, k - 1) + u[k - 1] * v[k - 1]
  }

  /** u - f * w, column by column. */
  function Minus(u: Vec, f: real, w: Vec): (d: Vec)
    requires |u| == |w|
    ensures |d| == |u|
  {
    seq(|u|, c requires 0 <= c < |u| => u[c] - f * w[c])
  }

  function Zeros(n: nat): (z: Vec)
    ensures |z| == n
    ensures forall i :: 0 <= i < n ==> z[i] == 0.0
  {
    seq(n, _ => 0.0)
  }

  lemma {:induction false} DotMinus(u: Vec, f: real, w: Vec, v: Vec, k: nat)
    requires |u| == |w| && k <= |u| && k <= |v|
    ensures Dot(Minus(u, f, w), v, k) == Dot(u, v, k) - f * Dot(w, v, k)
  {
    if k > 0 {
      DotMinus(u, f, w, v, k - 1);
    }
  }

  lemma {:induction false} DotSymmetric(u: Vec, v: Vec, k: nat)
    requires k <= |u| && k <= |v|
    ensures Dot(u, v, k) == Dot(v, u, k)
  {
    if k > 0 {
      DotSymmetric(u, v, k - 1);
    }
  }

  /** Only the first k columns of each vector matter. */
  lemma {:induction false} DotAgree(u: Vec, u': Vec, v: Vec, v': Vec, k: nat)
    requires k <= |u| && k <= |u'| && k <= |v| && k <= |v'|
    requires forall j :: 0 <= j < k ==> u[j] == u'[j] && v[j] == v'[j]
    ensures Dot(u, v, k) == Dot(u', v', k)
  {
    if k > 0 {
      DotAgree(u, u', v, v', k - 1);
    }
  }

  lemma {:induction false} DotConcat(u: Vec, p: Vec, v: Vec, q: Vec, k: nat)
    requires |u| == |v| && k <= |p| && k <= |q|
    ensures Dot(u + p, v + q, |u| + k) == Dot(u, v, |u|) + Dot(p, q, k)
  {
    if k == 0 {
      DotAgree(u + p, u, v + q, v, |u|);
    } else {
      DotConcat(u, p, v, q, k - 1);
    }
  }

  /** A sum whose every product but (at most) the i-th is zero. */
  lemma {:induction false} DotSingle(u: Vec, v: Vec, k: nat, i: nat)
    requires k <= |u| && k <= |v|
    requires forall j :: 0 <= j < k && j != i ==> u[j] * v[j] == 0.0
    ensures Dot(u, v, k) == if i < k then u[i] * v[i] else 0.0
  {
    if k > 0 {
      DotSingle(u, v, k - 1, i);
    }
  }

  /** A row that is zero off its i-th column picks out v[i]. */
  lemma {:induction false} DotDiagonal(u: Vec, v: Vec, k: nat, i: nat)
    requires k <= |u| && k <= |v|
    requires forall j :: 0 <= j < k && j != i ==> u[j] == 0.0
    ensures Dot(u, v, k) == if i < k then u[i] * v[i] else 0.0
  {
    if k > 0 {
      DotDiagonal(u, v, k - 1, i);
    }
  }

  /** A sum whose every product but (at most) the i-th and the m-th is zero. */
  lemma {:induction false} DotPair(u: Vec, v: Vec, k: nat, i: nat, m: nat)
    requires i != m && i < k && m < k && k <= |u| && k <= |v|
    requires forall j :: 0 <= j < k && j != i && j != m ==> u[j] * v[j] == 0.0
    ensures Dot(u, v, k) == u[i] * v[i] + u[m] * v[m]
  {
    if i == k - 1 {
      DotSingle(u, v, k - 1, m);
    } else if m == k - 1 {
      DotSingle(u, v, k - 1, i);
    } else {
      DotPair(u, v, k - 1, i, m);
    }
  }

  /** The step from c to d, added to c, is d. */
  lemma StepTo(c: Vec, d: Vec)
    requires |c| == |d|
    ensures Minus(c, -1.0, Minus(d, 1.0, c)) == d
  {
  }
}

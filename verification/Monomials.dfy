/** Which polynomials are fitted: every monomial of total degree at most the order is exactly one term. */
module Monomials {
  import opened Vectors
  import opened LinearSystem
  import opened LeastSquares
  import G = Georef
  import G3 = Georef3D

  function Power(x: real, k: nat): real {
    if k == 0 then 1.0 else Power(x, k - 1) * x
  }

  lemma SmallPowers(x: real)
    ensures Power(x, 0) == 1.0 && Power(x, 1) == x && Power(x, 2) == x * x && Power(x, 3) == x * x * x
  {
    assert Power(x, 1) == Power(x, 0) * x;
    assert Power(x, 2) == Power(x, 1) * x;
    assert Power(x, 3) == Power(x, 2) * x;
  }

  // ----- the plane -----

  /** The exponents of easting and northing in each of the ten terms. */
  function Exponents(term: nat): (nat, nat) {
    match term
    case 1 => (0, 0)
    case 2 => (1, 0)
    case 3 => (0, 1)
    case 4 => (2, 0)
    case 5 => (1, 1)
    case 6 => (0, 2)
    case 7 => (3, 0)
    case 8 => (2, 1)
    case 9 => (1, 2)
    case _ => (0, 3)
  }

  lemma TermIsMonomial(term: nat, e: real, n: real)
    requires 1 <= term <= 10
    ensures var (i, j) := Exponents(term); G.Term(term, e, n) == Power(e, i) * Power(n, j)
  {
    SmallPowers(e);
    SmallPowers(n);
    hide Power;
  }

  /** There are 3, 6 and 10 terms, each monomial up to the order among them once. */
  lemma EveryMonomialOnce(order: nat, i: nat, j: nat)
    requires 1 <= order <= 3 && i + j <= order
    ensures G.Size(order) == (if order == 1 then 3 else if order == 2 then 6 else 10)
    ensures exists t: nat :: 1 <= t <= G.Size(order) && Exponents(t) == (i, j)
    ensures forall t: nat, u: nat | 1 <= t <= 10 && 1 <= u <= 10 && Exponents(t) == Exponents(u) :: t == u
    ensures forall t: nat | 1 <= t <= 10 :: t <= G.Size(order) <==> Exponents(t).0 + Exponents(t).1 <= order
  {
    var t := if i + j == 0 then 1 else if i + j == 1 then 2 + j else if i + j == 2 then 4 + j else 7 + j;
    assert Exponents(t) == (i, j);
  }

  // ----- space -----

  /** The exponents of easting, northing and height in each of the twenty terms. */
  function Exponents3(term: nat): (nat, nat, nat) {
    match term
    case 1 => (0, 0, 0)
    case 2 => (1, 0, 0)
    case 3 => (0, 1, 0)
    case 4 => (0, 0, 1)
    case 5 => (2, 0, 0)
    case 6 => (1, 1, 0)
    case 7 => (1, 0, 1)
    case 8 => (0, 2, 0)
    case 9 => (0, 1, 1)
    case 10 => (0, 0, 2)
    case 11 => (3, 0, 0)
    case 12 => (2, 1, 0)
    case 13 => (2, 0, 1)
    case 14 => (1, 2, 0)
    case 15 => (1, 1, 1)
    case 16 => (1, 0, 2)
    case 17 => (0, 3, 0)
    case 18 => (0, 2, 1)
    case 19 => (0, 1, 2)
    case _ => (0, 0, 3)
  }

  lemma TermIsMonomial3(term: nat, e: real, n: real, z: real)
    requires 1 <= term <= 20
    ensures var (i, j, k) := Exponents3(term); G3.Term(term, e, n, z) == Power(e, i) * Power(n, j) * Power(z, k)
  {
    SmallPowers(e);
    SmallPowers(n);
    SmallPowers(z);
    hide Power;
  }

  /** The number of the term with these exponents. */
  function Number3(i: nat, j: nat, k: nat): nat
    requires i + j + k <= 3
  {
    if i + j + k == 0 then 1
    else if i + j + k == 1 then if i == 1 then 2 else if j == 1 then 3 else 4
    else if i + j + k == 2 then if i == 2 then 5 else if i == 1 then 6 + k else 8 + k
    else if i == 3 then 11 else if i == 2 then 12 + k else if i == 1 then 14 + k else 17 + k
  }

  /** There are 4, 10 and 20 terms, each monomial up to the order among them once. */
  lemma EveryMonomialOnce3(order: nat, i: nat, j: nat, k: nat)
    requires 1 <= order <= 3 && i + j + k <= order
    ensures G3.Size(order) == (if order == 1 then 4 else if order == 2 then 10 else 20)
    ensures exists t: nat :: 1 <= t <= G3.Size(order) && Exponents3(t) == (i, j, k)
    ensures forall t: nat, u: nat | 1 <= t <= 20 && 1 <= u <= 20 && Exponents3(t) == Exponents3(u) :: t == u
    ensures forall t: nat | 1 <= t <= 20 ::
      t <= G3.Size(order) <==> Exponents3(t).0 + Exponents3(t).1 + Exponents3(t).2 <= order
  {
    assert Exponents3(Number3(i, j, k)) == (i, j, k);
    forall t: nat | 1 <= t <= 20
      ensures Exponents3(t).0 + Exponents3(t).1 + Exponents3(t).2 <= 3
      ensures Number3(Exponents3(t).0, Exponents3(t).1, Exponents3(t).2) == t
    {
    }
    hide Number3;
  }

  // ----- orders -----

  /** Orders 1 to 3 are fitted and evaluated, and no others. */
  lemma OrdersEvaluated(x: real, y: real, z: real, C: Vec, order: int)
    requires |C| == 20
    ensures G.Evaluate(x, y, C, C, order).Some? <==> order == 1 || order == 2 || order == 3
    ensures G3.Evaluate(x, y, z, C, C, C, order).Some? <==> order == 1 || order == 2 || order == 3
    ensures 1 <= order <= G.MAXORDER <==> order == 1 || order == 2 || order == 3
    ensures 1 <= order <= G3.MAXORDER <==> order == 1 || order == 2 || order == 3
  {
  }

  /** A fit reports too few points exactly below one point for each monomial. */
  lemma PointsNeeded(P: Table, Q: Table, order: nat)
    requires 1 <= order <= 3 && Wide(P, G.Size(order)) && Wide(Q, G3.Size(order))
    ensures FitStatus(P, G.Size(order)) == MNPTERR
      <==> |P| < (if order == 1 then 3 else if order == 2 then 6 else 10)
    ensures G3.FitStatus3(Q, G3.Size(order)) == MNPTERR
      <==> |Q| < (if order == 1 then 4 else if order == 2 then 10 else 20)
  {
    hide Degenerate;
  }
}

/**
 Thin-plate-spline georeferencing (grass_georef_tps.c). The natural logarithm is a parameter:
 nothing below depends on which function it is.
 */
module ThinPlateSpline {
  import opened Vectors
  import opened LinearSystem
  import opened SolveMat
  import opened ControlPointSet
  import opened Georef

  const MAX_TPS_POINTS := 100000

  /** The radial base function r * r * log(r), computed from the squared distance. */
  function Base(log: real -> real, x1: real, y1: real, x2: real, y2: real): real {
    if x1 == x2 && y1 == y2 then 0.0
    else
      var dist := (x2 - x1) * (x2 - x1) + (y2 - y1) * (y2 - y1);
      dist * log(dist) * 0.5
  }

  ghost predicate Inside(act: seq<nat>, es: Vec, ns: Vec) {
    forall r :: 0 <= r < |act| ==> act[r] < |es| && act[r] < |ns|
  }

  /** What each coefficient is multiplied with at (e, n): 1, e, n, then the base function of each centre. */
  function SplineRow(log: real -> real, e: real, n: real, es: Vec, ns: Vec, act: seq<nat>): (row: Vec)
    requires Inside(act, es, ns)
    ensures |row| == |act| + 3
  {
    [1.0, e, n] + seq(|act|, c requires 0 <= c < |act| => Base(log, e, n, es[act[c]], ns[act[c]]))
  }

  /** The three side conditions: weights sum to zero and are orthogonal to both source coordinates. */
  function SideRow(k: nat, es: Vec, ns: Vec, act: seq<nat>): (row: Vec)
    requires Inside(act, es, ns)
    ensures |row| == |act| + 3
  {
    Zeros(3) + (if k == 0 then seq(|act|, _ => 1.0) else if k == 1 then Picked(es, act) else Picked(ns, act))
  }

  function SystemRow(log: real -> real, es: Vec, ns: Vec, act: seq<nat>, r: nat): (row: Vec)
    requires Inside(act, es, ns) && r < |act| + 3
    ensures |row| == |act| + 3
  {
    if r < 3 then SideRow(r, es, ns, act)
    else SplineRow(log, es[act[r - 3]], ns[act[r - 3]], es, ns, act)
  }

  /** The bordered spline system. */
  function SplineSystem(log: real -> real, es: Vec, ns: Vec, act: seq<nat>): (S: Table)
    requires Inside(act, es, ns)
    ensures Square(S, |act| + 3)
  {
    seq(|act| + 3, r requires 0 <= r < |act| + 3 => SystemRow(log, es, ns, act, r))
  }

  function SplineTargets(t: Vec, act: seq<nat>): (a: Vec)
    requires forall r :: 0 <= r < |act| ==> act[r] < |t|
    ensures |a| == |act| + 3
  {
    Zeros(3) + Picked(t, act)
  }

  /** One coordinate of the spline at (e, n): affine part plus weighted base functions. */
  function Spline(log: real -> real, e: real, n: real, es: Vec, ns: Vec, act: seq<nat>, C: Vec, m: nat): real
    requires Inside(act, es, ns) && m <= |act| && m + 3 <= |C|
  {
    if m == 0 then C[0] + e * C[1] + n * C[2]
    else Spline(log, e, n, es, ns, act, C, m - 1) + Times(C[m + 2], Base(log, e, n, es[act[m - 1]], ns[act[m - 1]]))
  }

  lemma SplineGrows(log: real -> real, e: real, n: real, es: Vec, ns: Vec, act: seq<nat>, C: Vec, m: nat)
    requires Inside(act, es, ns) && m < |act| && m + 4 <= |C|
    ensures Spline(log, e, n, es, ns, act, C, m + 1)
      == Spline(log, e, n, es, ns, act, C, m) + Times(C[m + 3], Base(log, e, n, es[act[m]], ns[act[m]]))
  {
    hide Base, Times;
  }

  lemma {:induction false} SplineIsDot(
    log: real -> real, e: real, n: real, es: Vec, ns: Vec, act: seq<nat>, C: Vec, m: nat)
    requires Inside(act, es, ns) && m <= |act| && m + 3 <= |C|
    ensures Spline(log, e, n, es, ns, act, C, m) == Dot(SplineRow(log, e, n, es, ns, act), C, m + 3)
  {
    if m == 0 {
      DotThree(SplineRow(log, e, n, es, ns, act), C);
    } else {
      hide Base;
      SplineIsDot(log, e, n, es, ns, act, C, m - 1);
    }
  }

  method AffinePart(ghost log: real -> real, e1: real, n1: real, C: array<real>, ghost es: Vec, ghost ns: Vec,
                    ghost act: seq<nat>) returns (v: real)
    requires Inside(act, es, ns) && 3 <= C.Length
    ensures v == Spline(log, e1, n1, es, ns, act, C[..], 0)
  {
    v := C[0] + e1 * C[1] + n1 * C[2];
  }

  /** The term of active point number j, which is point i. */
  method AddTerm(log: real -> real, e1: real, n1: real, E: array<real>, N: array<real>, pe: array<real>,
                 pn: array<real>, i: nat, j: nat, ghost act: seq<nat>, e: real, n: real) returns (e': real, n': real)
    requires Inside(act, pe[..], pn[..]) && j < |act| && act[j] == i && i < pe.Length && i < pn.Length
    requires j + 4 <= E.Length && j + 4 <= N.Length
    requires e == Spline(log, e1, n1, pe[..], pn[..], act, E[..], j)
    requires n == Spline(log, e1, n1, pe[..], pn[..], act, N[..], j)
    ensures e' == Spline(log, e1, n1, pe[..], pn[..], act, E[..], j + 1)
    ensures n' == Spline(log, e1, n1, pe[..], pn[..], act, N[..], j + 1)
  {
    hide Base, Times, Spline;
    SplineGrows(log, e1, n1, pe[..], pn[..], act, E[..], j);
    SplineGrows(log, e1, n1, pe[..], pn[..], act, N[..], j);
    var dist := Base(log, e1, n1, pe[i], pn[i]);
    e' := e + Times(E[j + 3], dist);
    n' := n + Times(N[j + 3], dist);
  }

  /** Affine part, then one weighted base function per active centre. */
  method SumSpline(log: real -> real, e1: real, n1: real, E: array<real>, N: array<real>,
                    pe: array<real>, pn: array<real>, status: array<int>, count: nat, ghost act: seq<nat>)
    returns (e: real, n: real)
    requires count <= pe.Length && count <= pn.Length && count <= status.Length && act == Active(status[..], count)
    requires |act| + 3 <= E.Length && |act| + 3 <= N.Length
    ensures e == Spline(log, e1, n1, pe[..], pn[..], act, E[..], |act|)
    ensures n == Spline(log, e1, n1, pe[..], pn[..], act, N[..], |act|)
  {
    hide Spline, Base, Times, Active;
    e := AffinePart(log, e1, n1, E, pe[..], pn[..], act);
    n := AffinePart(log, e1, n1, N, pe[..], pn[..], act);
    var j := 0;
    for i := 0 to count
      invariant j == |Active(status[..], i)| <= |act|
      invariant e == Spline(log, e1, n1, pe[..], pn[..], act, E[..], j)
      invariant n == Spline(log, e1, n1, pe[..], pn[..], act, N[..], j)
    {
      if status[i] > 0 {
        ActivePosition(status[..], i, count);
        e, n := AddTerm(log, e1, n1, E, N, pe, pn, i, j, act, e, n);
        j := j + 1;
      } else {
        ActiveSkips(status[..], i);
      }
    }
  }

  /** Transform one coordinate pair through the spline centred on the source (fwd) or target points. */
  method GeorefTps(log: real -> real, e1: real, n1: real, E: array<real>, N: array<real>, cp: ControlPoints, fwd: bool)
    returns (e: real, n: real)
    requires cp.Valid() && |cp.ActivePoints()| + 3 <= E.Length && |cp.ActivePoints()| + 3 <= N.Length
    ensures var act := cp.ActivePoints();
      var pe, pn := if fwd then cp.e1[..] else cp.e2[..], if fwd then cp.n1[..] else cp.n2[..];
      e == Spline(log, e1, n1, pe, pn, act, E[..], |act|) && n == Spline(log, e1, n1, pe, pn, act, N[..], |act|)
  {
    if fwd {
      e, n := SumSpline(log, e1, n1, E, N, cp.e1, cp.n1, cp.status, cp.count, cp.ActivePoints());
    } else {
      e, n := SumSpline(log, e1, n1, E, N, cp.e2, cp.n2, cp.status, cp.count, cp.ActivePoints());
    }
  }

  /** Zero the matrix and the two column vectors. */
  method ZeroAll(m: array2<real>, a: array<real>, b: array<real>)
    requires m.Length0 == m.Length1 == a.Length == b.Length && a != b
    modifies m, a, b
    ensures forall r, c :: 0 <= r < m.Length0 && 0 <= c < m.Length0 ==> m[r, c] == 0.0
    ensures forall r :: 0 <= r < m.Length0 ==> a[r] == 0.0 && b[r] == 0.0
  {
    var n := m.Length0;
    for i := 0 to n
      invariant forall r, c :: 0 <= r < n && 0 <= c < n && (r < i || c < i) ==> m[r, c] == 0.0
      invariant forall r :: 0 <= r < i ==> a[r] == 0.0
      invariant forall r :: 0 <= r < i ==> b[r] == 0.0
    {
      for j := i to n
        modifies m
        invariant forall r, c :: 0 <= r < n && 0 <= c < n && (r < i || c < i) ==> m[r, c] == 0.0
        invariant forall c :: i <= c < j ==> m[i, c] == 0.0 && m[c, i] == 0.0
      {
        m[i, j] := 0.0;
        if i != j {
          m[j, i] := 0.0;
        }
      }
      a[i] := 0.0;
      b[i] := 0.0;
    }
  }

  /** Border and right-hand sides for the first k listed points; nothing else is set yet. */
  ghost predicate Bordered(m: array2<real>, a: array<real>, b: array<real>, xs: Vec, ys: Vec, te: Vec, tn: Vec, k: nat)
    requires m.Length0 == m.Length1 == a.Length == b.Length == |xs| + 3
    requires |xs| == |ys| == |te| == |tn| && k <= |xs|
    reads m, a, b
  {
    && (forall c :: 3 <= c < k + 3 ==> m[0, c] == 1.0 && m[1, c] == xs[c - 3] && m[2, c] == ys[c - 3])
    && (forall c :: 3 <= c < k + 3 ==> m[c, 0] == 1.0 && m[c, 1] == xs[c - 3] && m[c, 2] == ys[c - 3])
    && (forall c :: 3 <= c < k + 3 ==> a[c] == te[c - 3] && b[c] == tn[c - 3])
    && (forall r, c :: 0 <= r < 3 && 0 <= c < 3 ==> m[r, c] == 0.0)
    && (forall r :: 0 <= r < 3 ==> a[r] == 0.0 && b[r] == 0.0)
  }

  method SetBorder(m: array2<real>, a: array<real>, b: array<real>, k: nat, e1: real, n1: real, e2: real, n2: real,
                   ghost xs: Vec, ghost ys: Vec, ghost te: Vec, ghost tn: Vec)
    requires m.Length0 == m.Length1 == a.Length == b.Length == |xs| + 3 && a != b
    requires |xs| == |ys| == |te| == |tn| && k < |xs| && Bordered(m, a, b, xs, ys, te, tn, k)
    requires xs[k] == e1 && ys[k] == n1 && te[k] == e2 && tn[k] == n2
    modifies m, a, b
    ensures Bordered(m, a, b, xs, ys, te, tn, k + 1)
  {
    a[k + 3] := e2;
    b[k + 3] := n2;
    m[0, k + 3] := 1.0;
    m[1, k + 3] := e1;
    m[2, k + 3] := n1;
    m[k + 3, 0] := 1.0;
    m[k + 3, 1] := e1;
    m[k + 3, 2] := n1;
  }

  /** The points' rows and columns of the border, in order of the active points. */
  method FillBorder(e1: array<real>, n1: array<real>, e2: array<real>, n2: array<real>, status: array<int>,
                    count: nat, m: array2<real>, a: array<real>, b: array<real>, ghost act: seq<nat>,
                    ghost xs: Vec, ghost ys: Vec, ghost te: Vec, ghost tn: Vec)
    returns (numactive: nat)
    requires count <= e1.Length && count <= n1.Length && count <= e2.Length && count <= n2.Length
    requires count <= status.Length
    requires act == Active(status[..], count)
    requires m.Length0 == m.Length1 == a.Length == b.Length == |act| + 3
    requires xs == Picked(e1[..], act) && ys == Picked(n1[..], act)
    requires te == Picked(e2[..], act) && tn == Picked(n2[..], act)
    requires a != b && {a, b} !! {e1, n1, e2, n2}
    requires Bordered(m, a, b, xs, ys, te, tn, 0)
    modifies m, a, b
    ensures numactive == |act| && Bordered(m, a, b, xs, ys, te, tn, |act|)
  {
    hide Bordered;
    numactive := 0;
    for n := 0 to count
      invariant numactive == |Active(status[..], n)| <= |act| && Bordered(m, a, b, xs, ys, te, tn, numactive)
    {
      if status[n] > 0 {
        ActivePosition(status[..], n, count);
        SetBorder(m, a, b, numactive, e1[n], n1[n], e2[n], n2[n], xs, ys, te, tn);
        numactive := numactive + 1;
      }
    }
  }

  /** The kernel block is complete for rows and columns below k. */
  ghost predicate Kernelled(log: real -> real, m: array2<real>, xs: Vec, ys: Vec, k: nat)
    requires m.Length0 == m.Length1 == |xs| + 3 && |xs| == |ys| && k <= |xs|
    reads m
  {
    forall r, c :: 3 <= r < k + 3 && 3 <= c < k + 3 ==> m[r, c] == Base(log, xs[r - 3], ys[r - 3], xs[c - 3], ys[c - 3])
  }

  /** The base function from the point on row d to each point listed before position j, along row and column d. */
  ghost predicate Crossed(log: real -> real, m: array2<real>, xs: Vec, ys: Vec, d: nat, j: nat)
    requires m.Length0 == m.Length1 == |xs| + 3 && |xs| == |ys| && 3 <= d < |xs| + 3 && j <= |xs|
    reads m
  {
    forall c :: 3 <= c < j + 3 ==> m[d, c] == m[c, d] == Base(log, xs[d - 3], ys[d - 3], xs[c - 3], ys[c - 3])
  }

  /** What the kernel loops leave alone and what they have set so far. */
  ghost predicate Progress(log: real -> real, m: array2<real>, a: array<real>, b: array<real>,
                           xs: Vec, ys: Vec, te: Vec, tn: Vec, k: nat)
    requires m.Length0 == m.Length1 == a.Length == b.Length == |xs| + 3
    requires |xs| == |ys| == |te| == |tn| && k <= |xs|
    reads m, a, b
  {
    Bordered(m, a, b, xs, ys, te, tn, |xs|) && Kernelled(log, m, xs, ys, k)
  }

  /** One kernel entry, copied to its mirror image. */
  method SetKernel(log: real -> real, m: array2<real>, a: array<real>, b: array<real>, i: nat, j: nat, value: real,
                   ghost xs: Vec, ghost ys: Vec, ghost te: Vec, ghost tn: Vec)
    requires m.Length0 == m.Length1 == a.Length == b.Length == |xs| + 3
    requires |xs| == |ys| == |te| == |tn| && j <= i < |xs|
    requires Progress(log, m, a, b, xs, ys, te, tn, i) && Crossed(log, m, xs, ys, i + 3, j)
    requires value == Base(log, xs[i], ys[i], xs[j], ys[j])
    modifies m
    ensures Progress(log, m, a, b, xs, ys, te, tn, i) && Crossed(log, m, xs, ys, i + 3, j + 1)
  {
    hide Base;
    m[i + 3, j + 3] := value;
    if i != j {
      m[j + 3, i + 3] := m[i + 3, j + 3];
    }
  }

  /** One row of the kernel block, copied to the matching column: all earlier points and the point itself. */
  method FillKernelRow(log: real -> real, e1: array<real>, n1: array<real>, status: array<int>, n: nat, count: nat,
                       m: array2<real>, a: array<real>, b: array<real>, i: nat, ghost act: seq<nat>,
                       ghost xs: Vec, ghost ys: Vec, ghost te: Vec, ghost tn: Vec)
    requires n < count <= e1.Length && count <= n1.Length && count <= status.Length && status[n] > 0
    requires act == Active(status[..], count) && i == |Active(status[..], n)| < |act| == |te| == |tn|
    requires xs == Picked(e1[..], act) && ys == Picked(n1[..], act) && {a, b} !! {e1, n1}
    requires m.Length0 == m.Length1 == a.Length == b.Length == |act| + 3
    requires Progress(log, m, a, b, xs, ys, te, tn, i)
    modifies m
    ensures Progress(log, m, a, b, xs, ys, te, tn, i + 1)
  {
    ActivePosition(status[..], n, count);
    var j := 0;
    assert Crossed(log, m, xs, ys, i + 3, 0);
    hide Base, Progress, Crossed;
    for o := 0 to n + 1
      invariant j == |Active(status[..], o)| && j <= |act|
      invariant Progress(log, m, a, b, xs, ys, te, tn, i) && Crossed(log, m, xs, ys, i + 3, j)
    {
      if status[o] > 0 {
        EarlierPosition(status[..], o, n, count);
        SetKernel(log, m, a, b, i, j, Base(log, e1[n], n1[n], e1[o], n1[o]), xs, ys, te, tn);
        j := j + 1;
      }
    }
    RowDone(log, m, a, b, xs, ys, te, tn, i);
  }

  lemma RowDone(log: real -> real, m: array2<real>, a: array<real>, b: array<real>,
                xs: Vec, ys: Vec, te: Vec, tn: Vec, i: nat)
    requires m.Length0 == m.Length1 == a.Length == b.Length == |xs| + 3
    requires |xs| == |ys| == |te| == |tn| && i < |xs|
    requires Progress(log, m, a, b, xs, ys, te, tn, i) && Crossed(log, m, xs, ys, i + 3, i + 1)
    ensures Progress(log, m, a, b, xs, ys, te, tn, i + 1)
  {
  }

  method FillKernel(log: real -> real, e1: array<real>, n1: array<real>, status: array<int>, count: nat,
                    m: array2<real>, a: array<real>, b: array<real>, ghost act: seq<nat>,
                    ghost xs: Vec, ghost ys: Vec, ghost te: Vec, ghost tn: Vec)
    requires count <= e1.Length && count <= n1.Length && count <= status.Length
    requires act == Active(status[..], count) && |act| == |te| == |tn|
    requires xs == Picked(e1[..], act) && ys == Picked(n1[..], act) && {a, b} !! {e1, n1}
    requires m.Length0 == m.Length1 == a.Length == b.Length == |act| + 3
    requires Progress(log, m, a, b, xs, ys, te, tn, 0)
    modifies m
    ensures Progress(log, m, a, b, xs, ys, te, tn, |act|)
  {
    hide Progress;
    var i := 0;
    for n := 0 to count
      invariant i == |Active(status[..], n)| <= |act| && Progress(log, m, a, b, xs, ys, te, tn, i)
    {
      if status[n] > 0 {
        ActivePosition(status[..], n, count);
        FillKernelRow(log, e1, n1, status, n, count, m, a, b, i, act, xs, ys, te, tn);
        i := i + 1;
      }
    }
  }

  /** Border and kernel complete: m, a and b are the spline system and its right-hand sides. */
  lemma SystemComplete(log: real -> real, m: array2<real>, a: array<real>, b: array<real>,
                       es: Vec, ns: Vec, te: Vec, tn: Vec, act: seq<nat>)
    requires Inside(act, es, ns) && Inside(act, te, tn)
    requires m.Length0 == m.Length1 == a.Length == b.Length == |act| + 3
    requires Progress(log, m, a, b, Picked(es, act), Picked(ns, act), Picked(te, act), Picked(tn, act), |act|)
    ensures Rows(m) == SplineSystem(log, es, ns, act)
    ensures a[..] == SplineTargets(te, act) && b[..] == SplineTargets(tn, act)
  {
    hide Base;
    var S := SplineSystem(log, es, ns, act);
    forall r, c | 0 <= r < |act| + 3 && 0 <= c < |act| + 3
      ensures m[r, c] == S[r][c]
    {
      if r < 3 {
        assert S[r] == SideRow(r, es, ns, act);
      } else {
        assert S[r] == SplineRow(log, es[act[r - 3]], ns[act[r - 3]], es, ns, act);
      }
    }
    RowsAre(m, S);
  }

  /** E and N solve the spline equations for the two target coordinates, and nothing else does. */
  ghost predicate SplineFitted(log: real -> real, act: seq<nat>, es: Vec, ns: Vec, te: Vec, tn: Vec, E: Vec, N: Vec)
    requires Inside(act, es, ns) && Inside(act, te, tn) && |E| == |N| == |act| + 3
  {
    var S, n := SplineSystem(log, es, ns, act), |act| + 3;
    SolvedExactlyBy(S, n, SplineTargets(te, act), E) && SolvedExactlyBy(S, n, SplineTargets(tn, act), N)
  }

  method CalcLsTps(log: real -> real, cp: ControlPoints, m: array2<real>, a: array<real>, b: array<real>,
                   E: array<real>, N: array<real>, ghost act: seq<nat>)
    returns (result: Status)
    requires cp.Valid() && act == cp.ActivePoints()
    requires m.Length0 == m.Length1 == a.Length == b.Length == E.Length == N.Length == |act| + 3
    requires a != b && a != E && a != N && b != E && b != N && E != N
    requires {a, b, E, N} !! {cp.e1, cp.n1, cp.e2, cp.n2}
    modifies m, a, b, E, N
    ensures result
      == if Singular(SplineSystem(log, cp.e1[..], cp.n1[..], act), |act| + 3) then MUNSOLVABLE else MSUCCESS
    ensures result == MSUCCESS ==>
      SplineFitted(log, act, cp.e1[..], cp.n1[..], cp.e2[..], cp.n2[..], E[..], N[..])
  {
    ghost var xs, ys := Picked(cp.e1[..], act), Picked(cp.n1[..], act);
    ghost var te, tn := Picked(cp.e2[..], act), Picked(cp.n2[..], act);
    ZeroAll(m, a, b);
    var numactive := FillBorder(cp.e1, cp.n1, cp.e2, cp.n2, cp.status, cp.count, m, a, b, act, xs, ys, te, tn);
    FillKernel(log, cp.e1, cp.n1, cp.status, cp.count, m, a, b, act, xs, ys, te, tn);
    SystemComplete(log, m, a, b, cp.e1[..], cp.n1[..], cp.e2[..], cp.n2[..], act);
    result := SolveMat2(m, a, b, E, N);
    assert E[..] == E[..|act| + 3] && N[..] == N[..|act| + 3];
  }

  /** Spline coefficients that take (e1, n1) to (e2, n2), in freshly allocated vectors. */
  method CalcCoefTps(log: real -> real, cp: ControlPoints)
    returns (result: Status, E: array<real>, N: array<real>)
    requires cp.Valid()
    ensures fresh(E) && fresh(N) && E.Length == N.Length == |cp.ActivePoints()| + 3
    ensures var act := cp.ActivePoints();
      result == if Singular(SplineSystem(log, cp.e1[..], cp.n1[..], act), |act| + 3) then MUNSOLVABLE else MSUCCESS
    ensures result == MSUCCESS ==>
      SplineFitted(log, cp.ActivePoints(), cp.e1[..], cp.n1[..], cp.e2[..], cp.n2[..], E[..], N[..])
  {
    hide Singular, SplineFitted, SplineSystem, Active;
    var numactive := CountActive(cp.status, cp.count);
    var n := numactive + 3;
    var m := new real[n, n]((i, j) => 0.0);
    var a := new real[n](i => 0.0);
    var b := new real[n](i => 0.0);
    E := new real[n](i => 0.0);
    N := new real[n](i => 0.0);
    result := CalcLsTps(log, cp, m, a, b, E, N, cp.ActivePoints());
  }

  /** Extremes and sums the co-linearity test is made of. */
  datatype Moments = Moments(xmin: real, xmax: real, ymin: real, ymax: real,
                             sumx: real, sumy: real, sumx2: real, sumy2: real, sumxy: real)

  function Max(x: real, y: real): real { if x > y then x else y }

  function Min(x: real, y: real): real { if x < y then x else y }

  /** Moments of the first m listed points, with extremes that start from (x0, y0). */
  function MomentsFrom(x0: real, y0: real, es: Vec, ns: Vec, act: seq<nat>, m: nat): Moments
    requires Inside(act, es, ns) && m <= |act|
  {
    if m == 0 then Moments(x0, x0, y0, y0, 0.0, 0.0, 0.0, 0.0, 0.0)
    else
      var s, x, y := MomentsFrom(x0, y0, es, ns, act, m - 1), es[act[m - 1]], ns[act[m - 1]];
      Moments(Min(s.xmin, x), Max(s.xmax, x), Min(s.ymin, y), Max(s.ymax, y),
              s.sumx + x, s.sumy + y, s.sumx2 + Times(x, x), s.sumy2 + Times(y, y), s.sumxy + Times(x, y))
  }

  /** What the code computes: the extremes start from point 0, active or not. */
  function MomentsOf(es: Vec, ns: Vec, act: seq<nat>, m: nat): Moments
    requires Inside(act, es, ns) && m <= |act| && |es| > 0 && |ns| > 0
  {
    MomentsFrom(es[0], ns[0], es, ns, act, m)
  }

  /** What the active points alone give. */
  function ActiveMoments(es: Vec, ns: Vec, act: seq<nat>): Moments
    requires Inside(act, es, ns) && |act| > 0
  {
    MomentsFrom(es[act[0]], ns[act[0]], es, ns, act, |act|)
  }

  predicate InBox(s: Moments, x: real, y: real) {
    s.xmin <= x <= s.xmax && s.ymin <= y <= s.ymax
  }

  /** Where the extremes start only widens the box. */
  lemma {:induction false} StartWidens(x0: real, y0: real, es: Vec, ns: Vec, act: seq<nat>, m: nat)
    requires Inside(act, es, ns) && 0 < m <= |act|
    ensures var s, a := MomentsFrom(x0, y0, es, ns, act, m), MomentsFrom(es[act[0]], ns[act[0]], es, ns, act, m);
      s == a.(xmin := Min(a.xmin, x0), xmax := Max(a.xmax, x0), ymin := Min(a.ymin, y0), ymax := Max(a.ymax, y0))
  {
    hide Times;
    if m > 1 {
      StartWidens(x0, y0, es, ns, act, m - 1);
    } else {
      assert MomentsFrom(x0, y0, es, ns, act, 0) == Moments(x0, x0, y0, y0, 0.0, 0.0, 0.0, 0.0, 0.0);
    }
  }

  lemma {:induction false} ListedInBox(x0: real, y0: real, es: Vec, ns: Vec, act: seq<nat>, m: nat, r: nat)
    requires Inside(act, es, ns) && r < m <= |act|
    ensures InBox(MomentsFrom(x0, y0, es, ns, act, m), es[act[r]], ns[act[r]])
  {
    hide Times;
    if r < m - 1 {
      ListedInBox(x0, y0, es, ns, act, m - 1, r);
    }
  }

  /**
   The moments are those of the active points exactly if point 0 is in their box, which it is when it is active; then
   the test decides about the active points alone.
   */
  lemma PointZeroMatters(es: Vec, ns: Vec, act: seq<nat>)
    requires Inside(act, es, ns) && |act| > 0 && |es| > 0 && |ns| > 0
    ensures MomentsOf(es, ns, act, |act|) == ActiveMoments(es, ns, act)
      <==> InBox(ActiveMoments(es, ns, act), es[0], ns[0])
    ensures act[0] == 0 ==> InBox(ActiveMoments(es, ns, act), es[0], ns[0])
    ensures InBox(ActiveMoments(es, ns, act), es[0], ns[0]) ==>
      NearlyCollinear(MomentsOf(es, ns, act, |act|), |act|) == NearlyCollinear(ActiveMoments(es, ns, act), |act|)
  {
    StartWidens(es[0], ns[0], es, ns, act, |act|);
    ListedInBox(es[act[0]], ns[act[0]], es, ns, act, |act|, 0);
    hide NearlyCollinear, MomentsFrom;
  }

  /** Three active points at right angles are refused because of an inactive point 0 far away. */
  lemma FarPointRefused(log: real -> real)
    ensures var es, ns, act := [10000.0, 0.0, 1.0, 0.0], [0.0, 0.0, 0.0, 1.0], [1, 2, 3];
      && !NearlyCollinear(ActiveMoments(es, ns, act), 3) && NearlyCollinear(MomentsOf(es, ns, act, 3), 3)
      && TpsStatus(log, es, ns, es, ns, act) == MUNSOLVABLE
  {
    var es: Vec, ns: Vec, act: seq<nat> := [10000.0, 0.0, 1.0, 0.0], [0.0, 0.0, 0.0, 1.0], [1, 2, 3];
    assert MomentsFrom(0.0, 0.0, es, ns, act, 0) == Moments(0.0, 0.0, 0.0, 0.0, 0.0, 0.0, 0.0, 0.0, 0.0);
    assert MomentsFrom(0.0, 0.0, es, ns, act, 1) == Moments(0.0, 0.0, 0.0, 0.0, 0.0, 0.0, 0.0, 0.0, 0.0);
    assert MomentsFrom(0.0, 0.0, es, ns, act, 2) == Moments(0.0, 1.0, 0.0, 0.0, 1.0, 0.0, 1.0, 0.0, 0.0);
    assert ActiveMoments(es, ns, act) == Moments(0.0, 1.0, 0.0, 1.0, 1.0, 1.0, 1.0, 1.0, 0.0);
    StartWidens(10000.0, 0.0, es, ns, act, 3);
    hide MomentsFrom;
  }

  /** A sum of products less what the means account for. */
  function Centred(q: real, x: real, y: real, numactive: nat): real
    requires numactive > 0
  {
    q - x * y / numactive as real
  }

  /** Nearly co-linear: a thin bounding box, or a squared correlation above 0.99. */
  predicate NearlyCollinear(s: Moments, numactive: nat)
    requires numactive > 0
  {
    var delx, dely := s.xmax - s.xmin, s.ymax - s.ymin;
    var ssxx, ssyy := Centred(s.sumx2, s.sumx, s.sumx, numactive), Centred(s.sumy2, s.sumy, s.sumy, numactive);
    var ssxy := Centred(s.sumxy, s.sumx, s.sumy, numactive);
    delx < 0.001 * dely || dely < 0.001 * delx || CorrelationAbove(Times(ssxy, ssxy), Times(ssxx, ssyy))
  }

  /** fabs(num / den) > 0.99; a zero denominator gives infinity, or NaN when the numerator is zero too. */
  predicate CorrelationAbove(num: real, den: real) {
    if den == 0.0 then num != 0.0 else Abs(num / den) > 0.99
  }

  method TestCollinear(es: array<real>, ns: array<real>, status: array<int>, count: nat, numactive: nat)
    returns (collinear: bool)
    requires count <= es.Length && count <= ns.Length && count <= status.Length
    requires numactive == |Active(status[..], count)| && numactive > 0
    ensures collinear == NearlyCollinear(MomentsOf(es[..], ns[..], Active(status[..], count), numactive), numactive)
  {
    hide Times, NearlyCollinear, Min, Max, Active;
    ghost var act := Active(status[..], count);
    var xmin, xmax, ymin, ymax := es[0], es[0], ns[0], ns[0];
    var sumx, sumy, sumx2, sumy2, sumxy := 0.0, 0.0, 0.0, 0.0, 0.0;
    ghost var j := 0;
    for i := 0 to count
      invariant j == |Active(status[..], i)| <= |act|
      invariant Moments(xmin, xmax, ymin, ymax, sumx, sumy, sumx2, sumy2, sumxy) == MomentsOf(es[..], ns[..], act, j)
    {
      if status[i] > 0 {
        ActivePosition(status[..], i, count);
        j := j + 1;
        var xx, yy := es[i], ns[i];
        xmax := Max(xmax, xx);
        xmin := Min(xmin, xx);
        ymax := Max(ymax, yy);
        ymin := Min(ymin, yy);
        sumx := sumx + xx;
        sumx2 := sumx2 + Times(xx, xx);
        sumy := sumy + yy;
        sumy2 := sumy2 + Times(yy, yy);
        sumxy := sumxy + Times(xx, yy);
      } else {
        ActiveSkips(status[..], i);
      }
    }
    return NearlyCollinear(Moments(xmin, xmax, ymin, ymax, sumx, sumy, sumx2, sumy2, sumxy), numactive);
  }

  /** The status of the whole computation, from the point sets alone. */
  ghost function TpsStatus(log: real -> real, es: Vec, ns: Vec, te: Vec, tn: Vec, act: seq<nat>): Status
    requires Inside(act, es, ns) && Inside(act, te, tn)
  {
    var k := |act|;
    assert k >= 3 ==> act[0] < |es| && act[0] < |te|;
    if k < 3 || k > MAX_TPS_POINTS then MNPTERR
    else if NearlyCollinear(MomentsOf(es, ns, act, k), k) || NearlyCollinear(MomentsOf(te, tn, act, k), k) then
      MUNSOLVABLE
    else if Singular(SplineSystem(log, es, ns, act), k + 3) || Singular(SplineSystem(log, te, tn, act), k + 3) then
      MUNSOLVABLE
    else MSUCCESS
  }

  /** Forward and backward splines; the exchanged coordinate arrays are back in place on every exit. */
  method ComputeGeorefEquationsTps(log: real -> real, cp: ControlPoints)
    returns (result: Status, E12: array?<real>, N12: array?<real>, E21: array?<real>, N21: array?<real>)
    requires cp.Valid()
    modifies cp`e1, cp`n1, cp`e2, cp`n2
    ensures cp.e1 == old(cp.e1) && cp.n1 == old(cp.n1) && cp.e2 == old(cp.e2) && cp.n2 == old(cp.n2)
    ensures result == TpsStatus(log, cp.e1[..], cp.n1[..], cp.e2[..], cp.n2[..], cp.ActivePoints())
    ensures result == MSUCCESS ==>
      var act := cp.ActivePoints();
      && E12 != null && N12 != null && E12.Length == N12.Length == |act| + 3
      && E21 != null && N21 != null && E21.Length == N21.Length == |act| + 3
      && SplineFitted(log, act, cp.e1[..], cp.n1[..], cp.e2[..], cp.n2[..], E12[..], N12[..])
      && SplineFitted(log, act, cp.e2[..], cp.n2[..], cp.e1[..], cp.n1[..], E21[..], N21[..])
  {
    hide SplineFitted, SplineSystem, NearlyCollinear, MomentsOf, Singular;
    E12, N12, E21, N21 := null, null, null, null;
    var numactive := CountActive(cp.status, cp.count);
    if numactive < 3 || numactive > MAX_TPS_POINTS {
      return MNPTERR, E12, N12, E21, N21;
    }
    var thin := TestCollinear(cp.e1, cp.n1, cp.status, cp.count, numactive);
    if thin {
      return MUNSOLVABLE, E12, N12, E21, N21;
    }
    thin := TestCollinear(cp.e2, cp.n2, cp.status, cp.count, numactive);
    if thin {
      return MUNSOLVABLE, E12, N12, E21, N21;
    }
    result, E12, N12 := CalcCoefTps(log, cp);
    if result != MSUCCESS {
      return result, E12, N12, E21, N21;
    }
    SwitchArrays(cp);
    result, E21, N21 := CalcCoefTps(log, cp);
    SwitchArrays(cp);
  }

  /** The spline with coefficients C sends every listed point to its target coordinate. */
  ghost predicate Interpolates(log: real -> real, es: Vec, ns: Vec, t: Vec, act: seq<nat>, C: Vec)
    requires Inside(act, es, ns) && Inside(act, t, t) && |C| == |act| + 3
  {
    forall r :: 0 <= r < |act| ==> Spline(log, es[act[r]], ns[act[r]], es, ns, act, C, |act|) == t[act[r]]
  }

  /** The first k weights of C against xs. */
  function Weighted(C: Vec, xs: Vec, k: nat): real
    requires k <= |xs| && k + 3 <= |C|
  {
    if k == 0 then 0.0 else Weighted(C, xs, k - 1) + xs[k - 1] * C[k + 2]
  }

  /** The weights sum to zero and are orthogonal to both source coordinates. */
  ghost predicate Balanced(es: Vec, ns: Vec, act: seq<nat>, C: Vec)
    requires Inside(act, es, ns) && |C| == |act| + 3
  {
    var k := |act|;
    && Weighted(C, seq(k, _ => 1.0), k) == 0.0
    && Weighted(C, Picked(es, act), k) == 0.0 && Weighted(C, Picked(ns, act), k) == 0.0
  }

  lemma {:induction false} WeightedIsDot(C: Vec, xs: Vec, k: nat)
    requires k <= |xs| && |xs| + 3 <= |C|
    ensures Weighted(C, xs, k) == Dot(Zeros(3) + xs, C, k + 3)
  {
    if k == 0 {
      DotThree(Zeros(3) + xs, C);
    } else {
      WeightedIsDot(C, xs, k - 1);
    }
  }

  lemma PointRowDot(log: real -> real, es: Vec, ns: Vec, act: seq<nat>, C: Vec, q: nat)
    requires Inside(act, es, ns) && |C| == |act| + 3 && 3 <= q < |act| + 3
    ensures Dot(SplineSystem(log, es, ns, act)[q], C, |act| + 3)
         == Spline(log, es[act[q - 3]], ns[act[q - 3]], es, ns, act, C, |act|)
  {
    hide Dot, Spline, SplineRow;
    SplineIsDot(log, es[act[q - 3]], ns[act[q - 3]], es, ns, act, C, |act|);
  }

  lemma SideRowDots(log: real -> real, es: Vec, ns: Vec, act: seq<nat>, C: Vec)
    requires Inside(act, es, ns) && |C| == |act| + 3
    ensures var S, n := SplineSystem(log, es, ns, act), |act| + 3;
      Balanced(es, ns, act, C) <==> Dot(S[0], C, n) == 0.0 && Dot(S[1], C, n) == 0.0 && Dot(S[2], C, n) == 0.0
  {
    hide Dot, Weighted;
    WeightedIsDot(C, seq(|act|, _ => 1.0), |act|);
    WeightedIsDot(C, Picked(es, act), |act|);
    WeightedIsDot(C, Picked(ns, act), |act|);
  }

  /** Solving the spline system means interpolating with balanced weights. */
  lemma SolvesMeaning(log: real -> real, es: Vec, ns: Vec, t: Vec, act: seq<nat>, C: Vec)
    requires Inside(act, es, ns) && Inside(act, t, t) && |C| == |act| + 3
    ensures Solves(SplineSystem(log, es, ns, act), |act| + 3, SplineTargets(t, act), C)
       <==> Interpolates(log, es, ns, t, act, C) && Balanced(es, ns, act, C)
  {
    var S, a, n := SplineSystem(log, es, ns, act), SplineTargets(t, act), |act| + 3;
    assert forall q :: 3 <= q < n ==> a[q] == t[act[q - 3]];
    assert a[0] == a[1] == a[2] == 0.0;
    hide Spline, SplineRow, SplineSystem, SplineTargets, Dot, Balanced;
    SideRowDots(log, es, ns, act, C);
    forall q | 3 <= q < n
      ensures Dot(S[q], C, n) == Spline(log, es[act[q - 3]], ns[act[q - 3]], es, ns, act, C, |act|)
    {
      PointRowDot(log, es, ns, act, C, q);
    }
    if Solves(S, n, a, C) {
      hide Solves;
      forall r | 0 <= r < |act| ensures Spline(log, es[act[r]], ns[act[r]], es, ns, act, C, |act|) == t[act[r]] {
        var q := r + 3;
        SolvedRow(S, n, a, C, q);
      }
    }
  }

  lemma SolvedRow(S: Table, n: nat, a: Vec, C: Vec, q: nat)
    requires Square(S, n) && |a| == |C| == n && Solves(S, n, a, C) && q < n
    ensures Dot(S[q], C, n) == a[q]
  {
    hide Dot;
  }

  /** The fitted coefficients are the only ones that interpolate every point with balanced weights. */
  lemma SplineCharacterised(
    log: real -> real, act: seq<nat>, es: Vec, ns: Vec, te: Vec, tn: Vec, E: Vec, N: Vec, C: Vec)
    requires Inside(act, es, ns) && Inside(act, te, tn) && |E| == |N| == |C| == |act| + 3
    requires SplineFitted(log, act, es, ns, te, tn, E, N)
    ensures Interpolates(log, es, ns, te, act, C) && Balanced(es, ns, act, C) <==> C == E
    ensures Interpolates(log, es, ns, tn, act, C) && Balanced(es, ns, act, C) <==> C == N
  {
    hide Interpolates, Balanced, Solves;
    SolvesMeaning(log, es, ns, te, act, C);
    SolvesMeaning(log, es, ns, tn, act, C);
  }

  /** The left side of the line equation a + b * x + c * y == 0. */
  function OnLine(line: Vec, x: real, y: real): real
    requires |line| == 3
  {
    line[0] + x * line[1] + y * line[2]
  }

  lemma LineRow(row: Vec, line: Vec, k: nat)
    requires |row| == k + 3 && |line| == 3
    ensures row[0] == 1.0 ==> Dot(row, line + Zeros(k), k + 3) == OnLine(line, row[1], row[2])
    ensures row[0] == row[1] == row[2] == 0.0 ==> Dot(row, line + Zeros(k), k + 3) == 0.0
  {
    hide Dot;
    assert row == row[..3] + row[3..];
    DotConcat(row[..3], row[3..], line, Zeros(k), k);
    ZerosDot(row[3..], k, k);
    DotThree(row[..3], line);
  }

  /** Source points on one line are always refused. */
  lemma LineIsSingular(log: real -> real, es: Vec, ns: Vec, act: seq<nat>, line: Vec)
    requires Inside(act, es, ns) && |line| == 3 && NonZero(line)
    requires forall r :: 0 <= r < |act| ==> OnLine(line, es[act[r]], ns[act[r]]) == 0.0
    ensures Singular(SplineSystem(log, es, ns, act), |act| + 3)
  {
    hide Dot, Base, OnLine;
    var S, x := SplineSystem(log, es, ns, act), line + Zeros(|act|);
    forall q | 0 <= q < |act| + 3 ensures Dot(S[q], x, |act| + 3) == 0.0 {
      LineRow(S[q], line, |act|);
    }
    var i :| 0 <= i < 3 && line[i] != 0.0;
    assert x[i] != 0.0;
  }

  /** Plus one at i, minus one at j. */
  function Opposed(n: nat, i: nat, j: nat): (x: Vec)
    requires i < j < n
    ensures |x| == n && x[i] == 1.0 && x[j] == -1.0
  {
    seq(n, c => if c == i then 1.0 else if c == j then -1.0 else 0.0)
  }

  lemma OpposedDot(row: Vec, n: nat, i: nat, j: nat)
    requires |row| == n && i < j < n && row[i] == row[j]
    ensures Dot(row, Opposed(n, i, j), n) == 0.0
  {
    DotPair(row, Opposed(n, i, j), n, i, j);
  }

  lemma EqualColumns(log: real -> real, es: Vec, ns: Vec, act: seq<nat>, r: nat, s: nat, q: nat)
    requires Inside(act, es, ns) && r < s < |act| && q < |act| + 3
    requires es[act[r]] == es[act[s]] && ns[act[r]] == ns[act[s]]
    ensures SplineSystem(log, es, ns, act)[q][r + 3] == SplineSystem(log, es, ns, act)[q][s + 3]
  {
    assert SplineSystem(log, es, ns, act)[q] == SystemRow(log, es, ns, act, q);
    hide SplineSystem, SideRow, SplineRow;
    if q < 3 {
      EqualSides(q, es, ns, act, r, s);
    } else {
      EqualBases(log, es[act[q - 3]], ns[act[q - 3]], es, ns, act, r, s);
    }
  }

  lemma EqualSides(k: nat, es: Vec, ns: Vec, act: seq<nat>, r: nat, s: nat)
    requires Inside(act, es, ns) && r < s < |act| && es[act[r]] == es[act[s]] && ns[act[r]] == ns[act[s]]
    ensures SideRow(k, es, ns, act)[r + 3] == SideRow(k, es, ns, act)[s + 3]
  {
    var t := if k == 0 then seq(|act|, _ => 1.0) else if k == 1 then Picked(es, act) else Picked(ns, act);
    assert t[r] == t[s];
    assert SideRow(k, es, ns, act) == Zeros(3) + t;
    hide SideRow, Picked;
    assert (Zeros(3) + t)[r + 3] == t[r] && (Zeros(3) + t)[s + 3] == t[s];
  }

  lemma EqualBases(log: real -> real, e: real, n: real, es: Vec, ns: Vec, act: seq<nat>, r: nat, s: nat)
    requires Inside(act, es, ns) && r < s < |act| && es[act[r]] == es[act[s]] && ns[act[r]] == ns[act[s]]
    ensures SplineRow(log, e, n, es, ns, act)[r + 3] == SplineRow(log, e, n, es, ns, act)[s + 3]
  {
    hide Base;
  }

  /** Two active points with the same source position are always refused. */
  lemma DuplicateIsSingular(log: real -> real, es: Vec, ns: Vec, act: seq<nat>, r: nat, s: nat)
    requires Inside(act, es, ns) && r < s < |act|
    requires es[act[r]] == es[act[s]] && ns[act[r]] == ns[act[s]]
    ensures Singular(SplineSystem(log, es, ns, act), |act| + 3)
  {
    hide Base, Dot, Opposed, SplineSystem;
    var S, n := SplineSystem(log, es, ns, act), |act| + 3;
    var x := Opposed(n, r + 3, s + 3);
    forall q | 0 <= q < n ensures Dot(S[q], x, n) == 0.0 {
      EqualColumns(log, es, ns, act, r, s, q);
      OpposedDot(S[q], n, r + 3, s + 3);
    }
    assert x[r + 3] != 0.0;
  }
}

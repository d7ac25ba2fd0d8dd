/** The one-pass recurrence behind stdev() and variance(), in exact arithmetic. */
module Variance {
  import opened Options
  import opened Vectors

  function Sum(xs: seq<real>): real {
    if |xs| == 0 then 0.0 else Sum(xs[..|xs| - 1]) + xs[|xs| - 1]
  }

  function Mean(xs: seq<real>): real
    requires |xs| > 0
  {
    Sum(xs) / |xs| as real
  }

  function Square(x: real): real {
    x * x
  }

  /** The sum of squared deviations from m. */
  function Deviations(xs: seq<real>, m: real): real {
    if |xs| == 0 then 0.0 else Deviations(xs[..|xs| - 1], m) + Square(xs[|xs| - 1] - m)
  }

  /** The two-pass sample variance; zero for fewer than two values. */
  function SampleVariance(xs: seq<real>): real {
    if |xs| <= 1 then 0.0 else Deviations(xs, Mean(xs)) / (|xs| - 1) as real
  }

  /** What moving the centre from m to m + d adds to the squared deviation of one value. */
  function Single(x: real, m: real, d: real): real {
    Square(d) - 2.0 * d * (x - m)
  }

  /** The same for n values with sum s. */
  function Drift(s: real, n: real, m: real, d: real): real {
    n * Square(d) - 2.0 * d * (s - n * m)
  }

  lemma ShiftOne(x: real, m: real, d: real)
    ensures Square(x - (m + d)) == Square(x - m) + Single(x, m, d)
  {
  }

  lemma DriftMore(s: real, n: real, x: real, m: real, d: real)
    ensures Drift(s, n, m, d) + Single(x, m, d) == Drift(s + x, n + 1.0, m, d)
    ensures Drift(0.0, 0.0, m, d) == 0.0
  {
  }

  /** Moving the centre by d. */
  lemma {:induction false} Shift(xs: seq<real>, m: real, d: real)
    ensures Deviations(xs, m + d) == Deviations(xs, m) + Drift(Sum(xs), |xs| as real, m, d)
  {
    hide Square, Single, Drift;
    DriftMore(0.0, 0.0, 0.0, m, d);
    if |xs| > 0 {
      var n := |xs| - 1;
      Shift(xs[..n], m, d);
      ShiftOne(xs[n], m, d);
      DriftMore(Sum(xs[..n]), n as real, xs[n], m, d);
    }
  }

  lemma Last(xs: seq<real>, x: real, m: real)
    ensures Sum(xs + [x]) == Sum(xs) + x
    ensures Deviations(xs + [x], m) == Deviations(xs, m) + Square(x - m)
  {
  }

  /** The algebra of one step: k values with mean m, and x at distance (k + 1) d from it. */
  lemma Recurrence(k: real, m: real, d: real, x: real)
    requires Times(k + 1.0, d) == x - m
    ensures Times(k + 1.0, m + d) == Times(k, m) + x
    ensures Drift(Times(k, m), k, m, d) + Square(x - (m + d)) == Times(x - m, x - (m + d))
  {
  }

  /** One more value, at distance n d from the old mean. */
  lemma StepKeeps(xs: seq<real>, x: real, m: real, s: real, d: real)
    requires Times(|xs| as real, m) == Sum(xs) && s == Deviations(xs, m)
    requires Times(|xs| as real + 1.0, d) == x - m
    ensures Times(|xs| as real + 1.0, m + d) == Sum(xs + [x])
    ensures s + Times(x - m, x - (m + d)) == Deviations(xs + [x], m + d)
  {
    hide Square, Times, Drift, Sum, Deviations;
    Shift(xs, m, d);
    Last(xs, x, m + d);
    Recurrence(|xs| as real, m, d, x);
  }

  lemma Divided(n: real, x: real)
    requires n > 0.0
    ensures Times(n, x / n) == x
  {
  }

  lemma MeanIs(xs: seq<real>, m: real)
    requires |xs| > 0 && Times(|xs| as real, m) == Sum(xs)
    ensures Mean(xs) == m
  {
  }

  class StdevCtx {
    var rM: real
    var rS: real
    var cnt: nat
    ghost var Values: seq<real>

    ghost predicate Valid()
      reads this
    {
      cnt == |Values| && Times(cnt as real, rM) == Sum(Values) && rS == Deviations(Values, rM)
    }

    constructor ()
      ensures Valid() && Values == []
    {
      rM, rS, cnt := 0.0, 0.0, 0;
      Values := [];
    }

    /** varianceStep for a value that is not NULL. */
    method Step(x: real)
      requires Valid()
      modifies this
      ensures Valid() && Values == old(Values) + [x]
      ensures rM == Mean(Values) && rS == Deviations(Values, Mean(Values))
    {
      hide Times, Sum, Deviations, Mean;
      ghost var m, s := rM, rS;
      cnt := cnt + 1;
      var delta := x - rM;
      rM := rM + delta / cnt as real;
      Divided(cnt as real, delta);
      StepKeeps(Values, x, m, s, delta / cnt as real);
      rS := rS + Times(delta, x - rM);
      Values := Values + [x];
      MeanIs(Values, rM);
    }

    /** varianceFinalize */
    method Finalize() returns (r: real)
      requires Valid()
      ensures r == SampleVariance(Values)
    {
      if cnt > 1 {
        MeanIs(Values, rM);
        r := rS / (cnt - 1) as real;
      } else {
        r := 0.0;
      }
    }
  }

  /** variance() over a column; NULLs are passed over. */
  method VarianceOf(column: seq<Option<real>>) returns (r: real)
    ensures r == SampleVariance(NonNull(column))
  {
    var p := new StdevCtx();
    for i := 0 to |column|
      invariant fresh(p) && p.Valid() && p.Values == NonNull(column[..i])
    {
      if column[i].Some? {
        p.Step(column[i].value);
      }
      assert column[..i + 1][..i] == column[..i];
    }
    assert column[..|column|] == column;
    r := p.Finalize();
  }

  function NonNull(column: seq<Option<real>>): seq<real> {
    if |column| == 0 then []
    else
      var last := column[|column| - 1];
      NonNull(column[..|column| - 1]) + if last.Some? then [last.value] else []
  }

  /** A NULL anywhere makes no difference, and without NULLs all values count. */
  lemma {:induction false} NullsPassedOver(a: seq<Option<real>>, b: seq<Option<real>>)
    ensures NonNull(a + [None] + b) == NonNull(a + b)
    ensures (forall i | 0 <= i < |b| :: b[i].Some?) ==>
      |NonNull(b)| == |b| && forall i | 0 <= i < |b| :: NonNull(b)[i] == b[i].value
    decreases |b|
  {
    var s, t := a + [None] + b, a + b;
    if |b| == 0 {
      assert s[..|s| - 1] == a && t == a;
    } else {
      assert s[..|s| - 1] == a + [None] + b[..|b| - 1];
      assert t[..|t| - 1] == a + b[..|b| - 1];
      NullsPassedOver(a, b[..|b| - 1]);
    }
  }
}

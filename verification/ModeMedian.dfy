/** The mode(), median(), lower_quartile() and upper_quartile() aggregates over the counted tree. */
module ModeMedian {
  import opened Bytes
  import opened CountedItems
  import opened CountedTree
  import opened OrderStatistics

  /** A column value: its numeric type, and what sqlite3_value_int64 and sqlite3_value_double make of it. */
  datatype ColumnValue = NoValue | Number(isInteger: bool, asInt: Int64, asReal: real)

  datatype SqlResult = Null | Int(i: int) | Double(r: real)

  function AsReal(r: SqlResult): real
    requires !r.Null?
  {
    if r.Int? then r.i as real else r.r
  }

  datatype Iterator = Mode | Median

  class ModeCtx {
    var riM: int
    var rdM: real
    var cnt: nat
    var pcnt: real
    var mcnt: nat
    var mn: nat
    var isDouble: bool
    var m: Node?
    var done: bool
    ghost var Values: seq<real>

    ghost function State(): Scan
      reads this
    {
      Scan(riM, rdM, mcnt, mn, done)
    }

    ghost predicate Valid()
      reads this, m, NodesIn(m)
    {
      && ValidTree(m) && ItemsIn(m) == ItemsOf(Values) && cnt == |Values|
      && (m == null <==> Values == []) && State() == START
      && (isDouble || forall i | 0 <= i < |Values| :: Values[i] == Values[i].Floor as real)
    }

    /** The zeroed context of sqlite3_aggregate_context. */
    constructor ()
      ensures Valid() && Values == [] && m == null
    {
      riM, rdM, cnt, pcnt, mcnt, mn, isDouble, m, done := 0, 0.0, 0, 0.0, 0, 0, false, null, false;
      Values := [];
    }

    /** modeStep: the first value decides whether the tree holds integers or doubles. */
    method Step(v: ColumnValue)
      requires Valid()
      modifies this, NodesIn(m)
      ensures Valid() && fresh(NodesIn(m) - old(NodesIn(m)))
      ensures v.NoValue? ==> Values == old(Values) && isDouble == old(isDouble)
      ensures v.Number? ==>
        isDouble == (if old(Values) == [] then !v.isInteger else old(isDouble))
        && Values == old(Values) + [if isDouble then v.asReal else v.asInt as real]
    {
      hide ItemsOf, Node.Valid;
      if v.NoValue? {
        return;
      }
      if m == null {
        isDouble := !v.isInteger;
      }
      cnt := cnt + 1;
      ghost var xs := Values;
      if !isDouble {
        var xi := v.asInt;
        m := NodeInsert(m, xi as real);
        Values := Values + [xi as real];
      } else {
        var xd := v.asReal;
        m := NodeInsert(m, xd);
        Values := Values + [xd];
      }
      ItemsMore(xs, Values[|xs|]);
    }

    /** modeIterate */
    method ModeIterate(e: real, c: nat)
      modifies this`riM, this`rdM, this`mcnt, this`mn
      ensures State() == Visit(ModeVisitor(isDouble), old(State()), Item(e, c))
    {
      if !isDouble {
        var ei := Wrap32(e.Floor);
        if mcnt == c {
          mn := mn + 1;
        } else if mcnt < c {
          riM := ei;
          mcnt := c;
          mn := 1;
        }
      } else {
        var ed := e;
        if mcnt == c {
          mn := mn + 1;
        } else if mcnt < c {
          rdM := ed;
          mcnt := c;
          mn := 1;
        }
      }
    }

    /** medianIterate; il and ir are 32-bit ints. */
    method MedianIterate(e: real, c: nat)
      modifies this`riM, this`rdM, this`mcnt, this`mn, this`done
      ensures State() == Visit(MedianVisitor(isDouble, cnt, pcnt), old(State()), Item(e, c))
    {
      if done {
        return;
      }
      var iL := pcnt;
      var iR := cnt as real - pcnt;
      var il := Wrap32(mcnt + c);
      var ir := Wrap32(cnt - mcnt);
      if il as real >= iL {
        if ir as real >= iR {
          mn := mn + 1;
          if !isDouble {
            riM := riM + Wrap32(e.Floor);
          } else {
            rdM := rdM + e;
          }
        } else {
          done := true;
        }
      }
      mcnt := mcnt + c;
    }

    ghost function How(iter: Iterator): Visitor
      reads this
    {
      if iter.Mode? then ModeVisitor(isDouble) else MedianVisitor(isDouble, cnt, pcnt)
    }

    /** node_iterate: every node once, left to right. */
    method NodeIterate(n: Node?, iter: Iterator)
      requires ValidTree(n)
      modifies this`riM, this`rdM, this`mcnt, this`mn, this`done
      ensures State() == Fold(How(iter), old(State()), ItemsIn(n))
      decreases NodesIn(n)
    {
      hide Visit, Increasing, Node.Valid;
      if n != null {
        Inside(n);
        ghost var how, x, p := How(iter), Item(n.data, n.count), State();
        ghost var a, b := ItemsIn(n.l), ItemsIn(n.r);
        if n.l != null {
          NodeIterate(n.l, iter);
        }
        if iter.Mode? {
          ModeIterate(n.data, n.count);
        } else {
          MedianIterate(n.data, n.count);
        }
        FoldParts(how, p, a, x, b);
        if n.r != null {
          NodeIterate(n.r, iter);
        }
      }
    }

    /** modeFinalize: the most frequent value, or NULL on a tie and for no values. */
    method ModeFinalize() returns (r: SqlResult)
      requires Valid()
      modifies this
      ensures !r.Null? <==> exists v :: MostFrequent(old(Values), v)
      ensures !r.Null? ==> (r.Int? <==> !isDouble) && isDouble == old(isDouble)
      ensures forall v | MostFrequent(old(Values), v) :: !r.Null? && AsReal(r) == Read(isDouble, v)
    {
      hide Fold, ItemsOf, Read, Node.Valid;
      r := Null;
      ModeIs(Values, isDouble);
      hide MostFrequent;
      if m != null {
        NodeIterate(m, Mode);
        if mn == 1 {
          r := if !isDouble then Int(riM) else Double(rdM);
        }
      } else {
        NoMode(Values);
      }
    }

    /** _medianFinalize at the position pcnt; SQLite turns the NaN of 0.0 / 0 into NULL. */
    method PercentileFinalize() returns (r: SqlResult)
      requires Valid()
      requires m != null ==> 0.0 < pcnt < |Values| as real
      modifies this`riM, this`rdM, this`mcnt, this`mn, this`done
      ensures if m == null then r == Null else Judged(r, Values, isDouble, pcnt)
    {
      hide Fold, ItemsOf, Read, Node.Valid, Judged;
      r := Null;
      if m != null {
        done := false;
        NodeIterate(m, Median);
        PercentileJudged(Values, isDouble, pcnt, State());
        if !isDouble {
          if mn == 1 {
            r := Int(riM);
          } else {
            r := Quotient(riM as real * 1.0, mn);
          }
        } else {
          r := Quotient(rdM, mn);
        }
      }
    }

    /** medianFinalize */
    method MedianFinalize() returns (r: SqlResult)
      requires Valid()
      modifies this
      ensures if old(Values) == [] then r == Null
        else Judged(r, old(Values), old(isDouble), |old(Values)| as real / 2.0)
    {
      hide Judged, ItemsOf, Node.Valid;
      pcnt := cnt as real / 2.0;
      r := PercentileFinalize();
    }

    method LowerQuartileFinalize() returns (r: SqlResult)
      requires Valid()
      modifies this
      ensures if old(Values) == [] then r == Null
        else Judged(r, old(Values), old(isDouble), |old(Values)| as real / 4.0)
    {
      hide Judged, ItemsOf, Node.Valid;
      pcnt := cnt as real / 4.0;
      r := PercentileFinalize();
    }

    method UpperQuartileFinalize() returns (r: SqlResult)
      requires Valid()
      modifies this
      ensures if old(Values) == [] then r == Null
        else Judged(r, old(Values), old(isDouble), (3 * |old(Values)|) as real / 4.0)
    {
      hide Judged, ItemsOf, Node.Valid;
      pcnt := (cnt * 3) as real / 4.0;
      r := PercentileFinalize();
    }
  }

  /** What an accumulated sum and the number of its terms come to. */
  function Quotient(sum: real, n: nat): SqlResult {
    if n == 0 then Null else Double(sum / n as real)
  }

  /** What _medianFinalize makes of the scan. */
  function Percentile(q: Scan, isDouble: bool): SqlResult {
    if isDouble then Quotient(q.rdM, q.mn) else if q.mn == 1 then Int(q.riM) else Quotient(q.riM as real * 1.0, q.mn)
  }

  /** r shows the number x, as an integer or not. */
  predicate Shows(r: SqlResult, x: real, whole: bool) {
    !r.Null? && AsReal(r) == x && r.Int? == whole
  }

  /**
   r is the average of the values on both sides of position pcnt of the sorted list, each seen as given by see; it is
   an integer when the list holds integers and the two are the same.
   */
  ghost predicate Averages(r: SqlResult, xs: seq<real>, isDouble: bool, pcnt: real, see: real -> real) {
    forall s: seq<real> | Sorted(s) && multiset(s) == multiset(xs) ::
      0 <= Low(pcnt) <= High(pcnt) < |s|
      && var (a, b) := (s[Low(pcnt)], s[High(pcnt)]); Shows(r, (see(a) + see(b)) / 2.0, !isDouble && a == b)
  }

  /** r is the percentile of the values themselves, or of what the iterators read. */
  ghost predicate IsPercentile(r: SqlResult, xs: seq<real>, isDouble: bool, pcnt: real) {
    Averages(r, xs, isDouble, pcnt, v => v)
  }

  ghost predicate Between(r: SqlResult, xs: seq<real>, isDouble: bool, pcnt: real) {
    Averages(r, xs, isDouble, pcnt, v => Read(isDouble, v))
  }

  /** The ranks of the two sorted values around position pcnt fit in an int. */
  ghost predicate RanksFitAt(xs: seq<real>, pcnt: real) {
    forall s: seq<real> | Sorted(s) && multiset(s) == multiset(xs) ::
      0 <= Low(pcnt) <= High(pcnt) < |s| && RanksFit(xs, s[Low(pcnt)], s[High(pcnt)])
  }

  /** Their 32-bit reads average to their average. */
  ghost predicate ReadsCancelAt(xs: seq<real>, pcnt: real) {
    forall s: seq<real> | Sorted(s) && multiset(s) == multiset(xs) ::
      0 <= Low(pcnt) <= High(pcnt) < |s| && Page(s[Low(pcnt)].Floor) + Page(s[High(pcnt)].Floor) == 0
  }

  /** r is the percentile as read exactly if the ranks fit, and the true one exactly if the reads cancel as well. */
  ghost predicate Judged(r: SqlResult, xs: seq<real>, isDouble: bool, pcnt: real) {
    && (Between(r, xs, isDouble, pcnt) <==> RanksFitAt(xs, pcnt))
    && (IsPercentile(r, xs, isDouble, pcnt) <==> RanksFitAt(xs, pcnt) && (isDouble || ReadsCancelAt(xs, pcnt)))
  }

  lemma FoldParts(how: Visitor, p: Scan, a: seq<Item>, x: Item, b: seq<Item>)
    ensures Fold(how, p, a + [x] + b) == Fold(how, Visit(how, Fold(how, p, a), x), b)
  {
    hide Visit;
    FoldConcat(how, p, a + [x], b);
    FoldConcat(how, p, a, [x]);
  }

  lemma ItemsMore(xs: seq<real>, x: real)
    ensures ItemsOf(xs + [x]) == Insert(ItemsOf(xs), x)
  {
  }

  lemma NoMode(xs: seq<real>)
    ensures xs == [] ==> forall v :: !MostFrequent(xs, v)
  {
  }

  ghost predicate Arrangement(s: seq<real>, xs: seq<real>) {
    && Sorted(s) && multiset(s) == multiset(xs)
    && forall t: seq<real> | Sorted(t) && multiset(t) == multiset(xs) :: t == s
  }

  /** Every sorted arrangement is the same one, so a statement about all of them is one about it. */
  lemma OneArrangement(xs: seq<real>) returns (s: seq<real>)
    ensures Arrangement(s, xs)
  {
    s := Expand(ItemsOf(xs));
    SortedExists(xs);
    hide Sorted;
    forall t | Sorted(t) && multiset(t) == multiset(xs) ensures t == s {
      SortedUnique(t, s);
    }
  }

  /** One average: what the scan gained is the average of the reads if and only if the ranks fit. */
  lemma PercentileIs(q: Scan, isDouble: bool, a: real, b: real, fit: bool)
    requires Gained(START, q, isDouble, a, b, fit)
    ensures fit <==>
      Shows(Percentile(q, isDouble), (Read(isDouble, a) + Read(isDouble, b)) / 2.0, !isDouble && a == b)
  {
  }

  /** The true average is reported exactly if, for integers, the pages of the two values cancel as well. */
  lemma PercentileTrue(q: Scan, isDouble: bool, a: real, b: real, fit: bool)
    requires Gained(START, q, isDouble, a, b, fit)
    requires isDouble || (a == a.Floor as real && b == b.Floor as real)
    ensures fit && (isDouble || Page(a.Floor) + Page(b.Floor) == 0) <==>
      Shows(Percentile(q, isDouble), (a + b) / 2.0, !isDouble && a == b)
  {
    if !isDouble {
      AverageExact(a.Floor, b.Floor);
    }
    hide Page, Wrap32;
  }

  /** What the finalizer makes of the scan of any list. */
  lemma PercentileJudged(xs: seq<real>, isDouble: bool, pcnt: real, q: Scan)
    requires 0.0 < pcnt < |xs| as real && q == Fold(MedianVisitor(isDouble, |xs|, pcnt), START, ItemsOf(xs))
    requires isDouble || forall i | 0 <= i < |xs| :: xs[i] == xs[i].Floor as real
    ensures Judged(Percentile(q, isDouble), xs, isDouble, pcnt)
  {
    hide Fold, ItemsOf, Read, Low, High, Gained, RanksFit, Percentile, Page, Between, IsPercentile, RanksFitAt, Shows,
      ReadsCancelAt, Sorted;
    var s := OneArrangement(xs);
    MedianIs(xs, s, isDouble, pcnt);
    var a, b := s[Low(pcnt)], s[High(pcnt)];
    ArrangedIn(s, xs, Low(pcnt));
    ArrangedIn(s, xs, High(pcnt));
    PercentileIs(q, isDouble, a, b, RanksFit(xs, a, b));
    PercentileTrue(q, isDouble, a, b, RanksFit(xs, a, b));
    JudgedBy(Percentile(q, isDouble), xs, isDouble, pcnt, s);
  }

  lemma ArrangedIn(s: seq<real>, xs: seq<real>, k: nat)
    requires multiset(s) == multiset(xs) && k < |s|
    ensures s[k] in xs
  {
    assert s[k] in multiset(s);
  }

  /** The judgement, spelled out for the one arrangement. */
  lemma JudgedBy(r: SqlResult, xs: seq<real>, isDouble: bool, pcnt: real, s: seq<real>)
    requires Arrangement(s, xs) && 0 <= Low(pcnt) <= High(pcnt) < |s|
    ensures var a, b := s[Low(pcnt)], s[High(pcnt)];
      && (RanksFitAt(xs, pcnt) <==> RanksFit(xs, a, b))
      && (ReadsCancelAt(xs, pcnt) <==> Page(a.Floor) + Page(b.Floor) == 0)
      && Between(r, xs, isDouble, pcnt)
        == Shows(r, (Read(isDouble, a) + Read(isDouble, b)) / 2.0, !isDouble && a == b)
      && IsPercentile(r, xs, isDouble, pcnt) == Shows(r, (a + b) / 2.0, !isDouble && a == b)
  {
    hide Sorted, Low, High, RanksFit, Page, Read, Shows;
  }

  /** The ranks fit for every list of n values as long as n is below 2^31; from there on n equal values break them. */
  lemma RightLengths(n: nat, pcnt: real)
    requires 0.0 < pcnt < n as real
    ensures (forall xs: seq<real> | |xs| == n :: RanksFitAt(xs, pcnt)) <==> n < RANKS
  {
    hide RanksFitAt;
    if n < RANKS {
      forall xs: seq<real> | |xs| == n ensures RanksFitAt(xs, pcnt) {
        ShortListsRight(xs, pcnt);
      }
    } else {
      EqualValuesWrong(n, 0.0, pcnt);
      assert |Repeat(0.0, n)| == n;
    }
  }

  lemma ShortListsRight(xs: seq<real>, pcnt: real)
    requires 0.0 < pcnt < |xs| as real && |xs| < RANKS
    ensures RanksFitAt(xs, pcnt)
  {
    hide Sorted, Low, High, RanksFit;
    PositionsInside(pcnt, |xs|);
    forall s | Sorted(s) && multiset(s) == multiset(xs)
      ensures |s| == |xs| && RanksFit(xs, s[Low(pcnt)], s[High(pcnt)])
    {
      assert |s| == |multiset(s)| == |multiset(xs)| == |xs|;
      ShortListsFit(xs, s[Low(pcnt)], s[High(pcnt)]);
    }
  }

  lemma EqualValuesWrong(n: nat, v: real, pcnt: real)
    requires n >= RANKS && 0.0 < pcnt < n as real
    ensures !RanksFitAt(Repeat(v, n), pcnt)
  {
    var xs := Repeat(v, n);
    PositionsInside(pcnt, n);
    AtMostAll(xs, v);
    assert Sorted(xs) && multiset(xs) == multiset(xs);
    hide Sorted, Low, High, AtMost;
    assert !RanksFit(xs, xs[Low(pcnt)], xs[High(pcnt)]);
  }

  lemma SortedExists(xs: seq<real>)
    ensures Sorted(Expand(ItemsOf(xs))) && multiset(Expand(ItemsOf(xs))) == multiset(xs)
  {
    var items := ItemsOf(xs);
    ItemsCount(xs);
    ExpandSorted(items);
    forall v ensures multiset(Expand(items))[v] == multiset(xs)[v] {
      ExpandCounts(items, v);
    }
  }
}

/** The scans behind mode(), median() and the quartiles, over the items of the tree in increasing order. */
module OrderStatistics {
  import opened Bytes
  import opened CountedItems

  /** The fields of ModeCtx that an iteration changes. */
  datatype Scan = Scan(riM: int, rdM: real, mcnt: nat, mn: nat, done: bool)

  /** Which iterator runs, and the fields it only reads. */
  datatype Visitor = ModeVisitor(isDouble: bool) | MedianVisitor(isDouble: bool, cnt: nat, pcnt: real)

  /** An element as the iterators read it: integers through an int pointer. */
  function Read(isDouble: bool, v: real): real {
    if isDouble then v else Wrap32(v.Floor) as real
  }

  function Add(p: Scan, isDouble: bool, v: real): Scan {
    if isDouble then p.(rdM := p.rdM + v, mn := p.mn + 1) else p.(riM := p.riM + Wrap32(v.Floor), mn := p.mn + 1)
  }

  /** modeIterate and medianIterate */
  function Visit(how: Visitor, p: Scan, x: Item): Scan {
    match how
    case ModeVisitor(isDouble) =>
      if p.mcnt == x.count then p.(mn := p.mn + 1)
      else if p.mcnt < x.count then
        if isDouble then p.(rdM := x.value, mcnt := x.count, mn := 1)
        else p.(riM := Wrap32(x.value.Floor), mcnt := x.count, mn := 1)
      else p
    case MedianVisitor(isDouble, cnt, pcnt) =>
      if p.done then p
      else
        var q :=
          if Wrap32(p.mcnt + x.count) as real >= pcnt then
            if Wrap32(cnt - p.mcnt) as real >= cnt as real - pcnt then Add(p, isDouble, x.value)
            else p.(done := true)
          else p;
        q.(mcnt := p.mcnt + x.count)
  }

  function Fold(how: Visitor, p: Scan, items: seq<Item>): Scan
    decreases |items|
  {
    if |items| == 0 then p else Fold(how, Visit(how, p, items[0]), items[1..])
  }

  lemma {:induction false} FoldConcat(how: Visitor, p: Scan, a: seq<Item>, b: seq<Item>)
    ensures Fold(how, p, a + b) == Fold(how, Fold(how, p, a), b)
    decreases |a|
  {
    hide Visit;
    if |a| == 0 {
      assert a + b == b;
    } else {
      assert (a + b)[1..] == a[1..] + b;
      FoldConcat(how, Visit(how, p, a[0]), a[1..], b);
    }
  }

  const START := Scan(0, 0.0, 0, 0, false)

  function Value(p: Scan, isDouble: bool): real {
    if isDouble then p.rdM else p.riM as real
  }

  // ----- mode -----

  /** How many items have count c. */
  function Having(items: seq<Item>, c: nat): nat {
    if |items| == 0 then 0 else Having(items[..|items| - 1], c) + if items[|items| - 1].count == c then 1 else 0
  }

  /** What modeIterate knows after items. */
  ghost predicate ModeKnown(p: Scan, isDouble: bool, items: seq<Item>) {
    && (forall i | 0 <= i < |items| :: items[i].count <= p.mcnt)
    && (|items| > 0 ==> exists i :: 0 <= i < |items| && items[i].count == p.mcnt)
    && (|items| == 0 ==> p.mcnt == 0)
    && p.mn == Having(items, p.mcnt)
    && (p.mn == 1 ==>
      exists i :: 0 <= i < |items| && items[i].count == p.mcnt && Value(p, isDouble) == Read(isDouble, items[i].value))
  }

  lemma {:induction false} HavingNone(items: seq<Item>, c: nat)
    requires forall i | 0 <= i < |items| :: items[i].count != c
    ensures Having(items, c) == 0
  {
    if |items| > 0 {
      HavingNone(items[..|items| - 1], c);
    }
  }

  lemma ModeVisited(p: Scan, isDouble: bool, items: seq<Item>, x: Item)
    requires ModeKnown(p, isDouble, items) && x.count > 0
    ensures ModeKnown(Visit(ModeVisitor(isDouble), p, x), isDouble, items + [x])
  {
    var all := items + [x];
    var q := Visit(ModeVisitor(isDouble), p, x);
    assert all[..|items|] == items && all[|items|] == x;
    if p.mcnt < x.count {
      HavingNone(items, x.count);
    } else {
      if p.mcnt == x.count {
        assert |items| > 0;
        var i :| 0 <= i < |items| && items[i].count == p.mcnt;
        HavingSome(items, i);
      }
      forall i | 0 <= i < |items| ensures all[i] == items[i] {
      }
      if |items| > 0 {
        var i :| 0 <= i < |items| && items[i].count == p.mcnt;
        assert all[i].count == q.mcnt;
      }
      if q.mn == 1 {
        var i :| 0 <= i < |items| && items[i].count == p.mcnt && Value(p, isDouble) == Read(isDouble, items[i].value);
        assert all[i].count == q.mcnt && Value(q, isDouble) == Read(isDouble, all[i].value);
      }
    }
  }

  lemma {:induction false} HavingSome(items: seq<Item>, i: nat)
    requires i < |items|
    ensures Having(items, items[i].count) > 0
  {
    if i < |items| - 1 {
      HavingSome(items[..|items| - 1], i);
    }
  }

  lemma {:induction false} HavingTwo(items: seq<Item>, i: nat, j: nat)
    requires i < j < |items| && items[i].count == items[j].count
    ensures Having(items, items[i].count) > 1
  {
    if j < |items| - 1 {
      HavingTwo(items[..|items| - 1], i, j);
    } else {
      HavingSome(items[..|items| - 1], i);
    }
  }

  lemma {:induction false} HavingOne(items: seq<Item>, c: nat, i: nat)
    requires i < |items| && items[i].count == c && forall j | 0 <= j < |items| && j != i :: items[j].count != c
    ensures Having(items, c) == 1
  {
    if i < |items| - 1 {
      HavingOne(items[..|items| - 1], c, i);
    } else {
      HavingNone(items[..|items| - 1], c);
    }
  }

  lemma {:induction false} ModeScanned(isDouble: bool, items: seq<Item>)
    requires forall i | 0 <= i < |items| :: items[i].count > 0
    ensures ModeKnown(Fold(ModeVisitor(isDouble), START, items), isDouble, items)
  {
    if |items| > 0 {
      hide ModeKnown, Visit;
      var n := |items| - 1;
      var how := ModeVisitor(isDouble);
      ModeScanned(isDouble, items[..n]);
      assert items == items[..n] + [items[n]];
      FoldConcat(how, START, items[..n], [items[n]]);
      var p := Fold(how, START, items[..n]);
      assert Fold(how, p, [items[n]]) == Visit(how, p, items[n]);
      ModeVisited(p, isDouble, items[..n], items[n]);
    }
  }

  /** v occurs more often than every other value. */
  ghost predicate MostFrequent(xs: seq<real>, v: real) {
    v in xs && forall w | w in xs && w != v :: multiset(xs)[w] < multiset(xs)[v]
  }

  lemma {:induction false} CountAt(items: seq<Item>, i: nat)
    requires Increasing(items) && i < |items|
    ensures Count(items, items[i].value) == items[i].count
  {
    if i == 0 {
      CountAbsent(items[1..], items[0].value);
    } else {
      assert items[0].value < items[i].value;
      CountAt(items[1..], i - 1);
    }
  }

  lemma {:induction false} CountAbsent(items: seq<Item>, v: real)
    requires forall i | 0 <= i < |items| :: items[i].value != v
    ensures Count(items, v) == 0
  {
    if |items| > 0 {
      CountAbsent(items[1..], v);
    }
  }

  /** Where a value that occurs is kept. */
  lemma Find(items: seq<Item>, v: real) returns (i: nat)
    requires Increasing(items) && Count(items, v) > 0
    ensures i < |items| && items[i].value == v && items[i].count == Count(items, v)
  {
    if forall i | 0 <= i < |items| :: items[i].value != v {
      CountAbsent(items, v);
    }
    i :| 0 <= i < |items| && items[i].value == v;
    CountAt(items, i);
  }

  lemma AloneIsMode(xs: seq<real>, i: nat)
    requires var items := ItemsOf(xs);
      i < |items| && (forall k | 0 <= k < |items| :: items[k].count <= items[i].count)
      && Having(items, items[i].count) == 1
    ensures MostFrequent(xs, ItemsOf(xs)[i].value)
  {
    var items := ItemsOf(xs);
    ItemsCount(xs);
    CountAt(items, i);
    var v := items[i].value;
    assert v in multiset(xs);
    forall w | w in xs && w != v ensures multiset(xs)[w] < multiset(xs)[v] {
      assert w in multiset(xs);
      var j := Find(items, w);
      if items[j].count == items[i].count {
        HavingTwo(items, if i < j then i else j, if i < j then j else i);
      }
    }
  }

  lemma ModeIsAlone(xs: seq<real>, v: real) returns (i: nat)
    requires MostFrequent(xs, v)
    ensures var items := ItemsOf(xs);
      i < |items| && items[i].value == v && (forall k | 0 <= k < |items| :: items[k].count <= items[i].count)
      && Having(items, items[i].count) == 1
  {
    var items := ItemsOf(xs);
    ItemsCount(xs);
    assert v in multiset(xs);
    i := Find(items, v);
    forall k | 0 <= k < |items| && k != i ensures items[k].count < items[i].count {
      CountAt(items, k);
      CountAt(items, i);
      assert items[k].value in multiset(xs);
    }
    HavingOne(items, items[i].count, i);
  }

  lemma ModeFound(xs: seq<real>, isDouble: bool, p: Scan)
    requires ModeKnown(p, isDouble, ItemsOf(xs)) && p.mn == 1
    ensures exists v :: MostFrequent(xs, v)
  {
    hide MostFrequent, ItemsOf, Read;
    var items := ItemsOf(xs);
    var i :| 0 <= i < |items| && items[i].count == p.mcnt && Value(p, isDouble) == Read(isDouble, items[i].value);
    AloneIsMode(xs, i);
  }

  lemma ModeKept(xs: seq<real>, isDouble: bool, p: Scan, v: real)
    requires ModeKnown(p, isDouble, ItemsOf(xs)) && MostFrequent(xs, v)
    ensures p.mn == 1 && Value(p, isDouble) == Read(isDouble, v)
  {
    hide MostFrequent, ItemsOf, Read;
    var items := ItemsOf(xs);
    var i := ModeIsAlone(xs, v);
    var j :| 0 <= j < |items| && items[j].count == p.mcnt && Value(p, isDouble) == Read(isDouble, items[j].value);
    if j != i {
      HavingTwo(items, if i < j then i else j, if i < j then j else i);
    }
  }

  /** mode() finds the value that occurs most often, and nothing when several do. */
  lemma ModeIs(xs: seq<real>, isDouble: bool)
    ensures var p := Fold(ModeVisitor(isDouble), START, ItemsOf(xs));
      (p.mn == 1 <==> exists v :: MostFrequent(xs, v))
      && forall v | MostFrequent(xs, v) :: Value(p, isDouble) == Read(isDouble, v)
  {
    ItemsCount(xs);
    ModeScanned(isDouble, ItemsOf(xs));
    hide Fold, ModeKnown, Increasing, Read, ItemsOf, MostFrequent;
    var p := Fold(ModeVisitor(isDouble), START, ItemsOf(xs));
    if p.mn == 1 {
      ModeFound(xs, isDouble, p);
    }
    forall v | MostFrequent(xs, v) ensures p.mn == 1 && Value(p, isDouble) == Read(isDouble, v) {
      ModeKept(xs, isDouble, p, v);
    }
  }

  // ----- median and quartiles -----

  /** Indices of the two sorted values around position pcnt: equal unless pcnt is whole. */
  function Low(pcnt: real): int {
    if pcnt == pcnt.Floor as real then pcnt.Floor - 1 else pcnt.Floor
  }

  function High(pcnt: real): int {
    pcnt.Floor
  }

  /** From here on a count no longer fits in the int ranks of medianIterate. */
  const RANKS := 0x8000_0000

  /** How many values are at most v, and how many at least v. */
  function AtMost(xs: seq<real>, v: real): nat {
    if |xs| == 0 then 0 else AtMost(xs[..|xs| - 1], v) + if xs[|xs| - 1] <= v then 1 else 0
  }

  function AtLeast(xs: seq<real>, v: real): nat {
    if |xs| == 0 then 0 else AtLeast(xs[..|xs| - 1], v) + if xs[|xs| - 1] >= v then 1 else 0
  }

  /** The ranks that decide about the values a <= b around the wanted position fit in an int. */
  predicate RanksFit(xs: seq<real>, a: real, b: real) {
    AtMost(xs, b) < RANKS && AtLeast(xs, a) < RANKS
  }

  /** The same two numbers, counted in the tree. */
  function UpTo(items: seq<Item>, v: real): nat {
    if |items| == 0 then 0 else (if items[0].value <= v then items[0].count else 0) + UpTo(items[1..], v)
  }

  function Under(items: seq<Item>, v: real): nat {
    if |items| == 0 then 0 else (if items[0].value < v then items[0].count else 0) + Under(items[1..], v)
  }

  lemma {:induction false} InsertRanks(items: seq<Item>, e: real, v: real)
    ensures UpTo(Insert(items, e), v) == UpTo(items, v) + if e <= v then 1 else 0
    ensures Under(Insert(items, e), v) == Under(items, v) + if e < v then 1 else 0
  {
    if |items| > 0 && items[0].value < e {
      InsertRanks(items[1..], e, v);
    }
  }

  lemma {:induction false} ItemsRanks(xs: seq<real>, v: real)
    ensures UpTo(ItemsOf(xs), v) == AtMost(xs, v)
    ensures |xs| - Under(ItemsOf(xs), v) == AtLeast(xs, v)
  {
    if |xs| > 0 {
      ItemsRanks(xs[..|xs| - 1], v);
      InsertRanks(ItemsOf(xs[..|xs| - 1]), xs[|xs| - 1], v);
      hide Insert, UpTo, Under;
    }
  }

  /** A sorted value has at least its position's number of values on either side. */
  lemma {:induction false} ExpandRanks(items: seq<Item>, k: nat)
    requires Increasing(items) && k < Total(items)
    ensures UpTo(items, Expand(items)[k]) > k && Under(items, Expand(items)[k]) <= k
  {
    var x, rest := items[0], items[1..];
    if k < x.count {
      NoneUnder(items, x.value);
    } else {
      ExpandRanks(rest, k - x.count);
      ExpandSorted(items);
    }
  }

  lemma {:induction false} NoneUnder(items: seq<Item>, v: real)
    requires forall i | 0 <= i < |items| :: items[i].value >= v
    ensures Under(items, v) == 0
  {
    if |items| > 0 {
      NoneUnder(items[1..], v);
    }
  }

  lemma {:induction false} NoneUpTo(items: seq<Item>, v: real)
    requires forall i | 0 <= i < |items| :: items[i].value > v
    ensures UpTo(items, v) == 0
  {
    if |items| > 0 {
      NoneUpTo(items[1..], v);
    }
  }

  /** The wanted position is at most RANKS away from both ends. */
  predicate Reachable(cnt: nat, pcnt: real) {
    0.0 < pcnt < cnt as real && pcnt < RANKS as real && cnt as real - pcnt < RANKS as real
  }

  lemma MedianVisited(isDouble: bool, cnt: nat, pcnt: real, p: Scan, x: Item)
    requires Reachable(cnt, pcnt) && p.mcnt + x.count <= cnt && !p.done
    ensures Visit(MedianVisitor(isDouble, cnt, pcnt), p, x)
      == (if (p.mcnt + x.count) as real < pcnt || p.mcnt + x.count >= RANKS then p
          else if p.mcnt as real <= pcnt && cnt - p.mcnt < RANKS then Add(p, isDouble, x.value)
          else p.(done := true)).(mcnt := p.mcnt + x.count)
  {
    RankWraps(cnt, p.mcnt + x.count);
    RankWraps(cnt, cnt - p.mcnt);
    hide Wrap32, Add;
  }

  lemma RankWraps(cnt: nat, r: nat)
    requires r <= cnt < 2 * RANKS
    ensures if r < RANKS then Wrap32(r) == r else Wrap32(r) < 0
  {
  }

  /** Beyond the wanted position nothing is added. */
  lemma {:induction false} MedianPast(isDouble: bool, cnt: nat, pcnt: real, p: Scan, items: seq<Item>)
    requires Reachable(cnt, pcnt) && (p.done || (p.mcnt as real > pcnt && p.mcnt + Total(items) <= cnt))
    ensures var q := Fold(MedianVisitor(isDouble, cnt, pcnt), p, items);
      q.mn == p.mn && Value(q, isDouble) == Value(p, isDouble)
    decreases |items|
  {
    if |items| > 0 {
      var q := Visit(MedianVisitor(isDouble, cnt, pcnt), p, items[0]);
      if !p.done {
        MedianVisited(isDouble, cnt, pcnt, p, items[0]);
      }
      hide Visit, Reachable;
      MedianPast(isDouble, cnt, pcnt, q, items[1..]);
    }
  }

  /** A position too far from one of the ends is never found. */
  lemma {:induction false} MedianNever(isDouble: bool, cnt: nat, pcnt: real, p: Scan, items: seq<Item>)
    requires pcnt >= RANKS as real || cnt as real - pcnt >= RANKS as real
    ensures var q := Fold(MedianVisitor(isDouble, cnt, pcnt), p, items);
      q.mn == p.mn && Value(q, isDouble) == Value(p, isDouble)
    decreases |items|
  {
    if |items| > 0 {
      var q := Visit(MedianVisitor(isDouble, cnt, pcnt), p, items[0]);
      assert q.mn == p.mn && Value(q, isDouble) == Value(p, isDouble);
      hide Visit, Value;
      MedianNever(isDouble, cnt, pcnt, q, items[1..]);
    }
  }

  /** At the wanted position one more value is added, if its rank fits. */
  lemma MedianAt(isDouble: bool, cnt: nat, pcnt: real, p: Scan, items: seq<Item>)
    requires Reachable(cnt, pcnt) && |items| > 0 && items[0].count > 0 && !p.done
    requires p.mcnt as real == pcnt && p.mcnt + Total(items) <= cnt
    ensures var q := Fold(MedianVisitor(isDouble, cnt, pcnt), p, items);
      if p.mcnt + items[0].count < RANKS
      then q.mn == p.mn + 1 && Value(q, isDouble) == Value(p, isDouble) + Read(isDouble, items[0].value)
      else q.mn == p.mn && Value(q, isDouble) == Value(p, isDouble)
  {
    MedianVisited(isDouble, cnt, pcnt, p, items[0]);
    AddValue(p, isDouble, items[0].value);
    var q := Visit(MedianVisitor(isDouble, cnt, pcnt), p, items[0]);
    hide Visit, Add, Read;
    MedianPast(isDouble, cnt, pcnt, q, items[1..]);
  }

  /** What a scan adds to mn and to its sum, for the values a <= b around the wanted position. */
  ghost predicate Gained(p: Scan, q: Scan, isDouble: bool, a: real, b: real, fit: bool) {
    var sum := Value(q, isDouble) - Value(p, isDouble);
    if !fit then (q.mn == p.mn && sum == 0.0) || (a != b && q.mn == p.mn + 1 && sum == Read(isDouble, a))
    else if a == b then q.mn == p.mn + 1 && sum == Read(isDouble, a)
    else q.mn == p.mn + 2 && sum == Read(isDouble, a) + Read(isDouble, b)
  }

  /** From below the wanted position: the scan adds the value there, or the two around it, if their ranks fit. */
  lemma {:induction false} MedianScan(isDouble: bool, cnt: nat, pcnt: real, p: Scan, items: seq<Item>)
    requires Reachable(cnt, pcnt) && Increasing(items) && !p.done
    requires p.mcnt as real < pcnt && p.mcnt + Total(items) == cnt
    ensures 0 <= Low(pcnt) - p.mcnt <= High(pcnt) - p.mcnt < Total(items)
    ensures var q := Fold(MedianVisitor(isDouble, cnt, pcnt), p, items);
      var a, b := Expand(items)[Low(pcnt) - p.mcnt], Expand(items)[High(pcnt) - p.mcnt];
      Gained(p, q, isDouble, a, b, p.mcnt + UpTo(items, b) < RANKS && cnt - p.mcnt - Under(items, a) < RANKS)
    decreases |items|
  {
    hide *;
    HasFirst(items, p, cnt, pcnt);
    var x, rest := items[0], items[1..];
    FirstAndRest(items);
    AroundFirst(items, pcnt, p.mcnt);
    var m := p.mcnt + x.count;
    if pcnt < m as real {
      ScanWithin(isDouble, cnt, pcnt, p, items);
    } else if pcnt == m as real {
      ScanAcross(isDouble, cnt, pcnt, p, items);
    } else {
      var how := MedianVisitor(isDouble, cnt, pcnt);
      var q := p.(mcnt := m);
      ScanBefore(isDouble, cnt, pcnt, p, items);
      MedianScan(isDouble, cnt, pcnt, q, rest);
      var a, b := Expand(rest)[Low(pcnt) - m], Expand(rest)[High(pcnt) - m];
      GainedSince(p, q, Fold(how, q, rest), isDouble, a, b,
        m + UpTo(rest, b) < RANKS && cnt - m - Under(rest, a) < RANKS);
    }
  }

  lemma HasFirst(items: seq<Item>, p: Scan, cnt: nat, pcnt: real)
    requires Reachable(cnt, pcnt) && p.mcnt as real < pcnt && p.mcnt + Total(items) == cnt
    ensures |items| > 0 && pcnt < cnt as real
  {
  }

  lemma FirstAndRest(items: seq<Item>)
    requires Increasing(items) && |items| > 0
    ensures Increasing(items[1..]) && items[0].count > 0 && Total(items) == items[0].count + Total(items[1..])
    ensures |items| > 1 ==> items[1..][0] == items[1] && items[0].value < items[1].value && items[1].count > 0
  {
  }

  /** An item before the wanted position is only counted. */
  lemma ScanBefore(isDouble: bool, cnt: nat, pcnt: real, p: Scan, items: seq<Item>)
    requires Reachable(cnt, pcnt) && |items| > 0 && !p.done && p.mcnt + Total(items) == cnt
    requires (p.mcnt + items[0].count) as real < pcnt
    ensures var how := MedianVisitor(isDouble, cnt, pcnt);
      Fold(how, p, items) == Fold(how, p.(mcnt := p.mcnt + items[0].count), items[1..])
  {
    MedianVisited(isDouble, cnt, pcnt, p, items[0]);
    hide Visit, Reachable;
  }

  lemma GainedSince(p: Scan, p': Scan, q: Scan, isDouble: bool, a: real, b: real, fit: bool)
    requires p' == p.(mcnt := p'.mcnt) && Gained(p', q, isDouble, a, b, fit)
    ensures Gained(p, q, isDouble, a, b, fit)
  {
  }

  /** The wanted position is inside the run of the first item. */
  lemma ScanWithin(isDouble: bool, cnt: nat, pcnt: real, p: Scan, items: seq<Item>)
    requires Reachable(cnt, pcnt) && |items| > 0 && !p.done && p.mcnt + Total(items) == cnt
    requires p.mcnt as real < pcnt < (p.mcnt + items[0].count) as real
    ensures var q := Fold(MedianVisitor(isDouble, cnt, pcnt), p, items); var v := items[0].value;
      Gained(p, q, isDouble, v, v, p.mcnt + items[0].count < RANKS && cnt - p.mcnt < RANKS)
  {
    hide Read;
    var q := Visit(MedianVisitor(isDouble, cnt, pcnt), p, items[0]);
    MedianVisited(isDouble, cnt, pcnt, p, items[0]);
    AddValue(p, isDouble, items[0].value);
    hide Visit, Add;
    MedianPast(isDouble, cnt, pcnt, q, items[1..]);
  }

  /** The wanted position is between the runs of the first two items. */
  lemma ScanAcross(isDouble: bool, cnt: nat, pcnt: real, p: Scan, items: seq<Item>)
    requires Reachable(cnt, pcnt) && |items| > 1 && !p.done && p.mcnt + Total(items) == cnt
    requires p.mcnt as real < pcnt == (p.mcnt + items[0].count) as real
    requires items[0].value != items[1].value && items[1].count > 0
    ensures var q := Fold(MedianVisitor(isDouble, cnt, pcnt), p, items);
      Gained(p, q, isDouble, items[0].value, items[1].value,
        p.mcnt + items[0].count + items[1].count < RANKS && cnt - p.mcnt < RANKS)
  {
    hide Read;
    var q := Visit(MedianVisitor(isDouble, cnt, pcnt), p, items[0]);
    MedianVisited(isDouble, cnt, pcnt, p, items[0]);
    AddValue(p, isDouble, items[0].value);
    hide Visit, Add;
    if q.done {
      MedianPast(isDouble, cnt, pcnt, q, items[1..]);
    } else {
      MedianAt(isDouble, cnt, pcnt, q, items[1..]);
    }
  }

  /** Where the two values around the wanted position are, and their ranks. */
  lemma AroundFirst(items: seq<Item>, pcnt: real, m: nat)
    requires Increasing(items) && |items| > 0 && m as real < pcnt < (m + Total(items)) as real
    ensures 0 <= Low(pcnt) - m <= High(pcnt) - m < Total(items)
    ensures var x, rest := items[0], items[1..];
      var a, b := Expand(items)[Low(pcnt) - m], Expand(items)[High(pcnt) - m];
      if pcnt < (m + x.count) as real then
        a == b == x.value && UpTo(items, b) == x.count && Under(items, a) == 0
      else if pcnt == (m + x.count) as real then
        |rest| > 0 && a == x.value < b == rest[0].value
        && Under(items, a) == 0 && UpTo(items, b) == x.count + rest[0].count
      else
        0 <= Low(pcnt) - m - x.count && High(pcnt) - m - x.count < Total(rest)
        && a == Expand(rest)[Low(pcnt) - m - x.count] && b == Expand(rest)[High(pcnt) - m - x.count]
        && UpTo(items, b) == x.count + UpTo(rest, b) && Under(items, a) == x.count + Under(rest, a)
  {
    hide *;
    var low, high, at := Low(pcnt) - m, High(pcnt) - m, m + items[0].count;
    Positions(pcnt, m, at, m + Total(items));
    if pcnt < at as real {
      PlacedFirst(items, low, high);
    } else if pcnt == at as real {
      PlacedBetween(items);
    } else {
      PlacedLater(items, low, high);
    }
  }

  lemma PlacedFirst(items: seq<Item>, low: nat, high: nat)
    requires Increasing(items) && |items| > 0 && low <= high < items[0].count
    ensures high < Total(items) && Expand(items)[low] == Expand(items)[high] == items[0].value
    ensures UpTo(items, items[0].value) == items[0].count && Under(items, items[0].value) == 0
  {
    hide *;
    FirstAndRest(items);
    ExpandAt(items, low);
    ExpandAt(items, high);
    FirstRanks(items);
  }

  lemma PlacedBetween(items: seq<Item>)
    requires Increasing(items) && |items| > 0 && items[0].count < Total(items)
    ensures items[0].count > 0 && |items| > 1
    ensures var n, v, w := items[0].count, items[0].value, items[1].value;
      && Expand(items)[n - 1] == v < w == Expand(items)[n]
      && Under(items, v) == 0 && UpTo(items, w) == n + items[1].count
  {
    hide *;
    FirstAndRest(items);
    SecondRank(items);
    ExpandAt(items, items[0].count - 1);
    ExpandAt(items, items[0].count);
    ExpandAt(items[1..], 0);
    FirstRanks(items);
  }

  lemma PlacedLater(items: seq<Item>, low: nat, high: nat)
    requires Increasing(items) && |items| > 0 && items[0].count <= low <= high < Total(items)
    ensures var n, rest := items[0].count, items[1..]; var a, b := Expand(items)[low], Expand(items)[high];
      high - n < Total(rest) && a == Expand(rest)[low - n] && b == Expand(rest)[high - n]
      && UpTo(items, b) == n + UpTo(rest, b) && Under(items, a) == n + Under(rest, a)
  {
    hide *;
    FirstAndRest(items);
    ExpandAt(items, low);
    ExpandAt(items, high);
    LaterRanks(items, low - items[0].count);
    LaterRanks(items, high - items[0].count);
  }

  lemma Positions(pcnt: real, from: nat, at: nat, to: nat)
    requires from as real < pcnt < to as real
    ensures from <= Low(pcnt) <= High(pcnt) < to
    ensures pcnt < at as real ==> High(pcnt) < at
    ensures pcnt == at as real ==> Low(pcnt) == at - 1 && High(pcnt) == at
    ensures pcnt > at as real ==> Low(pcnt) >= at
  {
  }

  /** Position k is in the first run or further on. */
  lemma ExpandAt(items: seq<Item>, k: nat)
    requires k < Total(items) && (|items| > 0 && items[0].count > 0)
    ensures Expand(items)[k] == if k < items[0].count then items[0].value else Expand(items[1..])[k - items[0].count]
  {
  }

  lemma FirstRanks(items: seq<Item>)
    requires Increasing(items) && |items| > 0
    ensures UpTo(items, items[0].value) == items[0].count && Under(items, items[0].value) == 0
  {
    NoneUnder(items, items[0].value);
    NoneUpTo(items[1..], items[0].value);
  }

  lemma SecondRank(items: seq<Item>)
    requires Increasing(items) && |items| > 0 && Total(items) > items[0].count
    ensures var rest := items[1..];
      |rest| > 0 && rest[0].count > 0 && Total(rest) > 0 && items[0].value < rest[0].value && Increasing(rest)
      && UpTo(items, rest[0].value) == items[0].count + rest[0].count
  {
    var rest := items[1..];
    assert |rest| > 0 && rest[0] == items[1];
    FirstRanks(rest);
  }

  /** A value further on has the first run below it. */
  lemma LaterRanks(items: seq<Item>, k: nat)
    requires Increasing(items) && |items| > 0 && k < Total(items[1..])
    ensures var v := Expand(items[1..])[k];
      UpTo(items, v) == items[0].count + UpTo(items[1..], v) && Under(items, v) == items[0].count + Under(items[1..], v)
  {
    var rest := items[1..];
    ExpandSorted(rest);
    assert |rest| > 0 && rest[0] == items[1];
    hide Expand;
  }

  lemma AddValue(p: Scan, isDouble: bool, v: real)
    ensures Value(Add(p, isDouble, v), isDouble) == Value(p, isDouble) + Read(isDouble, v)
    ensures Add(p, isDouble, v).mn == p.mn + 1 && Add(p, isDouble, v).done == p.done
  {
  }

  /** The scan of all items, wherever the position is. */
  lemma MedianOfItems(isDouble: bool, pcnt: real, items: seq<Item>)
    requires Increasing(items) && 0.0 < pcnt < Total(items) as real
    ensures 0 <= Low(pcnt) <= High(pcnt) < Total(items)
    ensures var cnt := Total(items); var q := Fold(MedianVisitor(isDouble, cnt, pcnt), START, items);
      var a, b := Expand(items)[Low(pcnt)], Expand(items)[High(pcnt)];
      Gained(START, q, isDouble, a, b, UpTo(items, b) < RANKS && cnt - Under(items, a) < RANKS)
  {
    var cnt := Total(items);
    PositionsInside(pcnt, cnt);
    if Reachable(cnt, pcnt) {
      hide *;
      MedianScan(isDouble, cnt, pcnt, START, items);
    } else {
      FarIsUnfit(pcnt, items);
      hide *;
      MedianNever(isDouble, cnt, pcnt, START, items);
      NothingGained(START, Fold(MedianVisitor(isDouble, cnt, pcnt), START, items), isDouble,
        Expand(items)[Low(pcnt)], Expand(items)[High(pcnt)]);
    }
  }

  lemma FarIsUnfit(pcnt: real, items: seq<Item>)
    requires Increasing(items) && 0.0 < pcnt < Total(items) as real && !Reachable(Total(items), pcnt)
    ensures pcnt >= RANKS as real || Total(items) as real - pcnt >= RANKS as real
    ensures 0 <= Low(pcnt) <= High(pcnt) < Total(items)
    ensures UpTo(items, Expand(items)[High(pcnt)]) >= RANKS
      || Total(items) - Under(items, Expand(items)[Low(pcnt)]) >= RANKS
  {
    var cnt := Total(items);
    PositionsInside(pcnt, cnt);
    assert pcnt >= RANKS as real || cnt as real - pcnt >= RANKS as real;
    hide *;
    ExpandRanks(items, Low(pcnt));
    ExpandRanks(items, High(pcnt));
  }

  /** The scan of a whole list gains what the sorted values around the position give, exactly if their ranks fit. */
  lemma MedianIs(xs: seq<real>, s: seq<real>, isDouble: bool, pcnt: real)
    requires Sorted(s) && multiset(s) == multiset(xs) && 0.0 < pcnt < |xs| as real
    ensures 0 <= Low(pcnt) <= High(pcnt) < |s|
    ensures var q := Fold(MedianVisitor(isDouble, |xs|, pcnt), START, ItemsOf(xs));
      var a, b := s[Low(pcnt)], s[High(pcnt)];
      Gained(START, q, isDouble, a, b, RanksFit(xs, a, b))
  {
    hide Sorted, Increasing, ItemsOf, Expand, UpTo, Under, AtMost, AtLeast, Fold, Low, High, Gained, Total;
    ItemsCount(xs);
    ExpandIsSorted(xs, s);
    MedianOfItems(isDouble, pcnt, ItemsOf(xs));
    ItemsRanks(xs, s[Low(pcnt)]);
    ItemsRanks(xs, s[High(pcnt)]);
  }

  lemma NothingGained(p: Scan, q: Scan, isDouble: bool, a: real, b: real)
    requires q.mn == p.mn && Value(q, isDouble) == Value(p, isDouble)
    ensures Gained(p, q, isDouble, a, b, false)
  {
  }

  lemma PositionsInside(pcnt: real, cnt: nat)
    requires 0.0 < pcnt < cnt as real
    ensures 0 <= Low(pcnt) <= High(pcnt) < cnt && Low(pcnt) as real <= pcnt < (High(pcnt) + 1) as real
  {
  }

  /** Fewer than 2^31 values are always few enough. */
  lemma ShortListsFit(xs: seq<real>, a: real, b: real)
    requires |xs| < RANKS
    ensures RanksFit(xs, a, b)
  {
    AtMostAll(xs, b);
    AtLeastAll(xs, a);
  }

  lemma {:induction false} AtMostAll(xs: seq<real>, v: real)
    ensures AtMost(xs, v) <= |xs|
    ensures (forall i | 0 <= i < |xs| :: xs[i] <= v) ==> AtMost(xs, v) == |xs|
  {
    if |xs| > 0 {
      AtMostAll(xs[..|xs| - 1], v);
    }
  }

  lemma {:induction false} AtLeastAll(xs: seq<real>, v: real)
    ensures AtLeast(xs, v) <= |xs|
  {
    if |xs| > 0 {
      AtLeastAll(xs[..|xs| - 1], v);
    }
  }

  /** The median of n values is the middle one or the average of the two middle ones; quartiles likewise. */
  lemma Middles(n: nat, r: nat)
    requires n > 0 && 1 <= r <= 3
    ensures Low((2 * n) as real / 2.0) == n - 1 && High((2 * n) as real / 2.0) == n
    ensures Low((2 * n - 1) as real / 2.0) == High((2 * n - 1) as real / 2.0) == n - 1
    ensures Low((4 * n) as real / 4.0) == n - 1 && High((4 * n) as real / 4.0) == n
    ensures Low((3 * (4 * n)) as real / 4.0) == 3 * n - 1 && High((3 * (4 * n)) as real / 4.0) == 3 * n
    ensures Low((4 * n - r) as real / 4.0) == High((4 * n - r) as real / 4.0) == n - 1
    ensures Low((3 * (4 * n - r)) as real / 4.0) == High((3 * (4 * n - r)) as real / 4.0) == 3 * n - r
  {
  }

  // ----- when the 32-bit reads do no harm -----

  /** How many times 2^32 a value is away from the 32-bit range. */
  function Page(i: int): int {
    (i + 0x8000_0000) / 0x1_0000_0000
  }

  /** The 32-bit read is right for exactly the values in range. */
  lemma ReadExact(i: int)
    ensures Read(false, i as real) == i as real <==> -0x8000_0000 <= i < 0x8000_0000
  {
  }

  /** An average of two integers survives exactly when their distances from the range cancel. */
  lemma AverageExact(i: int, j: int)
    ensures (Read(false, i as real) + Read(false, j as real)) / 2.0 == (i as real + j as real) / 2.0
      <==> Page(i) + Page(j) == 0
  {
  }

  /** mode() of integers is right exactly when the most frequent one fits in 32 bits. */
  lemma ModeExact(xs: seq<real>, v: int)
    requires MostFrequent(xs, v as real)
    ensures var p := Fold(ModeVisitor(false), START, ItemsOf(xs));
      p.mn == 1 && (Value(p, false) == v as real <==> -0x8000_0000 <= v < 0x8000_0000)
  {
    ModeIs(xs, false);
    ReadExact(v);
    hide Fold, ItemsOf, MostFrequent, Read;
  }

  /** The smallest value that comes out wrong: mode() of 2^31 alone is -2^31. */
  lemma FirstWrong()
    ensures var p := Fold(ModeVisitor(false), START, ItemsOf([2147483648.0]));
      p.mn == 1 && Value(p, false) == -2147483648.0
  {
    var xs := [2147483648.0];
    assert xs[0] == 2147483648.0 && MostFrequent(xs, 2147483648.0);
    ModeIs(xs, false);
    hide Fold, ItemsOf, MostFrequent;
  }
}

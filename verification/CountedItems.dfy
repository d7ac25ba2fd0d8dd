/** What the counted search tree stores: distinct values in increasing order, each with its multiplicity. */
module CountedItems {
  datatype Item = Item(value: real, count: nat)

  ghost predicate Increasing(items: seq<Item>) {
    && (forall i | 0 <= i < |items| :: items[i].count > 0)
    && forall i, j | 0 <= i < j < |items| :: items[i].value < items[j].value
  }

  /** How often v occurs. */
  function Count(items: seq<Item>, v: real): nat {
    if |items| == 0 then 0
    else (if items[0].value == v then items[0].count else 0) + Count(items[1..], v)
  }

  function Total(items: seq<Item>): nat {
    if |items| == 0 then 0 else items[0].count + Total(items[1..])
  }

  /** One more occurrence of e. */
  function Insert(items: seq<Item>, e: real): seq<Item> {
    if |items| == 0 then [Item(e, 1)]
    else if items[0].value == e then [Item(e, items[0].count + 1)] + items[1..]
    else if e < items[0].value then [Item(e, 1)] + items
    else [items[0]] + Insert(items[1..], e)
  }

  lemma {:induction false} InsertIncreasing(items: seq<Item>, e: real)
    requires Increasing(items)
    ensures Increasing(Insert(items, e)) && |Insert(items, e)| > 0
    ensures Insert(items, e)[0].value == if |items| == 0 || e < items[0].value then e else items[0].value
  {
    if |items| > 0 && items[0].value < e {
      InsertIncreasing(items[1..], e);
      Prepend(items[0], Insert(items[1..], e));
    }
  }

  lemma Prepend(x: Item, rest: seq<Item>)
    requires Increasing(rest) && x.count > 0 && (|rest| > 0 ==> x.value < rest[0].value)
    ensures Increasing([x] + rest)
  {
  }

  lemma {:induction false} InsertCounts(items: seq<Item>, e: real, v: real)
    ensures Count(Insert(items, e), v) == Count(items, v) + if v == e then 1 else 0
  {
    if |items| > 0 && items[0].value < e {
      InsertCounts(items[1..], e, v);
    }
  }

  lemma {:induction false} InsertTotal(items: seq<Item>, e: real)
    ensures Total(Insert(items, e)) == Total(items) + 1
  {
    if |items| > 0 && items[0].value < e {
      InsertTotal(items[1..], e);
    }
  }

  /** Inserting left or right of an element leaves the other side alone. */
  lemma {:induction false} InsertLeft(left: seq<Item>, right: seq<Item>, e: real)
    requires |right| > 0 && e < right[0].value
    ensures Insert(left + right, e) == Insert(left, e) + right
  {
    if |left| == 0 {
      assert left + right == right;
    } else {
      assert (left + right)[1..] == left[1..] + right;
      if left[0].value < e {
        InsertLeft(left[1..], right, e);
      }
    }
  }

  lemma {:induction false} InsertRight(left: seq<Item>, right: seq<Item>, e: real)
    requires forall i | 0 <= i < |left| :: left[i].value < e
    ensures Insert(left + right, e) == left + Insert(right, e)
  {
    if |left| == 0 {
      assert left + right == right;
    } else {
      assert (left + right)[1..] == left[1..] + right;
      InsertRight(left[1..], right, e);
      assert [left[0]] + left[1..] == left;
    }
  }

  /** The items of a list of values. */
  function ItemsOf(xs: seq<real>): seq<Item> {
    if |xs| == 0 then [] else Insert(ItemsOf(xs[..|xs| - 1]), xs[|xs| - 1])
  }

  /** Every distinct value once, in increasing order, with its exact multiplicity. */
  lemma {:induction false} ItemsCount(xs: seq<real>)
    ensures Increasing(ItemsOf(xs)) && Total(ItemsOf(xs)) == |xs|
    ensures forall v :: Count(ItemsOf(xs), v) == multiset(xs)[v]
  {
    if |xs| > 0 {
      hide Insert, Count, Increasing, Total;
      var n := |xs| - 1;
      ItemsCount(xs[..n]);
      InsertIncreasing(ItemsOf(xs[..n]), xs[n]);
      InsertTotal(ItemsOf(xs[..n]), xs[n]);
      assert xs == xs[..n] + [xs[n]];
      forall v ensures Count(ItemsOf(xs), v) == multiset(xs)[v] {
        InsertCounts(ItemsOf(xs[..n]), xs[n], v);
      }
    }
  }

  // ----- the sorted values -----

  function Repeat(v: real, n: nat): (s: seq<real>)
    ensures |s| == n && forall i | 0 <= i < n :: s[i] == v
  {
    seq(n, _ => v)
  }

  /** Every value as often as it occurs. */
  function Expand(items: seq<Item>): (s: seq<real>)
    ensures |s| == Total(items)
  {
    if |items| == 0 then [] else Repeat(items[0].value, items[0].count) + Expand(items[1..])
  }

  ghost predicate Sorted(s: seq<real>) {
    forall i, j | 0 <= i < j < |s| :: s[i] <= s[j]
  }

  lemma {:induction false} ExpandSorted(items: seq<Item>)
    requires Increasing(items)
    ensures Sorted(Expand(items))
    ensures forall i | 0 <= i < |Expand(items)| :: |items| > 0 && Expand(items)[i] >= items[0].value
  {
    if |items| > 0 {
      ExpandSorted(items[1..]);
      var head, tail := Repeat(items[0].value, items[0].count), Expand(items[1..]);
      forall i | 0 <= i < |tail| ensures items[0].value < tail[i] {
        assert items[1..][0] == items[1];
      }
      assert forall i | 0 <= i < |head + tail| :: (head + tail)[i] == if i < |head| then head[i] else tail[i - |head|];
    }
  }

  lemma {:induction false} RepeatCounts(v: real, n: nat, w: real)
    ensures multiset(Repeat(v, n))[w] == if v == w then n else 0
  {
    if n > 0 {
      assert Repeat(v, n) == Repeat(v, n - 1) + [v];
      RepeatCounts(v, n - 1, w);
    }
  }

  lemma {:induction false} ExpandCounts(items: seq<Item>, v: real)
    ensures multiset(Expand(items))[v] == Count(items, v)
  {
    if |items| > 0 {
      RepeatCounts(items[0].value, items[0].count, v);
      ExpandCounts(items[1..], v);
    }
  }

  /** Sorting has one result. */
  lemma {:induction false} SortedUnique(s: seq<real>, t: seq<real>)
    requires Sorted(s) && Sorted(t) && multiset(s) == multiset(t)
    ensures s == t
  {
    hide Sorted;
    assert |s| == |multiset(s)| == |multiset(t)| == |t|;
    if |s| > 0 {
      var n := |s| - 1;
      LastIsGreatest(s, t);
      LastIsGreatest(t, s);
      WithoutLast(s);
      WithoutLast(t);
      SortedUnique(s[..n], t[..n]);
      assert s == s[..n] + [s[n]] && t == t[..n] + [t[n]];
    }
  }

  lemma WithoutLast(s: seq<real>)
    requires |s| > 0
    ensures multiset(s[..|s| - 1]) == multiset(s) - multiset{s[|s| - 1]}
    ensures Sorted(s) ==> Sorted(s[..|s| - 1])
  {
    assert s == s[..|s| - 1] + [s[|s| - 1]];
  }

  lemma LastIsGreatest(s: seq<real>, t: seq<real>)
    requires Sorted(s) && |s| > 0 && |t| > 0 && multiset(s) == multiset(t)
    ensures t[|t| - 1] <= s[|s| - 1]
  {
    var x := t[|t| - 1];
    assert x in multiset(t);
    assert x in s;
  }

  /** The expanded items are the values themselves, sorted. */
  lemma ExpandIsSorted(xs: seq<real>, s: seq<real>)
    requires Sorted(s) && multiset(s) == multiset(xs)
    ensures Expand(ItemsOf(xs)) == s
  {
    var items := ItemsOf(xs);
    ItemsCount(xs);
    ExpandSorted(items);
    forall v ensures multiset(Expand(items))[v] == multiset(xs)[v] {
      ExpandCounts(items, v);
    }
    assert multiset(Expand(items)) == multiset(xs);
    SortedUnique(Expand(items), s);
  }
}

/** The binary search tree of extension-functions.c: linked nodes with counts, changed in place. */
module CountedTree {
  import opened CountedItems

  class Node {
    var l: Node?
    var r: Node?
    var data: real
    var count: nat
    ghost var Repr: set<Node>
    ghost var Items: seq<Item>

    constructor (e: real)
      ensures Valid() && fresh(Repr) && Items == [Item(e, 1)]
    {
      l, r, data, count := null, null, e, 1;
      Repr, Items := {this}, [Item(e, 1)];
    }

    ghost predicate Valid()
      reads this, Repr
      decreases Repr
    {
      && this in Repr
      && (l != null ==> l in Repr && l.Repr <= Repr && this !in l.Repr && l.Valid())
      && (r != null ==> r in Repr && r.Repr <= Repr && this !in r.Repr && r.Valid())
      && (l != null && r != null ==> l.Repr !! r.Repr)
      && Items == ItemsIn(l) + [Item(data, count)] + ItemsIn(r)
      && Increasing(Items)
    }
  }

  ghost function ItemsIn(n: Node?): seq<Item>
    reads n
  {
    if n == null then [] else n.Items
  }

  ghost function NodesIn(n: Node?): set<Node>
    reads n
  {
    if n == null then {} else n.Repr
  }

  ghost predicate ValidTree(n: Node?)
    reads n, NodesIn(n)
  {
    n != null ==> n.Valid()
  }

  lemma PartsIncreasing(a: seq<Item>, x: Item, b: seq<Item>)
    requires Increasing(a + [x] + b)
    ensures forall i | 0 <= i < |a| :: a[i].value < x.value
    ensures forall i | 0 <= i < |b| :: x.value < b[i].value
  {
    var all := a + [x] + b;
    assert all[|a|] == x;
    forall i | 0 <= i < |a| ensures a[i].value < x.value {
      assert all[i] == a[i];
    }
    forall i | 0 <= i < |b| ensures x.value < b[i].value {
      assert all[|a| + 1 + i] == b[i];
    }
  }

  lemma InsertHere(a: seq<Item>, x: Item, b: seq<Item>)
    requires Increasing(a + [x] + b)
    ensures Insert(a + [x] + b, x.value) == a + [Item(x.value, x.count + 1)] + b
    ensures Increasing(a + [Item(x.value, x.count + 1)] + b)
  {
    PartsIncreasing(a, x, b);
    InsertRight(a, [x] + b, x.value);
    assert a + ([x] + b) == a + [x] + b;
    InsertIncreasing(a + [x] + b, x.value);
    assert Insert([x] + b, x.value) == [Item(x.value, x.count + 1)] + b;
    assert a + ([Item(x.value, x.count + 1)] + b) == a + [Item(x.value, x.count + 1)] + b;
  }

  lemma InsertBefore(a: seq<Item>, x: Item, b: seq<Item>, e: real)
    requires Increasing(a + [x] + b) && e < x.value
    ensures Insert(a + [x] + b, e) == Insert(a, e) + [x] + b && Increasing(Insert(a, e) + [x] + b)
  {
    InsertLeft(a, [x] + b, e);
    assert a + ([x] + b) == a + [x] + b;
    assert Insert(a, e) + ([x] + b) == Insert(a, e) + [x] + b;
    InsertIncreasing(a + [x] + b, e);
  }

  lemma InsertAfter(a: seq<Item>, x: Item, b: seq<Item>, e: real)
    requires Increasing(a + [x] + b) && x.value < e
    ensures Insert(a + [x] + b, e) == a + [x] + Insert(b, e) && Increasing(a + [x] + Insert(b, e))
  {
    PartsIncreasing(a, x, b);
    InsertRight(a + [x], b, e);
    InsertIncreasing(a + [x] + b, e);
  }

  lemma Inside(n: Node)
    requires n.Valid()
    ensures n in n.Repr && NodesIn(n.l) <= n.Repr && NodesIn(n.r) <= n.Repr
    ensures n !in NodesIn(n.l) && n !in NodesIn(n.r) && NodesIn(n.l) !! NodesIn(n.r)
    ensures ValidTree(n.l) && (n.l != null ==> n.l in n.l.Repr)
    ensures ValidTree(n.r) && (n.r != null ==> n.r in n.r.Repr)
    ensures n.Items == ItemsIn(n.l) + [Item(n.data, n.count)] + ItemsIn(n.r) && Increasing(n.Items)
  {
  }

  lemma Assemble(n: Node)
    requires n in n.Repr && NodesIn(n.l) <= n.Repr && NodesIn(n.r) <= n.Repr
    requires n !in NodesIn(n.l) && n !in NodesIn(n.r) && NodesIn(n.l) !! NodesIn(n.r)
    requires ValidTree(n.l) && (n.l != null ==> n.l in n.l.Repr)
    requires ValidTree(n.r) && (n.r != null ==> n.r in n.r.Repr)
    requires n.Items == ItemsIn(n.l) + [Item(n.data, n.count)] + ItemsIn(n.r) && Increasing(n.Items)
    ensures n.Valid()
  {
  }

  /** node_insert: the tree that the pointer refers to afterwards. */
  method NodeInsert(n: Node?, e: real) returns (m: Node)
    requires ValidTree(n)
    modifies NodesIn(n)
    ensures m.Valid() && m.Items == Insert(old(ItemsIn(n)), e)
    ensures (n != null ==> m == n) && fresh(m.Repr - old(NodesIn(n)))
    decreases NodesIn(n)
  {
    hide Increasing, Insert, Node.Valid;
    if n == null {
      m := new Node(e);
      InsertNothing(e);
      return;
    }
    m := n;
    ghost var a, x, b := ItemsIn(n.l), Item(n.data, n.count), ItemsIn(n.r);
    Inside(n);
    if n.data == e {
      InsertHere(a, x, b);
      n.count := n.count + 1;
      n.Items := a + [Item(n.data, n.count)] + b;
      Assemble(n);
    } else if n.data > e {
      InsertBefore(a, x, b, e);
      var child := NodeInsert(n.l, e);
      n.l := child;
      n.Repr := n.Repr + child.Repr;
      n.Items := child.Items + [x] + b;
      Inside(child);
      Assemble(n);
    } else {
      InsertAfter(a, x, b, e);
      var child := NodeInsert(n.r, e);
      n.r := child;
      n.Repr := n.Repr + child.Repr;
      n.Items := a + [x] + child.Items;
      Inside(child);
      Assemble(n);
    }
  }

  lemma InsertNothing(e: real)
    ensures Insert([], e) == [Item(e, 1)]
  {
  }
}

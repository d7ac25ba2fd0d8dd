/** Which control points are active, and the values they contribute, in the order the loops visit them. */
module ControlPointSet {
  import opened Vectors

  /** Indices below k whose status is positive, in increasing order. */
  function Active(status: seq<int>, k: nat): (act: seq<nat>)
    requires k <= |status|
    ensures |act| <= k
    ensures forall r :: 0 <= r < |act| ==> act[r] < k && status[act[r]] > 0
  {
    if k == 0 then []
    else if status[k - 1] > 0 then Active(status, k - 1) + [k - 1]
    else Active(status, k - 1)
  }

  lemma {:induction false} ActivePrefix(status: seq<int>, k: nat, count: nat)
    requires k <= count <= |status|
    ensures Active(status, k) <= Active(status, count)
  {
    if k < count {
      ActivePrefix(status, k, count - 1);
    }
  }

  /** Point k, when active, is entry number |Active(status, k)| of the whole list. */
  lemma ActivePosition(status: seq<int>, k: nat, count: nat)
    requires k < count <= |status| && status[k] > 0
    ensures |Active(status, k)| < |Active(status, count)|
    ensures Active(status, count)[|Active(status, k)|] == k
    ensures |Active(status, k + 1)| == |Active(status, k)| + 1
  {
    ActivePrefix(status, k + 1, count);
  }

  /** An active point o at or before n comes no later in the list. */
  lemma EarlierPosition(status: seq<int>, o: nat, n: nat, count: nat)
    requires o <= n < count <= |status| && status[o] > 0
    ensures |Active(status, o)| <= |Active(status, n)| && |Active(status, o)| < |Active(status, count)|
    ensures Active(status, count)[|Active(status, o)|] == o
    ensures |Active(status, o + 1)| == |Active(status, o)| + 1
  {
    ActivePosition(status, o, count);
    ActivePrefix(status, o, n);
  }

  lemma ActiveSkips(status: seq<int>, k: nat)
    requires k < |status| && status[k] <= 0
    ensures Active(status, k + 1) == Active(status, k)
  {
  }

  /** Every active point is listed. */
  lemma ActiveListed(status: seq<int>, k: nat, count: nat) returns (r: nat)
    requires k < count <= |status| && status[k] > 0
    ensures r < |Active(status, count)| && Active(status, count)[r] == k
  {
    ActivePosition(status, k, count);
    r := |Active(status, k)|;
  }

  function Picked(values: Vec, act: seq<nat>): (t: Vec)
    requires forall r :: 0 <= r < |act| ==> act[r] < |values|
    ensures |t| == |act|
  {
    seq(|act|, r requires 0 <= r < |act| => values[act[r]])
  }

  method CountActive(status: array<int>, count: nat) returns (numactive: nat)
    requires count <= status.Length
    ensures numactive == |Active(status[..], count)|
  {
    numactive := 0;
    for i := 0 to count
      invariant numactive == |Active(status[..], i)|
    {
      if status[i] > 0 {
        numactive := numactive + 1;
      }
    }
  }
}

module Pigeonhole {
  /** There are no more than n different numbers below n. */
  lemma {:induction false} DistinctBelow(ps: seq<nat>, n: nat)
    requires forall i | 0 <= i < |ps| :: ps[i] < n
    requires forall i, j | 0 <= i < j < |ps| :: ps[i] != ps[j]
    ensures |ps| <= n
  {
    if |ps| > 0 {
      assert ps[0] < n;
      if k :| 0 <= k < |ps| && ps[k] == n - 1 {
        var qs := ps[..k] + ps[k + 1..];
        assert forall i | 0 <= i < |qs| :: qs[i] == if i < k then ps[i] else ps[i + 1];
        DistinctBelow(qs, n - 1);
      } else {
        DistinctBelow(ps, n - 1);
      }
    }
  }
}

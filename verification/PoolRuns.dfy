/** The pool under any interleaving: searches that fail saw every slot taken, nobody gets stuck, no slot is lost. */
module PoolRuns {
  import opened Options
  import opened ConnectionPool

  // ----- states along a run -----

  /** h lists the states of a run: one before each step, and the last one. */
  ghost predicate History(h: seq<State>, trace: seq<(Thread, Event)>) {
    && |h| == |trace| + 1
    && forall k | 0 <= k < |trace| ::
      Enabled(h[k], trace[k].0, trace[k].1) && h[k + 1] == Do(h[k], trace[k].0, trace[k].1)
  }

  lemma {:induction false} HistoryLeads(h: seq<State>, trace: seq<(Thread, Event)>)
    requires History(h, trace)
    ensures Leads(h[0], trace, h[|trace|])
    decreases |trace|
  {
    hide Enabled, Do;
    if |trace| > 0 {
      assert h[1] == Do(h[0], trace[0].0, trace[0].1);
      forall k | 0 <= k < |trace| - 1
        ensures Enabled(h[1..][k], trace[1..][k].0, trace[1..][k].1)
        ensures h[1..][k + 1] == Do(h[1..][k], trace[1..][k].0, trace[1..][k].1)
      {
        assert h[k + 2] == Do(h[k + 1], trace[k + 1].0, trace[k + 1].1);
      }
      HistoryLeads(h[1..], trace[1..]);
    }
  }

  /** Every run has a history. */
  lemma {:induction false} HistoryOf(s: State, trace: seq<(Thread, Event)>, r: State) returns (h: seq<State>)
    requires Leads(s, trace, r)
    ensures History(h, trace) && h[0] == s && h[|trace|] == r
    decreases |trace|
  {
    hide Enabled, Do;
    if |trace| == 0 {
      h := [s];
    } else {
      var rest := HistoryOf(Do(s, trace[0].0, trace[0].1), trace[1..], r);
      h := [s] + rest;
      forall k | 0 <= k < |trace|
        ensures Enabled(h[k], trace[k].0, trace[k].1) && h[k + 1] == Do(h[k], trace[k].0, trace[k].1)
      {
        if k > 0 {
          assert trace[1..][k - 1] == trace[k];
          assert rest[k] == Do(rest[k - 1], trace[1..][k - 1].0, trace[1..][k - 1].1);
        }
      }
    }
  }

  lemma HistoryFront(h: seq<State>, trace: seq<(Thread, Event)>, k: nat)
    requires History(h, trace) && k <= |trace|
    ensures History(h[..k + 1], trace[..k])
  {
    hide Enabled, Do;
  }

  // ----- the search under interleaving -----

  /** At step q thread t looked at slot i and found it taken, and from then up to state end it went on searching. */
  ghost predicate SeenTaken(h: seq<State>, trace: seq<(Thread, Event)>, q: nat, t: Thread, i: nat, end: nat) {
    && q < end < |h| && end <= |trace| && trace[q] == (t, Test)
    && t < |h[q].at| && h[q].at[t] == Searching(i) && i < |h[q].slots| && h[q].slots[i] != Free
    && forall p | q < p <= end :: t < |h[p].at| && h[p].at[t].Searching?
  }

  /** How a thread comes to search slot i, or to give up. */
  lemma SearchSteps(s: State, u: Thread, e: Event, t: Thread)
    requires Enabled(s, u, e) && t < |s.at|
    ensures var s' := Do(s, u, e);
      |s'.at| == |s.at|
      && (s'.at[t].Searching? && s'.at[t].i > 0 ==>
        s'.at[t] == s.at[t] || (u == t && e == Test && s.at[t] == Searching(s'.at[t].i - 1)
          && s'.at[t].i - 1 < |s.slots| && s.slots[s'.at[t].i - 1] != Free))
      && (s'.at[t] == Leaving ==>
        s.at[t] == Leaving || (u == t && e == MallocFails)
        || (u == t && e == Test && s.at[t].Searching? && (s.at[t].i >= 64 || s.at[t].i >= |s.slots|)))
  {
  }

  /** A thread that has come to slot j has, in this search, seen every slot before it taken when it looked at it. */
  lemma {:induction false} SearchedBefore(
    h: seq<State>, trace: seq<(Thread, Event)>, t: Thread, i: nat, end: nat)
    requires History(h, trace) && t < |h[0].at| && !h[0].at[t].Searching? && end <= |trace|
    ensures |h[end].at| == |h[0].at|
    ensures h[end].at[t].Searching? && i < h[end].at[t].i ==> exists q :: SeenTaken(h, trace, q, t, i, end)
    decreases end
  {
    hide Enabled, Do;
    if end > 0 {
      SearchedBefore(h, trace, t, i, end - 1);
      SearchSteps(h[end - 1], trace[end - 1].0, trace[end - 1].1, t);
      assert h[end] == Do(h[end - 1], trace[end - 1].0, trace[end - 1].1);
      if h[end].at[t].Searching? && i < h[end].at[t].i {
        if h[end - 1].at[t].Searching? && i < h[end - 1].at[t].i {
          var q :| SeenTaken(h, trace, q, t, i, end - 1);
          assert SeenTaken(h, trace, q, t, i, end);
        } else {
          assert SeenTaken(h, trace, end - 1, t, i, end);
        }
      }
    }
  }

  /** A thread gives up because malloc failed, or because each of the 64 slots was taken when it looked at it. */
  lemma LeavesForReason(h: seq<State>, trace: seq<(Thread, Event)>, t: Thread, k: nat, i: nat)
    requires History(h, trace) && Initial(h[0]) && t < |h[0].at| && k < |trace| && i < 64
    ensures |h[k].at| == |h[k + 1].at| == |h[0].at|
    ensures h[k + 1].at[t] == Leaving && h[k].at[t] != Leaving ==>
      trace[k] == (t, MallocFails) || exists q :: SeenTaken(h, trace, q, t, i, k)
  {
    hide Enabled, Do, Leads;
    SearchedBefore(h, trace, t, i, k);
    SearchSteps(h[k], trace[k].0, trace[k].1, t);
    assert h[k + 1] == Do(h[k], trace[k].0, trace[k].1);
    HistoryFront(h, trace, k);
    RunSlots(h[..k + 1], trace[..k]);
    hide SeenTaken, Inv;
  }

  lemma RunSlots(h: seq<State>, trace: seq<(Thread, Event)>)
    requires History(h, trace) && Initial(h[0])
    ensures Inv(h[|trace|]) && |h[|trace|].slots| == 64
  {
    HistoryLeads(h, trace);
    InitialInv(h[0]);
    RunInv(h[0], trace, h[|trace|]);
    hide Leads, History;
  }

  // ----- nobody gets stuck -----

  /** Whoever holds the mutex is at work under it. */
  ghost predicate MutexHeld(s: State) {
    s.mutex.Some? ==> s.mutex.value < |s.at| && NeedsMutex(s.at[s.mutex.value])
  }

  lemma MutexHeldKept(s: State, t: Thread, e: Event)
    requires Enabled(s, t, e) && Known(s, t) && MutexHeld(s)
    ensures MutexHeld(Do(s, t, e))
  {
    hide LiveOk;
  }

  lemma {:induction false} RunMutex(s: State, trace: seq<(Thread, Event)>, r: State)
    requires Inv(s) && MutexHeld(s) && Leads(s, trace, r)
    ensures Inv(r) && MutexHeld(r)
    decreases |trace|
  {
    hide Inv, Enabled, Do, MutexHeld;
    if |trace| > 0 {
      var t, e := trace[0].0, trace[0].1;
      StepInv(s, t, e);
      EnabledThread(s, t, e);
      KnowsOne(s, t);
      MutexHeldKept(s, t, e);
      RunMutex(Do(s, t, e), trace[1..], r);
    }
  }

  lemma EnabledThread(s: State, t: Thread, e: Event)
    requires Enabled(s, t, e)
    ensures t < |s.at|
  {
  }

  /** How many more steps of its own a thread has until it is idle. */
  function StepsLeft(p: Place): nat {
    match p
    case Idle => 0
    case Waiting => 74
    case Searching(i) => if i <= 64 then 73 - i else 8
    case Found(_) => 7
    case GotSlot(_) => 6
    case Malloced(_, _) => 5
    case Indexed(_, _) => 4
    case Confirmed(_, _) => 3
    case Ready(_, _) => 2
    case Leaving => 1
    case Finishing(_) => 2
    case Invalidated(_) => 1
    case InHandler(_, _, _, _) => 3
    case AtCache(_, _, _, _) => 2
    case Cleared(_, _, _, _) => 1
    case Fault => 0
  }

  /** Every step of a busy thread brings it nearer to being idle. */
  lemma StepsDecrease(s: State, t: Thread, e: Event)
    requires Enabled(s, t, e) && s.at[t] != Idle
    ensures var s' := Do(s, t, e); |s'.at| == |s.at| && StepsLeft(s'.at[t]) < StepsLeft(s.at[t])
  {
  }

  /** A step a busy thread can take. */
  function NextStep(p: Place): Event {
    match p
    case Waiting => Lock
    case Searching(_) => Test
    case Found(_) => Reserve
    case GotSlot(_) => MallocFails
    case Malloced(_, _) => SetIndex
    case Indexed(_, _) => Event.Confirm
    case Confirmed(_, _) => SetHandlers
    case Finishing(_) => Invalidate
    case Invalidated(_) => Release
    case InHandler(_, _, _, _) => ReadSlot
    case AtCache(_, _, _, _) => Clear
    case Cleared(_, _, _, _) => Store
    case _ => Unlock
  }

  /** In every reachable state a busy thread can move, or waits for one that can. */
  lemma NeverStuck(s: State, trace: seq<(Thread, Event)>, r: State, t: Thread)
    requires Initial(s) && Leads(s, trace, r) && t < |r.at| && r.at[t] != Idle
    ensures Enabled(r, t, NextStep(r.at[t]))
      || (r.at[t] == Waiting && r.mutex.Some? && r.mutex.value < |r.at| && r.mutex.value != t
          && Enabled(r, r.mutex.value, NextStep(r.at[r.mutex.value])))
  {
    InitialInv(s);
    RunMutex(s, trace, r);
    hide Leads, Enabled, NeedsMutex, NextStep, Known;
    KnowsOne(r, t);
    if r.at[t] != Waiting || r.mutex == None {
      CanMove(r, t);
    }
    if r.at[t] == Waiting && r.mutex.Some? {
      NoMutexWaiting(r, t);
      KnowsOne(r, r.mutex.value);
      CanMove(r, r.mutex.value);
    }
  }

  lemma NoMutexWaiting(s: State, t: Thread)
    requires MutexHeld(s) && t < |s.at| && s.at[t] == Waiting && s.mutex.Some?
    ensures s.mutex.value < |s.at| && s.mutex.value != t
    ensures s.at[s.mutex.value] != Idle && s.at[s.mutex.value] != Waiting
  {
  }

  lemma CanMove(s: State, t: Thread)
    requires t < |s.at| && Known(s, t) && s.at[t] != Idle && (s.at[t] == Waiting ==> s.mutex == None)
    ensures Enabled(s, t, NextStep(s.at[t]))
  {
    hide LiveOk, Seated, Unseated;
  }

  // ----- no slot is lost -----

  /** The place of a thread that has reserved slot i and not confirmed it yet. */
  predicate Reserves(p: Place, i: nat) {
    (p.GotSlot? || p.Malloced? || p.Indexed?) && p.i == i
  }

  ghost predicate Reserver(s: State, u: Thread, i: nat) {
    u < |s.at| && Reserves(s.at[u], i)
  }

  ghost predicate Claimer(s: State, u: Thread, a: Address) {
    u < |s.at| && Claim(s.at[u]) == Some(a)
  }

  /** A slot in use is in somebody's use: reserved by a thread, or holding a cache that is live or being worked on. */
  ghost predicate Owned(s: State, i: nat)
    requires i < |s.slots|
  {
    match s.slots[i]
    case Free => true
    case Reserved => exists u :: Reserver(s, u, i)
    case Holds(a) => a in s.live || exists u :: Claimer(s, u, a)
  }

  /** What the mover's own step does to the slot it has reserved and the cache it works on. */
  lemma MoverOwns(s: State, t: Thread, e: Event, i: nat)
    requires Enabled(s, t, e) && Known(s, t) && i < |s.slots|
    ensures var s' := Do(s, t, e);
      |s'.at| == |s.at| && |s'.slots| == |s.slots|
      && (s'.slots[i] == Reserved && (s.slots[i] != Reserved || Reserves(s.at[t], i)) ==> Reserves(s'.at[t], i))
      && (s'.slots[i].Holds? && s'.slots[i] != s.slots[i] ==> Claim(s'.at[t]) == Some(s'.slots[i].a))
  {
    hide LiveOk;
  }

  /** A cache the mover works on stays its own, or goes live, or leaves its slot. */
  lemma ClaimOwns(s: State, t: Thread, e: Event, i: nat, a: Address)
    requires Enabled(s, t, e) && Known(s, t) && i < |s.slots| && s.slots[i] == Holds(a)
    ensures var s' := Do(s, t, e);
      |s'.at| == |s.at| && |s'.slots| == |s.slots|
      && (Claim(s.at[t]) == Some(a) && s'.slots[i] == Holds(a) ==> a in s'.live || Claim(s'.at[t]) == Some(a))
      && (a in s.live ==> a in s'.live || Claim(s'.at[t]) == Some(a))
  {
    hide LiveOk;
  }

  lemma OwnedKept(s: State, t: Thread, e: Event, i: nat)
    requires Inv(s) && Enabled(s, t, e) && i < |s.slots| && Owned(s, i)
    ensures |Do(s, t, e).slots| == |s.slots| && Owned(Do(s, t, e), i)
  {
    EnabledThread(s, t, e);
    KnowsOne(s, t);
    var s' := Do(s, t, e);
    OthersStay(s, t, e);
    MoverOwns(s, t, e, i);
    hide Inv, Do, Enabled, Known, Reserves, Claim;
    match s'.slots[i]
    case Free =>
    case Reserved =>
      if s.slots[i] == Reserved {
        var u :| Reserver(s, u, i);
        assert Reserver(s', u, i);
      } else {
        assert Reserver(s', t, i);
      }
    case Holds(a) =>
      if s.slots[i] == Holds(a) {
        ClaimOwns(s, t, e, i, a);
        if a !in s.live {
          var u :| Claimer(s, u, a);
          assert u != t ==> Claimer(s', u, a);
        }
        assert Claim(s'.at[t]) == Some(a) ==> Claimer(s', t, a);
      } else {
        assert Claimer(s', t, a);
      }
  }

  lemma {:induction false} RunOwned(s: State, trace: seq<(Thread, Event)>, r: State, i: nat)
    requires Inv(s) && i < |s.slots| && Owned(s, i) && Leads(s, trace, r)
    ensures |r.slots| == |s.slots| && Owned(r, i)
    decreases |trace|
  {
    hide Inv, Enabled, Do, Owned;
    if |trace| > 0 {
      StepInv(s, trace[0].0, trace[0].1);
      OwnedKept(s, trace[0].0, trace[0].1, i);
      RunOwned(Do(s, trace[0].0, trace[0].1), trace[1..], r, i);
    }
  }

  /**
   When no thread is in the middle of an allocation or a release, the slots in use are exactly those of the live
   caches, so an allocation fails for want of a slot only if 64 caches are live.
   */
  lemma NoSlotLost(s: State, trace: seq<(Thread, Event)>, r: State, i: nat)
    requires Initial(s) && Leads(s, trace, r) && i < 64
    requires forall u | 0 <= u < |r.at| :: r.at[u] == Idle || r.at[u] == Waiting
    ensures |r.slots| == 64
    ensures r.slots[i] == Free
      || (r.slots[i].Holds? && r.slots[i].a in r.live
          && r.slots[i].a in r.heap && r.heap[r.slots[i].a].poolIndex == i)
  {
    InitialInv(s);
    assert Owned(s, i);
    RunOwned(s, trace, r, i);
    RunInv(s, trace, r);
    QuietOwned(r, i);
    SlotKnows(r, i);
    hide Inv, Leads;
  }

  lemma QuietOwned(s: State, i: nat)
    requires i < |s.slots| && Owned(s, i)
    requires forall u | 0 <= u < |s.at| :: s.at[u] == Idle || s.at[u] == Waiting
    ensures s.slots[i] != Reserved && (s.slots[i].Holds? ==> s.slots[i].a in s.live)
  {
    assert forall u :: !Reserver(s, u, i);
    assert forall u, a :: !Claimer(s, u, a);
  }

  lemma SlotKnows(s: State, i: nat)
    requires Inv(s) && i < |s.slots|
    ensures SlotOk(s, i)
  {
    hide PlaceOk, LiveOk, NeedsMutex, Claim, SlotOk;
  }
}

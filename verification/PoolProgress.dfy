/** What the pool gets done: searches find free slots, allocation and release take effect, and no slot is lost. */
module PoolProgress {
  import opened Options
  import opened ConnectionPool

  // ----- runs of one thread -----

  /** Steps of one thread, nobody else moving. */
  function Alone(t: Thread, es: seq<Event>): (trace: seq<(Thread, Event)>)
    ensures |trace| == |es| && forall i | 0 <= i < |es| :: trace[i] == (t, es[i])
  {
    seq(|es|, i requires 0 <= i < |es| => (t, es[i]))
  }

  ghost predicate Solo(s: State, t: Thread, es: seq<Event>, r: State) {
    Leads(s, Alone(t, es), r)
  }

  lemma SoloNothing(s: State, t: Thread)
    ensures Solo(s, t, [], s)
  {
  }

  lemma SoloFirst(s: State, t: Thread, e: Event, es: seq<Event>, r: State)
    requires Enabled(s, t, e) && Solo(Do(s, t, e), t, es, r)
    ensures Solo(s, t, [e] + es, r)
  {
    hide Enabled, Do;
    var trace := Alone(t, [e] + es);
    assert trace[0] == (t, e) && trace[1..] == Alone(t, es);
  }

  lemma {:induction false} SoloThen(s: State, t: Thread, a: seq<Event>, m: State, b: seq<Event>, r: State)
    requires Solo(s, t, a, m) && Solo(m, t, b, r)
    ensures Solo(s, t, a + b, r)
    decreases |a|
  {
    hide Enabled, Do;
    if |a| == 0 {
      assert a + b == b;
    } else {
      assert Alone(t, a)[1..] == Alone(t, a[1..]);
      SoloThen(Do(s, t, a[0]), t, a[1..], m, b, r);
      SoloFirst(s, t, a[0], a[1..] + b, r);
      assert [a[0]] + (a[1..] + b) == a + b;
    }
  }

  // ----- the search -----

  /** The place a search from slot i on ends at. */
  function SearchEnd(slots: seq<Slot>, i: nat): (p: Place)
    ensures p.Found? || p == Leaving
    ensures p.Found? ==>
      i <= p.i < |slots| && p.i < 64 && slots[p.i] == Free && forall j | i <= j < p.i :: slots[j] != Free
    ensures p == Leaving ==> forall j | i <= j < |slots| && j < 64 :: slots[j] != Free
    decreases 64 - i
  {
    if i >= 64 || i >= |slots| then Leaving else if slots[i] == Free then Found(i) else SearchEnd(slots, i + 1)
  }

  /** How many tests that takes. */
  function Tests(slots: seq<Slot>, i: nat): (n: nat)
    ensures i <= 64 ==> 0 < n <= 65 - i
    decreases 64 - i
  {
    if i >= 64 || i >= |slots| || slots[i] == Free then 1 else 1 + Tests(slots, i + 1)
  }

  lemma TestStep(s: State, t: Thread)
    requires t < |s.at| && s.at[t].Searching?
    ensures Enabled(s, t, Test)
    ensures var i := s.at[t].i;
      Do(s, t, Test) == s.(at := s.at[t := if i >= 64 || i >= |s.slots| then Leaving
        else if s.slots[i] == Free then Found(i) else Searching(i + 1)])
  {
  }

  /** The tests of a search find the first free slot, or leave when none is free. */
  lemma {:induction false} SearchRun(s: State, t: Thread, i: nat)
    requires t < |s.at| && s.at[t] == Searching(i)
    ensures Solo(s, t, seq(Tests(s.slots, i), _ => Test), s.(at := s.at[t := SearchEnd(s.slots, i)]))
    decreases 64 - i
  {
    TestStep(s, t);
    var m := Do(s, t, Test);
    var r := s.(at := s.at[t := SearchEnd(s.slots, i)]);
    var n := Tests(s.slots, i);
    hide Do, Enabled, Solo;
    if i < 64 && i < |s.slots| && s.slots[i] != Free {
      SearchRun(m, t, i + 1);
      assert m.at[t := SearchEnd(s.slots, i)] == s.at[t := SearchEnd(s.slots, i)];
      SoloFirst(s, t, Test, seq(n - 1, _ => Test), r);
      assert [Test] + seq(n - 1, _ => Test) == seq(n, _ => Test);
    } else {
      SoloNothing(m, t);
      SoloFirst(s, t, Test, [], r);
      assert [Test] + [] == seq(n, _ => Test);
    }
  }

  // ----- allocation and release -----

  function At(s: State, t: Thread, p: Place): State
    requires t < |s.at|
  {
    s.(at := s.at[t := p])
  }

  lemma AtAgain(s: State, t: Thread, p: Place, q: Place)
    requires t < |s.at|
    ensures At(At(s, t, p), t, q) == At(s, t, q)
    ensures s.at[t] == p ==> At(s, t, p) == s
  {
    assert s.at[t := p][t := q] == s.at[t := q];
    assert s.at[t] == p ==> s.at[t := p] == s.at;
  }

  lemma EnterRun(s: State, t: Thread)
    requires t < |s.at| && s.at[t] == Idle && s.mutex == None
    ensures Solo(s, t, [CallAlloc, Lock], At(s.(mutex := Some(t)), t, Searching(0)))
  {
    var s1 := Do(s, t, CallAlloc);
    var s2 := Do(s1, t, Lock);
    AtAgain(s.(mutex := Some(t)), t, Waiting, Searching(0));
    assert s2 == At(s.(mutex := Some(t)), t, Searching(0));
    hide Do, Enabled, Solo;
    SoloNothing(s2, t);
    SoloFirst(s1, t, Lock, [], s2);
    SoloFirst(s, t, CallAlloc, [Lock] + [], s2);
    assert [CallAlloc] + ([Lock] + []) == [CallAlloc, Lock];
  }

  /** From the slot found to the reserved slot. */
  lemma ReserveRun(s: State, t: Thread, i: nat)
    requires t < |s.at| && s.at[t] == Found(i) && i < |s.slots|
    ensures Enabled(s, t, Reserve)
    ensures Do(s, t, Reserve) == At(s.(slots := s.slots[i := Reserved]), t, GotSlot(i))
  {
  }

  lemma MallocRun(s: State, t: Thread, i: nat, a: Address)
    requires t < |s.at| && s.at[t] == GotSlot(i) && a !in s.heap
    ensures Enabled(s, t, Malloc(a))
    ensures Do(s, t, Malloc(a)) == At(s.(heap := s.heap[a := Fresh()]), t, Malloced(i, a))
  {
  }

  lemma IndexRun(s: State, t: Thread, i: nat, a: Address)
    requires t < |s.at| && s.at[t] == Malloced(i, a) && a in s.heap && s.heap[a] == Fresh()
    ensures Enabled(s, t, SetIndex)
    ensures Do(s, t, SetIndex) == At(s.(heap := s.heap[a := Cache(i, -1, None, None)]), t, Indexed(i, a))
  {
  }

  lemma ConfirmRun(s: State, t: Thread, i: nat, a: Address)
    requires t < |s.at| && s.at[t] == Indexed(i, a) && i < |s.slots|
    ensures Enabled(s, t, Event.Confirm)
    ensures Do(s, t, Event.Confirm) == At(s.(slots := s.slots[i := Holds(a)]), t, Confirmed(i, a))
  {
  }

  lemma HandlersRun(s: State, t: Thread, i: nat, a: Address)
    requires t < |s.at| && s.at[t] == Confirmed(i, a) && a in s.heap && s.heap[a] == Cache(i, -1, None, None)
    ensures Enabled(s, t, SetHandlers)
    ensures Do(s, t, SetHandlers) == At(s.(heap := s.heap[a := Cache(i, i, None, None)]), t, Ready(i, a))
  {
  }

  lemma UnlockRun(s: State, t: Thread)
    requires t < |s.at| && (s.at[t].Ready? || s.at[t] == Leaving) && s.mutex == Some(t)
    ensures Enabled(s, t, Unlock)
    ensures Do(s, t, Unlock)
      == At(s.(mutex := None, live := if s.at[t].Ready? then s.live[s.at[t].a := t] else s.live), t, Idle)
  {
  }

  const BUILDING: seq<Event> := [SetIndex, Event.Confirm, SetHandlers, Unlock]

  /** What an allocation of the cache a in slot i leaves behind. */
  function Allocated(s: State, t: Thread, i: nat, a: Address): State
    requires i < |s.slots|
  {
    s.(slots := s.slots[i := Holds(a)], heap := s.heap[a := Cache(i, i, None, None)], live := s.live[a := t])
  }

  /** From the slot found to the finished allocation. */
  lemma BuildRun(s: State, t: Thread, i: nat, a: Address)
    requires t < |s.at| && s.at[t] == Found(i) && i < |s.slots| && a !in s.heap && s.mutex == Some(t)
    ensures Solo(s, t, [Reserve, Malloc(a)] + BUILDING, At(Allocated(s, t, i, a).(mutex := None), t, Idle))
  {
    hide Do, Enabled, Solo;
    ReserveRun(s, t, i);
    var s1 := Do(s, t, Reserve);
    MallocRun(s1, t, i, a);
    var s2 := Do(s1, t, Malloc(a));
    IndexRun(s2, t, i, a);
    var s3 := Do(s2, t, SetIndex);
    ConfirmRun(s3, t, i, a);
    var s4 := Do(s3, t, Event.Confirm);
    HandlersRun(s4, t, i, a);
    var s5 := Do(s4, t, SetHandlers);
    UnlockRun(s5, t);
    var s6 := Do(s5, t, Unlock);
    BuiltIs(s, t, i, a, s6);
    SixSteps(s, t, Reserve, s1, Malloc(a), s2, SetIndex, s3, Event.Confirm, s4, SetHandlers, s5, Unlock, s6);
    assert [Reserve, Malloc(a)] + BUILDING == [Reserve, Malloc(a), SetIndex, Event.Confirm, SetHandlers, Unlock];
  }

  lemma BuiltIs(s: State, t: Thread, i: nat, a: Address, r: State)
    requires t < |s.at| && i < |s.slots|
    requires r.slots == s.slots[i := Reserved][i := Holds(a)] && r.mutex == None && r.live == s.live[a := t]
    requires r.heap
      == s.heap[a := Fresh()][a := Cache(i, -1, None, None)][a := Cache(i, i, None, None)]
    requires r.at == s.at[t := GotSlot(i)][t := Malloced(i, a)][t := Indexed(i, a)][t := Confirmed(i, a)]
      [t := Ready(i, a)][t := Idle]
    ensures r == At(Allocated(s, t, i, a).(mutex := None), t, Idle)
  {
    assert r.slots == s.slots[i := Holds(a)];
    assert r.at == s.at[t := Idle];
    assert r.heap == s.heap[a := Cache(i, i, None, None)];
  }

  lemma SixSteps(
    s: State, t: Thread, e1: Event, s1: State, e2: Event, s2: State, e3: Event, s3: State, e4: Event, s4: State,
    e5: Event, s5: State, e6: Event, s6: State)
    requires Enabled(s, t, e1) && s1 == Do(s, t, e1) && Enabled(s1, t, e2) && s2 == Do(s1, t, e2)
    requires Enabled(s2, t, e3) && s3 == Do(s2, t, e3) && Enabled(s3, t, e4) && s4 == Do(s3, t, e4)
    requires Enabled(s4, t, e5) && s5 == Do(s4, t, e5) && Enabled(s5, t, e6) && s6 == Do(s5, t, e6)
    ensures Solo(s, t, [e1, e2, e3, e4, e5, e6], s6)
  {
    hide Do, Enabled, Solo;
    ThreeSteps(s3, t, e4, s4, e5, s5, e6, s6);
    ThreeSteps(s, t, e1, s1, e2, s2, e3, s3);
    SoloThen(s, t, [e1, e2, e3], s3, [e4, e5, e6], s6);
    assert [e1, e2, e3] + [e4, e5, e6] == [e1, e2, e3, e4, e5, e6];
  }

  lemma ThreeSteps(s: State, t: Thread, e1: Event, s1: State, e2: Event, s2: State, e3: Event, s3: State)
    requires Enabled(s, t, e1) && s1 == Do(s, t, e1) && Enabled(s1, t, e2) && s2 == Do(s1, t, e2)
    requires Enabled(s2, t, e3) && s3 == Do(s2, t, e3)
    ensures Solo(s, t, [e1, e2, e3], s3)
  {
    hide Do, Enabled, Solo;
    SoloNothing(s3, t);
    SoloFirst(s2, t, e3, [], s3);
    SoloFirst(s1, t, e2, [e3] + [], s3);
    SoloFirst(s, t, e1, [e2] + ([e3] + []), s3);
    assert [e1] + ([e2] + ([e3] + [])) == [e1, e2, e3];
  }

  /**
   An allocation that nobody disturbs: with a free slot and memory, exactly one more cache is live, in the first slot
   that was free and knowing its number; nothing else changes.
   */
  lemma AllocationRun(s: State, t: Thread, a: Address)
    requires t < |s.at| && s.at[t] == Idle && s.mutex == None && a !in s.heap
    requires |s.slots| == 64 && exists j | 0 <= j < 64 :: s.slots[j] == Free
    ensures SearchEnd(s.slots, 0).Found?
    ensures Solo(s, t, [CallAlloc, Lock] + seq(Tests(s.slots, 0), _ => Test) + ([Reserve, Malloc(a)] + BUILDING),
                 Allocated(s, t, SearchEnd(s.slots, 0).i, a))
  {
    hide Solo;
    var i := SearchEnd(s.slots, 0).i;
    var s1 := At(s.(mutex := Some(t)), t, Searching(0));
    var s2 := At(s1, t, Found(i));
    EnterRun(s, t);
    SearchRun(s1, t, 0);
    BuildRun(s2, t, i, a);
    AtAgain(s.(mutex := Some(t)), t, Searching(0), Found(i));
    var r := At(Allocated(s2, t, i, a).(mutex := None), t, Idle);
    assert s.at[t := Found(i)][t := Idle] == s.at;
    assert r == Allocated(s, t, i, a);
    SoloThen(s, t, [CallAlloc, Lock], s1, seq(Tests(s.slots, 0), _ => Test), s2);
    SoloThen(s, t, [CallAlloc, Lock] + seq(Tests(s.slots, 0), _ => Test), s2, [Reserve, Malloc(a)] + BUILDING, r);
  }

  /** Without a free slot it returns NULL after 65 tests and changes nothing. */
  lemma FullRun(s: State, t: Thread)
    requires t < |s.at| && s.at[t] == Idle && s.mutex == None
    requires |s.slots| == 64 && forall j | 0 <= j < 64 :: s.slots[j] != Free
    ensures Tests(s.slots, 0) == 65
    ensures Solo(s, t, [CallAlloc, Lock] + seq(65, _ => Test) + [Unlock], s)
  {
    AllTested(s.slots, 0);
    hide Solo, Do, Enabled;
    var s1 := At(s.(mutex := Some(t)), t, Searching(0));
    var s2 := At(s1, t, Leaving);
    EnterRun(s, t);
    SearchRun(s1, t, 0);
    UnlockRun(s2, t);
    AtAgain(s.(mutex := Some(t)), t, Searching(0), Leaving);
    assert s.at[t := Leaving][t := Idle] == s.at;
    var r := Do(s2, t, Unlock);
    assert r == s;
    SoloNothing(r, t);
    SoloFirst(s2, t, Unlock, [], r);
    assert [Unlock] + [] == [Unlock];
    SoloThen(s, t, [CallAlloc, Lock], s1, seq(65, _ => Test), s2);
    SoloThen(s, t, [CallAlloc, Lock] + seq(65, _ => Test), s2, [Unlock], r);
  }

  lemma {:induction false} AllTested(slots: seq<Slot>, i: nat)
    requires |slots| == 64 && i <= 64 && forall j | i <= j < 64 :: slots[j] != Free
    ensures Tests(slots, i) == 65 - i && SearchEnd(slots, i) == Leaving
    decreases 64 - i
  {
    if i < 64 {
      AllTested(slots, i + 1);
    }
  }

  /** When malloc fails the reserved slot is given back: the state is as before. */
  lemma NoMemoryRun(s: State, t: Thread)
    requires t < |s.at| && s.at[t] == Idle && s.mutex == None
    requires |s.slots| == 64 && exists j | 0 <= j < 64 :: s.slots[j] == Free
    ensures Solo(s, t, [CallAlloc, Lock] + seq(Tests(s.slots, 0), _ => Test) + [Reserve, MallocFails, Unlock], s)
  {
    hide Solo;
    var i := SearchEnd(s.slots, 0).i;
    var s1 := At(s.(mutex := Some(t)), t, Searching(0));
    var s2 := At(s1, t, Found(i));
    EnterRun(s, t);
    SearchRun(s1, t, 0);
    ReserveRun(s2, t, i);
    var s3 := Do(s2, t, Reserve);
    var s4 := Do(s3, t, MallocFails);
    UnlockRun(s4, t);
    var r := Do(s4, t, Unlock);
    assert s.slots[i := Reserved][i := Free] == s.slots;
    assert r.at == s.at && r.slots == s.slots;
    assert r == s;
    ThreeSteps(s2, t, Reserve, s3, MallocFails, s4, Unlock, r);
    SoloThen(s, t, [CallAlloc, Lock], s1, seq(Tests(s.slots, 0), _ => Test), s2);
    SoloThen(s, t, [CallAlloc, Lock] + seq(Tests(s.slots, 0), _ => Test), s2, [Reserve, MallocFails, Unlock], r);
  }

  /** Freeing a cache frees its slot and its memory, and touches nothing else. */
  lemma ReleaseRun(s: State, t: Thread, a: Address)
    requires Inv(s) && t < |s.at| && s.at[t] == Idle && a in s.live && s.live[a] == t
    ensures a in s.heap && 0 <= s.heap[a].poolIndex < |s.slots|
    ensures Solo(s, t, [CallFree(a), Invalidate, Release],
      s.(slots := s.slots[s.heap[a].poolIndex := Free], heap := s.heap - {a}, live := s.live - {a}))
  {
    KnowsLive(s, a);
    hide Inv;
    var k := s.heap[a].poolIndex;
    var s1 := Do(s, t, CallFree(a));
    var s2 := Do(s1, t, Invalidate);
    var s3 := Do(s2, t, Release);
    assert s3.at == s.at;
    assert s3.heap == s.heap - {a};
    assert s3 == s.(slots := s.slots[k := Free], heap := s.heap - {a}, live := s.live - {a});
    ThreeSteps(s, t, CallFree(a), s1, Invalidate, s2, Release, s3);
  }

  /** A message of the thread that holds a live cache ends up as the error or the warning of that cache. */
  lemma MessageRun(s: State, t: Thread, a: Address, kind: Kind, msg: Option<string>)
    requires Inv(s) && t < |s.at| && s.at[t] == Idle && a in s.live && s.live[a] == t
    ensures a in s.heap
    ensures kind == Error ==>
      Solo(s, t, [Raise(a, kind, msg), ReadSlot, Clear, Store], s.(heap := s.heap[a := s.heap[a].(error := msg)]))
    ensures kind == Warning ==>
      Solo(s, t, [Raise(a, kind, msg), ReadSlot, Clear, Store], s.(heap := s.heap[a := s.heap[a].(warning := msg)]))
  {
    KnowsLive(s, a);
    hide Inv;
    var c := s.heap[a];
    var s1 := Do(s, t, Raise(a, kind, msg));
    assert s1 == At(s, t, InHandler(a, c.handler, kind, msg));
    var s2 := Do(s1, t, ReadSlot);
    AtAgain(s, t, InHandler(a, c.handler, kind, msg), AtCache(a, a, kind, msg));
    assert s2 == At(s, t, AtCache(a, a, kind, msg));
    hide LiveOk, Seated;
    MessageStored(s, t, a, kind, msg, s2);
    var s3 := Do(s2, t, Clear);
    var s4 := Do(s3, t, Store);
    hide Do, Enabled, Solo;
    SoloNothing(s4, t);
    SoloFirst(s3, t, Store, [], s4);
    SoloFirst(s2, t, Clear, [Store] + [], s4);
    SoloFirst(s1, t, ReadSlot, [Clear] + ([Store] + []), s4);
    SoloFirst(s, t, Raise(a, kind, msg), [ReadSlot] + ([Clear] + ([Store] + [])), s4);
    assert [Raise(a, kind, msg)] + ([ReadSlot] + ([Clear] + ([Store] + [])))
      == [Raise(a, kind, msg), ReadSlot, Clear, Store];
  }

  lemma MessageStored(s: State, t: Thread, a: Address, kind: Kind, msg: Option<string>, s2: State)
    requires t < |s.at| && s.at[t] == Idle && a in s.heap && s2 == At(s, t, AtCache(a, a, kind, msg))
    ensures Enabled(s2, t, Clear) && Enabled(Do(s2, t, Clear), t, Store)
    ensures var c := if kind == Error then s.heap[a].(error := msg) else s.heap[a].(warning := msg);
      Do(Do(s2, t, Clear), t, Store) == s.(heap := s.heap[a := c])
  {
    var r := Do(Do(s2, t, Clear), t, Store);
    var c := if kind == Error then s.heap[a].(error := msg) else s.heap[a].(warning := msg);
    assert r.at == s.at;
    assert r.heap == s.heap[a := c];
  }

  // ----- a pool filled up -----

  /** r is s after the caches went live, in the first slots and in order. */
  ghost predicate FilledBy(s: State, r: State, caches: seq<Address>) {
    && |r.slots| == 64 && r.at == s.at && r.mutex == None
    && (forall i | 0 <= i < 64 :: r.slots[i] == if i < |caches| then Holds(caches[i]) else Free)
    && (forall i | 0 <= i < |caches| :: caches[i] in r.live)
    && (forall a | a in r.heap :: a in caches)
  }

  /** From the start, any caches up to 64 go live one after the other: the whole pool can be used. */
  lemma {:induction false} PoolFills(s: State, t: Thread, caches: seq<Address>) returns (es: seq<Event>, r: State)
    requires Initial(s) && t < |s.at| && |caches| <= 64
    requires forall i, j | 0 <= i < j < |caches| :: caches[i] != caches[j]
    ensures Solo(s, t, es, r) && FilledBy(s, r, caches)
  {
    hide Solo;
    if |caches| == 0 {
      es, r := [], s;
      SoloNothing(s, t);
    } else {
      var n := |caches| - 1;
      var before, m := PoolFills(s, t, caches[..n]);
      var a := caches[n];
      assert a !in m.heap && m.at[t] == Idle && m.slots[n] == Free;
      AllocationRun(m, t, a);
      var run := [CallAlloc, Lock] + seq(Tests(m.slots, 0), _ => Test) + ([Reserve, Malloc(a)] + BUILDING);
      es, r := before + run, Allocated(m, t, SearchEnd(m.slots, 0).i, a);
      SoloThen(s, t, before, m, run, r);
      FilledMore(s, m, r, t, caches);
    }
  }

  lemma FilledMore(s: State, m: State, r: State, t: Thread, caches: seq<Address>)
    requires 0 < |caches| <= 64 && FilledBy(s, m, caches[..|caches| - 1])
    requires SearchEnd(m.slots, 0).Found?
    requires r == Allocated(m, t, SearchEnd(m.slots, 0).i, caches[|caches| - 1])
    ensures FilledBy(s, r, caches)
  {
    var n := |caches| - 1;
    assert m.slots[n] == Free && forall i | 0 <= i < n :: m.slots[i] == Holds(caches[i]);
    assert SearchEnd(m.slots, 0).i == n;
    assert caches == caches[..n] + [caches[n]];
  }
}

/**
 The pool of connection slots: threads allocate under the semaphore and release without it. One event is one step of
 one thread; any interleaving of events is a run.
 */
module ConnectionPool {
  import opened Options
  import opened Pigeonhole

  const MAX_CONNECTIONS: nat := 64

  type Address = nat
  type Thread = nat

  /** conn_ptr: NULL, GAIA_CONN_RESERVED, or a cache. */
  datatype Slot = Free | Reserved | Holds(a: Address)

  datatype Kind = Error | Warning

  /** The fields of splite_internal_cache that matter here; handler is the k of geos_error_k. */
  datatype Cache = Cache(poolIndex: int, handler: int, error: Option<string>, warning: Option<string>)

  /** Where a thread stands. */
  datatype Place =
    | Idle
    | Waiting
    | Searching(i: nat)
    | Found(i: nat)
    | GotSlot(i: nat)
    | Malloced(i: nat, a: Address)
    | Indexed(i: nat, a: Address)
    | Confirmed(i: nat, a: Address)
    | Ready(i: nat, a: Address)
    | Leaving
    | Finishing(a: Address)
    | Invalidated(a: Address)
    | InHandler(a: Address, k: int, kind: Kind, msg: Option<string>)
    | AtCache(a: Address, c: Address, kind: Kind, msg: Option<string>)
    | Cleared(a: Address, c: Address, kind: Kind, msg: Option<string>)
    | Fault

  datatype State = State(
    slots: seq<Slot>, heap: map<Address, Cache>, mutex: Option<Thread>, live: map<Address, Thread>, at: seq<Place>)

  datatype Event =
    | CallAlloc | Lock | Test | Reserve | Malloc(a: Address) | MallocFails | SetIndex | Confirm | SetHandlers | Unlock
    | CallFree(a: Address) | Invalidate | Release
    | Raise(a: Address, kind: Kind, msg: Option<string>) | ReadSlot | Clear | Store
    | HandOver(a: Address, to: Thread)

  ghost predicate Initial(s: State) {
    && s.slots == seq(MAX_CONNECTIONS, _ => Free)
    && s.heap == map[] && s.mutex == None && s.live == map[]
    && forall t | 0 <= t < |s.at| :: s.at[t] == Idle
  }

  function Fresh(): Cache {
    Cache(-1, -1, None, None)
  }

  function WithMessage(c: Cache, kind: Kind, msg: Option<string>): Cache {
    if kind.Error? then c.(error := msg) else c.(warning := msg)
  }

  /** pthread_mutex_trylock, then pthread_mutex_unlock. */
  function AfterUnlock(m: Option<Thread>, t: Thread): Option<Thread> {
    var held := if m.None? then Some(t) else m;
    if held == Some(t) then None else held
  }

  /** When thread t can take the step e. */
  predicate Enabled(s: State, t: Thread, e: Event) {
    t < |s.at| &&
    match e
    case CallAlloc => s.at[t] == Idle
    case Lock => s.at[t] == Waiting && s.mutex == None
    case Test => s.at[t].Searching?
    case Reserve => s.at[t].Found?
    case Malloc(a) => s.at[t].GotSlot? && a !in s.heap
    case MallocFails => s.at[t].GotSlot?
    case SetIndex => s.at[t].Malloced?
    case Confirm => s.at[t].Indexed?
    case SetHandlers => s.at[t].Confirmed?
    case Unlock => s.at[t].Ready? || s.at[t].Leaving?
    case CallFree(a) => s.at[t] == Idle && a in s.live && s.live[a] == t
    case Invalidate => s.at[t].Finishing?
    case Release => s.at[t].Invalidated?
    case Raise(a, _, _) => s.at[t] == Idle && a in s.live && s.live[a] == t
    case ReadSlot => s.at[t].InHandler?
    case Clear => s.at[t].AtCache?
    case Store => s.at[t].Cleared?
    case HandOver(a, to) => s.at[t] == Idle && a in s.live && s.live[a] == t && to < |s.at|
  }

  function Go(s: State, t: Thread, p: Place): State
    requires t < |s.at|
  {
    s.(at := s.at[t := p])
  }

  /** p->conn_ptr = x; a wild index is a fault. */
  function SetSlot(s: State, t: Thread, i: int, x: Slot, p: Place): State
    requires t < |s.at|
  {
    if 0 <= i < |s.slots| then Go(s.(slots := s.slots[i := x]), t, p) else Go(s, t, Fault)
  }

  /** A write through a pointer to a cache; a dangling one is a fault. */
  function SetCache(s: State, t: Thread, a: Address, c: Cache, p: Place): State
    requires t < |s.at|
  {
    if a in s.heap then Go(s.(heap := s.heap[a := c]), t, p) else Go(s, t, Fault)
  }

  function At(s: State, a: Address): Cache {
    if a in s.heap then s.heap[a] else Fresh()
  }

  function Do(s: State, t: Thread, e: Event): State
    requires Enabled(s, t, e)
  {
    var p := s.at[t];
    match e
    case CallAlloc => Go(s, t, Waiting)
    case Lock => Go(s.(mutex := Some(t)), t, Searching(0))
    case Test =>
      if p.i >= MAX_CONNECTIONS || p.i >= |s.slots| then Go(s, t, Leaving)
      else Go(s, t, if s.slots[p.i] == Free then Found(p.i) else Searching(p.i + 1))
    case Reserve => SetSlot(s, t, p.i, Reserved, GotSlot(p.i))
    case Malloc(a) => Go(s.(heap := s.heap[a := Fresh()]), t, Malloced(p.i, a))
    case MallocFails => SetSlot(s, t, p.i, Free, Leaving)
    case SetIndex => SetCache(s, t, p.a, At(s, p.a).(poolIndex := p.i), Indexed(p.i, p.a))
    case Confirm => SetSlot(s, t, p.i, Holds(p.a), Confirmed(p.i, p.a))
    case SetHandlers => SetCache(s, t, p.a, At(s, p.a).(handler := At(s, p.a).poolIndex), Ready(p.i, p.a))
    case Unlock =>
      Go(s.(mutex := AfterUnlock(s.mutex, t), live := if p.Ready? then s.live[p.a := t] else s.live), t, Idle)
    case CallFree(a) =>
      if a in s.heap then
        Go(s.(live := s.live - {a}, heap := s.heap[a := s.heap[a].(error := None, warning := None)]), t, Finishing(a))
      else Go(s, t, Fault)
    case Invalidate => SetSlot(s, t, At(s, p.a).poolIndex, Free, Invalidated(p.a))
    case Release => if p.a in s.heap then Go(s.(heap := s.heap - {p.a}), t, Idle) else Go(s, t, Fault)
    case Raise(a, kind, msg) => Go(s, t, InHandler(a, At(s, a).handler, kind, msg))
    case ReadSlot =>
      if !(0 <= p.k < |s.slots|) || s.slots[p.k] == Reserved then Go(s, t, Fault)
      else if s.slots[p.k] == Free then Go(s, t, Idle)
      else Go(s, t, AtCache(p.a, s.slots[p.k].a, p.kind, p.msg))
    case Clear => SetCache(s, t, p.c, WithMessage(At(s, p.c), p.kind, None), Cleared(p.a, p.c, p.kind, p.msg))
    case Store => SetCache(s, t, p.c, WithMessage(At(s, p.c), p.kind, p.msg), Idle)
    case HandOver(a, to) => s.(live := s.live[a := to])
  }

  // ----- what every reachable state satisfies -----

  /** The cache a thread is building or tearing down. */
  function Claim(p: Place): Option<Address> {
    match p
    case Malloced(_, a) => Some(a)
    case Indexed(_, a) => Some(a)
    case Confirmed(_, a) => Some(a)
    case Ready(_, a) => Some(a)
    case Finishing(a) => Some(a)
    case Invalidated(a) => Some(a)
    case _ => None
  }

  predicate NeedsMutex(p: Place) {
    p.Searching? || p.Found? || p.GotSlot? || p.Malloced? || p.Indexed? || p.Confirmed? || p.Ready? || p.Leaving?
  }

  /** The cache at a sits in slot i and knows it. */
  ghost predicate Seated(s: State, a: Address, i: int) {
    a in s.heap && s.heap[a].poolIndex == i && 0 <= i < |s.slots| && s.slots[i] == Holds(a)
  }

  ghost predicate Unseated(s: State, a: Address) {
    a in s.heap && forall i | 0 <= i < |s.slots| :: s.slots[i] != Holds(a)
  }

  ghost predicate PlaceOk(s: State, t: Thread)
    requires t < |s.at|
  {
    match s.at[t]
    case Found(i) => i < |s.slots| && s.slots[i] == Free
    case GotSlot(i) => i < |s.slots| && s.slots[i] == Reserved
    case Malloced(i, a) => i < |s.slots| && s.slots[i] == Reserved && Unseated(s, a)
    case Indexed(i, a) =>
      i < |s.slots| && s.slots[i] == Reserved && Unseated(s, a) && s.heap[a].poolIndex == i
    case Confirmed(i, a) => Seated(s, a, i)
    case Ready(i, a) => Seated(s, a, i) && s.heap[a].handler == i
    case Finishing(a) => a in s.heap && Seated(s, a, s.heap[a].poolIndex)
    case Invalidated(a) => Unseated(s, a)
    case InHandler(a, k, _, _) => a in s.live && s.live[a] == t && a in s.heap && k == s.heap[a].handler
    case AtCache(a, c, _, _) => a in s.live && s.live[a] == t && c == a
    case Cleared(a, c, _, _) => a in s.live && s.live[a] == t && c == a
    case Fault => false
    case _ => true
  }

  ghost predicate LiveOk(s: State, a: Address) {
    a in s.heap && Seated(s, a, s.heap[a].poolIndex) && s.heap[a].handler == s.heap[a].poolIndex
  }

  ghost predicate SlotOk(s: State, i: nat)
    requires i < |s.slots|
  {
    s.slots[i].Holds? ==> s.slots[i].a in s.heap && s.heap[s.slots[i].a].poolIndex == i
  }

  ghost predicate Inv(s: State) {
    && |s.slots| == MAX_CONNECTIONS
    && (forall t | 0 <= t < |s.at| :: PlaceOk(s, t))
    && (forall t | 0 <= t < |s.at| :: NeedsMutex(s.at[t]) ==> s.mutex == Some(t))
    && (forall t, u | 0 <= t < u < |s.at| :: Claim(s.at[t]).Some? ==> Claim(s.at[t]) != Claim(s.at[u]))
    && (forall t | 0 <= t < |s.at| :: Claim(s.at[t]).Some? ==> Claim(s.at[t]).value !in s.live)
    && (forall a | a in s.live :: LiveOk(s, a))
    && (forall i | 0 <= i < |s.slots| :: SlotOk(s, i))
  }

  lemma InitialInv(s: State)
    requires Initial(s)
    ensures Inv(s)
  {
  }

  /** The address a thread works on, if any. */
  function Subject(p: Place): Option<Address> {
    if Claim(p).Some? then Claim(p)
    else if p.InHandler? || p.AtCache? || p.Cleared? then Some(p.a)
    else None
  }

  /** What the invariant says about one thread and its subject. */
  ghost predicate Known(s: State, t: Thread)
    requires t < |s.at|
  {
    && |s.slots| == MAX_CONNECTIONS && PlaceOk(s, t)
    && (NeedsMutex(s.at[t]) ==> s.mutex == Some(t))
    && (Claim(s.at[t]).Some? ==> Claim(s.at[t]).value !in s.live)
    && (Subject(s.at[t]).Some? && Subject(s.at[t]).value in s.live ==> LiveOk(s, Subject(s.at[t]).value))
  }

  lemma KnowsOne(s: State, t: Thread)
    requires Inv(s) && t < |s.at|
    ensures Known(s, t)
  {
    hide LiveOk, SlotOk, NeedsMutex;
  }

  /** Two threads work on different caches. */
  lemma KnowsTwo(s: State, t: Thread, u: Thread)
    requires Inv(s) && t < |s.at| && u < |s.at| && t != u
    ensures Known(s, t) && Known(s, u)
    ensures Claim(s.at[t]).Some? ==> Claim(s.at[t]) != Claim(s.at[u])
  {
    KnowsOne(s, t);
    KnowsOne(s, u);
    hide PlaceOk, LiveOk, SlotOk, NeedsMutex, Known;
  }

  lemma KnowsLive(s: State, a: Address)
    requires Inv(s) && a in s.live
    ensures LiveOk(s, a)
  {
    hide PlaceOk, LiveOk, SlotOk, NeedsMutex, Claim;
  }

  /** The thread that moved, when it is building a cache and when it is not. */
  lemma BuilderKept(s: State, t: Thread, e: Event)
    requires Enabled(s, t, e) && Known(s, t) && NeedsMutex(s.at[t])
    requires e.Malloc? ==> forall i | 0 <= i < |s.slots| :: s.slots[i] != Holds(e.a)
    ensures |Do(s, t, e).at| == |s.at| && PlaceOk(Do(s, t, e), t)
  {
    hide LiveOk;
  }

  lemma UserKept(s: State, t: Thread, e: Event)
    requires Enabled(s, t, e) && Known(s, t) && !NeedsMutex(s.at[t])
    requires e.Raise? || e.CallFree? ==> LiveOk(s, e.a)
    requires e.Invalidate? ==>
      forall i | 0 <= i < |s.slots| && i != s.heap[s.at[t].a].poolIndex :: s.slots[i] != Holds(s.at[t].a)
    ensures |Do(s, t, e).at| == |s.at| && PlaceOk(Do(s, t, e), t)
  {
  }

  lemma MoverKept(s: State, t: Thread, e: Event)
    requires Inv(s) && Enabled(s, t, e)
    ensures |Do(s, t, e).at| == |s.at| && PlaceOk(Do(s, t, e), t)
  {
    KnowsOne(s, t);
    match e
    case Malloc(a) => Unknown(s, a);
    case Invalidate => OnlySeat(s, s.at[t].a);
    case Raise(a, _, _) => KnowsLive(s, a);
    case CallFree(a) => KnowsLive(s, a);
    case _ =>
    hide Inv, Do, LiveOk, Seated, Unseated;
    if NeedsMutex(s.at[t]) {
      BuilderKept(s, t, e);
    } else {
      UserKept(s, t, e);
    }
  }

  /** No slot points at an address that is not allocated. */
  lemma Unknown(s: State, a: Address)
    requires Inv(s) && a !in s.heap
    ensures forall i | 0 <= i < |s.slots| :: s.slots[i] != Holds(a)
  {
    forall i | 0 <= i < |s.slots| ensures s.slots[i] != Holds(a) {
      assert SlotOk(s, i);
    }
  }

  /** At most the slot named by pool_index points at a cache. */
  lemma OnlySeat(s: State, a: Address)
    requires Inv(s) && a in s.heap
    ensures forall i | 0 <= i < |s.slots| && i != s.heap[a].poolIndex :: s.slots[i] != Holds(a)
  {
    forall i | 0 <= i < |s.slots| && i != s.heap[a].poolIndex ensures s.slots[i] != Holds(a) {
      assert SlotOk(s, i);
    }
  }

  // ----- what a step leaves alone -----

  lemma OthersStay(s: State, t: Thread, e: Event)
    requires Enabled(s, t, e)
    ensures |Do(s, t, e).at| == |s.at|
    ensures forall u | 0 <= u < |s.at| && u != t :: Do(s, t, e).at[u] == s.at[u]
  {
  }

  /** A slot changes hands only under the mutex, between free and reserved and confirmed, or when its cache is freed. */
  lemma SlotFrame(s: State, t: Thread, e: Event, i: nat)
    requires Enabled(s, t, e) && Known(s, t) && i < |s.slots|
    ensures |Do(s, t, e).slots| == |s.slots|
    ensures var s' := Do(s, t, e);
      (s'.slots[i] == s.slots[i]
        || (NeedsMutex(s.at[t]) && !s.slots[i].Holds?
            && (s'.slots[i].Holds? ==> Claim(s.at[t]) == Some(s'.slots[i].a)))
        || (s'.slots[i] == Free && s.slots[i].Holds? && Claim(s.at[t]) == Some(s.slots[i].a)))
  {
  }

  /** A cache that the mover is not building or freeing stays, with its index and handler. */
  lemma HeapFrame(s: State, t: Thread, e: Event, a: Address)
    requires Enabled(s, t, e) && a in s.heap && Claim(s.at[t]) != Some(a)
    ensures var s' := Do(s, t, e);
      a in s'.heap && s'.heap[a].poolIndex == s.heap[a].poolIndex && s'.heap[a].handler == s.heap[a].handler
  {
  }

  /** A live cache of another thread stays live, and only a confirmed one becomes live. */
  lemma LiveFrame(s: State, t: Thread, e: Event, a: Address)
    requires Enabled(s, t, e) && Known(s, t)
    ensures var s' := Do(s, t, e);
      && (a in s.live && s.live[a] != t ==> a in s'.live && s'.live[a] == s.live[a])
      && (a in s'.live && a !in s.live ==> s.at[t].Ready? && s.at[t].a == a && e.Unlock?)
  {
  }

  /** Slots that do not point at an address other than the mover's do not come to do so. */
  lemma UnseatedFrame(s: State, t: Thread, e: Event, a: Address)
    requires Enabled(s, t, e) && Known(s, t) && Unseated(s, a) && Claim(s.at[t]) != Some(a)
    ensures Unseated(Do(s, t, e), a)
  {
    HeapFrame(s, t, e, a);
    SlotFrame(s, t, e, 0);
    forall i | 0 <= i < |s.slots| ensures Do(s, t, e).slots[i] != Holds(a) {
      SlotFrame(s, t, e, i);
      hide Do, Enabled, Known, Claim;
    }
  }

  lemma SeatedFrame(s: State, t: Thread, e: Event, a: Address, i: int)
    requires Enabled(s, t, e) && Known(s, t) && Seated(s, a, i) && Claim(s.at[t]) != Some(a)
    ensures Seated(Do(s, t, e), a, i)
  {
    HeapFrame(s, t, e, a);
    SlotFrame(s, t, e, i);
    hide Do, Enabled, Known, Claim;
  }

  /** The threads that stood still. */
  lemma OtherKept(s: State, t: Thread, e: Event, u: Thread)
    requires Inv(s) && Enabled(s, t, e) && u < |s.at| && u != t
    ensures |Do(s, t, e).at| == |s.at| && PlaceOk(Do(s, t, e), u)
  {
    KnowsTwo(s, t, u);
    OthersStay(s, t, e);
    var p := s.at[u];
    if p.Found? || p.GotSlot? || p.Malloced? || p.Indexed? {
      SlotFrame(s, t, e, p.i);
    }
    if p.Malloced? || p.Indexed? || p.Invalidated? {
      UnseatedFrame(s, t, e, p.a);
    }
    if p.Confirmed? || p.Ready? {
      SeatedFrame(s, t, e, p.a, p.i);
    }
    if p.Finishing? {
      SeatedFrame(s, t, e, p.a, s.heap[p.a].poolIndex);
    }
    if p.InHandler? || p.AtCache? || p.Cleared? {
      LiveFrame(s, t, e, p.a);
    }
    if Subject(p).Some? && Subject(p).value in s.heap {
      HeapFrame(s, t, e, Subject(p).value);
    }
    hide Inv, Do, Enabled, LiveOk, Unseated, Seated;
  }

  /** The mover keeps the mutex as long as it needs it, and takes it from nobody. */
  lemma MutexFrame(s: State, t: Thread, e: Event, u: Thread)
    requires Enabled(s, t, e) && Known(s, t)
    ensures var s' := Do(s, t, e);
      && |s'.at| == |s.at| && (NeedsMutex(s'.at[t]) ==> s'.mutex == Some(t))
      && (u != t && s.mutex == Some(u) ==> s'.mutex == Some(u))
  {
    hide PlaceOk, LiveOk;
  }

  lemma MutexKept(s: State, t: Thread, e: Event, u: Thread)
    requires Inv(s) && Enabled(s, t, e) && u < |s.at|
    ensures var s' := Do(s, t, e); |s'.at| == |s.at| && (NeedsMutex(s'.at[u]) ==> s'.mutex == Some(u))
  {
    KnowsOne(s, t);
    KnowsOne(s, u);
    OthersStay(s, t, e);
    MutexFrame(s, t, e, u);
    hide Inv, PlaceOk, LiveOk, Do, Enabled, NeedsMutex;
  }

  /** Only the mover's claim changes, and a new one is on memory nobody else works on. */
  lemma ClaimMoves(s: State, t: Thread, e: Event)
    requires Enabled(s, t, e)
    ensures |Do(s, t, e).at| == |s.at|
    ensures var c := Claim(Do(s, t, e).at[t]);
      c.None? || c == Claim(s.at[t]) || c.value !in s.heap || c.value in s.live
  {
  }

  lemma ClaimsKept(s: State, t: Thread, e: Event, u: Thread, v: Thread)
    requires Inv(s) && Enabled(s, t, e) && u < v < |s.at|
    ensures var s' := Do(s, t, e);
      |s'.at| == |s.at| && (Claim(s'.at[u]).Some? ==> Claim(s'.at[u]) != Claim(s'.at[v]))
  {
    assert PlaceOk(s, u) && PlaceOk(s, v);
    OthersStay(s, t, e);
    ClaimMoves(s, t, e);
    hide Do, Enabled;
  }

  lemma MoverNotLive(s: State, t: Thread, e: Event)
    requires Enabled(s, t, e) && Known(s, t) && (e.Malloc? ==> e.a !in s.live)
    ensures var s' := Do(s, t, e);
      |s'.at| == |s.at| && (Claim(s'.at[t]).Some? ==> Claim(s'.at[t]).value !in s'.live)
  {
    hide PlaceOk, LiveOk, NeedsMutex;
  }

  lemma ClaimNotLive(s: State, t: Thread, e: Event, u: Thread)
    requires Inv(s) && Enabled(s, t, e) && u < |s.at|
    ensures var s' := Do(s, t, e);
      |s'.at| == |s.at| && (Claim(s'.at[u]).Some? ==> Claim(s'.at[u]).value !in s'.live)
  {
    if u != t {
      KnowsTwo(s, t, u);
      OthersStay(s, t, e);
      if Claim(s.at[u]).Some? {
        LiveFrame(s, t, e, Claim(s.at[u]).value);
      }
      hide Inv, Do, Enabled;
    } else {
      KnowsOne(s, t);
      if e.Malloc? && e.a in s.live {
        KnowsLive(s, e.a);
      }
      MoverNotLive(s, t, e);
      hide Inv, Do;
    }
  }

  /** A cache goes live as it stands in its slot. */
  lemma NewlyLive(s: State, t: Thread, e: Event, a: Address)
    requires Enabled(s, t, e) && Known(s, t) && e.Unlock? && s.at[t].Ready? && s.at[t].a == a
    ensures LiveOk(Do(s, t, e), a)
  {
  }

  lemma LiveKept(s: State, t: Thread, e: Event, a: Address)
    requires Inv(s) && Enabled(s, t, e) && a in Do(s, t, e).live
    ensures LiveOk(Do(s, t, e), a)
  {
    KnowsOne(s, t);
    if a in s.live {
      KnowsLive(s, a);
      SeatedFrame(s, t, e, a, s.heap[a].poolIndex);
      HeapFrame(s, t, e, a);
    } else {
      LiveFrame(s, t, e, a);
      NewlyLive(s, t, e, a);
    }
    hide Inv, Do, Enabled, PlaceOk;
  }

  lemma SlotKept(s: State, t: Thread, e: Event, i: nat)
    requires Inv(s) && Enabled(s, t, e) && i < |s.slots|
    ensures |Do(s, t, e).slots| == |s.slots| && SlotOk(Do(s, t, e), i)
  {
    KnowsOne(s, t);
    assert SlotOk(s, i);
    hide Inv;
  }

  lemma StepInv(s: State, t: Thread, e: Event)
    requires Inv(s) && Enabled(s, t, e)
    ensures Inv(Do(s, t, e))
  {
    var s' := Do(s, t, e);
    SlotKept(s, t, e, 0);
    MoverKept(s, t, e);
    forall u | 0 <= u < |s'.at|
      ensures PlaceOk(s', u) && (NeedsMutex(s'.at[u]) ==> s'.mutex == Some(u))
      ensures Claim(s'.at[u]).Some? ==> Claim(s'.at[u]).value !in s'.live
    {
      if u != t {
        OtherKept(s, t, e, u);
      }
      MutexKept(s, t, e, u);
      ClaimNotLive(s, t, e, u);
    }
    forall u, v | 0 <= u < v < |s'.at| ensures Claim(s'.at[u]).Some? ==> Claim(s'.at[u]) != Claim(s'.at[v]) {
      ClaimsKept(s, t, e, u, v);
    }
    forall a | a in s'.live ensures LiveOk(s', a) {
      LiveKept(s, t, e, a);
    }
    forall i | 0 <= i < |s'.slots| ensures SlotOk(s', i) {
      SlotKept(s, t, e, i);
    }
  }

  // ----- whole runs -----

  /** trace leads from s to r. */
  ghost predicate Leads(s: State, trace: seq<(Thread, Event)>, r: State)
    decreases |trace|
  {
    if |trace| == 0 then s == r
    else Enabled(s, trace[0].0, trace[0].1) && Leads(Do(s, trace[0].0, trace[0].1), trace[1..], r)
  }

  lemma {:induction false} RunInv(s: State, trace: seq<(Thread, Event)>, r: State)
    requires Inv(s) && Leads(s, trace, r)
    ensures Inv(r)
    decreases |trace|
  {
    hide Inv, Enabled, Do;
    if |trace| > 0 {
      StepInv(s, trace[0].0, trace[0].1);
      RunInv(Do(s, trace[0].0, trace[0].1), trace[1..], r);
    }
  }

  /**
   After every run from the start: no thread met a wild or dangling pointer, no slot belongs to two live caches, and
   the slot a live cache names points back at it.
   */
  lemma PoolSafe(s: State, trace: seq<(Thread, Event)>, r: State)
    requires Initial(s) && Leads(s, trace, r)
    ensures forall t | 0 <= t < |r.at| :: r.at[t] != Fault
    ensures forall a | a in r.live ::
      a in r.heap && 0 <= r.heap[a].poolIndex < |r.slots| && r.slots[r.heap[a].poolIndex] == Holds(a)
    ensures forall a, b | a in r.live && b in r.live && a != b :: r.heap[a].poolIndex != r.heap[b].poolIndex
  {
    InitialInv(s);
    RunInv(s, trace, r);
    forall t | 0 <= t < |r.at| ensures r.at[t] != Fault {
      assert PlaceOk(r, t);
    }
    forall a | a in r.live
      ensures a in r.heap && 0 <= r.heap[a].poolIndex < |r.slots| && r.slots[r.heap[a].poolIndex] == Holds(a)
    {
      assert LiveOk(r, a);
    }
  }

  /**
   A message raised through the handler of a live cache reaches that cache: reading the handler's slot finds it, and
   what is stored changes this cache's message and nothing else in memory.
   */
  lemma MessageGoesHome(s: State, trace: seq<(Thread, Event)>, r: State, t: Thread, e: Event)
    requires Initial(s) && Leads(s, trace, r) && Enabled(r, t, e)
    ensures e.ReadSlot? ==> var p := r.at[t]; Do(r, t, e).at[t] == AtCache(p.a, p.a, p.kind, p.msg)
    ensures e.Clear? || e.Store? ==> r.at[t].a in r.heap
    ensures e.Clear? ==> Do(r, t, e).at[t] == Cleared(r.at[t].a, r.at[t].a, r.at[t].kind, r.at[t].msg)
    ensures e.Clear? ==>
      Do(r, t, e).heap == r.heap[r.at[t].a := WithMessage(r.heap[r.at[t].a], r.at[t].kind, None)]
    ensures e.Store? ==>
      Do(r, t, e).heap == r.heap[r.at[t].a := WithMessage(r.heap[r.at[t].a], r.at[t].kind, r.at[t].msg)]
  {
    InitialInv(s);
    RunInv(s, trace, r);
    assert PlaceOk(r, t);
    if e.ReadSlot? || e.Clear? || e.Store? {
      assert LiveOk(r, r.at[t].a);
    }
  }

  /** There are never more live connections than slots. */
  lemma CapacityKept(s: State, trace: seq<(Thread, Event)>, r: State, caches: seq<Address>)
    requires Initial(s) && Leads(s, trace, r)
    requires forall i | 0 <= i < |caches| :: caches[i] in r.live
    requires forall i, j | 0 <= i < j < |caches| :: caches[i] != caches[j]
    ensures |caches| <= 64
  {
    PoolSafe(s, trace, r);
    InitialInv(s);
    RunInv(s, trace, r);
    var seats: seq<nat> := seq(|caches|, i requires 0 <= i < |caches| => Seat(r, caches[i]));
    assert forall i | 0 <= i < |caches| :: seats[i] == r.heap[caches[i]].poolIndex;
    DistinctBelow(seats, MAX_CONNECTIONS);
  }

  function Seat(s: State, a: Address): nat {
    if a in s.heap && s.heap[a].poolIndex >= 0 then s.heap[a].poolIndex else 0
  }
}

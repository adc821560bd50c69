/**
 The channel that hands work to the miners (src/swap_rust.rs): an atomic pointer that swappers
 replace, receivers that compare it with the pointer they keep, and a mutex with a condition
 variable for the receivers that wait.

 The model is a state machine. A step is one atomic action of one thread: a load or a swap of the
 pointer, taking or releasing the mutex, parking, notifying, waking up for no reason, allocating,
 or freeing an allocation that nothing refers to. Freed addresses may be allocated again.
 */
module WatchSwap {
  import opened Options

  /** What RefCnt::as_ptr compares: the address of an Arc, or null for an absent value. */
  datatype Ptr = Null | At(addr: nat)

  /** An allocation: every Arc::new makes another one. */
  datatype Object<T> = Object(id: nat, value: T)

  /** A pointer that was stored in the channel and what it referred to then. */
  datatype Version<T> = Version(ptr: Ptr, content: Option<Object<T>>)

  datatype Pc =
    | Idle
    | WantLock                                   // wait_for_change before the mutex, or woken up
    | Locked                                     // wait_for_change, holding the mutex
    | Loaded(ptr: Ptr, at: nat, waiting: bool)   // get_changed_inner between the load and the comparison
    | ToWait                                     // nothing new, the mutex still held
    | Parked                                     // in the condition variable
    | Leaving                                    // wait_for_change about to drop the mutex
    | Prepared(ptr: Ptr)                         // swap, with the new value allocated
    | Stored(prev: Ptr)                           // swap after the exchange, before the mutex
    | Notifying(prev: Ptr)                        // wake_up_threads, holding the mutex
    | Notified(prev: Ptr)                         // wake_up_threads after notify_all
    | Returned(prev: Ptr)                         // the caller of swap still keeps the old value
  {
    predicate HoldsLock() {
      Locked? || (Loaded? && waiting) || ToWait? || Leaving? || Notifying? || Notified?
    }

    /** Stored a new pointer and has not yet notified. */
    predicate Pending() { Stored? || Notifying? }

    /** The pointer that a thread in the middle of an operation keeps alive. */
    function Keeps(): Ptr {
      match this
      case Loaded(ptr, _, _) => ptr
      case Prepared(ptr) => ptr
      case Stored(prev) => prev
      case Notifying(prev) => prev
      case Notified(prev) => prev
      case Returned(prev) => prev
      case _ => Null
    }
  }

  /**
   A thread with its WatchSwap. Beside the cached pointer it records which version that is, the
   versions it was told of as changes, and the version that was current when its call began.
   */
  datatype Thread = Thread(cached: Ptr, seen: nat, reports: seq<nat>, started: nat, pc: Pc) {
    /** The pointer on which a waiting thread has based, or is about to base, its decision to park. */
    predicate Settling() { pc.ToWait? || pc.Parked? || (pc.Loaded? && pc.waiting) }

    function Belief(): Ptr { if pc.Loaded? then pc.ptr else cached }
  }

  datatype State<T> = State(inner: Ptr, mutex: Option<nat>, threads: map<nat, Thread>,
                            heap: map<nat, Object<T>>, nextId: nat, history: seq<Version<T>>)

  datatype Action<T> =
    | Clone(t: nat, other: nat) | Drop(t: nat)
    | CallWait(t: nat) | Lock(t: nat) | Load(t: nat) | Decide(t: nat) | Park(t: nat) | WakeUp(t: nat) | Unlock(t: nat)
    | Make(t: nat, value: Option<T>, addr: nat) | Store(t: nat) | Notify(t: nat) | Forget(t: nat)
    | Free(addr: nat)

  // ------------------------------------------------------------ the steps

  predicate Referenced<T>(s: State<T>, addr: nat) {
    s.inner == At(addr) || exists t | t in s.threads ::
      s.threads[t].cached == At(addr) || s.threads[t].pc.Keeps() == At(addr)
  }

  predicate Enabled<T>(s: State<T>, a: Action<T>) {
    if a.Free? then a.addr in s.heap && !Referenced(s, a.addr)
    else
      a.t in s.threads &&
      var pc := s.threads[a.t].pc;
      match a
      case Clone(_, other) => pc.Idle? && other !in s.threads
      case Drop(_) => pc.Idle?
      case CallWait(_) => pc.Idle?
      case Lock(_) => (pc.WantLock? || pc.Stored?) && s.mutex.None?
      case Load(_) => pc.Idle? || pc.Locked?
      case Decide(_) => pc.Loaded?
      case Park(_) => pc.ToWait?
      case WakeUp(_) => pc.Parked?
      case Unlock(_) => pc.Leaving? || pc.Notified?
      case Make(_, value, addr) => pc.Idle? && (value.Some? ==> addr !in s.heap)
      case Store(_) => pc.Prepared?
      case Notify(_) => pc.Notifying?
      case Forget(_) => pc.Returned?
  }

  function Content<T>(heap: map<nat, Object<T>>, p: Ptr): Option<Object<T>> {
    if p.At? && p.addr in heap then Some(heap[p.addr]) else None
  }

  function Latest<T>(s: State<T>): nat { if |s.history| > 0 then |s.history| - 1 else 0 }

  /** The shared state after an action, the threads aside. */
  function Effect<T>(s: State<T>, a: Action<T>): State<T>
    requires Enabled(s, a)
  {
    match a
    case Lock(t) => s.(mutex := Some(t))
    case Park(_) => s.(mutex := None)
    case Unlock(_) => s.(mutex := None)
    case Make(_, Some(value), addr) => s.(heap := s.heap[addr := Object(s.nextId, value)], nextId := s.nextId + 1)
    case Store(t) =>
      var ptr := s.threads[t].pc.ptr;
      s.(inner := ptr, history := s.history + [Version(ptr, Content(s.heap, ptr))])
    case Free(addr) => s.(heap := s.heap - {addr})
    case _ => s
  }

  /** The acting thread after an action. */
  function Moved<T>(s: State<T>, a: Action<T>): Thread
    requires Enabled(s, a) && !a.Free?
  {
    var th := s.threads[a.t];
    match a
    case CallWait(_) => th.(pc := WantLock, started := Latest(s))
    case Lock(_) => th.(pc := if th.pc.WantLock? then Locked else Notifying(th.pc.prev))
    case Load(_) =>
      if th.pc.Locked? then th.(pc := Loaded(s.inner, Latest(s), true))
      else th.(pc := Loaded(s.inner, Latest(s), false), started := Latest(s))
    case Decide(_) =>
      if th.pc.ptr != th.cached then
        th.(cached := th.pc.ptr, seen := th.pc.at, reports := th.reports + [th.pc.at],
            pc := if th.pc.waiting then Leaving else Idle)
      else
        th.(pc := if th.pc.waiting then ToWait else Idle)
    case Park(_) => th.(pc := Parked)
    case WakeUp(_) => th.(pc := WantLock)
    case Unlock(_) => th.(pc := if th.pc.Leaving? then Idle else Returned(th.pc.prev))
    case Make(_, value, addr) => th.(pc := Prepared(if value.Some? then At(addr) else Null))
    case Store(_) => th.(pc := Stored(s.inner))
    case Notify(_) => th.(pc := Notified(th.pc.prev))
    case Forget(_) => th.(pc := Idle)
    case _ => th
  }

  function Woken(th: Thread): Thread { if th.pc.Parked? then th.(pc := WantLock) else th }

  function Copy(th: Thread): Thread { Thread(th.cached, th.seen, [], 0, Idle) }

  function Perform<T>(s: State<T>, a: Action<T>): State<T>
    requires Enabled(s, a)
  {
    var e := Effect(s, a);
    match a
    case Free(_) => e
    case Drop(t) => e.(threads := s.threads - {t})
    case Clone(t, other) => e.(threads := s.threads[other := Copy(s.threads[t])])
    case Notify(t) => e.(threads := (map u | u in s.threads :: Woken(s.threads[u]))[t := Moved(s, a)])
    case _ => e.(threads := s.threads[a.t := Moved(s, a)])
  }

  /** An action that is not possible where the scheduler tries it changes nothing. */
  function Step<T>(s: State<T>, a: Action<T>): State<T> {
    if Enabled(s, a) then Perform(s, a) else s
  }

  function Run<T>(s: State<T>, actions: seq<Action<T>>): State<T> {
    if actions == [] then s else Step(Run(s, actions[..|actions| - 1]), actions[|actions| - 1])
  }

  /** WatchSwap::empty, and WatchSwap::init with the value at some address. */
  function Start<T>(value: Option<T>, addr: nat): State<T> {
    var heap := if value.Some? then map[addr := Object(0, value.value)] else map[];
    var ptr := if value.Some? then At(addr) else Null;
    State(ptr, None, map[0 := Thread(ptr, 0, [], 0, Idle)], heap, 1, [Version(ptr, Content(heap, ptr))])
  }

  // ------------------------------------------------------------ the invariant

  predicate Live<T>(heap: map<nat, Object<T>>, p: Ptr) { p.At? ==> p.addr in heap }

  /** The pointer is that of version i and refers to the allocation that it referred to then. */
  ghost predicate Is<T>(heap: map<nat, Object<T>>, history: seq<Version<T>>, p: Ptr, i: nat) {
    i < |history| && history[i].ptr == p && Live(heap, p) && history[i].content == Content(heap, p)
  }

  predicate Increasing(r: seq<nat>) { forall i, j | 0 <= i < j < |r| :: r[i] < r[j] }

  ghost predicate Good<T>(heap: map<nat, Object<T>>, history: seq<Version<T>>, th: Thread) {
    && Is(heap, history, th.cached, th.seen)
    && Live(heap, th.pc.Keeps())
    && th.started < |history|
    && Increasing(th.reports) && (|th.reports| > 0 ==> th.reports[|th.reports| - 1] <= th.seen)
    && (th.pc.Loaded? ==> Is(heap, history, th.pc.ptr, th.pc.at) && th.seen <= th.pc.at && th.started <= th.pc.at)
  }

  ghost predicate AllGood<T>(s: State<T>) { forall t | t in s.threads :: Good(s.heap, s.history, s.threads[t]) }

  ghost predicate CurrentIsLast<T>(s: State<T>) { |s.history| > 0 && Is(s.heap, s.history, s.inner, |s.history| - 1) }

  ghost predicate MutexHeld<T>(s: State<T>) {
    && (forall t | t in s.threads :: s.threads[t].pc.HoldsLock() ==> s.mutex == Some(t))
    && (s.mutex.Some? ==> s.mutex.value in s.threads && s.threads[s.mutex.value].pc.HoldsLock())
  }

  ghost predicate SomePending<T>(s: State<T>) { exists u | u in s.threads :: s.threads[u].pc.Pending() }

  /** Who has settled on a pointer that is no longer the current one will be notified. */
  ghost predicate NoneForgotten<T>(s: State<T>) {
    forall t | t in s.threads :: s.threads[t].Settling() && s.threads[t].Belief() != s.inner ==> SomePending(s)
  }

  // No two versions are the same allocation.

  predicate Older<T>(o: Option<Object<T>>, nextId: nat) { o.Some? ==> o.value.id < nextId }

  predicate Apart<T>(x: Option<Object<T>>, y: Option<Object<T>>) { x.Some? && y.Some? ==> x.value.id != y.value.id }

  ghost predicate IdsAreFresh<T>(s: State<T>) {
    && (forall a | a in s.heap :: s.heap[a].id < s.nextId)
    && (forall i | 0 <= i < |s.history| :: Older(s.history[i].content, s.nextId))
  }

  /** What a thread is about to store, or nothing. */
  function Offer<T>(s: State<T>, t: nat): Option<Object<T>> {
    if t in s.threads && s.threads[t].pc.Prepared? then Content(s.heap, s.threads[t].pc.ptr) else None
  }

  ghost predicate HistoryApart<T>(s: State<T>) {
    forall i, j | 0 <= i < j < |s.history| :: Apart(s.history[i].content, s.history[j].content)
  }

  ghost predicate OffersAreNew<T>(s: State<T>) {
    forall t: nat, i | 0 <= i < |s.history| :: Apart(s.history[i].content, Offer(s, t))
  }

  ghost predicate OffersApart<T>(s: State<T>) {
    forall t: nat, u: nat | t != u :: Apart(Offer(s, t), Offer(s, u))
  }

  ghost predicate Inv<T>(s: State<T>) {
    CurrentIsLast(s) && AllGood(s) && MutexHeld(s) && NoneForgotten(s) && IdsAreFresh(s)
    && HistoryApart(s) && OffersAreNew(s) && OffersApart(s)
  }

  // ------------------------------------------------------------ every step keeps it

  /** What a step does to the threads: one moves, one may be new, and notify_all wakes those that are parked. */
  lemma ThreadsAfter<T>(s: State<T>, a: Action<T>, t: nat)
    requires Enabled(s, a) && t in Perform(s, a).threads
    ensures var th := Perform(s, a).threads[t];
            || (!a.Free? && t == a.t && th == Moved(s, a))
            || (t in s.threads && (a.Free? || t != a.t) && th == s.threads[t] && !(a.Notify? && th.pc.Parked?))
            || (a.Notify? && t in s.threads && t != a.t && s.threads[t].pc.Parked?
              && th == s.threads[t].(pc := WantLock))
            || (a.Clone? && t == a.other && t != a.t && th == Copy(s.threads[a.t]))
  {
  }

  lemma CurrentStaysLast<T>(s: State<T>, a: Action<T>)
    requires Inv(s) && Enabled(s, a)
    ensures CurrentIsLast(Perform(s, a))
  {
    hide MutexHeld, NoneForgotten, IdsAreFresh, HistoryApart, OffersAreNew, OffersApart;
    if !a.Free? {
      assert Good(s.heap, s.history, s.threads[a.t]);
    }
  }

  /** A thread stays as it should be when the shared state changes, as long as it refers to nothing that is freed. */
  lemma GoodCarries<T>(s: State<T>, a: Action<T>, th: Thread)
    requires Enabled(s, a) && Good(s.heap, s.history, th)
    requires a.Free? ==> th.cached != At(a.addr) && th.pc.Keeps() != At(a.addr)
    ensures Good(Effect(s, a).heap, Effect(s, a).history, th)
  {
  }

  lemma DecidedIsGood<T>(s: State<T>, a: Action<T>)
    requires Enabled(s, a) && a.Decide? && Good(s.heap, s.history, s.threads[a.t])
    ensures Good(s.heap, s.history, Moved(s, a))
  {
    var th := s.threads[a.t];
    if th.pc.ptr != th.cached {
      assert th.pc.at != th.seen;
    }
  }

  lemma MovedIsGood<T>(s: State<T>, a: Action<T>)
    requires CurrentIsLast(s) && Enabled(s, a) && !a.Free? && !a.Decide? && Good(s.heap, s.history, s.threads[a.t])
    ensures var th := Moved(s, a);
            && th.cached == s.threads[a.t].cached && th.seen == s.threads[a.t].seen
            && th.reports == s.threads[a.t].reports
            && (a.Store? || Live(Effect(s, a).heap, th.pc.Keeps())) && th.started < |s.history|
            && (th.pc.Loaded? ==>
                  && a.Load? && Is(s.heap, s.history, th.pc.ptr, th.pc.at)
                  && th.seen <= th.pc.at && th.started <= th.pc.at)
  {
  }

  lemma MovedStaysGood<T>(s: State<T>, a: Action<T>)
    requires CurrentIsLast(s) && Enabled(s, a) && !a.Free? && Good(s.heap, s.history, s.threads[a.t])
    ensures Good(Effect(s, a).heap, Effect(s, a).history, Moved(s, a))
  {
    if a.Decide? {
      DecidedIsGood(s, a);
    } else {
      MovedIsGood(s, a);
      GoodCarries(s, a, s.threads[a.t]);
    }
  }

  lemma StepKeepsGood<T>(s: State<T>, a: Action<T>)
    requires CurrentIsLast(s) && AllGood(s) && Enabled(s, a)
    ensures AllGood(Perform(s, a))
  {
    var s' := Perform(s, a);
    forall t | t in s'.threads ensures Good(s'.heap, s'.history, s'.threads[t]) {
      ThreadsAfter(s, a, t);
      if t in s.threads && (a.Free? || t != a.t) {
        assert Good(s.heap, s.history, s.threads[t]);
        GoodCarries(s, a, s.threads[t]);
      } else {
        assert Good(s.heap, s.history, s.threads[a.t]);
        MovedStaysGood(s, a);
      }
    }
  }

  lemma StepKeepsMutex<T>(s: State<T>, a: Action<T>)
    requires MutexHeld(s) && Enabled(s, a)
    ensures MutexHeld(Perform(s, a))
  {
    var s' := Perform(s, a);
    forall t | t in s'.threads && s'.threads[t].pc.HoldsLock() ensures s'.mutex == Some(t) {
      ThreadsAfter(s, a, t);
    }
    if s'.mutex.Some? {
      HolderAfter(s, a, s'.mutex.value);
    }
  }

  lemma HolderAfter<T>(s: State<T>, a: Action<T>, t: nat)
    requires MutexHeld(s) && Enabled(s, a) && Perform(s, a).mutex == Some(t)
    ensures t in Perform(s, a).threads && Perform(s, a).threads[t].pc.HoldsLock()
  {
  }

  /** A thread that has stored and not yet notified is still to notify after any step but notify_all itself. */
  lemma PendingAfter<T>(s: State<T>, a: Action<T>, u: nat)
    requires Enabled(s, a) && !a.Notify? && u in s.threads && s.threads[u].pc.Pending()
    ensures u in Perform(s, a).threads && Perform(s, a).threads[u].pc.Pending()
  {
  }

  /** Who is settled on an outdated pointer after a step that neither stores nor notifies was so before it. */
  lemma SettledBefore<T>(s: State<T>, a: Action<T>, t: nat)
    requires Enabled(s, a) && !a.Store? && !a.Notify? && t in Perform(s, a).threads
    requires var th := Perform(s, a).threads[t]; th.Settling() && th.Belief() != s.inner
    ensures t in s.threads && s.threads[t].Settling() && s.threads[t].Belief() != s.inner
  {
    ThreadsAfter(s, a, t);
  }

  /** After notify_all no thread waits or is about to. */
  lemma NobodySettled<T>(s: State<T>, a: Action<T>, t: nat)
    requires MutexHeld(s) && Enabled(s, a) && a.Notify? && t in s.threads
    ensures !Perform(s, a).threads[t].Settling()
  {
    ThreadsAfter(s, a, t);
  }

  lemma StepKeepsNoneForgotten<T>(s: State<T>, a: Action<T>)
    requires MutexHeld(s) && NoneForgotten(s) && Enabled(s, a)
    ensures NoneForgotten(Perform(s, a))
  {
    var s' := Perform(s, a);
    forall t | t in s'.threads && s'.threads[t].Settling() && s'.threads[t].Belief() != s'.inner
      ensures SomePending(s')
    {
      if a.Store? {
        assert s'.threads[a.t].pc.Pending();
      } else if a.Notify? {
        NobodySettled(s, a, t);
      } else {
        SettledBefore(s, a, t);
        var u :| u in s.threads && s.threads[u].pc.Pending();
        PendingAfter(s, a, u);
      }
    }
  }

  lemma StepKeepsFreshIds<T>(s: State<T>, a: Action<T>)
    requires IdsAreFresh(s) && Enabled(s, a)
    ensures IdsAreFresh(Perform(s, a))
  {
  }

  /** An offer is as before, or has just been made and has the next id. */
  lemma OfferAfter<T>(s: State<T>, a: Action<T>, t: nat)
    requires AllGood(s) && Enabled(s, a)
    ensures var offer := Offer(Perform(s, a), t);
            || offer.None?
            || (offer == Offer(s, t) && !(a.Store? && t == a.t))
            || (a.Make? && t == a.t && offer.value.id == s.nextId)
  {
    if t in Perform(s, a).threads {
      ThreadsAfter(s, a, t);
      if t in s.threads {
        assert Good(s.heap, s.history, s.threads[t]);
      }
    }
  }

  lemma OfferIsOlder<T>(s: State<T>, t: nat)
    requires IdsAreFresh(s)
    ensures Older(Offer(s, t), s.nextId)
  {
  }

  lemma StepKeepsHistoryApart<T>(s: State<T>, a: Action<T>)
    requires HistoryApart(s) && OffersAreNew(s) && Enabled(s, a)
    ensures HistoryApart(Perform(s, a))
  {
    var s' := Perform(s, a);
    if a.Store? {
      assert s'.history == s.history + [Version(s.threads[a.t].pc.ptr, Offer(s, a.t))];
      forall i, j | 0 <= i < j < |s'.history| ensures Apart(s'.history[i].content, s'.history[j].content) {
        if j == |s.history| {
          assert Apart(s.history[i].content, Offer(s, a.t));
        } else {
          assert Apart(s.history[i].content, s.history[j].content);
        }
      }
    } else {
      assert s'.history == s.history;
    }
  }

  lemma StepKeepsOffersNew<T>(s: State<T>, a: Action<T>)
    requires AllGood(s) && IdsAreFresh(s) && OffersAreNew(s) && OffersApart(s) && Enabled(s, a)
    ensures OffersAreNew(Perform(s, a))
  {
    var s' := Perform(s, a);
    forall t: nat, i | 0 <= i < |s'.history| ensures Apart(s'.history[i].content, Offer(s', t)) {
      OfferAfter(s, a, t);
      if i < |s.history| {
        assert s'.history[i] == s.history[i] && Older(s.history[i].content, s.nextId);
        assert Apart(s.history[i].content, Offer(s, t));
      } else {
        assert s'.history[i].content == Offer(s, a.t);
        assert t != a.t ==> Apart(Offer(s, a.t), Offer(s, t));
      }
    }
  }

  lemma StepKeepsOffersApart<T>(s: State<T>, a: Action<T>)
    requires AllGood(s) && IdsAreFresh(s) && OffersApart(s) && Enabled(s, a)
    ensures OffersApart(Perform(s, a))
  {
    var s' := Perform(s, a);
    forall t: nat, u: nat | t != u ensures Apart(Offer(s', t), Offer(s', u)) {
      OfferAfter(s, a, t);
      OfferAfter(s, a, u);
      OfferIsOlder(s, t);
      OfferIsOlder(s, u);
      assert Apart(Offer(s, t), Offer(s, u));
    }
  }

  /** Every step of every thread keeps the invariant. */
  lemma StepKeepsInv<T>(s: State<T>, a: Action<T>)
    requires Inv(s)
    ensures Inv(Step(s, a))
  {
    if Enabled(s, a) {
      CurrentStaysLast(s, a);
      StepKeepsGood(s, a);
      StepKeepsMutex(s, a);
      StepKeepsNoneForgotten(s, a);
      StepKeepsFreshIds(s, a);
      StepKeepsHistoryApart(s, a);
      StepKeepsOffersNew(s, a);
      StepKeepsOffersApart(s, a);
    }
  }

  lemma StartKeepsInv<T>(value: Option<T>, addr: nat)
    ensures Inv(Start(value, addr))
  {
  }

  lemma {:induction false} RunKeepsInv<T>(s: State<T>, actions: seq<Action<T>>)
    requires Inv(s)
    ensures Inv(Run(s, actions))
  {
    if actions != [] {
      RunKeepsInv(s, actions[..|actions| - 1]);
      StepKeepsInv(Run(s, actions[..|actions| - 1]), actions[|actions| - 1]);
    }
  }

  /** What any number of threads can reach. */
  ghost predicate Reachable<T(!new)>(s: State<T>) {
    exists value: Option<T>, addr: nat, actions: seq<Action<T>> :: s == Run(Start(value, addr), actions)
  }

  lemma ReachableInv<T(!new)>(s: State<T>)
    requires Reachable(s)
    ensures Inv(s)
  {
    var value: Option<T>, addr: nat, actions: seq<Action<T>> :| s == Run(Start(value, addr), actions);
    StartKeepsInv(value, addr);
    RunKeepsInv(Start(value, addr), actions);
  }

  // ------------------------------------------------------------ what the channel promises

  /**
   No lost wake-up: while a parked receiver keeps an outdated pointer, some swapper that has stored is still to
   notify.
   */
  lemma NoLostWakeUp<T(!new)>(s: State<T>, t: nat)
    requires Reachable(s) && t in s.threads && s.threads[t].pc.Parked? && s.threads[t].cached != s.inner
    ensures exists u | u in s.threads :: s.threads[u].pc.Stored? || s.threads[u].pc.Notifying?
  {
    ReachableInv(s);
    assert s.threads[t].Settling();
    var u :| u in s.threads && s.threads[u].pc.Pending();
  }

  /**
   wait_for_change returns only with a pointer other than the one the receiver had, that of a version
   which was the current one at a load after the call began.
   */
  lemma WaitReturnsAChange<T(!new)>(s: State<T>, a: Action<T>, t: nat)
    requires Reachable(s) && t in s.threads && !s.threads[t].pc.Leaving?
    requires t in Step(s, a).threads && Step(s, a).threads[t].pc.Leaving?
    ensures var th := Step(s, a).threads[t];
            && th.cached != s.threads[t].cached
            && th.reports == s.threads[t].reports + [th.seen]
            && s.threads[t].started <= th.seen < |s.history|
            && s.threads[t].seen < th.seen
            && s.history[th.seen].ptr == th.cached && s.history[th.seen].content == Content(Step(s, a).heap, th.cached)
  {
    hide Reachable, MutexHeld, NoneForgotten, IdsAreFresh, HistoryApart, OffersAreNew, OffersApart;
    ReachableInv(s);
    ThreadsAfter(s, a, t);
    assert Good(s.heap, s.history, s.threads[t]);
  }

  /** A call begins with the version that is current then; get_changed loads it at once. */
  lemma CallBegins<T>(s: State<T>, t: nat)
    requires t in s.threads && s.threads[t].pc.Idle? && s.history != []
    ensures Step(s, CallWait(t)) == s.(threads := s.threads[t := s.threads[t].(pc := WantLock,
                                                                               started := |s.history| - 1)])
    ensures Step(s, Load(t)) == s.(threads := s.threads[t :=
      s.threads[t].(pc := Loaded(s.inner, |s.history| - 1, false), started := |s.history| - 1)])
  {
  }

  /** Until the call ends, nothing changes the version with which it began. */
  lemma BeginningStays<T>(s: State<T>, a: Action<T>, t: nat)
    requires t in s.threads && !s.threads[t].pc.Idle?
    ensures t in Step(s, a).threads && Step(s, a).threads[t].started == s.threads[t].started
  {
    if Enabled(s, a) {
      assert a.Drop? ==> a.t != t;
      ThreadsAfter(s, a, t);
    }
  }

  /**
   Comparing addresses is sound: the pointers are equal exactly if the receiver has seen the current version, or both
   are absent.
   */
  lemma EqualPointersSameVersion<T(!new)>(s: State<T>, t: nat)
    requires Reachable(s) && t in s.threads
    ensures var th := s.threads[t];
            && th.seen < |s.history|
            && (s.inner == th.cached <==> (th.cached.Null? && s.inner.Null?) || th.seen == |s.history| - 1)
            && (s.inner == th.cached ==> s.history[th.seen].content == s.history[|s.history| - 1].content)
  {
    ReachableInv(s);
    var th := s.threads[t];
    assert Good(s.heap, s.history, th);
    assert th.seen < |s.history| - 1 ==> Apart(s.history[th.seen].content, s.history[|s.history| - 1].content);
  }

  /**
   If get_changed_inner finds nothing new, the version it loaded is the one the receiver has, or both are absent
   values.
   */
  lemma NoChangeMeansSameVersion<T(!new)>(s: State<T>, t: nat)
    requires Reachable(s) && t in s.threads && s.threads[t].pc.Loaded? && s.threads[t].pc.ptr == s.threads[t].cached
    ensures var th := s.threads[t];
            th.seen < |s.history| && th.pc.at < |s.history| && s.history[th.pc.at].content == s.history[th.seen].content
    ensures s.threads[t].cached.At? ==> s.threads[t].pc.at == s.threads[t].seen
  {
    ReachableInv(s);
    var th := s.threads[t];
    assert Good(s.heap, s.history, th);
    assert th.seen < th.pc.at ==> Apart(s.history[th.seen].content, s.history[th.pc.at].content);
  }

  /**
   What a receiver reads through its cached pointer is what was published as the version it saw, whatever has been
   freed and allocated since.
   */
  lemma CachedValueIsPublished<T(!new)>(s: State<T>, t: nat)
    requires Reachable(s) && t in s.threads
    ensures var th := s.threads[t];
            th.seen < |s.history| && s.history[th.seen].ptr == th.cached
              && s.history[th.seen].content == Content(s.heap, th.cached)
    ensures var th := s.threads[t]; th.cached.At? ==> th.cached.addr in s.heap
  {
    ReachableInv(s);
    assert Good(s.heap, s.history, s.threads[t]);
  }

  /** th' has moved on from th: it was told of versions later than any that th had seen, in order. */
  ghost predicate Forward(th: Thread, th': Thread) {
    && th.reports <= th'.reports && th.seen <= th'.seen
    && (forall i, j | 0 <= i < j < |th'.reports| :: th'.reports[i] < th'.reports[j])
    && (forall k | |th.reports| <= k < |th'.reports| :: th.seen < th'.reports[k] <= th'.seen)
  }

  lemma HistoryGrows<T>(s: State<T>, a: Action<T>)
    ensures s.history <= Step(s, a).history
  {
  }

  lemma ThreadStays<T>(s: State<T>, a: Action<T>, t: nat)
    requires Enabled(s, a) && t in s.threads && a != Action<T>.Drop(t)
    ensures t in Perform(s, a).threads
  {
  }

  lemma MovesForward<T>(s: State<T>, a: Action<T>)
    requires Enabled(s, a) && !a.Free? && Good(s.heap, s.history, s.threads[a.t]) && Increasing(Moved(s, a).reports)
    ensures Forward(s.threads[a.t], Moved(s, a))
  {
  }

  lemma StepGoesForward<T>(s: State<T>, a: Action<T>, t: nat)
    requires AllGood(s) && AllGood(Step(s, a)) && t in s.threads && a != Action<T>.Drop(t)
    ensures t in Step(s, a).threads && Forward(s.threads[t], Step(s, a).threads[t])
    ensures s.history <= Step(s, a).history
  {
    hide Perform, Effect, Moved;
    HistoryGrows(s, a);
    assert Good(s.heap, s.history, s.threads[t]);
    if Enabled(s, a) {
      ThreadStays(s, a, t);
      ThreadsAfter(s, a, t);
      if !a.Free? && t == a.t {
        MovesForward(s, a);
      }
    }
  }

  /** Over every run the changes that a receiver is told of go strictly forward in the history of swaps. */
  lemma {:induction false} ReportsGoForward<T>(s: State<T>, actions: seq<Action<T>>, t: nat)
    requires Inv(s) && t in s.threads && Action<T>.Drop(t) !in actions
    ensures t in Run(s, actions).threads && Forward(s.threads[t], Run(s, actions).threads[t])
    ensures s.history <= Run(s, actions).history
  {
    assert Good(s.heap, s.history, s.threads[t]);
    if actions != [] {
      var before, a := actions[..|actions| - 1], actions[|actions| - 1];
      ReportsGoForward(s, before, t);
      RunKeepsInv(s, before);
      StepKeepsInv(Run(s, before), a);
      StepGoesForward(Run(s, before), a, t);
    }
  }

  /** get_changed_inner ends with the loaded pointer cached, and reports it exactly if it is another one. */
  lemma ChangeIsReported<T>(s: State<T>, t: nat)
    requires t in s.threads && s.threads[t].pc.Loaded?
    ensures var (th, th') := (s.threads[t], Step(s, Decide(t)).threads[t]);
            && t in Step(s, Decide(t)).threads && th'.cached == th.pc.ptr && th'.started == th.started
            && th'.reports == (if th.pc.ptr != th.cached then th.reports + [th.pc.at] else th.reports)
            && th'.pc == if !th.pc.waiting then Idle else if th.pc.ptr != th.cached then Leaving else ToWait
  {
  }

  /** A clone is another receiver that has seen what the first one has, and nobody else notices. */
  lemma CloneHasSeenTheSame<T>(s: State<T>, t: nat, other: nat)
    requires t in s.threads && s.threads[t].pc.Idle? && other !in s.threads
    ensures var s' := Step(s, Clone(t, other));
            && s' == s.(threads := s'.threads) && s'.threads.Keys == s.threads.Keys + {other}
            && s'.threads[other].cached == s.threads[t].cached && s'.threads[other].seen == s.threads[t].seen
            && s'.threads[other].pc.Idle? && s'.threads[other].reports == []
            && forall u | u in s.threads :: s'.threads[u] == s.threads[u]
  {
  }

  // ------------------------------------------------------------ a parked receiver is not stuck

  /** The steps that finish an operation already begun. */
  predicate Finishes<T>(a: Action<T>) { a.Lock? || a.Load? || a.Decide? || a.Park? || a.Unlock? || a.Notify? }

  /** The next step of the thread that holds the mutex: none of them can be blocked. */
  function NextOfHolder<T>(s: State<T>, v: nat): Action<T>
    requires v in s.threads && s.threads[v].pc.HoldsLock()
  {
    match s.threads[v].pc
    case Locked => Load(v)
    case Loaded(_, _, _) => Decide(v)
    case ToWait => Park(v)
    case Notifying(_) => Notify(v)
    case _ => Unlock(v)
  }

  lemma HolderCanMove<T(!new)>(s: State<T>)
    requires Reachable(s) && s.mutex.Some?
    ensures s.mutex.value in s.threads && s.threads[s.mutex.value].pc.HoldsLock()
      && Enabled(s, NextOfHolder(s, s.mutex.value))
  {
    ReachableInv(s);
  }

  /** How many steps there are at most to the next notify_all. */
  function Distance<T>(s: State<T>): nat {
    if s.mutex.None? || s.mutex.value !in s.threads then 2
    else
      match s.threads[s.mutex.value].pc
      case Notifying(_) => 1
      case Locked => 5
      case Loaded(_, _, _) => 4
      case _ => 3
  }

  ghost predicate Outdated<T>(s: State<T>, t: nat) {
    t in s.threads && s.threads[t].pc.Parked? && s.threads[t].cached != s.inner
  }

  lemma {:induction false} RunFirst<T>(s: State<T>, a: Action<T>, actions: seq<Action<T>>)
    ensures Run(s, [a] + actions) == Run(Step(s, a), actions)
    decreases |actions|
  {
    var all := [a] + actions;
    if actions == [] {
      assert all[..0] == [] && all[0] == a;
      assert Run(s, all[..0]) == s;
    } else {
      var before := actions[..|actions| - 1];
      assert all[..|all| - 1] == [a] + before;
      RunFirst(s, a, before);
    }
  }

  /** Any step that neither stores nor notifies leaves a parked thread as it is. */
  lemma StaysOutdated<T>(s: State<T>, a: Action<T>, t: nat)
    requires Outdated(s, t) && Enabled(s, a) && Finishes(a) && a.t != t
    ensures a.Notify? ==> t in Step(s, a).threads && Step(s, a).threads[t].pc.WantLock?
    ensures !a.Notify? ==> Outdated(Step(s, a), t)
  {
    assert t in Perform(s, a).threads;
    ThreadsAfter(s, a, t);
  }

  lemma HolderComesNearer<T>(s: State<T>)
    requires MutexHeld(s) && s.mutex.Some?
    ensures var a := NextOfHolder(s, s.mutex.value);
            Finishes(a) && Enabled(s, a) && (a.Notify? || Distance(Step(s, a)) < Distance(s))
  {
    var a := NextOfHolder(s, s.mutex.value);
    assert Enabled(s, a);
    assert Step(s, a).mutex == Effect(s, a).mutex;
    ThreadsAfter(s, a, a.t);
  }

  /** One step of an operation already begun brings the wake-up of t nearer. */
  lemma NearerToWakeUp<T>(s: State<T>, t: nat) returns (a: Action<T>)
    requires MutexHeld(s) && NoneForgotten(s) && Outdated(s, t)
    ensures Finishes(a) && Enabled(s, a)
    ensures a.Notify? ==> t in Step(s, a).threads && Step(s, a).threads[t].pc.WantLock?
    ensures !a.Notify? ==> Outdated(Step(s, a), t) && Distance(Step(s, a)) < Distance(s)
  {
    if s.mutex.Some? {
      a := NextOfHolder(s, s.mutex.value);
      HolderComesNearer(s);
    } else {
      assert s.threads[t].Settling() && s.threads[t].Belief() != s.inner;
      var u :| u in s.threads && s.threads[u].pc.Pending();
      a := Lock(u);
      assert s.threads[u].pc.Stored?;
    }
    StaysOutdated(s, a, t);
  }

  /**
   From every reachable state a parked receiver that has missed a version is woken up within five
   steps by operations that have already begun: no further swap is needed.
   */
  lemma CanBeWokenUp<T>(s: State<T>, t: nat) returns (actions: seq<Action<T>>)
    requires MutexHeld(s) && NoneForgotten(s) && Outdated(s, t)
    ensures |actions| <= Distance(s) <= 5 && forall a | a in actions :: Finishes(a)
    ensures t in Run(s, actions).threads && Run(s, actions).threads[t].pc.WantLock?
    decreases Distance(s)
  {
    var a := NearerToWakeUp(s, t);
    var rest := [];
    if !a.Notify? {
      StepKeepsMutex(s, a);
      StepKeepsNoneForgotten(s, a);
      rest := CanBeWokenUp(Step(s, a), t);
    }
    actions := [a] + rest;
    RunFirst(s, a, rest);
  }

  // ------------------------------------------------------------ addresses are used again

  ghost predicate Reaches<T(!new)>(s: State<T>, s': State<T>) {
    exists actions: seq<Action<T>> :: Run(s, actions) == s'
  }

  lemma ReachesNext<T(!new)>(s: State<T>, s': State<T>, a: Action<T>)
    requires Reaches(s, s')
    ensures Reaches(s, Step(s', a))
  {
    var actions: seq<Action<T>> :| Run(s, actions) == s';
    var more := actions + [a];
    assert more[..|more| - 1] == actions && more[|more| - 1] == a;
    assert Run(s, more) == Step(s', a);
  }

  lemma StepAlone<T(!new)>(start: State<T>, s: State<T>, a: Action<T>, th: Thread)
    requires Reaches(start, s) && s.threads == map[0 := th]
    requires !a.Free? && !a.Clone? && !a.Drop? && a.t == 0 && Enabled(s, a)
    ensures Step(s, a) == Effect(s, a).(threads := map[0 := Moved(s, a)])
    ensures Reaches(start, Step(s, a))
  {
    ReachesNext(start, s, a);
  }

  /** The only thread swaps; its cached pointer keeps what it replaces alive. */
  lemma SwapAlone<T(!new)>(start: State<T>, s: State<T>, th: Thread, value: T, addr: nat) returns (s': State<T>)
    requires Reaches(start, s) && s.mutex.None? && s.threads == map[0 := th] && th.pc.Idle? && addr !in s.heap
    ensures Reaches(start, s') && s'.mutex.None? && s'.threads == map[0 := th] && s'.inner == At(addr)
    ensures s'.heap == s.heap[addr := Object(s.nextId, value)] && s'.nextId == s.nextId + 1
    ensures s'.history == s.history + [Version(At(addr), Some(Object(s.nextId, value)))]
  {
    s' := Step(s, Make(0, Some(value), addr));
    StepAlone(start, s, Make(0, Some(value), addr), th);
    var stored := Step(s', Store(0));
    StepAlone(start, s', Store(0), th.(pc := Prepared(At(addr))));
    s' := NotifyAlone(start, stored, th.(pc := Stored(s.inner)));
  }

  lemma NotifyAlone<T(!new)>(start: State<T>, s: State<T>, th: Thread) returns (s': State<T>)
    requires Reaches(start, s) && s.mutex.None? && s.threads == map[0 := th] && th.pc.Stored?
    ensures Reaches(start, s') && s' == s.(threads := map[0 := th.(pc := Idle)])
  {
    s' := s;
    var prev := th.pc.prev;
    StepAlone(start, s', Lock(0), th);
    s' := Step(s', Lock(0));
    StepAlone(start, s', Notify(0), th.(pc := Notifying(prev)));
    s' := Step(s', Notify(0));
    StepAlone(start, s', Unlock(0), th.(pc := Notified(prev)));
    s' := Step(s', Unlock(0));
    StepAlone(start, s', Forget(0), th.(pc := Returned(prev)));
    s' := Step(s', Forget(0));
  }

  /** The only thread sees the new version, so the one before it can be freed. */
  lemma SeeAlone<T(!new)>(start: State<T>, s: State<T>, th: Thread, addr: nat) returns (s': State<T>)
    requires Reaches(start, s) && s.threads == map[0 := th] && th.pc.Idle? && s.inner != th.cached
      && s.inner != At(addr) && addr in s.heap
    ensures Reaches(start, s') && s'.mutex == s.mutex && s'.heap == s.heap - {addr} && s'.nextId == s.nextId
      && s'.history == s.history
    ensures 0 in s'.threads && s'.threads == map[0 := s'.threads[0]] && s'.threads[0].pc.Idle?
  {
    StepAlone(start, s, Load(0), th);
    s' := Step(s, Load(0));
    StepAlone(start, s', Decide(0), Moved(s, Load(0)));
    s' := Step(s', Decide(0));
    ReachesNext(start, s', Free(addr));
    s' := Step(s', Free(addr));
  }

  /** There are runs in which a third version lies at the address of the first, which has been freed. */
  lemma AddressesAreReused<T(!new)>(v1: T, v2: T, v3: T, addr: nat) returns (s: State<T>)
    ensures Reaches(Start(Some(v1), addr), s) && |s.history| == 3
    ensures s.history[0] == Version(At(addr), Some(Object(0, v1)))
      && s.history[2] == Version(At(addr), Some(Object(2, v3)))
  {
    var start := Start(Some(v1), addr);
    assert Run(start, []) == start;
    var s1 := SwapAlone(start, start, start.threads[0], v2, addr + 1);
    var s2 := SeeAlone(start, s1, start.threads[0], addr);
    s := SwapAlone(start, s2, s2.threads[0], v3, addr);
  }
}

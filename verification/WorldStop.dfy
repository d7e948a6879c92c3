/**
 Stopping and restarting the world, as a step machine: one collecting thread, any number of other
 threads, the pause handler that a signal makes them run, the two kernel mutexes, the mutex and
 condition variable of the world restart, and the counters of paused and resumed threads.
 Other threads may take and give back the two kernel mutexes and register and unregister
 themselves at any time.
 */
module WorldStop {
  import opened Heap

  type Tid = nat

  /** Where a thread stands in the pause handler. */
  datatype Stage =
    | Entered      // about to add itself to the paused counter
    | Counted      // waiting until the allocators are available
    | AtLock       // about to take the restart mutex
    | Testing      // holds it, about to look at the finished flag
    | Decided      // holds it, has seen the flag unset, about to sleep
    | Asleep
    | Woken        // about to take the restart mutex again
    | Leaving      // holds it, has seen the flag set, about to add itself to the resumed counter
    | Unlocking    // holds it, has done so
  {
    predicate HoldsRestart() {
      Testing? || Decided? || Leaving? || Unlocking?
    }

    /** Counted as paused and not yet as resumed. */
    predicate Parked() {
      !Entered? && !Unlocking?
    }

    /** Has not seen the finished flag set. */
    predicate Held() {
      !Leaving? && !Unlocking?
    }
  }

  /** Where the collecting thread stands in force_collect: each names what it is about to do. */
  datatype Phase =
    | Preparing              // wait for the last finalization; then take all locks
    | Guard                  // see whether all have resumed from the last collection
    | Backoff                // take the restart mutex again
    | ClearFinished
    | ZeroPaused
    | ZeroResumed
    | LockAllocators
    | Signalling(todo: set<Tid>)
    | Spinning               // until the paused counter is the number of other threads
    | LockKernel
    | UnlockThreads
    | UnlockAllocators
    | Collecting             // clear, mark and sweep; then count the collection
    | LockThreads
    | LockRestart
    | SetFinished
    | NotifyAll
    | UnlockRestart
    | ClearCollect
  {
    predicate HoldsKernel() {
      !Preparing? && !Spinning? && !LockKernel?
    }

    predicate HoldsThreads() {
      !Preparing? && !UnlockAllocators? && !Collecting? && !LockThreads?
    }

    predicate HoldsRestart() {
      Guard? || SetFinished? || NotifyAll? || UnlockRestart?
    }

    predicate Suspending() {
      Signalling? || Spinning?
    }

    /** After the pause spin and before the finished flag is set. */
    predicate Stopped() {
      LockKernel? || UnlockThreads? || UnlockAllocators? || Collecting? || LockThreads? || LockRestart? || SetFinished?
    }

    /** After the wait for the last collection's threads and before the first signal. */
    predicate Resetting() {
      ClearFinished? || ZeroPaused? || ZeroResumed? || LockAllocators?
    }

    predicate Unfinished() {
      ZeroPaused? || ZeroResumed? || LockAllocators? || Suspending() || Stopped()
    }

    /** The running collection is not counted yet. */
    predicate Uncounted() {
      Unfinished() && !LockThreads? && !LockRestart? && !SetFinished?
    }
  }

  datatype Collector = Nobody | By(t: Tid, at: Phase)

  /** `kernel`, `threadList`, `restart` and `allocators` are the owners of m_mutex, m_thread_mutex,
      m_start_world_condition_mutex and m_allocators_unavailable_mutex.  `cycleThreads` and
      `previousThreads`, the threads registered at the last reset of the counters and at the one
      before, and `everReset` are history. */
  datatype State = State(
    c: Collector,
    threads: set<Tid>,
    signalled: set<Tid>,
    handlers: map<Tid, Stage>,
    collect: bool,
    finished: bool,
    paused: int,
    resumed: int,
    collections: nat,
    kernel: Option<Tid>,
    threadList: Option<Tid>,
    restart: Option<Tid>,
    allocators: Option<Tid>,
    cycleThreads: set<Tid>,
    previousThreads: set<Tid>,
    everReset: bool)

  datatype Action =
    // steps of a thread that is not in the pause handler
    | TakeKernel(t: Tid)
    | DropKernel(t: Tid)
    | TakeThreads(t: Tid)
    | DropThreads(t: Tid)
    | Register(t: Tid)
    | Unregister(t: Tid)
    | Mutate(t: Tid)           // anything that concerns none of this, such as using objects
    | Begin(t: Tid)            // win the exchange on the collect flag
    // steps of the collecting thread
    | Signal(u: Tid)
    | Collect
    // steps into and in the pause handler
    | Pause(u: Tid)
    | Handle(u: Tid)
    | Spurious(u: Tid)         // wake up without having been notified

  /** Before the first collection.  The counters are not initialized. */
  ghost predicate Initial(s: State) {
    && s.c == Nobody && !s.collect && s.finished && s.collections == 0
    && s.signalled == {} && s.handlers == map[]
    && s.kernel == s.threadList == s.restart == s.allocators == None
    && !s.everReset
  }

  /** Not stopped in the handler, and not in the middle of force_collect. */
  predicate Free(s: State, t: Tid) {
    t !in s.handlers && (s.c.By? && s.c.t == t ==> s.c.at.Preparing?)
  }

  /** wait_for_collection2 has returned to thread `t`. */
  predicate MayEditThreads(s: State, t: Tid) {
    s.kernel == Some(t) && s.threadList == Some(t) && !(!s.finished && s.collect)
  }

  /** The thread that takes the step, if it is a step of an ordinary thread. */
  function Mutator(a: Action): Option<Tid> {
    if a.Signal? || a.Collect? || a.Pause? || a.Handle? || a.Spurious? then None else Some(a.t)
  }

  predicate CollectorEnabled(s: State)
    requires s.c.By?
  {
    match s.c.at
    case Preparing => s.kernel == None && s.threadList == None && s.restart == None
    case Backoff => s.restart == None
    case LockAllocators => s.allocators == None
    case Signalling(todo) => todo == {}
    case Spinning => s.paused == |s.threads| - 1
    case LockKernel => s.kernel == None
    case LockThreads => s.threadList == None
    case LockRestart => s.restart == None
    case _ => true
  }

  predicate HandlerEnabled(s: State, u: Tid)
    requires u in s.handlers
  {
    match s.handlers[u]
    case Counted => s.allocators == None
    case AtLock => s.restart == None
    case Asleep => false
    case Woken => s.restart == None
    case _ => true
  }

  predicate Enabled(s: State, a: Action) {
    match a
    case TakeKernel(t) => Free(s, t) && s.kernel == None
    case DropKernel(t) => Free(s, t) && s.kernel == Some(t)
    case TakeThreads(t) => Free(s, t) && s.threadList == None
    case DropThreads(t) => Free(s, t) && s.threadList == Some(t)
    case Register(t) => Free(s, t) && t !in s.threads && MayEditThreads(s, t)
    case Unregister(t) => Free(s, t) && t in s.threads && !(s.c.By? && s.c.t == t) && MayEditThreads(s, t)
    case Mutate(t) => Free(s, t)
    case Begin(t) => Free(s, t) && t in s.threads && !s.collect
    case Signal(u) => s.c.By? && s.c.at.Signalling? && u in s.c.at.todo
    case Collect => s.c.By? && CollectorEnabled(s)
    case Pause(u) => u in s.signalled
    case Handle(u) => u in s.handlers && HandlerEnabled(s, u)
    case Spurious(u) => u in s.handlers && s.handlers[u].Asleep?
  }

  function NextPhase(at: Phase, others: set<Tid>, allResumed: bool): Phase {
    match at
    case Preparing => Guard
    case Guard => if allResumed then ClearFinished else Backoff
    case Backoff => Guard
    case ClearFinished => ZeroPaused
    case ZeroPaused => ZeroResumed
    case ZeroResumed => LockAllocators
    case LockAllocators => Signalling(others)
    case Signalling(_) => Spinning
    case Spinning => LockKernel
    case LockKernel => UnlockThreads
    case UnlockThreads => UnlockAllocators
    case UnlockAllocators => Collecting
    case Collecting => LockThreads
    case LockThreads => LockRestart
    case LockRestart => SetFinished
    case SetFinished => NotifyAll
    case NotifyAll => UnlockRestart
    case UnlockRestart => ClearCollect
    case ClearCollect => ClearCollect
  }

  /** A step of the collecting thread.  With the collect flag unset it is an ordinary thread again,
      which still holds the two kernel mutexes. */
  function CollectorStep(s: State): State
    requires s.c.By?
  {
    var t, at := s.c.t, s.c.at;
    State(
      if at.ClearCollect? then Nobody
      else By(t, NextPhase(at, s.threads - {t}, s.collections == 0 || s.paused == s.resumed)),
      s.threads,
      s.signalled,
      if at.NotifyAll? then WakeAll(s.handlers) else s.handlers,
      s.collect && !at.ClearCollect?,
      if at.ClearFinished? then false else s.finished || at.SetFinished?,
      if at.ZeroPaused? then 0 else s.paused,
      if at.ZeroResumed? then 0 else s.resumed,
      if at.Collecting? then s.collections + 1 else s.collections,
      if at.Preparing? || at.LockKernel? then Some(t) else if at.Signalling? then None else s.kernel,
      if at.Preparing? || at.LockThreads? then Some(t) else if at.UnlockThreads? then None else s.threadList,
      if at.Preparing? || at.Backoff? || at.LockRestart? then Some(t)
      else if at.Guard? || at.UnlockRestart? then None else s.restart,
      if at.LockAllocators? then Some(t) else if at.UnlockAllocators? then None else s.allocators,
      if at.ZeroPaused? then s.threads else s.cycleThreads,
      if at.ZeroPaused? then s.cycleThreads else s.previousThreads,
      s.everReset || at.ZeroResumed?)
  }

  function WakeAll(handlers: map<Tid, Stage>): map<Tid, Stage> {
    map u | u in handlers :: if handlers[u].Asleep? then Woken else handlers[u]
  }

  function HandlerStep(s: State, u: Tid): State
    requires u in s.handlers
  {
    match s.handlers[u]
    case Entered => s.(handlers := s.handlers[u := Counted], paused := s.paused + 1)
    case Counted => s.(handlers := s.handlers[u := AtLock])
    case AtLock => s.(handlers := s.handlers[u := Testing], restart := Some(u))
    case Testing => s.(handlers := s.handlers[u := if s.finished then Leaving else Decided])
    case Decided => s.(handlers := s.handlers[u := Asleep], restart := None)
    case Asleep => s
    case Woken => s.(handlers := s.handlers[u := Testing], restart := Some(u))
    case Leaving => s.(handlers := s.handlers[u := Unlocking], resumed := s.resumed + 1)
    case Unlocking => s.(handlers := s.handlers - {u}, restart := None)
  }

  function Apply(s: State, a: Action): State
    requires Enabled(s, a)
  {
    match a
    case TakeKernel(t) => s.(kernel := Some(t))
    case DropKernel(t) => s.(kernel := None)
    case TakeThreads(t) => s.(threadList := Some(t))
    case DropThreads(t) => s.(threadList := None)
    case Register(t) => s.(threads := s.threads + {t})
    case Unregister(t) => s.(threads := s.threads - {t})
    case Mutate(t) => s
    case Begin(t) => s.(c := By(t, Preparing), collect := true)
    case Signal(u) => s.(c := By(s.c.t, Signalling(s.c.at.todo - {u})), signalled := s.signalled + {u})
    case Collect => CollectorStep(s)
    case Pause(u) => s.(signalled := s.signalled - {u}, handlers := s.handlers[u := Entered])
    case Handle(u) => HandlerStep(s, u)
    case Spurious(u) => s.(handlers := s.handlers[u := Woken])
  }

  ghost predicate Step(s: State, s': State) {
    exists a :: Enabled(s, a) && s' == Apply(s, a)
  }

  ghost predicate IsRun(run: seq<State>) {
    && |run| > 0 && Initial(run[0])
    && forall k | 0 < k < |run| :: Step(run[k-1], run[k])
  }

  // The invariant.

  function ParkedThreads(handlers: map<Tid, Stage>): set<Tid> {
    set u | u in handlers && handlers[u].Parked()
  }

  /** What the collecting thread holds. */
  predicate CollectorLocks(c: Collector, kernel: Option<Tid>, threadList: Option<Tid>, restart: Option<Tid>) {
    c.By? ==>
      && (c.at.HoldsKernel() ==> kernel == Some(c.t))
      && (c.at.HoldsThreads() ==> threadList == Some(c.t))
      && (c.at.HoldsRestart() <==> restart == Some(c.t))
  }

  /** What those in the handler hold. */
  predicate HandlerLocks(handlers: map<Tid, Stage>, restart: Option<Tid>) {
    forall u | u in handlers :: handlers[u].HoldsRestart() <==> restart == Some(u)
  }

  /** Nobody else holds the restart mutex. */
  predicate RestartOwned(c: Collector, handlers: map<Tid, Stage>, restart: Option<Tid>) {
    restart.Some? ==> (c.By? && restart.value == c.t) || restart.value in handlers
  }

  predicate Flags(c: Collector, collect: bool, finished: bool) {
    && collect == c.By?
    && finished == !(c.By? && c.at.Unfinished())
  }

  predicate Roles(c: Collector, threads: set<Tid>, signalled: set<Tid>, handlers: map<Tid, Stage>) {
    && (forall u | u in handlers :: u in threads)
    && (forall u | u in signalled :: u in threads && u !in handlers)
    && (c.By? ==> c.t in threads && c.t !in handlers && c.t !in signalled)
  }

  function Todo(c: Collector): set<Tid> {
    if c.By? && c.at.Signalling? then c.at.todo else {}
  }

  /** Every thread but `t` is yet to be signalled, signalled, or in the handler. */
  predicate BeingStopped(t: Tid, todo: set<Tid>, threads: set<Tid>, signalled: set<Tid>, handlers: map<Tid, Stage>) {
    && (forall u | u in threads :: u == t || u in todo || u in signalled || u in handlers)
    && (forall u | u in todo :: u in threads && u != t && u !in signalled && u !in handlers)
  }

  /** Every thread but `t` is in the handler. */
  predicate AllIn(t: Tid, threads: set<Tid>, handlers: map<Tid, Stage>) {
    forall u | u in threads :: u == t || u in handlers
  }

  /** None has seen the finished flag set. */
  predicate AllHeld(handlers: map<Tid, Stage>) {
    forall u | u in handlers :: handlers[u].Held()
  }

  predicate NoneEntered(handlers: map<Tid, Stage>) {
    forall u | u in handlers :: !handlers[u].Entered?
  }

  /** Signals are on their way only while the collecting thread suspends the others. */
  predicate Windows(c: Collector, threads: set<Tid>, signalled: set<Tid>, handlers: map<Tid, Stage>) {
    if c.By? && c.at.Suspending() then
      BeingStopped(c.t, Todo(c), threads, signalled, handlers) && AllHeld(handlers)
    else
      && signalled == {}
      && NoneEntered(handlers)
      && (c.By? && c.at.Resetting() ==> handlers == map[])
      && (c.By? && c.at.Stopped() ==> AllHeld(handlers) && AllIn(c.t, threads, handlers))
  }

  /** The threads of the cycle are the registered ones from the reset to the end of the stop. */
  predicate SameThreads(c: Collector) {
    c.By? && c.at.Unfinished() && !c.at.ZeroPaused?
  }

  /** The counters, where `parked` threads are parked, and `cycle` were registered at the last reset
      and `previous` at the one before. */
  predicate Counts(c: Collector, parked: nat, paused: int, resumed: int, collections: nat, cycle: nat, previous: nat,
                   everReset: bool)
  {
    && (c.By? && (c.at.ZeroResumed? || c.at.LockAllocators?) ==> paused == 0)
    && if everReset then
         && (if c.By? && c.at.ZeroResumed? then resumed == previous - 1 else paused == resumed + parked)
         && (c.By? && c.at.Unfinished() && !c.at.ZeroPaused? && !c.at.ZeroResumed? ==> resumed == 0)
         && ((c.By? && (c.at.ZeroResumed? || c.at.LockAllocators? || c.at.Suspending())) || paused == cycle - 1)
         && (collections == 0 ==> c.By? && c.at.Uncounted())
       else
         && collections == 0
         && (c.By? ==> c.at.Preparing? || c.at.Guard? || (c.at.Resetting() && !c.at.LockAllocators?))
  }

  ghost predicate Invariant(s: State) {
    && CollectorLocks(s.c, s.kernel, s.threadList, s.restart)
    && HandlerLocks(s.handlers, s.restart)
    && RestartOwned(s.c, s.handlers, s.restart)
    && Flags(s.c, s.collect, s.finished)
    && Roles(s.c, s.threads, s.signalled, s.handlers)
    && Windows(s.c, s.threads, s.signalled, s.handlers)
    && Counts(s.c, |ParkedThreads(s.handlers)|, s.paused, s.resumed, s.collections, |s.cycleThreads|,
              |s.previousThreads|, s.everReset)
    && (SameThreads(s.c) ==> s.cycleThreads == s.threads)
    && (!s.everReset ==> s.handlers == map[])
  }

  lemma ParkedSame(h: map<Tid, Stage>, u: Tid, stage: Stage)
    requires u in h && h[u].Parked() == stage.Parked()
    ensures ParkedThreads(h[u := stage]) == ParkedThreads(h)
  {
  }

  lemma ParkedMore(h: map<Tid, Stage>, u: Tid)
    requires u in h && h[u].Entered?
    ensures |ParkedThreads(h[u := Counted])| == |ParkedThreads(h)| + 1
  {
    assert ParkedThreads(h[u := Counted]) == ParkedThreads(h) + {u};
  }

  lemma ParkedLess(h: map<Tid, Stage>, u: Tid)
    requires u in h && h[u].Leaving?
    ensures |ParkedThreads(h[u := Unlocking])| == |ParkedThreads(h)| - 1
  {
    assert ParkedThreads(h) == ParkedThreads(h[u := Unlocking]) + {u};
  }

  lemma ParkedAfterUnlocking(h: map<Tid, Stage>, u: Tid)
    requires u in h && h[u].Unlocking?
    ensures ParkedThreads(h - {u}) == ParkedThreads(h)
  {
  }

  lemma ParkedAfterEntering(h: map<Tid, Stage>, u: Tid)
    requires u !in h
    ensures ParkedThreads(h[u := Entered]) == ParkedThreads(h)
  {
  }

  lemma ParkedAfterWakeAll(h: map<Tid, Stage>)
    ensures ParkedThreads(WakeAll(h)) == ParkedThreads(h)
  {
  }

  lemma NoneParked()
    ensures ParkedThreads(map[]) == {} && AllHeld(map[]) && NoneEntered(map[])
  {
  }

  /** A thread that is not in the handler takes a step. */
  lemma MutatorKeeps(s: State, a: Action)
    requires Invariant(s) && Enabled(s, a) && Mutator(a).Some?
    ensures Invariant(Apply(s, a))
  {
    hide ParkedThreads, AllHeld, NoneEntered, HandlerLocks;
    var s' := Apply(s, a);
    assert s'.handlers == s.handlers && s'.signalled == s.signalled;
  }

  lemma PauseKeeps(s: State, u: Tid)
    requires Invariant(s) && Enabled(s, Pause(u))
    ensures Invariant(Apply(s, Pause(u)))
  {
    hide ParkedThreads, Flags, SameThreads;
    ParkedAfterEntering(s.handlers, u);
  }

  lemma SpuriousKeeps(s: State, u: Tid)
    requires Invariant(s) && Enabled(s, Spurious(u))
    ensures Invariant(Apply(s, Spurious(u)))
  {
    hide ParkedThreads, Counts, Flags, SameThreads, CollectorLocks;
    ParkedSame(s.handlers, u, Woken);
  }

  lemma SignalKeeps(s: State, u: Tid)
    requires Invariant(s) && Enabled(s, Signal(u))
    ensures Invariant(Apply(s, Signal(u)))
  {
    hide ParkedThreads, AllHeld, HandlerLocks;
  }

  // Steps in the pause handler.

  lemma LocksAfterMove(h: map<Tid, Stage>, h': map<Tid, Stage>, u: Tid, restart: Option<Tid>, restart': Option<Tid>)
    requires HandlerLocks(h, restart)
    requires forall v | v in h' && v != u :: v in h && h'[v] == h[v]
    requires restart' == restart || (restart == None && restart' == Some(u)) || (restart == Some(u) && restart' == None)
    requires u in h' ==> (h'[u].HoldsRestart() <==> restart' == Some(u))
    ensures HandlerLocks(h', restart')
  {
  }

  lemma HandlerKeepsLocks(s: State, u: Tid)
    requires HandlerLocks(s.handlers, s.restart) && Enabled(s, Handle(u))
    ensures var s' := HandlerStep(s, u); HandlerLocks(s'.handlers, s'.restart)
  {
    assert s.handlers[u].HoldsRestart() <==> s.restart == Some(u);
    Moved(s, u);
  }

  lemma Moved(s: State, u: Tid)
    requires HandlerLocks(s.handlers, s.restart) && Enabled(s, Handle(u))
    requires s.handlers[u].HoldsRestart() <==> s.restart == Some(u)
    ensures var s' := HandlerStep(s, u); HandlerLocks(s'.handlers, s'.restart)
  {
    hide HandlerLocks;
    var s' := HandlerStep(s, u);
    LocksAfterMove(s.handlers, s'.handlers, u, s.restart, s'.restart);
  }

  lemma HandlerKeepsOwned(s: State, u: Tid)
    requires RestartOwned(s.c, s.handlers, s.restart) && Enabled(s, Handle(u))
    requires HandlerLocks(s.handlers, s.restart)
    ensures var s' := HandlerStep(s, u); RestartOwned(s'.c, s'.handlers, s'.restart)
  {
    assert s.handlers[u].HoldsRestart() <==> s.restart == Some(u);
    hide HandlerLocks;
  }

  lemma HandlerKeepsOthers(s: State, u: Tid)
    requires CollectorLocks(s.c, s.kernel, s.threadList, s.restart) && HandlerLocks(s.handlers, s.restart)
    requires Roles(s.c, s.threads, s.signalled, s.handlers) && Enabled(s, Handle(u))
    ensures var s' := HandlerStep(s, u);
      CollectorLocks(s'.c, s'.kernel, s'.threadList, s'.restart) && Roles(s'.c, s'.threads, s'.signalled, s'.handlers)
  {
    assert s.handlers[u].HoldsRestart() <==> s.restart == Some(u);
    hide HandlerLocks;
  }

  lemma HeldAfterStep(s: State, u: Tid)
    requires Enabled(s, Handle(u))
    ensures var s' := HandlerStep(s, u);
      && (NoneEntered(s.handlers) ==> NoneEntered(s'.handlers))
      && (AllHeld(s.handlers) && !s.finished ==>
            AllHeld(s'.handlers) && forall v :: v in s'.handlers <==> v in s.handlers)
      && (s.handlers == map[] ==> s'.handlers == map[])
  {
  }

  lemma HandlerKeepsWindows(s: State, u: Tid)
    requires Flags(s.c, s.collect, s.finished) && Windows(s.c, s.threads, s.signalled, s.handlers)
    requires Enabled(s, Handle(u))
    ensures var s' := HandlerStep(s, u);
      Windows(s.c, s.threads, s.signalled, s'.handlers)
  {
    hide AllHeld, NoneEntered, HandlerStep;
    HeldAfterStep(s, u);
  }

  lemma ParkedAfterStep(s: State, u: Tid)
    requires Enabled(s, Handle(u))
    ensures var s' := HandlerStep(s, u);
      s'.paused - s'.resumed - |ParkedThreads(s'.handlers)| == s.paused - s.resumed - |ParkedThreads(s.handlers)|
  {
    match s.handlers[u]
    case Entered => ParkedMore(s.handlers, u);
    case Leaving => ParkedLess(s.handlers, u);
    case Unlocking => ParkedAfterUnlocking(s.handlers, u);
    case stage => ParkedSame(s.handlers, u, HandlerStep(s, u).handlers[u]);
  }

  lemma HandlerKeepsCounts(s: State, u: Tid)
    requires Flags(s.c, s.collect, s.finished) && Enabled(s, Handle(u)) && (!s.everReset ==> s.handlers == map[])
    requires Windows(s.c, s.threads, s.signalled, s.handlers)
    requires Counts(s.c, |ParkedThreads(s.handlers)|, s.paused, s.resumed, s.collections, |s.cycleThreads|,
                    |s.previousThreads|, s.everReset)
    ensures var s' := HandlerStep(s, u);
      Counts(s.c, |ParkedThreads(s'.handlers)|, s'.paused, s'.resumed, s.collections, |s.cycleThreads|,
             |s.previousThreads|, s.everReset)
  {
    hide ParkedThreads;
    ParkedAfterStep(s, u);
    assert s.handlers[u].Leaving? ==> !(s.c.By? && s.c.at.Unfinished());
    assert s.handlers[u].Entered? ==> s.c.By? && s.c.at.Suspending();
  }

  /** A step in the handler changes nothing but these fields. */
  lemma HandlerChanges(s: State, u: Tid)
    requires Enabled(s, Handle(u))
    ensures var s' := HandlerStep(s, u);
      s' == s.(handlers := s'.handlers, restart := s'.restart, paused := s'.paused, resumed := s'.resumed)
  {
  }

  lemma HandlerKeeps(s: State, u: Tid)
    requires Invariant(s) && Enabled(s, Handle(u))
    ensures Invariant(HandlerStep(s, u))
  {
    hide HandlerStep, HandlerEnabled, ParkedThreads, CollectorLocks, HandlerLocks, RestartOwned, Flags, Roles, Windows,
      Counts, SameThreads, AllHeld, NoneEntered;
    HandlerChanges(s, u);
    HandlerKeepsLocks(s, u);
    HandlerKeepsOwned(s, u);
    HandlerKeepsOthers(s, u);
    HandlerKeepsWindows(s, u);
    HandlerKeepsCounts(s, u);
  }

  // Steps of the collecting thread.

  lemma RestartTaken(h: map<Tid, Stage>, restart: Option<Tid>, t: Tid)
    requires HandlerLocks(h, restart) && t !in h && (restart == None || restart == Some(t))
    ensures HandlerLocks(h, None) && HandlerLocks(h, Some(t)) && HandlerLocks(WakeAll(h), restart)
  {
  }

  lemma CollectorKeepsLocks(s: State)
    requires Invariant(s) && Enabled(s, Collect)
    ensures var s' := CollectorStep(s);
      && CollectorLocks(s'.c, s'.kernel, s'.threadList, s'.restart)
      && HandlerLocks(s'.handlers, s'.restart)
      && RestartOwned(s'.c, s'.handlers, s'.restart)
  {
    hide Windows, Counts, ParkedThreads, SameThreads, Flags, WakeAll, HandlerLocks, Roles;
    CollectorIsFree(s);
    if s.restart == None || s.restart == Some(s.c.t) {
      RestartTaken(s.handlers, s.restart, s.c.t);
    }
    assert WakeAll(s.handlers).Keys == s.handlers.Keys by { WakeAllKeys(s.handlers); }
  }

  lemma WakeAllKeys(h: map<Tid, Stage>)
    ensures WakeAll(h).Keys == h.Keys
    ensures NoneEntered(h) ==> NoneEntered(WakeAll(h))
  {
  }

  lemma CollectorIsFree(s: State)
    requires Invariant(s) && s.c.By?
    ensures s.c.t in s.threads && s.c.t !in s.handlers && s.c.t !in s.signalled
  {
  }

  lemma CollectorKeepsRoles(s: State)
    requires Invariant(s) && Enabled(s, Collect)
    ensures var s' := CollectorStep(s);
      Roles(s'.c, s'.threads, s'.signalled, s'.handlers) && Flags(s'.c, s'.collect, s'.finished)
  {
    hide CollectorLocks, HandlerLocks, RestartOwned, Windows, Counts, ParkedThreads, SameThreads, WakeAll;
    WakeAllKeys(s.handlers);
  }

  /** Once all that were paused have resumed, nobody is in the handler. */
  lemma GuardPassed(s: State)
    requires Invariant(s) && s.c.By? && s.c.at.Guard? && (s.collections == 0 || s.paused == s.resumed)
    ensures s.handlers == map[]
  {
    if s.everReset {
      assert ParkedThreads(s.handlers) == {};
      assert forall u | u in s.handlers :: u in ParkedThreads(s.handlers);
    }
  }

  lemma SubsetOfSameSize(a: set<Tid>, b: set<Tid>)
    requires a <= b && |a| == |b|
    ensures a == b
  {
    assert b == a + (b - a);
  }

  /** When the pause spin ends, every other thread is parked. */
  lemma SpinEnded(s: State)
    requires Invariant(s) && s.c.By? && s.c.at.Spinning? && s.paused == |s.threads| - 1
    ensures ParkedThreads(s.handlers) == s.threads - {s.c.t} && s.signalled == {}
    ensures AllIn(s.c.t, s.threads, s.handlers) && NoneEntered(s.handlers)
  {
    SubsetOfSameSize(ParkedThreads(s.handlers), s.threads - {s.c.t});
    assert forall u | u in s.threads - {s.c.t} :: u in ParkedThreads(s.handlers);
    assert forall u | u in s.handlers :: u in s.threads - {s.c.t};
    assert forall u | u in s.signalled :: u in s.threads - {s.c.t};
  }

  lemma SignallingStarts(t: Tid, threads: set<Tid>)
    requires t in threads
    ensures BeingStopped(t, threads - {t}, threads, {}, map[])
  {
  }

  lemma SignallingKeepsWindows(s: State)
    requires Invariant(s) && Enabled(s, Collect)
    requires s.c.at.LockAllocators? || s.c.at.Signalling?
    ensures var s' := CollectorStep(s);
      Windows(s'.c, s'.threads, s'.signalled, s'.handlers)
  {
    hide ParkedThreads, CollectorLocks, HandlerLocks, RestartOwned, Counts, Flags, SameThreads, AllHeld, NoneEntered,
         AllIn, BeingStopped, WakeAll, Roles;
    if s.c.at.LockAllocators? {
      CollectorIsFree(s);
      SignallingStarts(s.c.t, s.threads);
      NoneParked();
    }
  }

  lemma SpinningKeepsWindows(s: State)
    requires Invariant(s) && Enabled(s, Collect) && s.c.at.Spinning?
    ensures var s' := CollectorStep(s);
      Windows(s'.c, s'.threads, s'.signalled, s'.handlers)
  {
    hide ParkedThreads, CollectorLocks, HandlerLocks, RestartOwned, Counts, Flags, SameThreads, AllHeld, NoneEntered,
         AllIn, BeingStopped, WakeAll, Roles;
    SpinEnded(s);
  }

  lemma SuspensionKeepsWindows(s: State)
    requires Invariant(s) && Enabled(s, Collect)
    requires s.c.at.LockAllocators? || s.c.at.Suspending()
    ensures var s' := CollectorStep(s);
      Windows(s'.c, s'.threads, s'.signalled, s'.handlers)
  {
    hide Invariant, Windows, CollectorStep;
    if s.c.at.Spinning? {
      SpinningKeepsWindows(s);
    } else {
      SignallingKeepsWindows(s);
    }
  }

  lemma CollectorKeepsWindows(s: State)
    requires Invariant(s) && Enabled(s, Collect)
    ensures var s' := CollectorStep(s);
      Windows(s'.c, s'.threads, s'.signalled, s'.handlers)
  {
    hide ParkedThreads, CollectorLocks, HandlerLocks, RestartOwned, Counts, Flags, SameThreads, AllHeld, NoneEntered,
         AllIn, BeingStopped, WakeAll, Roles;
    if s.c.at.LockAllocators? || s.c.at.Suspending() {
      SuspensionKeepsWindows(s);
    } else if s.c.at.Guard? && (s.collections == 0 || s.paused == s.resumed) {
      GuardPassed(s);
    } else if s.c.at.NotifyAll? {
      WakeAllKeys(s.handlers);
    }
  }

  lemma CollectorKeepsCounts(s: State)
    requires Invariant(s) && Enabled(s, Collect)
    ensures var s' := CollectorStep(s);
      && Counts(s'.c, |ParkedThreads(s'.handlers)|, s'.paused, s'.resumed, s'.collections, |s'.cycleThreads|,
                |s'.previousThreads|, s'.everReset)
      && (SameThreads(s'.c) ==> s'.cycleThreads == s'.threads)
      && (!s'.everReset ==> s'.handlers == map[])
  {
    hide ParkedThreads, CollectorLocks, HandlerLocks, RestartOwned, Flags, AllHeld, NoneEntered,
         AllIn, BeingStopped, WakeAll, Roles;
    ParkedAfterWakeAll(s.handlers);
    NoneParked();
  }

  lemma CollectKeeps(s: State)
    requires Invariant(s) && Enabled(s, Collect)
    ensures Invariant(CollectorStep(s))
  {
    hide ParkedThreads, CollectorLocks, HandlerLocks, RestartOwned, Flags, Windows, Roles, Counts, CollectorStep,
      SameThreads;
    CollectorKeepsLocks(s);
    CollectorKeepsRoles(s);
    CollectorKeepsWindows(s);
    CollectorKeepsCounts(s);
  }

  lemma StepKeepsInvariant(s: State, s': State)
    requires Invariant(s) && Step(s, s')
    ensures Invariant(s')
  {
    hide Invariant, CollectorStep, HandlerStep, CollectorEnabled, HandlerEnabled;
    var a :| Enabled(s, a) && s' == Apply(s, a);
    match a
    case Signal(u) => SignalKeeps(s, u);
    case Collect => CollectKeeps(s);
    case Pause(u) => PauseKeeps(s, u);
    case Handle(u) => HandlerKeeps(s, u);
    case Spurious(u) => SpuriousKeeps(s, u);
    case _ => MutatorKeeps(s, a);
  }

  lemma InitialInvariant(s: State)
    requires Initial(s)
    ensures Invariant(s)
  {
    NoneParked();
  }

  lemma {:induction false} RunInvariant(run: seq<State>)
    requires IsRun(run)
    ensures Invariant(run[|run|-1])
  {
    hide Invariant, Step, Initial;
    if |run| == 1 {
      InitialInvariant(run[0]);
    } else {
      var before := run[..|run|-1];
      assert IsRun(before);
      RunInvariant(before);
      StepKeepsInvariant(run[|run|-2], run[|run|-1]);
    }
  }

  // The properties of every run.

  /** Stop the world: from the end of the pause spin until the finished flag is set, every registered
      thread but the collecting one is parked in the handler, the paused counter is the number of
      these, and none of them can take a step of its own. */
  lemma StopTheWorld(run: seq<State>, u: Tid, a: Action)
    requires IsRun(run)
    requires var s := run[|run|-1]; s.c.By? && s.c.at.Stopped() && u in s.threads && u != s.c.t
    ensures var s := run[|run|-1];
      && u in s.handlers && s.handlers[u].Parked() && s.handlers[u].Held()
      && s.paused == |s.threads| - 1 && s.resumed == 0 && s.signalled == {}
      && (Mutator(a) == Some(u) ==> !Enabled(s, a))
  {
    RunInvariant(run);
  }

  /** Nobody is carried over into the next collection: while the finished flag and the counters are
      reset, no thread is in the pause handler and no signal is on its way. */
  lemma NobodyCarriedOver(run: seq<State>)
    requires IsRun(run)
    requires var s := run[|run|-1]; s.c.By? && s.c.at.Resetting()
    ensures run[|run|-1].handlers == map[] && run[|run|-1].signalled == {}
  {
    RunInvariant(run);
  }

  /** The list of registered threads is frozen from the big lock until the collect flag is unset:
      the collecting thread holds one of the two mutexes that an edit needs, at every step, so no
      step edits the list; and nobody else can start to collect. */
  lemma ThreadListFrozen(run: seq<State>, a: Action)
    requires IsRun(run) && Enabled(run[|run|-1], a)
    requires var s := run[|run|-1]; s.c.By? && !s.c.at.Preparing?
    ensures var s := run[|run|-1];
      && (s.kernel == Some(s.c.t) || s.threadList == Some(s.c.t))
      && !a.Register? && !a.Unregister? && !a.Begin?
      && Apply(s, a).threads == s.threads
  {
    RunInvariant(run);
    hide HandlerLocks, ParkedThreads, Windows, Counts, WakeAll;
  }

  /** The counters, at any time after the first reset.  Their difference is the number of parked
      threads and so never negative, except between the two stores that reset them: there resumed
      is above paused if and only if the previous collection had more than one thread. */
  lemma CountersAgree(run: seq<State>)
    requires IsRun(run) && run[|run|-1].everReset
    ensures var s := run[|run|-1];
      && (!(s.c.By? && s.c.at.ZeroResumed?) ==> s.paused - s.resumed == |ParkedThreads(s.handlers)|)
      && (s.resumed <= s.paused <==> !(s.c.By? && s.c.at.ZeroResumed? && |s.previousThreads| > 1))
  {
    RunInvariant(run);
  }

  /** The paused counter stays below the number of registered threads for exactly as long as there
      are no fewer of them than when the last collection began. */
  lemma PausedBelowRegistered(run: seq<State>)
    requires IsRun(run) && run[|run|-1].everReset
    ensures var s := run[|run|-1];
      s.paused <= |s.threads| - 1 <==> |s.cycleThreads| <= |s.threads|
  {
    RunInvariant(run);
    var s := run[|run|-1];
    if s.c.By? && s.c.at.Unfinished() && !s.c.at.ZeroPaused? {
      ParkedAreOthers(s);
    }
  }

  lemma ParkedAreOthers(s: State)
    requires Invariant(s) && s.c.By?
    ensures |ParkedThreads(s.handlers)| <= |s.threads| - 1
  {
    var others := s.threads - {s.c.t};
    assert ParkedThreads(s.handlers) <= others;
    Smaller(ParkedThreads(s.handlers), others);
  }

  lemma Smaller(a: set<Tid>, b: set<Tid>)
    requires a <= b
    ensures |a| <= |b|
  {
    assert b == a + (b - a);
  }

  // The restart.

  /** With the finished flag set nobody is about to sleep in the handler, and nobody sleeps there but
      while the collecting thread is about to notify. */
  predicate NobodyLeft(s: State) {
    s.finished ==>
      && (forall u | u in s.handlers :: s.handlers[u] != Decided)
      && forall u | u in s.handlers :: s.handlers[u] == Asleep ==> s.c.By? && s.c.at == NotifyAll
  }

  lemma HandlerLeavesNobody(s: State, u: Tid)
    requires Invariant(s) && NobodyLeft(s) && Enabled(s, Handle(u))
    ensures NobodyLeft(HandlerStep(s, u))
  {
    hide Invariant;
  }

  /** Whoever holds the restart mutex in the handler is not there while the collecting thread does. */
  lemma RestartIsHeld(s: State)
    requires Invariant(s) && s.c.By? && s.c.at.HoldsRestart()
    ensures forall u | u in s.handlers :: !s.handlers[u].HoldsRestart()
  {
  }

  lemma CollectLeavesNobody(s: State)
    requires Invariant(s) && NobodyLeft(s) && Enabled(s, Collect)
    ensures NobodyLeft(CollectorStep(s))
  {
    if s.c.at.HoldsRestart() {
      RestartIsHeld(s);
    }
    hide Invariant;
  }

  lemma OthersLeaveNobody(s: State, a: Action)
    requires Invariant(s) && NobodyLeft(s) && Enabled(s, a) && !a.Collect? && !a.Handle?
    ensures NobodyLeft(Apply(s, a))
  {
    hide HandlerLocks, Windows, Counts, NextPhase, WakeAll, ParkedThreads, CollectorLocks, RestartOwned;
  }

  lemma StepLeavesNobody(s: State, s': State)
    requires Invariant(s) && NobodyLeft(s) && Step(s, s')
    ensures NobodyLeft(s')
  {
    hide Invariant, NobodyLeft, CollectorStep, HandlerStep, CollectorEnabled, HandlerEnabled;
    var a :| Enabled(s, a) && s' == Apply(s, a);
    match a
    case Collect => CollectLeavesNobody(s);
    case Handle(u) => HandlerLeavesNobody(s, u);
    case _ => OthersLeaveNobody(s, a);
  }

  lemma {:induction false} EverybodyIsWoken(run: seq<State>)
    requires IsRun(run)
    ensures NobodyLeft(run[|run|-1])
  {
    hide Step, NobodyLeft;
    if |run| == 1 {
      InitialLeavesNobody(run[0]);
    } else {
      var before := run[..|run|-1];
      assert IsRun(before);
      EverybodyIsWoken(before);
      RunInvariant(before);
      hide Initial;
      StepLeavesNobody(run[|run|-2], run[|run|-1]);
    }
  }

  lemma InitialLeavesNobody(s: State)
    requires Initial(s)
    ensures NobodyLeft(s)
  {
  }

  // The allocators.

  /** The collecting thread has made the allocators unavailable. */
  predicate AllocatorsTaken(c: Collector) {
    c.By? && (c.at.Suspending() || c.at.LockKernel? || c.at.UnlockThreads? || c.at.UnlockAllocators?)
  }

  predicate NoneBeyond(handlers: map<Tid, Stage>) {
    forall u | u in handlers :: handlers[u] == Entered || handlers[u] == Counted
  }

  /** The allocators are unavailable exactly from before the first signal until after the pause spin,
      and meanwhile nobody in the handler gets beyond waiting for them. */
  predicate WaitsForAllocators(s: State) {
    if AllocatorsTaken(s.c) then s.allocators == Some(s.c.t) && NoneBeyond(s.handlers) else s.allocators == None
  }

  lemma CollectKeepsWaiting(s: State)
    requires Windows(s.c, s.threads, s.signalled, s.handlers) && WaitsForAllocators(s) && Enabled(s, Collect)
    ensures WaitsForAllocators(CollectorStep(s))
  {
    hide WakeAll, NoneBeyond, AllHeld, NoneEntered, AllIn, BeingStopped;
    NoneIsBeyond();
  }

  lemma NoneIsBeyond()
    ensures NoneBeyond(map[])
  {
  }

  lemma HandleKeepsWaiting(s: State, u: Tid)
    requires WaitsForAllocators(s) && Enabled(s, Handle(u))
    ensures WaitsForAllocators(HandlerStep(s, u))
  {
    if AllocatorsTaken(s.c) {
      assert s.handlers[u] == Entered;
    }
    hide AllocatorsTaken;
  }

  lemma OthersKeepWaiting(s: State, a: Action)
    requires s.signalled !! s.handlers.Keys && (s.collect <==> s.c.By?)
    requires WaitsForAllocators(s) && Enabled(s, a) && !a.Collect? && !a.Handle?
    ensures WaitsForAllocators(Apply(s, a))
  {
    hide NextPhase, WakeAll;
  }

  lemma StepKeepsWaiting(s: State, s': State)
    requires Invariant(s) && WaitsForAllocators(s) && Step(s, s')
    ensures WaitsForAllocators(s')
  {
    hide CollectorStep, HandlerStep, CollectorEnabled, HandlerEnabled, WaitsForAllocators, Windows, Counts,
      HandlerLocks, ParkedThreads;
    var a :| Enabled(s, a) && s' == Apply(s, a);
    match a
    case Collect => CollectKeepsWaiting(s);
    case Handle(u) => HandleKeepsWaiting(s, u);
    case _ => OthersKeepWaiting(s, a);
  }

  /** In every run: the allocators' locks are held for the suspension and no longer, and meanwhile a
      stopped thread has stopped before it needs the restart mutex and the finished flag. */
  lemma {:induction false} AllocatorsAwaited(run: seq<State>)
    requires IsRun(run)
    ensures WaitsForAllocators(run[|run|-1])
  {
    hide Step, WaitsForAllocators;
    if |run| == 1 {
      InitialWaits(run[0]);
    } else {
      var before := run[..|run|-1];
      assert IsRun(before);
      AllocatorsAwaited(before);
      RunInvariant(before);
      hide Initial;
      StepKeepsWaiting(run[|run|-2], run[|run|-1]);
    }
  }

  lemma InitialWaits(s: State)
    requires Initial(s)
    ensures WaitsForAllocators(s)
  {
  }

  /** The world restarts: once the finished flag is set and the notification given, a thread in the
      pause handler is not asleep, and it can take its next step, towards the end of the handler,
      unless somebody holds the restart mutex; and whoever does can take a step too, another thread
      in the handler towards its own end of it, and the collecting thread giving the mutex back. */
  lemma WorldRestarts(run: seq<State>, u: Tid)
    requires IsRun(run)
    requires var s := run[|run|-1]; s.finished && !(s.c.By? && s.c.at == NotifyAll) && u in s.handlers
    ensures var s := run[|run|-1];
      && s.handlers[u] != Asleep && s.handlers[u] != Decided
      && if s.restart.None? || (s.handlers[u] != AtLock && s.handlers[u] != Woken) then MovesOn(s, u)
         else if s.restart.value in s.handlers then MovesOn(s, s.restart.value)
         else s.c.By? && s.c.t == s.restart.value && Enabled(s, Collect) && Apply(s, Collect).restart == None
  {
    EverybodyIsWoken(run);
    AllocatorsAwaited(run);
    RunInvariant(run);
    var s := run[|run|-1];
    assert s.allocators == None by {
      hide CollectorLocks, HandlerLocks, RestartOwned, Windows, Counts, Roles;
    }
    if s.restart.None? || (s.handlers[u] != AtLock && s.handlers[u] != Woken) {
      CanMove(s, u);
    } else {
      HolderIsKnown(s);
      if s.restart.value in s.handlers {
        CanMove(s, s.restart.value);
      }
    }
    hide Invariant, CollectorStep, WaitsForAllocators, MovesOn, CollectorEnabled, HandlerEnabled;
  }

  lemma CanMove(s: State, u: Tid)
    requires s.finished && s.allocators == None && u in s.handlers
    requires s.handlers[u] != Asleep && s.handlers[u] != Decided
    requires s.handlers[u] == AtLock || s.handlers[u] == Woken ==> s.restart == None
    ensures MovesOn(s, u)
  {
  }

  /** Who holds the restart mutex: somebody in the handler who can take a step, or the collecting
      thread, which can give it back. */
  lemma HolderIsKnown(s: State)
    requires Invariant(s) && s.restart.Some? && s.finished && !(s.c.By? && s.c.at == NotifyAll)
    ensures if s.restart.value in s.handlers then s.handlers[s.restart.value].HoldsRestart()
            else s.c.By? && s.c.t == s.restart.value && Enabled(s, Collect) && CollectorStep(s).restart == None
  {
    hide Windows, Counts, WakeAll, ParkedThreads;
  }

  /** The thread can take a step in the handler, which takes it closer to the end or out of it. */
  predicate MovesOn(s: State, u: Tid) {
    && Enabled(s, Handle(u))
    && var s' := Apply(s, Handle(u));
       u !in s'.handlers || Distance(s'.handlers[u]) < Distance(s.handlers[u])
  }

  /** How many steps from the end of the handler, once the finished flag is set. */
  function Distance(stage: Stage): nat {
    match stage
    case Entered => 6
    case Counted => 5
    case AtLock => 4
    case Woken => 4
    case Testing => 3
    case Leaving => 2
    case Unlocking => 1
    case Decided => 9
    case Asleep => 8
  }

  /** Who has decided to sleep gives the restart mutex back in the same step, so that no notification
      can fall in between, and sleeps until the notification, unless it wakes up spuriously. */
  lemma SleepsUntilWoken(run: seq<State>, u: Tid, a: Action)
    requires IsRun(run) && u in run[|run|-1].handlers && Enabled(run[|run|-1], a)
    ensures var s := run[|run|-1]; var s' := Apply(s, a);
      && (s.handlers[u] == Decided ==> Enabled(s, Handle(u)) && s.restart == Some(u))
      && (s.handlers[u] == Decided && a == Handle(u) ==>
            u in s'.handlers && s'.handlers[u] == Asleep && s'.restart == None)
      && (s.handlers[u] == Asleep ==>
            && u in s'.handlers
            && s'.handlers[u] == if a == Spurious(u) || (a.Collect? && s.c.at == NotifyAll) then Woken else Asleep)
  {
    RunInvariant(run);
    var s := run[|run|-1];
    DeciderHoldsLock(s, u);
    if s.handlers[u] == Asleep {
      SleeperStays(s, u, a);
    }
    hide Invariant, CollectorStep, CollectorEnabled;
  }

  lemma DeciderHoldsLock(s: State, u: Tid)
    requires Invariant(s) && u in s.handlers
    ensures s.handlers[u] == Decided ==> s.restart == Some(u)
    ensures u !in s.signalled
  {
    hide CollectorLocks, RestartOwned, Windows, Counts, ParkedThreads, Flags;
  }

  lemma SleeperStays(s: State, u: Tid, a: Action)
    requires u in s.handlers && s.handlers[u] == Asleep && u !in s.signalled && Enabled(s, a)
    ensures u in Apply(s, a).handlers
    ensures Apply(s, a).handlers[u] == if a == Spurious(u) || (a.Collect? && s.c.at == NotifyAll) then Woken else Asleep
  {
    hide NextPhase, CollectorEnabled;
  }

  // The list of threads.

  /** Holding both mutexes is enough to register: no stop is then under way.  Registering and
      unregistering undo each other: in between the thread can collect, and the list is as it was
      afterwards. */
  lemma RegisterUnregister(run: seq<State>, t: Tid)
    requires IsRun(run)
    requires var s := run[|run|-1];
      t !in s.threads && s.kernel == Some(t) && s.threadList == Some(t)
    ensures Enabled(run[|run|-1], Register(t))
    ensures var s := run[|run|-1];
      var s1 := Apply(s, Register(t));
      && t in s1.threads && (!s1.collect ==> Enabled(s1, Begin(t)))
      && Enabled(s1, Unregister(t)) && Apply(s1, Unregister(t)) == s
  {
    RunInvariant(run);
    var s := run[|run|-1];
    assert Enabled(s, Register(t));
    assert s.threads + {t} - {t} == s.threads;
  }

  // Two runs in which the bounds on the counters fail: the world is stopped once for two threads.

  ghost predicate Reaches(s: State) {
    exists run :: IsRun(run) && run[|run|-1] == s
  }

  lemma Begins(s: State)
    requires Initial(s)
    ensures Reaches(s)
  {
    assert IsRun([s]);
  }

  lemma Extend(s: State, a: Action) returns (s': State)
    requires Reaches(s) && Enabled(s, a)
    ensures s' == Apply(s, a) && Reaches(s')
  {
    s' := Apply(s, a);
    var run :| IsRun(run) && run[|run|-1] == s;
    assert Step(s, s');
    assert IsRun(run + [s']);
  }

  // Stations of a collection by thread 1 with thread 2 registered.
  const TWO_THREADS := State(Nobody, {1, 2}, {}, map[], false, true, 0, 0, 0, None, None, None, None, {}, {}, false)
  const NOBODY_PAUSED :=
    State(By(1, ClearFinished), {1, 2}, {}, map[], true, true, 0, 0, 0,
          Some(1), Some(1), None, None, {}, {}, false)
  const HALF_RESET :=
    State(By(1, ZeroResumed), {1, 2}, {}, map[], true, false, 0, 0, 0,
          Some(1), Some(1), None, None, {1, 2}, {}, false)
  const RESET :=
    State(By(1, Signalling({2})), {1, 2}, {}, map[], true, false, 0, 0, 0,
          Some(1), Some(1), None, Some(1), {1, 2}, {}, true)
  const PAUSED :=
    State(By(1, Spinning), {1, 2}, {}, map[2 := Counted], true, false, 1, 0, 0,
          None, Some(1), None, Some(1), {1, 2}, {}, true)
  const SPIN_ENDED :=
    State(By(1, UnlockAllocators), {1, 2}, {}, map[2 := Counted], true, false, 1, 0, 0,
          Some(1), None, None, Some(1), {1, 2}, {}, true)
  const COLLECTED :=
    State(By(1, LockThreads), {1, 2}, {}, map[2 := Counted], true, false, 1, 0, 1,
          Some(1), None, None, None, {1, 2}, {}, true)
  const FINISHED :=
    State(By(1, NotifyAll), {1, 2}, {}, map[2 := Counted], true, true, 1, 0, 1,
          Some(1), Some(1), Some(1), None, {1, 2}, {}, true)
  const RELEASED :=
    State(Nobody, {1, 2}, {}, map[2 := Counted], false, true, 1, 0, 1,
          Some(1), Some(1), None, None, {1, 2}, {}, true)
  const RESUMED := State(Nobody, {1, 2}, {}, map[], false, true, 1, 1, 1, None, None, None, None, {1, 2}, {}, true)

  /** It starts to collect and finds nobody paused. */
  lemma FirstGuard()
    ensures Reaches(NOBODY_PAUSED)
  {
    hide Reaches;
    Begins(TWO_THREADS);
    var s1 := Extend(TWO_THREADS, Begin(1));
    var s2 := Extend(s1, Collect);
    var s3 := Extend(s2, Collect);
    assert s3 == NOBODY_PAUSED;
  }

  /** It resets the finished flag and one counter. */
  lemma FirstReset()
    ensures Reaches(HALF_RESET)
  {
    hide Reaches;
    FirstGuard();
    var s1 := Extend(NOBODY_PAUSED, Collect);
    var s2 := Extend(s1, Collect);
    assert s2 == HALF_RESET;
  }

  /** It resets the other counter and is about to signal. */
  lemma FirstSignals()
    ensures Reaches(RESET)
  {
    hide Reaches;
    FirstReset();
    var s1 := Extend(HALF_RESET, Collect);
    var s2 := Extend(s1, Collect);
    assert s2 == RESET by {
      assert {1, 2} - {1} == {2};
    }
  }

  /** The other thread pauses. */
  lemma OtherPaused()
    ensures Reaches(PAUSED)
  {
    hide Reaches;
    FirstSignals();
    var s1 := Extend(RESET, Signal(2));
    var s2 := Extend(s1, Collect);
    var s3 := Extend(s2, Pause(2));
    var s4 := Extend(s3, Handle(2));
    assert s4 == PAUSED;
  }

  /** The pause spin ends. */
  lemma SpinDone()
    ensures Reaches(SPIN_ENDED)
  {
    hide Reaches;
    OtherPaused();
    var s1 := Extend(PAUSED, Collect);
    var s2 := Extend(s1, Collect);
    var s3 := Extend(s2, Collect);
    assert s3 == SPIN_ENDED;
  }

  /** The collection is done and counted. */
  lemma CollectionDone()
    ensures Reaches(COLLECTED)
  {
    hide Reaches;
    SpinDone();
    var s1 := Extend(SPIN_ENDED, Collect);
    var s2 := Extend(s1, Collect);
    assert s2 == COLLECTED;
  }

  /** The finished flag is set. */
  lemma FinishedSet()
    ensures Reaches(FINISHED)
  {
    hide Reaches;
    CollectionDone();
    var s1 := Extend(COLLECTED, Collect);
    var s2 := Extend(s1, Collect);
    var s3 := Extend(s2, Collect);
    assert s3 == FINISHED;
  }

  /** The collecting thread unsets the collect flag. */
  lemma WorldReleased()
    ensures Reaches(RELEASED)
  {
    hide Reaches;
    FinishedSet();
    var s1 := Extend(FINISHED, Collect);
    var s2 := Extend(s1, Collect);
    var s3 := Extend(s2, Collect);
    assert s3 == RELEASED;
  }

  /** The other thread leaves the pause handler, and the kernel mutexes are given back. */
  lemma WorldResumed()
    ensures Reaches(RESUMED)
  {
    hide Reaches;
    WorldReleased();
    var s1 := Extend(RELEASED, Handle(2));
    var s2 := Extend(s1, Handle(2));
    var s3 := Extend(s2, Handle(2));
    var s4 := Extend(s3, Handle(2));
    var s5 := Extend(s4, Handle(2));
    var s6 := Extend(s5, DropThreads(1));
    var s7 := Extend(s6, DropKernel(1));
    assert s7 == RESUMED;
  }

  /** Paused <= registered - 1 fails once a thread has unregistered after a collection. */
  lemma PausedReachesRegistered()
    ensures exists s :: Reaches(s) && s.everReset && s.paused > |s.threads| - 1
  {
    hide Reaches;
    WorldResumed();
    var s1 := Extend(RESUMED, TakeKernel(2));
    var s2 := Extend(s1, TakeThreads(2));
    var s3 := Extend(s2, Unregister(2));
    assert s3.threads == {1};
    assert Reaches(s3) && s3.everReset && s3.paused > |s3.threads| - 1;
  }

  /** Resumed <= paused fails between the two stores of the next reset. */
  lemma ResumedExceedsPaused()
    ensures exists s :: Reaches(s) && s.everReset && s.resumed > s.paused
  {
    hide Reaches;
    WorldResumed();
    var s1 := Extend(RESUMED, Begin(1));
    var s2 := Extend(s1, Collect);
    var s3 := Extend(s2, Collect);
    var s4 := Extend(s3, Collect);
    var s5 := Extend(s4, Collect);
    assert Reaches(s5) && s5.everReset && s5.resumed > s5.paused;
  }
}

/**
 The handshake between the thread that collects and the gc threads, as a step machine: mutexes,
 condition variables, the do/done flags, any number of gc threads.  Testing a flag and going to
 sleep on the condition variable are separate steps, because start_mark, start_sweep and
 notify_all_threads_resumed set their flag without holding the gc thread's mutex.
 */
module Handshake {

  // The four jobs of a gc thread in one cycle.
  const CLEAR: nat := 0
  const MARK: nat := 1
  const SWEEP: nat := 2
  const FINALIZE: nat := 3

  /** Who holds a gc thread's mutex; Other is any third thread, for instance one that waits for
      the end of finalization. */
  datatype Owner = Free | GcThread | Collector | Other

  /** Where a gc thread stands in _run. */
  datatype Pc =
    | Top                  // about to take its mutex at the top of the loop
    | Test(st: nat)        // holds the mutex, about to look at the do flag of stage st
    | Decided(st: nat)     // holds the mutex, has seen the flag unset, about to sleep
    | Waiting(st: nat)     // asleep on the condition variable of stage st
    | Woken(st: nat)       // notified, about to take the mutex again
    | Seen(st: nat)        // holds the mutex, has seen the flag set, about to unset it
    | Working(st: nat)     // holds the mutex, doing the job
    | Done(st: nat)        // holds the mutex, has set the done flag, about to notify

  /** One gc thread with its mutex and those of its do and done flags that are set. */
  datatype Gc = Gc(pc: Pc, owner: Owner, go: set<nat>, done: set<nat>)

  datatype WaitPc = AtLock | AtTest | AtDecided | AtWait | AtWoken

  /** Where the collecting thread stands: between cycles; about to reset gc thread i; about to set
      a do flag; about to notify; about to clear or finalize the bitmap heap itself; or waiting
      for the done flag of gc thread i. */
  datatype CollectorPc =
    | Idle
    | Ready
    | Reset(i: nat)
    | Kick(st: nat, i: nat)
    | Notify(st: nat, i: nat)
    | Bitmap(st: nat)
    | Await(st: nat, i: nat, at: WaitPc)

  datatype Job = Sparse(st: nat, i: nat) | InBitmap(st: nat)

  /** `jobs` are those finished in the current cycle and `cycle` counts cycles: both are history. */
  datatype State = State(c: CollectorPc, gcs: seq<Gc>, jobs: set<Job>, cycle: nat)

  datatype Action =
    | Collect              // the collecting thread takes its next step
    | Leave                // having only waited for finalization, it collects nothing
    | Work(i: nat)         // gc thread i takes its next step
    | Lock(i: nat)         // a third thread takes and gives back the mutex of gc thread i
    | Unlock(i: nat)
    | Spurious(i: nat)     // gc thread i wakes up without having been notified
    | SpuriousCollector    // the collecting thread does

  ghost predicate Initial(s: State) {
    && |s.gcs| > 0 && s.c == Idle && s.jobs == {} && s.cycle == 0
    && forall i | 0 <= i < |s.gcs| :: s.gcs[i] == Gc(Top, Free, {}, {FINALIZE})
  }

  // The steps of a gc thread.

  predicate Holds(pc: Pc) {
    pc.Test? || pc.Decided? || pc.Seen? || pc.Working? || pc.Done?
  }

  predicate GcEnabled(w: Gc) {
    Holds(w.pc) || ((w.pc.Top? || w.pc.Woken?) && w.owner == Free)
  }

  function GcStep(w: Gc): Gc
    requires GcEnabled(w)
  {
    match w.pc
    case Top => w.(pc := Test(CLEAR), owner := GcThread)
    case Woken(st) => w.(pc := Test(st), owner := GcThread)
    case Test(st) => w.(pc := if st in w.go then Seen(st) else Decided(st))
    case Decided(st) => w.(pc := Waiting(st), owner := Free)
    case Seen(st) => w.(pc := Working(st), go := w.go - {st})
    case Working(st) => w.(pc := Done(st), done := w.done + {st})
    case Done(st) => if st < FINALIZE then w.(pc := Test(st + 1)) else w.(pc := Top, owner := Free)
  }

  /** The notification that ends a job wakes the collecting thread if it sleeps on that very
      condition variable. */
  function AfterNotice(c: CollectorPc, i: nat, w: Gc): CollectorPc {
    if w.pc.Done? && c == Await(w.pc.st, i, AtWait) then Await(w.pc.st, i, AtWoken) else c
  }

  // The steps of the collecting thread.  `n` is the number of gc threads.

  predicate InRange(c: CollectorPc, n: nat) {
    match c
    case Idle | Ready => true
    case Reset(i) => i < n
    case Kick(st, i) => st <= FINALIZE && i < n
    case Notify(st, i) => st <= FINALIZE && i < n
    case Bitmap(st) => st == CLEAR || st == SWEEP
    case Await(st, i, _) => st <= FINALIZE && i < n
  }

  predicate CollectorEnabled(c: CollectorPc, gcs: seq<Gc>)
    requires InRange(c, |gcs|)
  {
    match c
    case Reset(i) => gcs[i].owner == Free
    case Notify(st, i) => st == CLEAR ==> gcs[i].owner == Free
    case Await(_, i, at) => if at == AtLock || at == AtWoken then gcs[i].owner == Free else at != AtWait
    case _ => true
  }

  function CollectorStep(c: CollectorPc, gcs: seq<Gc>): CollectorPc
    requires InRange(c, |gcs|)
  {
    var n := |gcs|;
    match c
    case Idle => Await(FINALIZE, 0, AtLock)
    case Ready => Reset(0)
    case Reset(i) => if i + 1 < n then Reset(i + 1) else Kick(CLEAR, 0)
    case Kick(st, i) => Notify(st, i)
    case Notify(st, i) =>
      if i + 1 < n then Kick(st, i + 1)
      else if st == FINALIZE then Idle
      else if st == MARK then Await(MARK, 0, AtLock)
      else Bitmap(st)
    case Bitmap(st) => Await(st, 0, AtLock)
    case Await(st, i, at) =>
      if at == AtLock || at == AtWoken then Await(st, i, AtTest)
      else if at == AtDecided || at == AtWait then Await(st, i, AtWait)
      else if st !in gcs[i].done then Await(st, i, AtDecided)
      else if i + 1 < n then Await(st, i + 1, AtLock)
      else if st == FINALIZE then Ready
      else Kick(st + 1, 0)
  }

  /** What the collecting thread's step does to gc thread `i`. */
  function Touched(c: CollectorPc, i: nat, w: Gc): Gc {
    match c
    case Reset(j) => if i == j then w.(go := {}, done := {}) else w
    case Kick(st, j) => if i == j then w.(go := w.go + {st}) else w
    case Notify(st, j) => if i == j && w.pc == Waiting(st) then w.(pc := Woken(st)) else w
    case Await(st, j, at) =>
      if i != j || at == AtWait then w
      else if at == AtLock || at == AtWoken then w.(owner := Collector)
      else if at == AtDecided || st in w.done then w.(owner := Free)
      else w
    case _ => w
  }

  function JobsAfter(c: CollectorPc, jobs: set<Job>): set<Job> {
    match c
    case Ready => {}
    case Bitmap(st) => jobs + {InBitmap(st)}
    case _ => jobs
  }

  // Whole states.

  predicate Enabled(s: State, a: Action)
    requires InRange(s.c, |s.gcs|)
  {
    match a
    case Collect => CollectorEnabled(s.c, s.gcs)
    case Leave => s.c == Ready
    case Work(i) => i < |s.gcs| && GcEnabled(s.gcs[i])
    case Lock(i) => i < |s.gcs| && s.gcs[i].owner == Free
    case Unlock(i) => i < |s.gcs| && s.gcs[i].owner == Other
    case Spurious(i) => i < |s.gcs| && s.gcs[i].pc.Waiting?
    case SpuriousCollector => s.c.Await? && s.c.at == AtWait
  }

  ghost function Apply(s: State, a: Action): State
    requires InRange(s.c, |s.gcs|) && Enabled(s, a)
  {
    match a
    case Collect =>
      State(CollectorStep(s.c, s.gcs),
            seq(|s.gcs|, i requires 0 <= i < |s.gcs| => Touched(s.c, i, s.gcs[i])),
            JobsAfter(s.c, s.jobs),
            if s.c == Ready then s.cycle + 1 else s.cycle)
    case Leave => s.(c := Idle)
    case Work(i) =>
      var w := s.gcs[i];
      State(AfterNotice(s.c, i, w), s.gcs[i := GcStep(w)],
            if w.pc.Working? then s.jobs + {Sparse(w.pc.st, i)} else s.jobs, s.cycle)
    case Lock(i) => s.(gcs := s.gcs[i := s.gcs[i].(owner := Other)])
    case Unlock(i) => s.(gcs := s.gcs[i := s.gcs[i].(owner := Free)])
    case Spurious(i) => s.(gcs := s.gcs[i := s.gcs[i].(pc := Woken(s.gcs[i].pc.st))])
    case SpuriousCollector => s.(c := Await(s.c.st, s.c.i, AtWoken))
  }

  ghost predicate Step(s: State, a: Action, s': State) {
    InRange(s.c, |s.gcs|) && Enabled(s, a) && s' == Apply(s, a)
  }

  predicate IsSpurious(a: Action) {
    a.Spurious? || a.SpuriousCollector?
  }

  /** The condition variables wake nobody who has not been notified. */
  ghost predicate NoSpurious(acts: seq<Action>) {
    forall k | 0 <= k < |acts| :: !IsSpurious(acts[k])
  }

  /** The collecting thread notifies a gc thread that has seen its flag unset and is about to sleep. */
  predicate Misses(s: State, a: Action) {
    && a.Collect? && s.c.Notify? && s.c.i < |s.gcs|
    && s.gcs[s.c.i].pc == Decided(s.c.st)
  }

  ghost predicate NoneMissed(states: seq<State>, acts: seq<Action>) {
    forall k | 0 <= k < |acts| && k < |states| :: !Misses(states[k], acts[k])
  }

  /** `acts` leads through `states`. */
  ghost predicate IsTrace(states: seq<State>, acts: seq<Action>) {
    && |states| == |acts| + 1
    && forall k | 0 <= k < |acts| :: Step(states[k], acts[k], states[k+1])
  }

  ghost predicate IsRun(states: seq<State>, acts: seq<Action>) {
    IsTrace(states, acts) && Initial(states[0])
  }

  // The invariant.

  /** What is known of the past: nothing was spurious; or no notification was missed; or neither. */
  datatype Mode = Quiet | Lossless | Lossy

  ghost predicate Allows(m: Mode, states: seq<State>, acts: seq<Action>) {
    match m
    case Quiet => NoSpurious(acts)
    case Lossless => NoneMissed(states, acts)
    case Lossy => true
  }

  predicate AllowsStep(m: Mode, s: State, a: Action) {
    match m
    case Quiet => !IsSpurious(a)
    case Lossless => !Misses(s, a)
    case Lossy => true
  }

  /** The number of jobs that a gc thread has behind it in the current cycle; 4 between its last
      job and the next reset. */
  function Passed(w: Gc): nat {
    match w.pc
    case Top => if FINALIZE in w.done then 4 else 0
    case Done(st) => st + 1
    case _ => if w.pc.st > 0 then w.pc.st else if FINALIZE in w.done then 4 else 0
  }

  /** The number of do flags of gc thread `i` that the collecting thread has set since it last
      reset it; 4 before the first reset. */
  function Kicked(c: CollectorPc, i: nat): nat {
    match c
    case Idle | Ready => 4
    case Reset(j) => if i < j then 0 else 4
    case Kick(st, j) => if i < j then st + 1 else st
    case Notify(st, j) => if i <= j then st + 1 else st
    case Bitmap(st) => st + 1
    case Await(st, _, _) => st + 1
  }

  /** The collecting thread has seen the last job that it gave gc thread `i` done. */
  predicate Awaited(c: CollectorPc, i: nat) {
    match c
    case Idle | Bitmap(_) => false
    case Ready => true
    case Reset(j) => i >= j
    case Kick(_, j) => i >= j
    case Notify(_, j) => i > j
    case Await(_, j, _) => i < j
  }

  predicate HoldsMutex(c: CollectorPc, i: nat) {
    c.Await? && c.i == i && (c.at == AtTest || c.at == AtDecided)
  }

  /** With nothing to do after `p` jobs. */
  predicate Unoccupied(m: Mode, pc: Pc, p: nat) {
    if p == 0 || p == 4 then
      || pc == Top || pc == Test(CLEAR) || pc == Decided(CLEAR) || pc == Waiting(CLEAR)
      || (p == 4 && pc == Done(FINALIZE)) || (m != Quiet && pc == Woken(CLEAR))
    else
      pc == Done(p - 1) || pc == Test(p) || pc == Decided(p) || pc == Waiting(p) || (m != Quiet && pc == Woken(p))
  }

  /** Where the gc thread can be found once the collecting thread has seen its job done: asleep,
      so that the next notification reaches it, unless something has woken it. */
  predicate Parked(m: Mode, pc: Pc, p: nat) {
    if p == 0 then true
    else if p == 4 then pc != Done(FINALIZE)
    else pc == Waiting(p) || (m != Quiet && (pc == Woken(p) || pc == Test(p) || pc == Decided(p)))
  }

  /** With the flag of stage `p` set and not yet taken.  One who sleeps, or is about to, has a
      notification coming, unless one was missed. */
  predicate Summoned(m: Mode, c: CollectorPc, i: nat, pc: Pc, p: nat) {
    || pc == Woken(p) || pc == Test(p) || pc == Seen(p) || (p == CLEAR && pc == Top)
    || (pc == Waiting(p) && (c == Notify(p, i) || m == Lossy))
    || (pc == Decided(p) && (c == Notify(p, i) || m == Lossy) && (p == CLEAR || m != Quiet))
  }

  predicate FlagsFit(m: Mode, c: CollectorPc, i: nat, w: Gc) {
    var p := Passed(w);
    var q := Kicked(c, i);
    if p == q then
      w.go == {} && Unoccupied(m, w.pc, p) && (Awaited(c, i) ==> Parked(m, w.pc, p))
    else
      && q == p + 1 && !Awaited(c, i)
      && if w.go == {} then w.pc == Working(p) else w.go == {p} && Summoned(m, c, i, w.pc, p)
  }

  predicate MutexFits(c: CollectorPc, i: nat, w: Gc) {
    && (w.owner == GcThread <==> Holds(w.pc))
    && (w.owner == Collector <==> HoldsMutex(c, i))
  }

  /** The done flags tell how many jobs were done; a collecting thread about to sleep has not
      missed its notification. */
  predicate DoneFits(m: Mode, c: CollectorPc, i: nat, w: Gc) {
    && (Passed(w) < 4 ==> forall st | 0 <= st < 4 :: st in w.done <==> st < Passed(w))
    && (Passed(w) == 4 ==> FINALIZE in w.done)
    && (c.Await? && c.i == i ==>
         && (c.at == AtDecided ==> c.st !in w.done)
         && (c.at == AtWait && c.st in w.done ==> w.pc == Done(c.st))
         && (c.at == AtWoken && m == Quiet ==> c.st in w.done))
  }

  predicate JobsFit(c: CollectorPc, i: nat, w: Gc, jobs: set<Job>) {
    forall st :: 0 <= st < 4 ==> (Sparse(st, i) in jobs <==> st < Passed(w) && !(c.Reset? && i >= c.i))
  }

  /** The collecting thread is past its own job in the bitmap heap at stage `st`. */
  predicate PastBitmap(c: CollectorPc, st: nat) {
    match c
    case Idle | Ready => true
    case Reset(_) => false
    case Kick(s, _) => s > st
    case Notify(s, _) => s > st
    case Bitmap(s) => s > st
    case Await(s, _, _) => s >= st
  }

  predicate GcInvariant(m: Mode, c: CollectorPc, i: nat, w: Gc) {
    MutexFits(c, i, w) && FlagsFit(m, c, i, w) && DoneFits(m, c, i, w)
  }

  predicate BetweenCycles(c: CollectorPc) {
    c == Idle || c == Ready || (c.Await? && c.st == FINALIZE)
  }

  ghost predicate Invariant(m: Mode, s: State) {
    && Control(m, s)
    && (s.cycle == 0 ==> BetweenCycles(s.c) && forall i: nat | i < |s.gcs| :: Passed(s.gcs[i]) == 4)
    && (s.cycle > 0 ==> forall i: nat | i < |s.gcs| :: JobsFit(s.c, i, s.gcs[i], s.jobs))
    && (s.cycle > 0 ==> forall st | st == CLEAR || st == SWEEP :: InBitmap(st) in s.jobs <==> PastBitmap(s.c, st))
  }

  lemma GcStepKeepsMutex(m: Mode, c: CollectorPc, i: nat, w: Gc)
    requires GcInvariant(m, c, i, w) && GcEnabled(w)
    ensures MutexFits(AfterNotice(c, i, w), i, GcStep(w))
  {
    hide FlagsFit, DoneFits;
  }

  lemma IdleStepKeepsFlags(m: Mode, c: CollectorPc, n: nat, i: nat, w: Gc)
    requires InRange(c, n) && GcInvariant(m, c, i, w) && GcEnabled(w) && Passed(w) == Kicked(c, i)
    ensures FlagsFit(m, AfterNotice(c, i, w), i, GcStep(w))
  {
    hide MutexFits, Summoned;
    var c' := AfterNotice(c, i, w);
    assert Kicked(c', i) == Kicked(c, i) && Awaited(c', i) == Awaited(c, i);
  }

  lemma BusyStepKeepsFlags(m: Mode, c: CollectorPc, n: nat, i: nat, w: Gc)
    requires InRange(c, n) && GcInvariant(m, c, i, w) && GcEnabled(w) && Passed(w) != Kicked(c, i)
    ensures FlagsFit(m, AfterNotice(c, i, w), i, GcStep(w))
  {
    hide MutexFits, Parked;
    var c' := AfterNotice(c, i, w);
    assert Kicked(c', i) == Kicked(c, i) && Awaited(c', i) == Awaited(c, i);
  }

  lemma GcStepKeepsFlags(m: Mode, c: CollectorPc, n: nat, i: nat, w: Gc)
    requires InRange(c, n) && GcInvariant(m, c, i, w) && GcEnabled(w)
    ensures FlagsFit(m, AfterNotice(c, i, w), i, GcStep(w))
  {
    hide GcInvariant, FlagsFit, GcStep, AfterNotice, GcEnabled, Passed, Kicked;
    if Passed(w) == Kicked(c, i) {
      IdleStepKeepsFlags(m, c, n, i, w);
    } else {
      BusyStepKeepsFlags(m, c, n, i, w);
    }
  }

  lemma GcStepKeepsDone(m: Mode, c: CollectorPc, n: nat, i: nat, w: Gc)
    requires InRange(c, n) && GcInvariant(m, c, i, w) && GcEnabled(w)
    ensures DoneFits(m, AfterNotice(c, i, w), i, GcStep(w))
  {
  }

  lemma GcStepKeeps(m: Mode, c: CollectorPc, n: nat, i: nat, w: Gc)
    requires InRange(c, n) && GcInvariant(m, c, i, w) && GcEnabled(w)
    ensures GcInvariant(m, AfterNotice(c, i, w), i, GcStep(w))
  {
    hide MutexFits, FlagsFit, DoneFits;
    GcStepKeepsMutex(m, c, i, w);
    GcStepKeepsFlags(m, c, n, i, w);
    GcStepKeepsDone(m, c, n, i, w);
  }

  lemma NoticeKeepsOthers(m: Mode, c: CollectorPc, i: nat, w: Gc, k: nat, v: Gc)
    requires GcInvariant(m, c, k, v) && k != i
    ensures GcInvariant(m, AfterNotice(c, i, w), k, v)
  {
  }

  /** The gc thread whose turn it is. */
  predicate Concerns(c: CollectorPc, i: nat) {
    match c
    case Idle | Ready | Bitmap(_) => false
    case Reset(j) => i == j
    case Kick(_, j) => i == j
    case Notify(_, j) => i == j
    case Await(_, j, _) => i == j
  }

  lemma CollectorStepKeepsOthers(m: Mode, c: CollectorPc, gcs: seq<Gc>, i: nat)
    requires InRange(c, |gcs|) && i < |gcs| && !Concerns(c, i)
    requires GcInvariant(m, c, i, gcs[i])
    ensures GcInvariant(m, CollectorStep(c, gcs), i, gcs[i]) && Touched(c, i, gcs[i]) == gcs[i]
  {
    var c' := CollectorStep(c, gcs);
    assert c'.Await? ==> c'.at == AtLock || (c.Await? && c'.i == c.i);
    assert Passed(gcs[i]) == Kicked(c, i) ==>
      Kicked(c', i) == Kicked(c, i) && (Awaited(c', i) ==> Awaited(c, i) || Kicked(c, i) == 0);
  }

  lemma CollectorStepKeepsMutex(m: Mode, c: CollectorPc, gcs: seq<Gc>, i: nat)
    requires InRange(c, |gcs|) && i < |gcs| && Concerns(c, i) && CollectorEnabled(c, gcs)
    requires GcInvariant(m, c, i, gcs[i])
    ensures MutexFits(CollectorStep(c, gcs), i, Touched(c, i, gcs[i]))
  {
    hide FlagsFit, DoneFits;
  }

  lemma WaitingKeepsFlags(m: Mode, c: CollectorPc, gcs: seq<Gc>, i: nat)
    requires InRange(c, |gcs|) && i < |gcs| && Concerns(c, i) && CollectorEnabled(c, gcs)
    requires GcInvariant(m, c, i, gcs[i])
    requires c.Await?
    ensures FlagsFit(m, CollectorStep(c, gcs), i, Touched(c, i, gcs[i]))
  {
  }

  lemma TellingKeepsFlags(m: Mode, c: CollectorPc, gcs: seq<Gc>, i: nat)
    requires InRange(c, |gcs|) && i < |gcs| && Concerns(c, i) && CollectorEnabled(c, gcs)
    requires GcInvariant(m, c, i, gcs[i])
    requires m == Lossless && c.Notify? ==> gcs[i].pc != Decided(c.st)
    requires !c.Await?
    ensures FlagsFit(m, CollectorStep(c, gcs), i, Touched(c, i, gcs[i]))
  {
    hide DoneFits;
  }

  lemma CollectorStepKeepsFlags(m: Mode, c: CollectorPc, gcs: seq<Gc>, i: nat)
    requires InRange(c, |gcs|) && i < |gcs| && Concerns(c, i) && CollectorEnabled(c, gcs)
    requires GcInvariant(m, c, i, gcs[i])
    requires m == Lossless && c.Notify? ==> gcs[i].pc != Decided(c.st)
    ensures FlagsFit(m, CollectorStep(c, gcs), i, Touched(c, i, gcs[i]))
  {
    hide GcInvariant, FlagsFit, CollectorStep, Touched, CollectorEnabled, Concerns;
    if c.Await? {
      WaitingKeepsFlags(m, c, gcs, i);
    } else {
      TellingKeepsFlags(m, c, gcs, i);
    }
  }

  lemma CollectorStepKeepsDone(m: Mode, c: CollectorPc, gcs: seq<Gc>, i: nat)
    requires InRange(c, |gcs|) && i < |gcs| && Concerns(c, i) && CollectorEnabled(c, gcs)
    requires GcInvariant(m, c, i, gcs[i])
    ensures DoneFits(m, CollectorStep(c, gcs), i, Touched(c, i, gcs[i]))
  {
  }

  lemma CollectorStepKeeps(m: Mode, c: CollectorPc, gcs: seq<Gc>, i: nat)
    requires InRange(c, |gcs|) && i < |gcs| && CollectorEnabled(c, gcs)
    requires GcInvariant(m, c, i, gcs[i])
    requires m == Lossless && c.Notify? && c.i == i ==> gcs[i].pc != Decided(c.st)
    ensures GcInvariant(m, CollectorStep(c, gcs), i, Touched(c, i, gcs[i]))
  {
    hide MutexFits, FlagsFit, DoneFits, CollectorStep, Touched;
    if Concerns(c, i) {
      CollectorStepKeepsMutex(m, c, gcs, i);
      CollectorStepKeepsFlags(m, c, gcs, i);
      CollectorStepKeepsDone(m, c, gcs, i);
    } else {
      CollectorStepKeepsOthers(m, c, gcs, i);
    }
  }

  lemma LockKeeps(m: Mode, c: CollectorPc, i: nat, w: Gc)
    requires GcInvariant(m, c, i, w)
    ensures w.owner == Free ==> GcInvariant(m, c, i, w.(owner := Other))
    ensures w.owner == Other ==> GcInvariant(m, c, i, w.(owner := Free))
  {
    assert Passed(w.(owner := Other)) == Passed(w);
    assert Passed(w.(owner := Free)) == Passed(w);
  }

  /** Everything but the history of jobs. */
  ghost predicate Control(m: Mode, s: State) {
    && |s.gcs| > 0 && InRange(s.c, |s.gcs|)
    && forall i: nat | i < |s.gcs| :: GcInvariant(m, s.c, i, s.gcs[i])
  }

  lemma SpuriousKeeps(m: Mode, c: CollectorPc, i: nat, w: Gc)
    requires GcInvariant(m, c, i, w) && m != Quiet
    ensures w.pc.Waiting? ==> GcInvariant(m, c, i, w.(pc := Woken(w.pc.st)))
  {
  }

  lemma SpuriousCollectorKeeps(m: Mode, c: CollectorPc, i: nat, w: Gc)
    requires GcInvariant(m, c, i, w) && m != Quiet && c.Await? && c.at == AtWait
    ensures GcInvariant(m, Await(c.st, c.i, AtWoken), i, w)
  {
  }

  lemma CollectorInRange(c: CollectorPc, gcs: seq<Gc>)
    requires InRange(c, |gcs|) && |gcs| > 0
    ensures InRange(CollectorStep(c, gcs), |gcs|)
  {
  }

  lemma StepKeepsControl(m: Mode, s: State, a: Action, s': State)
    requires Control(m, s) && Step(s, a, s') && AllowsStep(m, s, a)
    ensures Control(m, s')
  {
    hide GcInvariant, CollectorStep, GcStep, Touched, AfterNotice, CollectorEnabled, GcEnabled;
    CollectorInRange(s.c, s.gcs);
    forall k: nat | k < |s'.gcs|
      ensures GcInvariant(m, s'.c, k, s'.gcs[k])
    {
      assert GcInvariant(m, s.c, k, s.gcs[k]);
      match a
      case Collect => CollectorStepKeeps(m, s.c, s.gcs, k);
      case Leave => LeaveKeeps(m, k, s.gcs[k]);
      case Work(i) =>
        if i == k {
          GcStepKeeps(m, s.c, |s.gcs|, i, s.gcs[i]);
        } else {
          NoticeKeepsOthers(m, s.c, i, s.gcs[i], k, s.gcs[k]);
        }
      case Lock(i) => LockKeeps(m, s.c, k, s.gcs[k]);
      case Unlock(i) => LockKeeps(m, s.c, k, s.gcs[k]);
      case Spurious(i) => SpuriousKeeps(m, s.c, k, s.gcs[k]);
      case SpuriousCollector => SpuriousCollectorKeeps(m, s.c, k, s.gcs[k]);
    }
    if a.Work? {
      NoticeInRange(m, s, a, s');
    }
  }

  lemma NoticeInRange(m: Mode, s: State, a: Action, s': State)
    requires Control(m, s) && Step(s, a, s') && a.Work?
    ensures InRange(s'.c, |s'.gcs|)
  {
  }

  lemma LeaveKeeps(m: Mode, i: nat, w: Gc)
    requires GcInvariant(m, Ready, i, w)
    ensures GcInvariant(m, Idle, i, w)
  {
  }

  lemma InitialInvariant(m: Mode, s: State)
    requires Initial(s)
    ensures Invariant(m, s)
  {
  }

  /** A job that a gc thread finishes is recorded once. */
  lemma WorkKeepsJobs(m: Mode, s: State, i: nat, s': State, k: nat)
    requires Invariant(m, s) && Step(s, Work(i), s') && s.cycle > 0 && k < |s.gcs|
    ensures JobsFit(s'.c, k, s'.gcs[k], s'.jobs)
  {
    assert GcInvariant(m, s.c, i, s.gcs[i]) && JobsFit(s.c, i, s.gcs[i], s.jobs) && JobsFit(s.c, k, s.gcs[k], s.jobs);
  }

  lemma CollectKeepsJobs(m: Mode, s: State, s': State, k: nat)
    requires Invariant(m, s) && Step(s, Collect, s') && s'.cycle > 0 && k < |s.gcs|
    ensures JobsFit(s'.c, k, s'.gcs[k], s'.jobs)
  {
    assert GcInvariant(m, s.c, k, s.gcs[k]);
    if s.c != Ready {
      assert JobsFit(s.c, k, s.gcs[k], s.jobs);
    }
  }

  lemma BeforeFirstCycle(m: Mode, s: State, a: Action, s': State)
    requires Invariant(m, s) && Step(s, a, s') && AllowsStep(m, s, a) && s'.cycle == 0
    ensures BetweenCycles(s'.c) && forall i: nat | i < |s'.gcs| :: Passed(s'.gcs[i]) == 4
  {
    assert forall i: nat | i < |s.gcs| :: GcInvariant(m, s.c, i, s.gcs[i]) && s.gcs[i].go == {};
  }

  lemma StepKeepsBitmapJobs(m: Mode, s: State, a: Action, s': State, st: nat)
    requires Invariant(m, s) && Step(s, a, s') && AllowsStep(m, s, a) && s'.cycle > 0 && (st == CLEAR || st == SWEEP)
    ensures InBitmap(st) in s'.jobs <==> PastBitmap(s'.c, st)
  {
    hide Control;
    assert InRange(s.c, |s.gcs|);
  }

  lemma StepKeepsInvariant(m: Mode, s: State, a: Action, s': State)
    requires Invariant(m, s) && Step(s, a, s') && AllowsStep(m, s, a)
    ensures Invariant(m, s')
  {
    hide Control, JobsFit, PastBitmap, BetweenCycles;
    StepKeepsControl(m, s, a, s');
    if s'.cycle == 0 {
      BeforeFirstCycle(m, s, a, s');
    } else {
      forall k: nat | k < |s'.gcs|
        ensures JobsFit(s'.c, k, s'.gcs[k], s'.jobs)
      {
        match a
        case Collect => CollectKeepsJobs(m, s, s', k);
        case Work(i) => WorkKeepsJobs(m, s, i, s', k);
        case _ => LocksKeepJobs(m, s, a, s', k);
      }
      StepKeepsBitmapJobs(m, s, a, s', CLEAR);
      StepKeepsBitmapJobs(m, s, a, s', SWEEP);
    }
  }

  lemma LocksKeepJobs(m: Mode, s: State, a: Action, s': State, k: nat)
    requires Invariant(m, s) && Step(s, a, s') && !a.Collect? && !a.Work? && s.cycle > 0 && k < |s.gcs|
    ensures JobsFit(s'.c, k, s'.gcs[k], s'.jobs)
  {
    assert JobsFit(s.c, k, s.gcs[k], s.jobs);
  }

  lemma {:induction false} RunInvariant(m: Mode, states: seq<State>, acts: seq<Action>)
    requires IsRun(states, acts) && Allows(m, states, acts)
    ensures Invariant(m, states[|acts|])
  {
    hide Invariant, Step, Initial;
    if |acts| == 0 {
      InitialInvariant(m, states[0]);
    } else {
      var n := |acts| - 1;
      RunInvariant(m, states[..n+1], acts[..n]);
      assert Step(states[n], acts[n], states[n+1]);
      StepKeepsInvariant(m, states[n], acts[n], states[n+1]);
    }
  }

  /** Prefixes of a run. */
  lemma InvariantAt(m: Mode, states: seq<State>, acts: seq<Action>, k: nat)
    requires IsRun(states, acts) && Allows(m, states, acts) && k <= |acts|
    ensures Invariant(m, states[k])
  {
    hide Invariant, Step, Initial;
    RunInvariant(m, states[..k+1], acts[..k]);
  }

  /** Gc thread `i` sleeps or is about to, its flag is set, and no notification is coming. */
  predicate Lost(s: State, i: nat, st: nat) {
    && i < |s.gcs| && st in s.gcs[i].go
    && (s.gcs[i].pc == Waiting(st) || s.gcs[i].pc == Decided(st))
    && s.c != Notify(st, i)
  }

  lemma MissedIsLost(s: State, a: Action, s': State) returns (i: nat, st: nat)
    requires Control(Lossy, s) && Step(s, a, s') && Misses(s, a)
    ensures Lost(s', i, st)
  {
    i, st := s.c.i, s.c.st;
    assert GcInvariant(Lossy, s.c, s.c.i, s.gcs[s.c.i]);
  }

  lemma LosslessIsNotLost(s: State, i: nat, st: nat)
    requires Control(Lossless, s)
    ensures !Lost(s, i, st)
  {
    assert i < |s.gcs| ==> GcInvariant(Lossless, s.c, i, s.gcs[i]);
  }

  /** Exactly when a wake-up is lost, over all runs, with spurious wake-ups or without: if and only
      if at some step the collecting thread notifies a gc thread that is about to sleep. */
  lemma WakeupLostIffMissed(states: seq<State>, acts: seq<Action>)
    requires IsRun(states, acts)
    ensures (exists k, i, st :: 0 <= k <= |acts| && Lost(states[k], i, st)) <==> !NoneMissed(states, acts)
  {
    hide Control, Lost, Misses, Step, Initial;
    if NoneMissed(states, acts) {
      forall k, i, st | 0 <= k <= |acts|
        ensures !Lost(states[k], i, st)
      {
        InvariantAt(Lossless, states, acts, k);
        LosslessIsNotLost(states[k], i, st);
      }
    } else {
      var k: nat :| k < |acts| && Misses(states[k], acts[k]);
      InvariantAt(Lossy, states, acts, k);
      assert Step(states[k], acts[k], states[k+1]);
      var i, st := MissedIsLost(states[k], acts[k], states[k+1]);
      assert 0 <= k + 1 <= |acts| && Lost(states[k+1], i, st);
    }
  }

  /** Without spurious wake-ups no notification is missed. */
  lemma NothingMissed(states: seq<State>, acts: seq<Action>)
    requires IsRun(states, acts) && forall k | 0 <= k < |acts| :: !acts[k].Spurious? && !acts[k].SpuriousCollector?
    ensures NoneMissed(states, acts)
  {
    forall k: nat | k < |acts|
      ensures !Misses(states[k], acts[k])
    {
      InvariantAt(Quiet, states, acts, k);
      assert Step(states[k], acts[k], states[k+1]);
      QuietMissesNothing(states[k], acts[k]);
    }
  }

  lemma QuietMissesNothing(s: State, a: Action)
    requires Control(Quiet, s) && Enabled(s, a)
    ensures !Misses(s, a)
  {
    assert s.c.Notify? ==> GcInvariant(Quiet, s.c, s.c.i, s.gcs[s.c.i]);
  }

  /** No wake-up is lost: without spurious wake-ups whoever sleeps although its flag is set is about
      to be notified, and a collecting thread that sleeps although the job is done always is. */
  lemma NoLostWakeup(states: seq<State>, acts: seq<Action>, i: nat, st: nat)
    requires IsRun(states, acts) && i < |states[|acts|].gcs|
    ensures (forall k | 0 <= k < |acts| :: !acts[k].Spurious? && !acts[k].SpuriousCollector?) ==>
              !Lost(states[|acts|], i, st)
    ensures var s := states[|acts|]; s.c == Await(st, i, AtWait) && st in s.gcs[i].done ==> s.gcs[i].pc == Done(st)
  {
    RunInvariant(Lossy, states, acts);
    assert GcInvariant(Lossy, states[|acts|].c, i, states[|acts|].gcs[i]);
    if NoSpurious(acts) {
      NothingMissed(states, acts);
      RunInvariant(Lossless, states, acts);
      LosslessIsNotLost(states[|acts|], i, st);
    }
  }

  lemma LostStaysLost(s: State, a: Action, s': State, i: nat, st: nat)
    requires Control(Lossy, s) && Step(s, a, s') && Lost(s, i, st) && a != Spurious(i)
    ensures Lost(s', i, st)
  {
    assert GcInvariant(Lossy, s.c, i, s.gcs[i]);
  }

  /** A lost wake-up stays lost: nothing but a spurious wake-up of that same gc thread helps. */
  lemma {:induction false} LostForever(states: seq<State>, acts: seq<Action>, from: nat, i: nat, st: nat)
    requires IsRun(states, acts) && from <= |acts| && Lost(states[from], i, st)
    requires Spurious(i) !in acts[from..]
    ensures Lost(states[|acts|], i, st)
  {
    hide Control, Lost, Step, Initial;
    if from < |acts| {
      var n := |acts| - 1;
      assert acts[from..] == acts[..n][from..] + [acts[n]];
      LostForever(states[..n+1], acts[..n], from, i, st);
      InvariantAt(Lossy, states, acts, n);
      assert Step(states[n], acts[n], states[n+1]);
      LostStaysLost(states[n], acts[n], states[n+1], i, st);
    }
  }

  lemma AllJobs(m: Mode, s: State, i: nat, k: nat)
    requires Invariant(m, s) && i < |s.gcs| && k < |s.gcs| && s.gcs[i].pc.Working?
    ensures s.cycle > 0 && s.gcs[i].pc.st <= FINALIZE && Sparse(s.gcs[i].pc.st, i) !in s.jobs
    ensures forall st | 0 <= st < s.gcs[i].pc.st :: Sparse(st, k) in s.jobs
    ensures s.gcs[i].pc.st > CLEAR ==> InBitmap(CLEAR) in s.jobs
    ensures s.gcs[i].pc.st > SWEEP ==> InBitmap(SWEEP) in s.jobs
  {
    assert GcInvariant(m, s.c, i, s.gcs[i]) && GcInvariant(m, s.c, k, s.gcs[k]);
    assert s.cycle > 0;
    assert JobsFit(s.c, i, s.gcs[i], s.jobs) && JobsFit(s.c, k, s.gcs[k], s.jobs);
  }

  /** The phases of a cycle do not overlap.  A gc thread at work on one stage finds every earlier
      stage finished in this same cycle by every gc thread and in the bitmap heap, and has not done
      this stage before in this cycle; and the bitmap heap is finalized only when all have marked.
      Spurious wake-ups do not matter, and neither do lost ones. */
  lemma PhaseBarrier(states: seq<State>, acts: seq<Action>, i: nat, k: nat)
    requires IsRun(states, acts)
    requires i < |states[|acts|].gcs| && k < |states[|acts|].gcs|
    ensures var s := states[|acts|];
      && (s.gcs[i].pc == Working(MARK) ==> InBitmap(CLEAR) in s.jobs && Sparse(CLEAR, k) in s.jobs)
      && (s.gcs[i].pc == Working(SWEEP) || s.c == Bitmap(SWEEP) ==>
            Sparse(CLEAR, k) in s.jobs && Sparse(MARK, k) in s.jobs)
      && (s.gcs[i].pc == Working(FINALIZE) ==> InBitmap(SWEEP) in s.jobs && Sparse(SWEEP, k) in s.jobs)
      && (s.gcs[i].pc.Working? ==> Sparse(s.gcs[i].pc.st, i) !in s.jobs)
      && (s.c.Bitmap? ==> InBitmap(s.c.st) !in s.jobs)
      && (s.gcs[i].pc.Working? && s.gcs[k].pc.Working? ==> s.gcs[i].pc.st == s.gcs[k].pc.st)
  {
    RunInvariant(Lossy, states, acts);
    var s := states[|acts|];
    if s.gcs[i].pc.Working? {
      AllJobs(Lossy, s, i, k);
    }
    if s.gcs[k].pc.Working? {
      AllJobs(Lossy, s, k, i);
    }
    if s.c == Bitmap(SWEEP) {
      assert GcInvariant(Lossy, s.c, k, s.gcs[k]) && JobsFit(s.c, k, s.gcs[k], s.jobs);
    }
  }

  /** When the collecting thread goes on after waiting for a job, that job was done in this very
      cycle: no done flag is left over from an earlier one.  Before it resets the gc threads
      again, all jobs of the cycle are done. */
  lemma NoStaleDoneFlag(states: seq<State>, acts: seq<Action>, st: nat, i: nat)
    requires IsRun(states, acts) && i < |states[|acts|].gcs| && st <= FINALIZE
    requires states[|acts|].cycle > 0
    ensures var s := states[|acts|];
      && (s.c == Await(st, i, AtTest) && st in s.gcs[i].done ==> Sparse(st, i) in s.jobs)
      && (s.c == Ready ==> Sparse(st, i) in s.jobs && InBitmap(CLEAR) in s.jobs && InBitmap(SWEEP) in s.jobs)
  {
    RunInvariant(Lossy, states, acts);
    var s := states[|acts|];
    assert GcInvariant(Lossy, s.c, i, s.gcs[i]) && JobsFit(s.c, i, s.gcs[i], s.jobs);
  }

  /** What the handshake's own threads can do, and giving back a mutex. */
  predicate Productive(a: Action) {
    a.Collect? || a.Work? || a.Unlock?
  }

  lemma MutexIsGivenBack(m: Mode, s: State, i: nat)
    requires Control(m, s) && i < |s.gcs| && s.gcs[i].owner != Free && !HoldsMutex(s.c, i)
    ensures Enabled(s, Work(i)) || Enabled(s, Unlock(i))
  {
    assert GcInvariant(m, s.c, i, s.gcs[i]);
  }

  /** Between the start of a cycle and its end, unless a notification was missed, the handshake is
      never stuck: the collecting thread or a gc thread can take a step, or a third thread holds a
      mutex and can give it back. */
  lemma NeverStuck(states: seq<State>, acts: seq<Action>)
    requires IsRun(states, acts) && NoneMissed(states, acts) && states[|acts|].c != Idle
    ensures InRange(states[|acts|].c, |states[|acts|].gcs|)
    ensures exists a :: Productive(a) && Enabled(states[|acts|], a)
  {
    RunInvariant(Lossless, states, acts);
    var s := states[|acts|];
    if Enabled(s, Collect) {
      assert Productive(Collect);
    } else {
      var i := s.c.i;
      assert GcInvariant(Lossless, s.c, i, s.gcs[i]);
      assert Productive(Work(i)) && Productive(Unlock(i));
      if s.gcs[i].owner != Free {
        MutexIsGivenBack(Lossless, s, i);
      } else {
        assert s.c == Await(s.c.st, i, AtWait);
        assert Enabled(s, Work(i));
      }
    }
  }

  // A cycle ends after a bounded number of steps: a rank that every step of the collecting thread
  // and of the gc threads decreases.

  function Position(w: Gc): nat {
    match w.pc
    case Done(_) => 8
    case Top => if w.go == {} then 7 else 3
    case Test(st) => if st in w.go then 2 else 6
    case Decided(_) => 5
    case Waiting(_) => 4
    case Woken(st) => if st in w.go then 3 else 7
    case Seen(_) => 1
    case Working(_) => 0
  }

  /** The cycle that has begun has not reset gc thread `i` yet. */
  predicate Unreset(c: CollectorPc, i: nat) {
    c == Ready || (c.Reset? && i >= c.i) || (c.Await? && c.st == FINALIZE)
  }

  function GcRank(c: CollectorPc, i: nat, w: Gc): nat {
    (if Passed(w) < 4 then 9 * (4 - Passed(w)) else 0) + Position(w) + if Unreset(c, i) then 45 else 0
  }

  function AwaitRank(i: nat, at: WaitPc, done: bool, n: nat): nat
    requires i < n
  {
    6 * (n - 1 - i) + 1 +
    match at
    case AtLock => 5
    case AtTest => if done then 0 else 4
    case AtDecided => 3
    case AtWait => 2
    case AtWoken => if done then 1 else 5
  }

  /** The steps left after the job of stage `st` has been waited for. */
  function Rest(st: nat, n: nat): nat {
    2 * n + if st == CLEAR then 2 * (8 * n + 1) else if st == MARK then 8 * n + 1 else 0
  }

  function CollectorRank(c: CollectorPc, gcs: seq<Gc>): nat
    requires InRange(c, |gcs|)
  {
    var n := |gcs|;
    match c
    case Idle => 0
    case Ready => 2 * n + 3 * (8 * n + 1) + n + 1
    case Reset(i) => 2 * n + 3 * (8 * n + 1) + n - i
    case Kick(st, i) => if st == FINALIZE then 2 * (n - i) else Rest(st, n) + 6 * n + 1 + 2 * (n - i)
    case Notify(st, i) => if st == FINALIZE then 2 * (n - i) - 1 else Rest(st, n) + 6 * n + 2 * (n - i)
    case Bitmap(st) => Rest(st, n) + 6 * n + 1
    case Await(st, i, at) =>
      AwaitRank(i, at, st in gcs[i].done, n) +
      if st == FINALIZE then 2 * n + 3 * (8 * n + 1) + n + 1 else Rest(st, n)
  }

  /** The ranks of the first `k` gc threads. */
  function SumRank(c: CollectorPc, gcs: seq<Gc>, k: nat): nat
    requires k <= |gcs|
  {
    if k == 0 then 0 else SumRank(c, gcs, k - 1) + GcRank(c, k - 1, gcs[k-1])
  }

  function TotalRank(s: State): nat
    requires InRange(s.c, |s.gcs|)
  {
    CollectorRank(s.c, s.gcs) + SumRank(s.c, s.gcs, |s.gcs|)
  }

  lemma {:induction false} SumNoMore(c: CollectorPc, gcs: seq<Gc>, c': CollectorPc, gcs': seq<Gc>, k: nat)
    requires k <= |gcs| == |gcs'|
    requires forall i: nat | i < |gcs| :: GcRank(c', i, gcs'[i]) <= GcRank(c, i, gcs[i])
    ensures SumRank(c', gcs', k) <= SumRank(c, gcs, k)
  {
    if k > 0 {
      SumNoMore(c, gcs, c', gcs', k - 1);
    }
  }

  lemma {:induction false} SumLess(c: CollectorPc, gcs: seq<Gc>, c': CollectorPc, gcs': seq<Gc>, i: nat, k: nat)
    requires i < k <= |gcs| == |gcs'|
    requires forall j: nat | j < |gcs| :: GcRank(c', j, gcs'[j]) <= GcRank(c, j, gcs[j])
    requires GcRank(c', i, gcs'[i]) < GcRank(c, i, gcs[i])
    ensures SumRank(c', gcs', k) < SumRank(c, gcs, k)
  {
    if i == k - 1 {
      SumNoMore(c, gcs, c', gcs', k - 1);
    } else {
      SumLess(c, gcs, c', gcs', i, k - 1);
    }
  }

  /** Locks do not change ranks. */
  lemma LockRank(s: State, a: Action, s': State)
    requires InRange(s.c, |s.gcs|) && Step(s, a, s') && (a.Lock? || a.Unlock?)
    ensures InRange(s'.c, |s'.gcs|) && TotalRank(s') <= TotalRank(s)
  {
    SumNoMore(s.c, s.gcs, s'.c, s'.gcs, |s.gcs|);
  }

  lemma GcStepRank(c: CollectorPc, n: nat, i: nat, w: Gc)
    requires InRange(c, n) && GcInvariant(Lossless, c, i, w) && GcEnabled(w)
    ensures GcRank(AfterNotice(c, i, w), i, GcStep(w)) < GcRank(c, i, w)
  {
    assert Passed(GcStep(w)) == if w.pc.Working? then Passed(w) + 1 else Passed(w);
  }

  lemma NoticeRank(c: CollectorPc, i: nat, w: Gc, gcs: seq<Gc>)
    requires InRange(c, |gcs|) && i < |gcs| && gcs[i] == w && GcInvariant(Lossless, c, i, w) && GcEnabled(w)
    ensures InRange(AfterNotice(c, i, w), |gcs|)
    ensures CollectorRank(AfterNotice(c, i, w), gcs[i := GcStep(w)]) <= CollectorRank(c, gcs)
    ensures forall k, v | k != i :: GcRank(AfterNotice(c, i, w), k, v) == GcRank(c, k, v)
  {
  }

  lemma WorkRank(s: State, i: nat, s': State)
    requires Control(Lossless, s) && Step(s, Work(i), s')
    ensures InRange(s'.c, |s'.gcs|) && TotalRank(s') < TotalRank(s)
  {
    hide GcInvariant, GcStep, AfterNotice, GcRank, CollectorRank, GcEnabled;
    assert GcInvariant(Lossless, s.c, i, s.gcs[i]);
    NoticeRank(s.c, i, s.gcs[i], s.gcs);
    GcStepRank(s.c, |s.gcs|, i, s.gcs[i]);
    SumLess(s.c, s.gcs, s'.c, s'.gcs, i, |s.gcs|);
  }

  lemma AwaitingRank(c: CollectorPc, gcs: seq<Gc>, gcs': seq<Gc>)
    requires InRange(c, |gcs|) && c.Await? && CollectorEnabled(c, gcs) && GcInvariant(Lossless, c, c.i, gcs[c.i])
    requires |gcs'| == |gcs| && gcs'[c.i].done == gcs[c.i].done
    ensures InRange(CollectorStep(c, gcs), |gcs'|)
    ensures CollectorRank(CollectorStep(c, gcs), gcs') < CollectorRank(c, gcs)
  {
    hide FlagsFit, MutexFits;
  }

  lemma CollectRankOfCollector(c: CollectorPc, gcs: seq<Gc>, gcs': seq<Gc>)
    requires InRange(c, |gcs|) && |gcs| > 0 && c != Idle && CollectorEnabled(c, gcs)
    requires c.Await? ==> GcInvariant(Lossless, c, c.i, gcs[c.i])
    requires |gcs'| == |gcs| && forall i: nat | i < |gcs| :: gcs'[i] == Touched(c, i, gcs[i])
    ensures InRange(CollectorStep(c, gcs), |gcs'|)
    ensures CollectorRank(CollectorStep(c, gcs), gcs') < CollectorRank(c, gcs)
  {
    hide GcInvariant, CollectorEnabled;
    if c.Await? {
      AwaitingRank(c, gcs, gcs');
    }
  }

  lemma CollectRankOfGc(c: CollectorPc, gcs: seq<Gc>, i: nat)
    requires InRange(c, |gcs|) && i < |gcs| && c != Idle && CollectorEnabled(c, gcs)
    requires GcInvariant(Lossless, c, i, gcs[i])
    ensures GcRank(CollectorStep(c, gcs), i, Touched(c, i, gcs[i])) <= GcRank(c, i, gcs[i])
  {
  }

  lemma CollectRank(s: State, s': State)
    requires Control(Lossless, s) && s.c != Idle && Step(s, Collect, s')
    ensures InRange(s'.c, |s'.gcs|) && TotalRank(s') < TotalRank(s)
  {
    hide GcInvariant, CollectorStep, Touched, CollectorEnabled, GcRank, CollectorRank;
    CollectRankOfCollector(s.c, s.gcs, s'.gcs);
    forall i: nat | i < |s.gcs|
      ensures GcRank(s'.c, i, s'.gcs[i]) <= GcRank(s.c, i, s.gcs[i])
    {
      CollectRankOfGc(s.c, s.gcs, i);
    }
    SumNoMore(s.c, s.gcs, s'.c, s'.gcs, |s.gcs|);
  }

  /** How many of these steps were taken by the collecting thread and the gc threads. */
  function OwnSteps(acts: seq<Action>): nat {
    if acts == [] then 0
    else OwnSteps(acts[..|acts|-1]) + if acts[|acts|-1].Collect? || acts[|acts|-1].Work? then 1 else 0
  }

  function SpuriousCount(acts: seq<Action>): nat {
    if acts == [] then 0 else SpuriousCount(acts[..|acts|-1]) + if IsSpurious(acts[|acts|-1]) then 1 else 0
  }

  /** They are as many as there are positions in `acts` with such an action. */
  lemma StepsCounted(acts: seq<Action>)
    ensures OwnSteps(acts) == |set k | 0 <= k < |acts| && (acts[k].Collect? || acts[k].Work?)|
    ensures SpuriousCount(acts) == |set k | 0 <= k < |acts| && (acts[k].Spurious? || acts[k].SpuriousCollector?)|
  {
    OwnStepsCounted(acts);
    SpuriousStepsCounted(acts);
    hide OwnSteps, SpuriousCount;
    assert OwnPositions(acts) == set k | 0 <= k < |acts| && (acts[k].Collect? || acts[k].Work?);
    assert SpuriousPositions(acts) == set k | 0 <= k < |acts| && (acts[k].Spurious? || acts[k].SpuriousCollector?);
  }

  ghost function OwnPositions(acts: seq<Action>): set<int> {
    set k | 0 <= k < |acts| && (acts[k].Collect? || acts[k].Work?)
  }

  ghost function SpuriousPositions(acts: seq<Action>): set<int> {
    set k | 0 <= k < |acts| && IsSpurious(acts[k])
  }

  lemma {:induction false} OwnStepsCounted(acts: seq<Action>)
    ensures OwnSteps(acts) == |OwnPositions(acts)|
  {
    if acts != [] {
      var n := |acts| - 1;
      var front := acts[..n];
      OwnStepsCounted(front);
      if acts[n].Collect? || acts[n].Work? {
        assert OwnPositions(acts) == OwnPositions(front) + {n};
      } else {
        assert OwnPositions(acts) == OwnPositions(front);
      }
    }
  }

  lemma {:induction false} SpuriousStepsCounted(acts: seq<Action>)
    ensures SpuriousCount(acts) == |SpuriousPositions(acts)|
  {
    hide IsSpurious;
    if acts != [] {
      var n := |acts| - 1;
      var front := acts[..n];
      SpuriousStepsCounted(front);
      if IsSpurious(acts[n]) {
        assert SpuriousPositions(acts) == SpuriousPositions(front) + {n};
      } else {
        assert SpuriousPositions(acts) == SpuriousPositions(front);
      }
    }
  }

  lemma {:induction false} SumBounded(c: CollectorPc, gcs: seq<Gc>, k: nat)
    requires k <= |gcs|
    ensures SumRank(c, gcs, k) <= 89 * k
  {
    if k > 0 {
      SumBounded(c, gcs, k - 1);
    }
  }

  /** A spurious wake-up costs at most three steps: the test, the decision and the sleep again. */
  lemma SpuriousRank(s: State, a: Action, s': State)
    requires InRange(s.c, |s.gcs|) && Step(s, a, s') && IsSpurious(a)
    ensures InRange(s'.c, |s'.gcs|) && TotalRank(s') <= TotalRank(s) + 3
  {
    match a
    case SpuriousCollector =>
      SumNoMore(s.c, s.gcs, s'.c, s'.gcs, |s.gcs|);
    case Spurious(i) =>
      SumLittleMore(s.c, s.gcs, s'.gcs, i, |s.gcs|);
  }

  lemma {:induction false} SumLittleMore(c: CollectorPc, gcs: seq<Gc>, gcs': seq<Gc>, i: nat, k: nat)
    requires k <= |gcs| == |gcs'| && i < |gcs|
    requires forall j: nat | j < |gcs| && j != i :: gcs'[j] == gcs[j]
    requires GcRank(c, i, gcs'[i]) <= GcRank(c, i, gcs[i]) + 3
    ensures SumRank(c, gcs', k) <= SumRank(c, gcs, k) + if i < k then 3 else 0
  {
    hide GcRank;
    if k > 0 {
      SumLittleMore(c, gcs, gcs', i, k - 1);
    }
  }

  lemma {:induction false} RankPaysForSteps(states: seq<State>, acts: seq<Action>)
    requires IsTrace(states, acts) && NoneMissed(states, acts) && Invariant(Lossless, states[0])
    requires forall k | 0 <= k < |states| :: states[k].c != Idle
    ensures Invariant(Lossless, states[|acts|])
    ensures OwnSteps(acts) + TotalRank(states[|acts|]) <= TotalRank(states[0]) + 3 * SpuriousCount(acts)
  {
    if |acts| > 0 {
      var n := |acts| - 1;
      RankPaysForSteps(states[..n+1], acts[..n]);
      var s, a, s' := states[n], acts[n], states[n+1];
      assert Step(s, a, s') && s'.c != Idle;
      StepKeepsInvariant(Lossless, s, a, s');
      OneMoreStep(s, a, s');
    }
  }

  lemma OneMoreStep(s: State, a: Action, s': State)
    requires Control(Lossless, s) && Step(s, a, s') && AllowsStep(Lossless, s, a) && s.c != Idle && s'.c != Idle
    ensures InRange(s'.c, |s'.gcs|)
    ensures TotalRank(s') + (if a.Collect? || a.Work? then 1 else 0) <= TotalRank(s) + if IsSpurious(a) then 3 else 0
  {
    assert InRange(s.c, |s.gcs|);
    hide TotalRank, Control;
    match a
    case Collect => CollectRank(s, s');
    case Work(i) => WorkRank(s, i, s');
    case Lock(_) => LockRank(s, a, s');
    case Unlock(_) => LockRank(s, a, s');
    case Leave =>
    case _ => SpuriousRank(s, a, s');
  }

  /** However the threads interleave, and unless a notification is missed, a cycle that has begun ends
      before the collecting thread and the gc threads have taken 122 steps for each gc thread, three
      for each spurious wake-up, and 4 more. */
  lemma CycleEnds(states: seq<State>, acts: seq<Action>, from: nat)
    requires IsRun(states, acts) && NoneMissed(states, acts) && from <= |acts|
    requires forall k | from <= k < |states| :: states[k].c != Idle
    ensures OwnSteps(acts[from..]) <= 122 * |states[from].gcs| + 4 + 3 * SpuriousCount(acts[from..])
  {
    InvariantAt(Lossless, states, acts, from);
    var tail := states[from..];
    forall k | 0 <= k < |acts[from..]|
      ensures Step(tail[k], acts[from..][k], tail[k+1]) && !Misses(tail[k], acts[from..][k])
    {
      assert Step(states[from+k], acts[from+k], states[from+k+1]);
    }
    RankPaysForSteps(tail, acts[from..]);
    SumBounded(tail[0].c, tail[0].gcs, |tail[0].gcs|);
    CollectorRankBounded(tail[0].c, tail[0].gcs);
  }

  lemma CollectorRankBounded(c: CollectorPc, gcs: seq<Gc>)
    requires InRange(c, |gcs|)
    ensures CollectorRank(c, gcs) <= 33 * |gcs| + 4
  {
  }

  // What a spurious wake-up does.

  /** Some run with `k` spurious wake-ups ends in `s`. */
  ghost predicate Leads(s: State, k: nat) {
    exists states, acts :: IsRun(states, acts) && states[|acts|] == s && SpuriousCount(acts) == k
  }

  lemma Begin(s: State)
    requires Initial(s)
    ensures Leads(s, 0)
  {
    assert IsRun([s], []);
  }

  /** Apply, when there is one gc thread. */
  ghost function ApplyToOne(c: CollectorPc, w: Gc, jobs: set<Job>, cycle: nat, a: Action): State
    requires InRange(c, 1)
  {
    match a
    case Collect =>
      State(CollectorStep(c, [w]), [Touched(c, 0, w)], JobsAfter(c, jobs), if c == Ready then cycle + 1 else cycle)
    case Work(_) =>
      State(AfterNotice(c, 0, w), [if GcEnabled(w) then GcStep(w) else w],
            if w.pc.Working? then jobs + {Sparse(w.pc.st, 0)} else jobs, cycle)
    case _ => State(c, [if w.pc.Waiting? then w.(pc := Woken(w.pc.st)) else w], jobs, cycle)
  }

  lemma OneIsApplied(s: State, a: Action)
    requires |s.gcs| == 1 && InRange(s.c, 1) && Enabled(s, a) && (a == Collect || a == Work(0) || a == Spurious(0))
    ensures Step(s, a, ApplyToOne(s.c, s.gcs[0], s.jobs, s.cycle, a))
  {
    hide GcStep, Touched, CollectorStep, AfterNotice, JobsAfter;
    assert s.gcs == [s.gcs[0]];
    assert ApplyToOne(s.c, s.gcs[0], s.jobs, s.cycle, a).gcs == Apply(s, a).gcs;
  }

  lemma LeadsOn(s: State, a: Action, s': State, k: nat)
    requires Leads(s, k) && Step(s, a, s')
    ensures Leads(s', if IsSpurious(a) then k + 1 else k)
  {
    hide Step, Initial;
    var states, acts :| IsRun(states, acts) && states[|acts|] == s && SpuriousCount(acts) == k;
    assert IsRun(states + [s'], acts + [a]);
    assert (acts + [a])[..|acts|] == acts;
  }

  /** One more step of a run with one gc thread. */
  lemma Extend(s: State, a: Action, k: nat) returns (s': State)
    requires Leads(s, k) && |s.gcs| == 1 && InRange(s.c, 1)
    requires a == Collect || a == Work(0) || a == Spurious(0)
    requires Enabled(s, a)
    ensures s' == ApplyToOne(s.c, s.gcs[0], s.jobs, s.cycle, a)
    ensures Leads(s', if a.Spurious? then k + 1 else k)
  {
    hide Leads, Step, Enabled, ApplyToOne;
    s' := ApplyToOne(s.c, s.gcs[0], s.jobs, s.cycle, a);
    OneIsApplied(s, a);
    LeadsOn(s, a, s', k);
  }

  // Stations of the first collection with one gc thread.
  const BEFORE_ALL := State(Idle, [Gc(Top, Free, {}, {FINALIZE})], {}, 0)
  const ABOUT_TO_RESET := State(Reset(0), [Gc(Top, Free, {}, {FINALIZE})], {}, 1)
  const TOLD_TO_CLEAR :=
    State(Await(CLEAR, 0, AtLock), [Gc(Top, Free, {CLEAR}, {})],
          {InBitmap(CLEAR)}, 1)
  const ASLEEP :=
    State(Await(CLEAR, 0, AtLock), [Gc(Waiting(MARK), Free, {}, {CLEAR})],
          {InBitmap(CLEAR), Sparse(CLEAR, 0)}, 1)
  const FLAG_SET :=
    State(Notify(MARK, 0), [Gc(Decided(MARK), GcThread, {MARK}, {CLEAR})],
          {InBitmap(CLEAR), Sparse(CLEAR, 0)}, 1)
  const NOT_WOKEN :=
    State(Await(MARK, 0, AtWait), [Gc(Waiting(MARK), Free, {MARK}, {CLEAR})],
          {InBitmap(CLEAR), Sparse(CLEAR, 0)}, 1)

  /** The first collection finds everything idle. */
  lemma FirstReset()
    ensures Leads(ABOUT_TO_RESET, 0)
  {
    hide Leads;
    Begin(BEFORE_ALL);
    var s1 := Extend(BEFORE_ALL, Collect, 0);
    var s2 := Extend(s1, Collect, 0);
    var s3 := Extend(s2, Collect, 0);
    var s4 := Extend(s3, Collect, 0);
    assert s4 == ABOUT_TO_RESET;
  }

  /** The gc thread is told to clear, and the collecting thread waits for it. */
  lemma ToldToClear()
    ensures Leads(TOLD_TO_CLEAR, 0)
  {
    hide Leads;
    FirstReset();
    var s1 := Extend(ABOUT_TO_RESET, Collect, 0);
    var s2 := Extend(s1, Collect, 0);
    var s3 := Extend(s2, Collect, 0);
    var s4 := Extend(s3, Collect, 0);
    assert {} + {CLEAR} == {CLEAR};
    assert s4 == TOLD_TO_CLEAR;
  }

  /** The gc thread clears and goes to sleep until it is told to mark. */
  lemma HasCleared()
    ensures Leads(ASLEEP, 0)
  {
    hide Leads;
    ToldToClear();
    var s1 := Extend(TOLD_TO_CLEAR, Work(0), 0);
    var s2 := Extend(s1, Work(0), 0);
    var s3 := Extend(s2, Work(0), 0);
    var s4 := Extend(s3, Work(0), 0);
    var s5 := Extend(s4, Work(0), 0);
    var s6 := Extend(s5, Work(0), 0);
    var s7 := Extend(s6, Work(0), 0);
    assert {} + {CLEAR} == {CLEAR};
    assert s7 == ASLEEP;
  }

  /** It wakes up without having been notified, finds its flag unset, and before it sleeps again
      start_mark sets the flag. */
  lemma WokenTooEarly()
    ensures Leads(FLAG_SET, 1)
  {
    hide Leads;
    HasCleared();
    var s1 := Extend(ASLEEP, Collect, 0);
    var s2 := Extend(s1, Collect, 0);
    var s3 := Extend(s2, Spurious(0), 0);
    var s4 := Extend(s3, Work(0), 1);
    var s5 := Extend(s4, Work(0), 1);
    var s6 := Extend(s5, Collect, 1);
    assert {} + {MARK} == {MARK};
    assert s6 == FLAG_SET;
  }

  /** start_mark notifies nobody, the gc thread goes to sleep, and so does the collecting thread. */
  lemma NoticeLost()
    ensures Leads(NOT_WOKEN, 1)
  {
    hide Leads;
    WokenTooEarly();
    var s1 := Extend(FLAG_SET, Collect, 1);
    var s2 := Extend(s1, Work(0), 1);
    var s3 := Extend(s2, Collect, 1);
    var s4 := Extend(s3, Collect, 1);
    var s5 := Extend(s4, Collect, 1);
    assert s5 == NOT_WOKEN;
  }

  /** The gc thread sleeps with its flag set and the collecting thread waits for it. */
  predicate Stuck(s: State) {
    && |s.gcs| == 1 && s.c == Await(MARK, 0, AtWait)
    && s.gcs[0].pc == Waiting(MARK) && MARK in s.gcs[0].go && MARK !in s.gcs[0].done
  }

  /** NoLostWakeup needs its assumption: one spurious wake-up of a gc thread just before start_mark
      can put it between its test and its sleep when it is notified, and the notification is lost. */
  lemma SpuriousWakeupIsFatal()
    ensures exists states, acts :: IsRun(states, acts) && SpuriousCount(acts) == 1 && Stuck(states[|acts|])
  {
    NoticeLost();
    var states, acts :| IsRun(states, acts) && states[|acts|] == NOT_WOKEN && SpuriousCount(acts) == 1;
    assert Stuck(states[|acts|]);
  }

  /** From there nothing gets it going but another spurious wake-up. */
  lemma {:induction false} StuckForever(states: seq<State>, acts: seq<Action>)
    requires IsTrace(states, acts) && NoSpurious(acts) && Stuck(states[0])
    ensures Stuck(states[|acts|])
  {
    if |acts| > 0 {
      var n := |acts| - 1;
      StuckForever(states[..n+1], acts[..n]);
      assert Step(states[n], acts[n], states[n+1]);
    }
  }
}

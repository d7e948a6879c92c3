/**
 Scanning one mutator's stack for words that may be pointers
 (cgc1/src/thread_local_kernel_state_impl.hpp).
 */
module StackScan {
  import opened Heap
  import opened Reachability

  type ThreadId = nat

  /** thread_local_kernel_state_t as the collector reads it.  The stack is given as its words,
      lowest address first; `stackPtr` and `topOfStack` are positions in it, None while unset. */
  datatype ThreadState = ThreadState(
    stackPtr: Option<nat>,
    topOfStack: Option<nat>,
    stack: seq<Addr>,
    potentialRoots: seq<Addr>)
  {
    /** A stack grows down: its pointer never lies above its top. */
    predicate WellFormed() {
      stackPtr.Some? && topOfStack.Some? ==> stackPtr.value <= topOfStack.value <= |stack|
    }

    predicate Scannable() {
      stackPtr.Some? && topOfStack.Some?
    }

    /** The words between the stack pointer and the top of the stack. */
    function LiveStack(): seq<Addr>
      requires WellFormed()
    {
      if Scannable() then stack[stackPtr.value..topOfStack.value] else []
    }
  }

  /** The filter: the word may be a pointer into one of the two heaps. */
  predicate Keeps(l: Layout, w: Addr) {
    l.InSparseHeap(w - l.stateBytes) || l.InFastHeap(w)
  }

  /** The positions in [lo, hi) whose words the filter keeps, in order. */
  function KeptSlots(l: Layout, stack: seq<Addr>, lo: nat, hi: nat): seq<nat>
    requires lo <= hi <= |stack|
  {
    if lo == hi then []
    else KeptSlots(l, stack, lo, hi - 1) + if Keeps(l, stack[hi - 1]) then [hi - 1] else []
  }

  ghost predicate Increasing(s: seq<nat>) {
    forall i, j :: 0 <= i < j < |s| ==> s[i] < s[j]
  }

  /** The kept positions are exactly those whose words pass the filter, each listed once. */
  lemma {:induction false} KeptSlotsExact(l: Layout, stack: seq<Addr>, lo: nat, hi: nat)
    requires lo <= hi <= |stack|
    ensures forall k :: k in KeptSlots(l, stack, lo, hi) <==> lo <= k < hi && Keeps(l, stack[k])
    ensures Increasing(KeptSlots(l, stack, lo, hi))
  {
    if lo < hi {
      KeptSlotsExact(l, stack, lo, hi - 1);
      var shorter := KeptSlots(l, stack, lo, hi - 1);
      forall i | 0 <= i < |shorter|
        ensures shorter[i] < hi - 1
      {
        var k := shorter[i];
        assert k in shorter;
      }
    }
  }

  /** Appends to `container` the kept positions of the thread's stack.  A thread whose stack
      pointer or top was never set makes the process abort. */
  method ScanStack(l: Layout, t: ThreadState, container: seq<nat>) returns (aborted: bool, container': seq<nat>)
    requires t.WellFormed()
    ensures aborted <==> t.stackPtr.None? || t.topOfStack.None?
    ensures !aborted ==>
      container' == container + KeptSlots(l, t.stack, t.stackPtr.value, t.topOfStack.value)
    ensures !aborted ==> forall k: nat :: k in container' <==>
      || k in container
      || (t.stackPtr.value <= k < t.topOfStack.value
          && (l.sparseBegin <= t.stack[k] - l.stateBytes < l.sparseEnd || l.fastBegin <= t.stack[k] < l.fastEnd))
  {
    container' := container;
    if t.stackPtr.None? || t.topOfStack.None? {
      return true, container';
    }
    aborted := false;
    var v := t.stackPtr.value;
    while v != t.topOfStack.value
      invariant t.stackPtr.value <= v <= t.topOfStack.value
      invariant container' == container + KeptSlots(l, t.stack, t.stackPtr.value, v)
      decreases t.topOfStack.value - v
    {
      var os := t.stack[v] - l.stateBytes;
      if l.InSparseHeap(os) {
        container' := container' + [v];
      } else if l.InFastHeap(t.stack[v]) {
        container' := container' + [v];
      }
      v := v + 1;
    }
    KeptSlotsExact(l, t.stack, t.stackPtr.value, v);
  }

  /** A word the filter drops is a pointer to nothing. */
  lemma DroppedWordsAreInert(g: Image, w: Addr)
    ensures !Keeps(g.layout, w) ==> Target(g, w).None?
  {
  }

  ghost function WordsAt(stack: seq<Addr>, slots: seq<nat>): set<Addr> {
    set k | k in slots && k < |stack| :: stack[k]
  }

  /** Filtering never changes what is reachable: the kept slots reach exactly what all the words
      between the stack pointer and the top of the stack reach. */
  lemma FilterPreservesReach(g: Image, t: ThreadState)
    requires t.WellFormed() && t.Scannable()
    ensures Reach(g, WordsAt(t.stack, KeptSlots(g.layout, t.stack, t.stackPtr.value, t.topOfStack.value)))
         == Reach(g, set w | w in t.LiveStack())
  {
    var kept := KeptSlots(g.layout, t.stack, t.stackPtr.value, t.topOfStack.value);
    var some := WordsAt(t.stack, kept);
    var all := set w | w in t.LiveStack();
    KeptSlotsExact(g.layout, t.stack, t.stackPtr.value, t.topOfStack.value);
    forall w | w in some
      ensures w in all
    {
      var k :| k in kept && k < |t.stack| && t.stack[k] == w;
      assert t.LiveStack()[k - t.stackPtr.value] == w;
    }
    forall w | w in all && w !in some
      ensures Target(g, w).None?
    {
      var i :| 0 <= i < |t.LiveStack()| && t.LiveStack()[i] == w;
      assert t.stack[t.stackPtr.value + i] == w;
      assert !Keeps(g.layout, w);
    }
    InertRoots(g, some, all);
  }

  // The root words that one gc thread takes from the threads it watches.

  function PotentialRoots(threads: map<ThreadId, ThreadState>, id: ThreadId): set<Addr> {
    if id in threads then set w | w in threads[id].potentialRoots else {}
  }

  function KeptOf(l: Layout, threads: map<ThreadId, ThreadState>, id: ThreadId): seq<nat> {
    if id in threads && threads[id].WellFormed() && threads[id].Scannable() then
      KeptSlots(l, threads[id].stack, threads[id].stackPtr.value, threads[id].topOfStack.value)
    else
      []
  }

  function StackRootsOf(l: Layout, threads: map<ThreadId, ThreadState>, id: ThreadId): seq<(ThreadId, nat)> {
    var kept := KeptOf(l, threads, id);
    seq(|kept|, i requires 0 <= i < |kept| => (id, kept[i]))
  }

  function WithoutPotentialRoots(threads: map<ThreadId, ThreadState>, id: ThreadId): map<ThreadId, ThreadState> {
    if id in threads then threads[id := threads[id].(potentialRoots := [])] else threads
  }

  /** The thread states after the threads `ids` have been handled. */
  function ForgetPotentialRoots(threads: map<ThreadId, ThreadState>, ids: seq<ThreadId>): map<ThreadId, ThreadState> {
    if ids == [] then threads
    else WithoutPotentialRoots(ForgetPotentialRoots(threads, ids[..|ids|-1]), ids[|ids|-1])
  }

  /** Every registered thread of `ids` has its stack bounds set. */
  ghost predicate AllScannable(threads: map<ThreadId, ThreadState>, ids: seq<ThreadId>) {
    forall id :: id in ids && id in threads ==> threads[id].Scannable()
  }

  /** Every stack slot that the threads `ids` contribute, in the order they are handled. */
  function StackRootList(l: Layout, threads: map<ThreadId, ThreadState>, ids: seq<ThreadId>): seq<(ThreadId, nat)> {
    if ids == [] then []
    else StackRootList(l, threads, ids[..|ids|-1]) + StackRootsOf(l, threads, ids[|ids|-1])
  }

  /** How many potential roots the threads `ids` hold. */
  function PotentialCount(threads: map<ThreadId, ThreadState>, ids: seq<ThreadId>): nat {
    if ids == [] then 0
    else
      var last := ids[|ids|-1];
      PotentialCount(threads, ids[..|ids|-1]) + if last in threads then |threads[last].potentialRoots| else 0
  }

  /** One thread more counts as many as it holds. */
  lemma PotentialRootsCounted(threads: map<ThreadId, ThreadState>, ids: seq<ThreadId>, id: ThreadId)
    ensures PotentialCount(threads, []) == 0
    ensures PotentialCount(threads, ids + [id]) - PotentialCount(threads, ids) ==
            if id in threads then |threads[id].potentialRoots| else 0
  {
    assert (ids + [id])[..|ids|] == ids;
  }

  function StackWord(threads: map<ThreadId, ThreadState>, root: (ThreadId, nat)): Addr {
    if root.0 in threads && root.1 < |threads[root.0].stack| then threads[root.0].stack[root.1] else 0
  }

  /** Every word through which the thread may refer to an object: all of its live stack and its
      potential roots. */
  ghost function ThreadWords(threads: map<ThreadId, ThreadState>, id: ThreadId): set<Addr> {
    if id in threads && threads[id].WellFormed() then
      (set w | w in threads[id].potentialRoots) + (set w | w in threads[id].LiveStack())
    else
      {}
  }

  /** In the thread's fields: every word of the stack from its pointer to its top, the first one
      included, and every potential root; nothing else. */
  lemma ThreadWordsAre(threads: map<ThreadId, ThreadState>, id: ThreadId, w: Addr)
    requires id in threads && threads[id].WellFormed()
    ensures var t := threads[id];
      w in ThreadWords(threads, id) <==>
        || w in t.potentialRoots
        || (t.stackPtr.Some? && t.topOfStack.Some? &&
            exists k :: t.stackPtr.value <= k < t.topOfStack.value && t.stack[k] == w)
  {
    var t := threads[id];
    if t.Scannable() {
      if k :| t.stackPtr.value <= k < t.topOfStack.value && t.stack[k] == w {
        assert t.LiveStack()[k - t.stackPtr.value] == w;
      }
      if i :| 0 <= i < |t.LiveStack()| && t.LiveStack()[i] == w {
        assert t.stack[t.stackPtr.value + i] == w;
      }
    }
  }

  ghost function WatchedWords(threads: map<ThreadId, ThreadState>, ids: seq<ThreadId>): set<Addr> {
    set id, w | id in ids && w in ThreadWords(threads, id) :: w
  }

  function WatchedPotentialRoots(threads: map<ThreadId, ThreadState>, ids: seq<ThreadId>): set<Addr> {
    if ids == [] then {}
    else WatchedPotentialRoots(threads, ids[..|ids|-1]) + PotentialRoots(threads, ids[|ids|-1])
  }

  lemma SetOfSeqSize(s: seq<Addr>)
    ensures |set w | w in s| <= |s|
  {
    if s != [] {
      SetOfSeqSize(s[1..]);
      assert (set w | w in s) == (set w | w in s[1..]) + {s[0]};
    }
  }

  lemma {:induction false} StackRootListSound(l: Layout, threads: map<ThreadId, ThreadState>, ids: seq<ThreadId>)
    ensures forall r :: r in StackRootList(l, threads, ids) ==>
              r.0 in ids && r.0 in threads && r.1 in KeptOf(l, threads, r.0)
  {
    if ids != [] {
      StackRootListSound(l, threads, ids[..|ids|-1]);
    }
  }

  lemma {:induction false} StackRootListComplete(l: Layout, threads: map<ThreadId, ThreadState>, ids: seq<ThreadId>,
                                                 id: ThreadId, k: nat)
    requires id in ids && k in KeptOf(l, threads, id)
    ensures (id, k) in StackRootList(l, threads, ids)
  {
    var last := ids[|ids|-1];
    if id == last {
      var kept := KeptOf(l, threads, id);
      var i :| 0 <= i < |kept| && kept[i] == k;
      assert StackRootsOf(l, threads, id)[i] == (id, k);
    } else {
      assert id in ids[..|ids|-1];
      StackRootListComplete(l, threads, ids[..|ids|-1], id, k);
    }
  }

  /** Each kept slot of each watched thread is listed exactly once: no stack is scanned twice. */
  lemma {:induction false} StackRootsListedOnce(l: Layout, threads: map<ThreadId, ThreadState>, ids: seq<ThreadId>)
    requires NoRepeats(ids) && forall t | t in threads :: threads[t].WellFormed()
    ensures NoRepeats(StackRootList(l, threads, ids))
  {
    if ids != [] {
      var front, last := ids[..|ids|-1], ids[|ids|-1];
      StackRootsListedOnce(l, threads, front);
      StackRootListSound(l, threads, front);
      StackRootsOnce(l, threads, last);
      assert last !in front;
      RepeatFreeSum(StackRootList(l, threads, front), StackRootsOf(l, threads, last));
    }
  }

  lemma StackRootsOnce(l: Layout, threads: map<ThreadId, ThreadState>, id: ThreadId)
    requires forall t | t in threads :: threads[t].WellFormed()
    ensures NoRepeats(StackRootsOf(l, threads, id)) && forall r | r in StackRootsOf(l, threads, id) :: r.0 == id
  {
    if id in threads && threads[id].Scannable() {
      KeptSlotsExact(l, threads[id].stack, threads[id].stackPtr.value, threads[id].topOfStack.value);
    }
  }

  lemma RepeatFreeSum<T>(a: seq<T>, b: seq<T>)
    requires NoRepeats(a) && NoRepeats(b) && forall x | x in a :: x !in b
    ensures NoRepeats(a + b)
  {
    forall i, j | 0 <= i < j < |a + b|
      ensures (a + b)[i] != (a + b)[j]
    {
      if i < |a| && j >= |a| {
        assert a[i] in a && b[j - |a|] in b;
      }
    }
  }

  /** Every listed slot holds a word of a watched stack that passes the filter. */
  lemma ListedWordIsLive(l: Layout, threads: map<ThreadId, ThreadState>, ids: seq<ThreadId>, r: (ThreadId, nat))
    requires forall t | t in threads :: threads[t].WellFormed()
    requires r in StackRootList(l, threads, ids)
    ensures r.0 in ids && r.0 in threads && r.1 < |threads[r.0].stack|
    ensures Keeps(l, StackWord(threads, r)) && StackWord(threads, r) in threads[r.0].LiveStack()
  {
    hide StackRootList, Keeps, Increasing;
    StackRootListSound(l, threads, ids);
    var t := threads[r.0];
    assert r.1 in KeptOf(l, threads, r.0);
    KeptSlotsExact(l, t.stack, t.stackPtr.value, t.topOfStack.value);
    assert t.LiveStack()[r.1 - t.stackPtr.value] == t.stack[r.1];
  }

  /** Every word of a watched stack that passes the filter is listed. */
  lemma LiveWordIsListed(l: Layout, threads: map<ThreadId, ThreadState>, ids: seq<ThreadId>, id: ThreadId, w: Addr)
    returns (r: (ThreadId, nat))
    requires id in ids && id in threads && threads[id].WellFormed() && w in threads[id].LiveStack() && Keeps(l, w)
    ensures r in StackRootList(l, threads, ids) && StackWord(threads, r) == w
  {
    var t := threads[id];
    KeptSlotsExact(l, t.stack, t.stackPtr.value, t.topOfStack.value);
    var i :| 0 <= i < |t.LiveStack()| && t.LiveStack()[i] == w;
    var k := t.stackPtr.value + i;
    assert t.stack[k] == w;
    StackRootListComplete(l, threads, ids, id, k);
    r := (id, k);
  }

  /** Roots that point nowhere reach nothing. */
  lemma InertRoots(g: Image, some: set<Addr>, all: set<Addr>)
    requires some <= all && forall w | w in all && w !in some :: Target(g, w).None?
    ensures Reach(g, some) == Reach(g, all)
  {
    ReachIsClosed(g, some);
    ReachContainsRoots(g, some);
    ReachIsClosed(g, all);
    ReachContainsRoots(g, all);
    assert AllLand(g, all, Reach(g, some)) by {
      forall w | w in all
        ensures Lands(g, w, Reach(g, some))
      {
      }
    }
    ReachIsLeast(g, all, Reach(g, some));
    ReachIsLeast(g, some, Reach(g, all));
  }

  /** Handling threads forgets potential roots and nothing else. */
  lemma {:induction false} ForgettingKeeps(threads: map<ThreadId, ThreadState>, ids: seq<ThreadId>)
    ensures var after := ForgetPotentialRoots(threads, ids);
      && after.Keys == threads.Keys
      && forall t | t in threads :: after[t] == if t in ids then threads[t].(potentialRoots := []) else threads[t]
  {
    if ids != [] {
      ForgettingKeeps(threads, ids[..|ids|-1]);
    }
  }

  lemma {:induction false} WatchedPotentialRootsExact(threads: map<ThreadId, ThreadState>, ids: seq<ThreadId>, w: Addr)
    ensures w in WatchedPotentialRoots(threads, ids) <==> exists t :: t in ids && w in PotentialRoots(threads, t)
  {
    if ids != [] {
      WatchedPotentialRootsExact(threads, ids[..|ids|-1], w);
    }
  }

  /** The threads `ids` have been handled: their potential roots are queued and forgotten, and
      their stacks' kept slots are listed. */
  ghost predicate Handled(l: Layout, threads: map<ThreadId, ThreadState>, ids: seq<ThreadId>,
                          threads': map<ThreadId, ThreadState>, stackRoots: seq<(ThreadId, nat)>,
                          pending: set<Addr>, pending': set<Addr>)
  {
    && threads' == ForgetPotentialRoots(threads, ids)
    && stackRoots == StackRootList(l, threads, ids)
    && pending' == pending + WatchedPotentialRoots(threads, ids)
    && AllScannable(threads, ids)
  }

  lemma HandledStep(l: Layout, threads: map<ThreadId, ThreadState>, ids: seq<ThreadId>, id: ThreadId,
                    threads': map<ThreadId, ThreadState>, stackRoots: seq<(ThreadId, nat)>,
                    pending: set<Addr>, pending': set<Addr>)
    requires Handled(l, threads, ids, threads', stackRoots, pending, pending')
    requires id in threads ==> threads[id].Scannable()
    ensures Handled(l, threads, ids + [id],
                    WithoutPotentialRoots(threads', id), stackRoots + StackRootsOf(l, threads', id),
                    pending, pending' + PotentialRoots(threads', id))
  {
    assert (ids + [id])[..|ids|] == ids;
    ForgettingKeeps(threads, ids);
    assert KeptOf(l, threads', id) == KeptOf(l, threads, id);
    if id in ids {
      forall w | w in PotentialRoots(threads, id)
        ensures w in WatchedPotentialRoots(threads, ids)
      {
        WatchedPotentialRootsExact(threads, ids, w);
      }
    }
  }

  /** No more addresses are queued than the threads hold potential roots. */
  lemma {:induction false} QueueSize(threads: map<ThreadId, ThreadState>, ids: seq<ThreadId>)
    ensures |WatchedPotentialRoots(threads, ids)| <= PotentialCount(threads, ids)
  {
    if ids != [] {
      var front, last := ids[..|ids|-1], ids[|ids|-1];
      QueueSize(threads, front);
      if last in threads {
        SetOfSeqSize(threads[last].potentialRoots);
      }
      UnionSize(WatchedPotentialRoots(threads, front), PotentialRoots(threads, last));
    }
  }

  lemma UnionSize(a: set<Addr>, b: set<Addr>)
    ensures |a + b| <= |a| + |b|
  {
    assert a + b == a + (b - a);
    assert b == (b - a) + (b * a);
  }
}

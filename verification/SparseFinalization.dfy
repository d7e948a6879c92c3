/**
 Finalizing swept sparse objects: what the gc thread does at once (gc_thread_t::_finalize),
 what it leaves to a mutator (objects whose finalizer may not run in an arbitrary thread), and
 what that mutator does (cgc1/src/sparse_finalization.hpp).
 */
module SparseFinalization {
  import opened Heap

  /** One thing finalization did to the object whose state lies at `os`. */
  datatype FinalizerEvent = Called(os: Addr) | Zeroed(os: Addr)

  /** The object has a finalizer of its own. */
  predicate HasFinalizer(o: SparseObject) {
    o.userData.Some? && !o.userData.value.isDefault && o.userData.value.hasFinalizer
  }

  /** Its finalizer must not run in the gc thread. */
  predicate Restricted(o: SparseObject) {
    HasFinalizer(o) && !o.userData.value.anyThread
  }

  predicate Finalizable(sparse: map<Addr, SparseObject>, os: Addr) {
    os in sparse && HasFinalizer(sparse[os])
  }

  predicate IsRestricted(sparse: map<Addr, SparseObject>, os: Addr) {
    os in sparse && Restricted(sparse[os])
  }

  function Zeros(n: nat): seq<Addr> {
    seq(n, _ => 0)
  }

  function Wiped(o: SparseObject): SparseObject {
    o.(words := Zeros(|o.words|))
  }

  /** A wiped object has as many words as before, all of them 0; nothing else about it differs. */
  lemma WipedIsZero(o: SparseObject)
    ensures |Wiped(o).words| == |o.words| && forall i | 0 <= i < |o.words| :: Wiped(o).words[i] == 0
    ensures Wiped(o) == o.(words := Wiped(o).words)
  {
  }

  /** Finalizing one object on the spot. */
  function EventsOf(sparse: map<Addr, SparseObject>, os: Addr): seq<FinalizerEvent> {
    (if Finalizable(sparse, os) then [Called(os)] else []) + [Zeroed(os)]
  }

  /** What the gc thread does with its to-be-freed list. */
  function GcEvents(sparse: map<Addr, SparseObject>, list: seq<Addr>): seq<FinalizerEvent> {
    if list == [] then [] else
    var last := list[|list|-1];
    GcEvents(sparse, list[..|list|-1]) + if IsRestricted(sparse, last) then [] else EventsOf(sparse, last)
  }

  /** The part of the list that the gc thread defers. */
  function Deferred(sparse: map<Addr, SparseObject>, list: seq<Addr>): seq<Addr> {
    if list == [] then [] else
    var last := list[|list|-1];
    Deferred(sparse, list[..|list|-1]) + if IsRestricted(sparse, last) then [last] else []
  }

  /** What a mutator does with the deferred objects it has taken. */
  function LocalEvents(sparse: map<Addr, SparseObject>, list: seq<Addr>): seq<FinalizerEvent> {
    if list == [] then [] else
    LocalEvents(sparse, list[..|list|-1]) + EventsOf(sparse, list[|list|-1])
  }

  /** The gc thread calls exactly those finalizers of listed objects that may run in any thread. */
  lemma {:induction false} GcThreadCalls(sparse: map<Addr, SparseObject>, list: seq<Addr>, os: Addr)
    ensures Called(os) in GcEvents(sparse, list) <==>
            && os in list && os in sparse && sparse[os].userData.Some? && !sparse[os].userData.value.isDefault
            && sparse[os].userData.value.hasFinalizer && sparse[os].userData.value.anyThread
  {
    if list != [] {
      GcThreadCalls(sparse, list[..|list|-1], os);
    }
  }

  /** It defers exactly the listed objects whose finalizer may not. */
  lemma {:induction false} GcThreadDefers(sparse: map<Addr, SparseObject>, list: seq<Addr>, os: Addr)
    ensures os in Deferred(sparse, list) <==>
            && os in list && os in sparse && sparse[os].userData.Some? && !sparse[os].userData.value.isDefault
            && sparse[os].userData.value.hasFinalizer && !sparse[os].userData.value.anyThread
  {
    if list != [] {
      GcThreadDefers(sparse, list[..|list|-1], os);
    }
  }

  /** The part of the list that the gc thread finishes itself. */
  function Finished(sparse: map<Addr, SparseObject>, list: seq<Addr>): seq<Addr> {
    if list == [] then [] else
    var last := list[|list|-1];
    Finished(sparse, list[..|list|-1]) + if IsRestricted(sparse, last) then [] else [last]
  }

  ghost function Occurrences(events: seq<FinalizerEvent>, e: FinalizerEvent): nat {
    multiset(events)[e]
  }

  /** No zeroing of an object that has a finalizer comes before a call of it. */
  ghost predicate CallsComeFirst(sparse: map<Addr, SparseObject>, events: seq<FinalizerEvent>) {
    forall j :: 0 <= j < |events| && events[j].Zeroed? && Finalizable(sparse, events[j].os) ==>
      exists i :: 0 <= i < j && events[i] == Called(events[j].os)
  }

  lemma CallsComeFirstConcat(sparse: map<Addr, SparseObject>, a: seq<FinalizerEvent>, b: seq<FinalizerEvent>)
    requires CallsComeFirst(sparse, a) && CallsComeFirst(sparse, b)
    ensures CallsComeFirst(sparse, a + b)
  {
    var ab := a + b;
    forall j | 0 <= j < |ab| && ab[j].Zeroed? && Finalizable(sparse, ab[j].os)
      ensures exists i :: 0 <= i < j && ab[i] == Called(ab[j].os)
    {
      if j < |a| {
        var i :| 0 <= i < j && a[i] == Called(a[j].os);
        assert ab[i] == Called(ab[j].os);
      } else {
        var i :| 0 <= i < j - |a| && b[i] == Called(b[j - |a|].os);
        assert ab[|a| + i] == Called(ab[j].os);
      }
    }
  }

  lemma EventsOfCounts(sparse: map<Addr, SparseObject>, os: Addr, e: FinalizerEvent)
    ensures Occurrences(EventsOf(sparse, os), e) ==
            if e == Zeroed(os) then 1 else if e == Called(os) && Finalizable(sparse, os) then 1 else 0
    ensures CallsComeFirst(sparse, EventsOf(sparse, os))
  {
    if Finalizable(sparse, os) {
      assert EventsOf(sparse, os) == [Called(os), Zeroed(os)];
    } else {
      assert EventsOf(sparse, os) == [Zeroed(os)];
    }
  }

  lemma {:induction false} LocalEventsCounts(sparse: map<Addr, SparseObject>, list: seq<Addr>, os: Addr)
    ensures Occurrences(LocalEvents(sparse, list), Zeroed(os)) == multiset(list)[os]
    ensures Occurrences(LocalEvents(sparse, list), Called(os)) ==
            if Finalizable(sparse, os) then multiset(list)[os] else 0
    ensures CallsComeFirst(sparse, LocalEvents(sparse, list))
  {
    if list != [] {
      var last, front := list[|list|-1], list[..|list|-1];
      assert list == front + [last];
      LocalEventsCounts(sparse, front, os);
      EventsOfCounts(sparse, last, Zeroed(os));
      EventsOfCounts(sparse, last, Called(os));
      CallsComeFirstConcat(sparse, LocalEvents(sparse, front), EventsOf(sparse, last));
    }
  }

  /** The gc thread treats what it does not defer exactly as a mutator would. */
  lemma {:induction false} GcEventsAreLocalEventsOfFinished(sparse: map<Addr, SparseObject>, list: seq<Addr>)
    ensures GcEvents(sparse, list) == LocalEvents(sparse, Finished(sparse, list))
  {
    if list != [] {
      var last, front := list[|list|-1], list[..|list|-1];
      var f := Finished(sparse, front);
      GcEventsAreLocalEventsOfFinished(sparse, front);
      if IsRestricted(sparse, last) {
        assert Finished(sparse, list) == f;
      } else {
        assert Finished(sparse, list) == f + [last];
        assert (f + [last])[..|f|] == f;
        assert LocalEvents(sparse, f + [last]) == LocalEvents(sparse, f) + EventsOf(sparse, last);
      }
    }
  }

  /** Deferring splits the list by whether the finalizer is restricted; nothing gets lost. */
  lemma {:induction false} DeferringPartitions(sparse: map<Addr, SparseObject>, list: seq<Addr>, os: Addr)
    ensures multiset(Finished(sparse, list))[os] == if IsRestricted(sparse, os) then 0 else multiset(list)[os]
    ensures multiset(Deferred(sparse, list))[os] == if IsRestricted(sparse, os) then multiset(list)[os] else 0
  {
    if list != [] {
      var last, front := list[|list|-1], list[..|list|-1];
      assert list == front + [last];
      DeferringPartitions(sparse, front, os);
    }
  }

  /** Over the gc thread's finalization of `list` and the later handling of what it deferred and of
      what was deferred earlier, each of these objects is zeroed once, its finalizer is called once
      if it has one, never after the zeroing, and a restricted finalizer is not called by the gc
      thread.  No other object is zeroed, and no other finalizer called. */
  lemma FinalizedOnce(sparse: map<Addr, SparseObject>, earlier: seq<Addr>, list: seq<Addr>, os: Addr)
    requires NoRepeats(earlier + list)
    ensures var all := GcEvents(sparse, list) + LocalEvents(sparse, earlier + Deferred(sparse, list));
            && Occurrences(all, Zeroed(os)) == (if os in earlier + list then 1 else 0)
            && Occurrences(all, Called(os)) == (if os in earlier + list && Finalizable(sparse, os) then 1 else 0)
            && CallsComeFirst(sparse, all)
    ensures IsRestricted(sparse, os) ==> Occurrences(GcEvents(sparse, list), Called(os)) == 0
  {
    hide GcEvents, LocalEvents, Finished, Deferred, CallsComeFirst, NoRepeats, Finalizable, IsRestricted;
    var finished, later := Finished(sparse, list), earlier + Deferred(sparse, list);
    GcEventsAreLocalEventsOfFinished(sparse, list);
    LocalEventsCounts(sparse, finished, os);
    LocalEventsCounts(sparse, later, os);
    DeferringPartitions(sparse, list, os);
    DistinctCount(earlier + list, os);
    RestrictedIsFinalizable(sparse, os);
    CallsComeFirstConcat(sparse, LocalEvents(sparse, finished), LocalEvents(sparse, later));
  }

  lemma RestrictedIsFinalizable(sparse: map<Addr, SparseObject>, os: Addr)
    ensures IsRestricted(sparse, os) ==> Finalizable(sparse, os)
  {
  }

  lemma {:induction false} DistinctCount(list: seq<Addr>, os: Addr)
    requires NoRepeats(list)
    ensures multiset(list)[os] == if os in list then 1 else 0
  {
    if list != [] {
      var last, front := list[|list|-1], list[..|list|-1];
      assert list == front + [last];
      DistinctCount(front, os);
    }
  }

  /** Splitting the deferred objects into batches changes nothing. */
  lemma {:induction false} LocalEventsConcat(sparse: map<Addr, SparseObject>, a: seq<Addr>, b: seq<Addr>)
    ensures LocalEvents(sparse, a + b) == LocalEvents(sparse, a) + LocalEvents(sparse, b)
  {
    if b == [] {
      assert a + b == a;
    } else {
      var front := b[..|b|-1];
      assert (a + b)[..|a + b|-1] == a + front;
      LocalEventsConcat(sparse, a, front);
    }
  }

  /** The heap after the memory of every object of `list` has been zeroed. */
  function WipeAll(sparse: map<Addr, SparseObject>, list: seq<Addr>): map<Addr, SparseObject> {
    if list == [] then sparse else
    var before, os := WipeAll(sparse, list[..|list|-1]), list[|list|-1];
    if os in before then before[os := Wiped(before[os])] else before
  }

  lemma {:induction false} WipeAllExact(sparse: map<Addr, SparseObject>, list: seq<Addr>)
    ensures var after := WipeAll(sparse, list);
      && after.Keys == sparse.Keys
      && forall os | os in sparse :: after[os] == if os in list then Wiped(sparse[os]) else sparse[os]
  {
    if list != [] {
      WipeAllExact(sparse, list[..|list|-1]);
    }
  }

  /** In words: listed objects end up with as many words as before, all 0, and nothing else changes. */
  lemma WipeAllIsZero(sparse: map<Addr, SparseObject>, list: seq<Addr>)
    ensures var after := WipeAll(sparse, list);
      && after.Keys == sparse.Keys
      && (forall os | os in sparse && os !in list :: after[os] == sparse[os])
      && (forall os | os in sparse && os in list ::
            after[os] == sparse[os].(words := after[os].words) && |after[os].words| == |sparse[os].words|)
      && (forall os, i | os in sparse && os in list && 0 <= i < |after[os].words| :: after[os].words[i] == 0)
  {
    WipeAllExact(sparse, list);
  }

  /** Where the objects' memory starts: what the collector reports as freed. */
  function Starts(stateBytes: nat, list: seq<Addr>): seq<Addr> {
    seq(|list|, i requires 0 <= i < |list| => list[i] + stateBytes)
  }

  /** The gc thread has finalized `done`. */
  ghost predicate GcFinalized(sparse: map<Addr, SparseObject>, done: seq<Addr>, sparse': map<Addr, SparseObject>,
                              events: seq<FinalizerEvent>, deferred: seq<Addr>, finished: seq<Addr>)
  {
    && sparse' == WipeAll(sparse, Finished(sparse, done))
    && events == GcEvents(sparse, done)
    && deferred == Deferred(sparse, done)
    && finished == Finished(sparse, done)
  }

  lemma GcFinalizedStep(sparse: map<Addr, SparseObject>, done: seq<Addr>, os: Addr, sparse': map<Addr, SparseObject>,
                        events: seq<FinalizerEvent>, deferred: seq<Addr>, finished: seq<Addr>)
    requires os in sparse && GcFinalized(sparse, done, sparse', events, deferred, finished)
    ensures os in sparse' && sparse'[os].userData == sparse[os].userData
    ensures if IsRestricted(sparse, os)
            then GcFinalized(sparse, done + [os], sparse', events, deferred + [os], finished)
            else GcFinalized(sparse, done + [os], sparse'[os := Wiped(sparse'[os])], events + EventsOf(sparse, os),
                             deferred, finished + [os])
  {
    assert (done + [os])[..|done|] == done;
    WipeAllExact(sparse, Finished(sparse, done));
    assert (finished + [os])[..|finished|] == finished;
    if IsRestricted(sparse, os) {
      assert Finished(sparse, done + [os]) == finished;
      assert GcEvents(sparse, done + [os]) == events;
    } else {
      assert Finished(sparse, done + [os]) == finished + [os];
      assert Deferred(sparse, done + [os]) == deferred;
    }
  }

  lemma SameEvents(a: map<Addr, SparseObject>, b: map<Addr, SparseObject>, os: Addr)
    requires os in a && os in b && a[os].userData == b[os].userData
    ensures EventsOf(a, os) == EventsOf(b, os) && IsRestricted(a, os) == IsRestricted(b, os)
  {
  }

  /** A mutator has finalized `done`. */
  ghost predicate LocallyFinalized(sparse: map<Addr, SparseObject>, done: seq<Addr>, sparse': map<Addr, SparseObject>,
                                   events: seq<FinalizerEvent>)
  {
    && sparse' == WipeAll(sparse, done)
    && events == LocalEvents(sparse, done)
  }

  lemma LocallyFinalizedStep(sparse: map<Addr, SparseObject>, done: seq<Addr>, os: Addr,
                             sparse': map<Addr, SparseObject>,
                             events: seq<FinalizerEvent>)
    requires os in sparse && LocallyFinalized(sparse, done, sparse', events)
    ensures os in sparse' && sparse'[os].userData == sparse[os].userData
    ensures LocallyFinalized(sparse, done + [os], sparse'[os := Wiped(sparse'[os])], events + EventsOf(sparse, os))
  {
    assert (done + [os])[..|done|] == done;
    WipeAllExact(sparse, done);
  }

  /** The heaps agree on which objects there are and on their user data. */
  ghost predicate SameUserData(a: map<Addr, SparseObject>, b: map<Addr, SparseObject>) {
    a.Keys == b.Keys && forall os | os in a :: a[os].userData == b[os].userData
  }

  /** What finalization does depends on nothing else. */
  lemma {:induction false} EventsDependOnUserData(a: map<Addr, SparseObject>, b: map<Addr, SparseObject>,
                                                  list: seq<Addr>)
    requires SameUserData(a, b)
    ensures GcEvents(a, list) == GcEvents(b, list) && LocalEvents(a, list) == LocalEvents(b, list)
    ensures Deferred(a, list) == Deferred(b, list) && Finished(a, list) == Finished(b, list)
  {
    if list != [] {
      EventsDependOnUserData(a, b, list[..|list|-1]);
    }
  }

  lemma {:induction false} SplitAppend(sparse: map<Addr, SparseObject>, a: seq<Addr>, b: seq<Addr>)
    ensures Deferred(sparse, a + b) == Deferred(sparse, a) + Deferred(sparse, b)
    ensures Finished(sparse, a + b) == Finished(sparse, a) + Finished(sparse, b)
  {
    if b == [] {
      assert a + b == a;
    } else {
      var front := b[..|b|-1];
      SplitAppend(sparse, a, front);
      assert (a + b)[..|a + b|-1] == a + front;
      assert (a + b)[|a + b|-1] == b[|b|-1];
    }
  }

  /** Finalizing one list after another is finalizing both together. */
  lemma GcEventsAppend(sparse: map<Addr, SparseObject>, a: seq<Addr>, b: seq<Addr>)
    ensures GcEvents(sparse, a + b) == GcEvents(sparse, a) + GcEvents(sparse, b)
  {
    hide Finished, GcEvents, LocalEvents;
    SplitAppend(sparse, a, b);
    GcEventsAreLocalEventsOfFinished(sparse, a);
    GcEventsAreLocalEventsOfFinished(sparse, b);
    GcEventsAreLocalEventsOfFinished(sparse, a + b);
    LocalEventsConcat(sparse, Finished(sparse, a), Finished(sparse, b));
  }

  lemma {:induction false} WipeAllAppend(sparse: map<Addr, SparseObject>, a: seq<Addr>, b: seq<Addr>)
    ensures WipeAll(sparse, a + b) == WipeAll(WipeAll(sparse, a), b)
  {
    if b == [] {
      assert a + b == a;
    } else {
      assert (a + b)[..|a + b|-1] == a + b[..|b|-1];
      WipeAllAppend(sparse, a, b[..|b|-1]);
    }
  }

  /** The gc threads have finalized the first lists. */
  ghost predicate TeamFinalized(sparse0: map<Addr, SparseObject>, done: seq<Addr>, sparse: map<Addr, SparseObject>,
                                events: seq<FinalizerEvent>, deferred: seq<Addr>)
  {
    && SameUserData(sparse0, sparse)
    && sparse == WipeAll(sparse0, Finished(sparse0, done))
    && events == GcEvents(sparse0, done)
    && deferred == Deferred(sparse0, done)
  }

  lemma TeamFinalizedStep(sparse0: map<Addr, SparseObject>, done: seq<Addr>, list: seq<Addr>,
                          sparse: map<Addr, SparseObject>,
                          events: seq<FinalizerEvent>, deferred: seq<Addr>)
    requires TeamFinalized(sparse0, done, sparse, events, deferred) && forall os | os in list :: os in sparse0
    ensures forall os | os in list :: os in sparse
    ensures TeamFinalized(sparse0, done + list, WipeAll(sparse, Finished(sparse, list)),
                          events + GcEvents(sparse, list), deferred + Deferred(sparse, list))
  {
    hide Finished, GcEvents, Deferred, WipeAll;
    EventsDependOnUserData(sparse0, sparse, list);
    GcEventsAppend(sparse0, done, list);
    SplitAppend(sparse0, done, list);
    WipeAllAppend(sparse0, Finished(sparse0, done), Finished(sparse0, list));
    WipeAllExact(sparse0, Finished(sparse0, done + list));
  }

  /** The whole effect of finalizing `list`: its objects, and only they, are zeroed once, after
      one call of their finalizer if they have one; nothing else has changed. */
  ghost predicate FinalizedExactly(before: map<Addr, SparseObject>, after: map<Addr, SparseObject>, list: seq<Addr>,
                                   events: seq<FinalizerEvent>)
  {
    && after.Keys == before.Keys
    && (forall os | os in before && os !in list :: after[os] == before[os])
    && (forall os | os in before && os in list ::
          after[os] == before[os].(words := after[os].words) && |after[os].words| == |before[os].words|)
    && (forall os, i | os in before && os in list && 0 <= i < |after[os].words| :: after[os].words[i] == 0)
    && CallsComeFirst(before, events)
    && (forall os :: Occurrences(events, Zeroed(os)) == if os in list then 1 else 0)
    && (forall os :: Occurrences(events, Called(os)) == if os in list && Finalizable(before, os) then 1 else 0)
  }

  /** With everything on the gc threads' lists, everything they deferred and everything deferred
      earlier dealt with. */
  lemma AllFinalized(sparse0: map<Addr, SparseObject>, earlier: seq<Addr>, list: seq<Addr>,
                     sparse: map<Addr, SparseObject>, events: seq<FinalizerEvent>, deferred: seq<Addr>)
    requires TeamFinalized(sparse0, list, sparse, events, deferred) && NoRepeats(earlier + list)
    requires forall os | os in earlier + list :: os in sparse0
    ensures forall os | os in earlier + deferred :: os in sparse
    ensures FinalizedExactly(sparse0, WipeAll(sparse, earlier + deferred), earlier + list,
                             events + LocalEvents(sparse, earlier + deferred))
  {
    hide Finished, GcEvents, LocalEvents, WipeAll, NoRepeats, CallsComeFirst, Occurrences, Wiped, Finalizable;
    EventsDependOnUserData(sparse0, sparse, earlier + deferred);
    DeferredAreRestricted(sparse0, list);
    WipeAllAppend(sparse0, Finished(sparse0, list), earlier + deferred);
    WipeAllExact(sparse0, Finished(sparse0, list) + (earlier + deferred));
    forall os
      ensures var all := events + LocalEvents(sparse, earlier + deferred);
        && CallsComeFirst(sparse0, all)
        && Occurrences(all, Zeroed(os)) == (if os in earlier + list then 1 else 0)
        && Occurrences(all, Called(os)) == (if os in earlier + list && Finalizable(sparse0, os) then 1 else 0)
      ensures os in earlier + list <==> os in Finished(sparse0, list) + (earlier + deferred)
    {
      FinalizedOnce(sparse0, earlier, list, os);
      ListedSomewhere(sparse0, list, os);
    }
    WipeAllIsZero(sparse0, Finished(sparse0, list) + (earlier + deferred));
    assert WipeAll(sparse, earlier + deferred) == WipeAll(sparse0, Finished(sparse0, list) + (earlier + deferred));
  }

  lemma {:induction false} DeferredAreRestricted(sparse: map<Addr, SparseObject>, list: seq<Addr>)
    ensures forall os | os in Deferred(sparse, list) :: os in list && IsRestricted(sparse, os)
  {
    if list != [] {
      DeferredAreRestricted(sparse, list[..|list|-1]);
    }
  }

  lemma ListedSomewhere(sparse: map<Addr, SparseObject>, list: seq<Addr>, os: Addr)
    ensures os in list <==> os in Finished(sparse, list) + Deferred(sparse, list)
  {
    DeferringPartitions(sparse, list, os);
    assert os in list <==> os in multiset(list);
    assert os in Finished(sparse, list) <==> os in multiset(Finished(sparse, list));
    assert os in Deferred(sparse, list) <==> os in multiset(Deferred(sparse, list));
  }
}

/**
 One collection's work on both heaps: set up the gc threads, clear, mark, sweep, finalize
 (cgc1/src/global_kernel_state.cpp, force_collect from the resetting of the counters on, and the
 finalization that follows).  The world is stopped and the phases are separated by barriers; modules
 WorldStop and Handshake show that.  Within a phase the gc threads are run one after the other
 here; module ParallelMark lets them interleave.
 */
module Collection {
  import opened Heap
  import opened Reachability
  import opened StackScan
  import opened SparseFinalization
  import opened SweepSpec
  import opened Setup
  import opened Kernel
  import opened GcThread
  import B = BitmapFinalization
  import P = ParallelMark

  /** Gc threads working for one kernel, no two of them the same. */
  ghost predicate Team(gks: Kernel, team: seq<GcThread>) {
    && |team| > 0
    && NoRepeats(team)
    && forall j | 0 <= j < |team| :: team[j].gks == gks
  }

  /** Every word through which the program may refer to an object. */
  ghost function AllRoots(threads: map<ThreadId, ThreadState>, roots: seq<Addr>, rootRanges: seq<seq<Addr>>): set<Addr>
  {
    (set id, w | id in threads && w in ThreadWords(threads, id) :: w) + Elements(roots) + Elements(Concat(rootRanges))
  }

  /** The root words are the words of every registered thread, all roots, and all words of the root
      ranges. */
  lemma RootWordsAre(threads: map<ThreadId, ThreadState>, roots: seq<Addr>, rootRanges: seq<seq<Addr>>, w: Addr)
    ensures w in AllRoots(threads, roots, rootRanges) <==>
      || (exists id :: id in threads && w in ThreadWords(threads, id))
      || w in roots
      || (exists j :: 0 <= j < |rootRanges| && w in rootRanges[j])
  {
    hide ThreadWords;
    ConcatMember(rootRanges, w);
  }

  /** What one gc thread has been told to do. */
  datatype Share = Share(watch: seq<ThreadId>, blocks: seq<seq<Addr>>, roots: seq<Addr>, rootRanges: seq<seq<Addr>>)

  ghost function RootsOf(threads: map<ThreadId, ThreadState>, share: Share): set<Addr> {
    WatchedWords(threads, share.watch) + Elements(share.roots) + Elements(Concat(share.rootRanges))
  }

  ghost function UnionOf(sets: seq<set<Addr>>): set<Addr> {
    if sets == [] then {} else UnionOf(sets[..|sets|-1]) + sets[|sets|-1]
  }

  lemma {:induction false} UnionOfExact(sets: seq<set<Addr>>, w: Addr)
    ensures w in UnionOf(sets) <==> exists j :: 0 <= j < |sets| && w in sets[j]
  {
    if sets != [] {
      UnionOfExact(sets[..|sets|-1], w);
    }
  }

  lemma UnionOfSnoc(sets: seq<set<Addr>>, i: nat)
    requires i < |sets|
    ensures UnionOf(sets[..i+1]) == UnionOf(sets[..i]) + sets[i]
  {
    assert sets[..i+1][..i] == sets[..i];
  }

  /** The clear phase: every mark of both heaps, however stale, is gone. */
  method ClearPhase(gks: Kernel, team: seq<GcThread>, ghost parts: seq<seq<seq<Addr>>>)
    requires Team(gks, team) && |parts| == |team|
    requires forall j | 0 <= j < |team| :: team[j].blocks == parts[j]
    requires forall os :: os in Concat(Concat(parts)) <==> os in gks.sparse
    modifies gks`sparse, gks`slabs
    ensures gks.View() == old(gks.View()) && gks.Marks() == {}
  {
    hide MarksOf, EraseMarks, Nodes;
    ghost var done: seq<Addr> := [];
    var i := 0;
    while i < |team|
      invariant i <= |team| && done == Concat(Concat(parts[..i]))
      invariant gks.View() == old(gks.View()) && gks.sparse.Keys == old(gks.sparse.Keys)
      invariant gks.Marks() == old(gks.Marks()) - SparseObjects(done)
    {
      ConcatPieces(parts, i);
      assert forall os | os in Concat(parts[i]) :: os in Concat(Concat(parts[..i+1]));
      team[i].ClearMarks();
      assert SparseObjects(done + Concat(parts[i])) == SparseObjects(done) + SparseObjects(Concat(parts[i]));
      done := done + Concat(parts[i]);
      i := i + 1;
    }
    assert parts[..i] == parts;
    forall o | o in old(gks.Marks()) && o.Sparse?
      ensures o in SparseObjects(done)
    {
      MarksOfErased(old(Image(gks.layout, gks.sparse, gks.slabs)), o);
    }
    gks.ClearAllSlabMarks();
  }

  /** Where the marking phase stands after the first `i` gc threads. */
  ghost predicate Shared(threads: map<ThreadId, ThreadState>, shares: seq<Share>, current: map<ThreadId, ThreadState>,
                         i: nat)
  {
    && current.Keys == threads.Keys
    && (forall id | id in threads :: current[id].WellFormed() && current[id].Scannable() == threads[id].Scannable())
    && (forall j, id | i <= j < |shares| && id in shares[j].watch && id in threads :: current[id] == threads[id])
    && (forall j, id | 0 <= j < |shares| && j < i && id in shares[j].watch && id in threads ::
          current[id] == threads[id].(potentialRoots := []))
  }

  /** No thread is on two watch lists. */
  ghost predicate WatchedOnce(shares: seq<Share>) {
    forall j, k, id | 0 <= j < k < |shares| && id in shares[j].watch :: id !in shares[k].watch
  }

  ghost predicate SomeUnscannable(threads: map<ThreadId, ThreadState>, shares: seq<Share>) {
    exists j :: 0 <= j < |shares| && !AllScannable(threads, shares[j].watch)
  }

  lemma SharedStep(threads: map<ThreadId, ThreadState>, shares: seq<Share>, current: map<ThreadId, ThreadState>, i: nat)
    requires i < |shares| && WatchedOnce(shares) && Shared(threads, shares, current, i)
    ensures WatchedWords(current, shares[i].watch) == WatchedWords(threads, shares[i].watch)
    ensures AllScannable(current, shares[i].watch) == AllScannable(threads, shares[i].watch)
    ensures Shared(threads, shares, ForgetPotentialRoots(current, shares[i].watch), i + 1)
    ensures forall id | id in current :: current[id].WellFormed()
  {
    ForgettingKeeps(current, shares[i].watch);
    forall id | id in shares[i].watch
      ensures ThreadWords(current, id) == ThreadWords(threads, id)
    {
    }
  }

  /** The mark phase: exactly what the shares' roots reach gets marked. */
  method MarkPhase(gks: Kernel, team: seq<GcThread>, ghost shares: seq<Share>, ghost roots: seq<set<Addr>>)
    returns (aborted: bool)
    requires Team(gks, team) && |shares| == |team| == |roots| && WatchedOnce(shares)
    requires gks.Valid() && gks.Marks() == {}
    requires forall id | id in gks.threads :: gks.threads[id].WellFormed()
    requires forall j | 0 <= j < |team| ::
      && team[j].watched == shares[j].watch && team[j].roots == shares[j].roots
      && team[j].rootRanges == shares[j].rootRanges
      && team[j].pending == {} && team[j].stackRoots == []
      && roots[j] == RootsOf(gks.threads, shares[j])
    modifies gks`sparse, gks`slabs, gks`threads
    modifies team`pending, team`stackRoots, team`calls, team`deepest
    ensures gks.View() == old(gks.View())
    ensures aborted <==> SomeUnscannable(old(gks.threads), shares)
    ensures !aborted ==> gks.Marks() == Reach(gks.View(), UnionOf(roots))
    ensures !aborted ==> Shared(old(gks.threads), shares, gks.threads, |shares|)
  {
    hide Shared, MarksOf, EraseMarks, Nodes, WellFormed, Reach, Closed, MarkedSoFar, AllScannable, SomeUnscannable,
      RootsOf, WatchedWords, Elements, Concat, ForgetPotentialRoots, StackRootList, PotentialCount, WordCount;
    ghost var g, threads0 := gks.View(), gks.threads;
    aborted := false;
    NothingMarked(g, threads0, shares, roots);
    var i := 0;
    while i < |team|
      invariant i <= |team| && gks.View() == g
      invariant MarkedSoFar(g, threads0, shares, roots, i, gks.threads, gks.Marks())
      invariant forall j | i <= j < |team| :: team[j].pending == {} && team[j].stackRoots == []
    {
      MarkOneMore(g, threads0, shares, roots, i, gks.threads, gks.Marks());
      RootWordsOfShare(team[i], shares[i]);
      aborted := team[i].Mark();
      if aborted {
        return;
      }
      i := i + 1;
    }
    AllMarked(g, threads0, shares, roots, gks.threads, gks.Marks());
  }

  lemma RootWordsOfShare(t: GcThread, share: Share)
    requires t.watched == share.watch && t.roots == share.roots && t.rootRanges == share.rootRanges && t.pending == {}
    ensures t.RootWords() == RootsOf(t.gks.threads, share)
  {
  }

  /** The first `i` gc threads have marked. */
  ghost predicate MarkedSoFar(g: Image, threads: map<ThreadId, ThreadState>, shares: seq<Share>, roots: seq<set<Addr>>,
                              i: nat, current: map<ThreadId, ThreadState>, marks: set<Obj>)
  {
    && i <= |shares| == |roots|
    && Shared(threads, shares, current, i)
    && marks == Reach(g, UnionOf(roots[..i]))
    && forall j | 0 <= j < i :: AllScannable(threads, shares[j].watch)
  }

  lemma NothingMarked(g: Image, threads: map<ThreadId, ThreadState>, shares: seq<Share>, roots: seq<set<Addr>>)
    requires |shares| == |roots| && forall id | id in threads :: threads[id].WellFormed()
    ensures MarkedSoFar(g, threads, shares, roots, 0, threads, {})
  {
    NothingReached(g);
    assert roots[..0] == [];
  }

  lemma MarkOneMore(g: Image, threads: map<ThreadId, ThreadState>, shares: seq<Share>, roots: seq<set<Addr>>, i: nat,
                    current: map<ThreadId, ThreadState>, marks: set<Obj>)
    requires i < |shares| && WatchedOnce(shares) && MarkedSoFar(g, threads, shares, roots, i, current, marks)
    requires roots[i] == RootsOf(threads, shares[i])
    ensures Closed(g, marks) && RootsOf(current, shares[i]) == roots[i]
    ensures forall id | id in current :: current[id].WellFormed()
    ensures !AllScannable(current, shares[i].watch) ==> SomeUnscannable(threads, shares)
    ensures AllScannable(current, shares[i].watch) ==>
      MarkedSoFar(g, threads, shares, roots, i + 1,
                  ForgetPotentialRoots(current, shares[i].watch), marks + Reach(g, roots[i]))
  {
    hide Reach;
    SharedStep(threads, shares, current, i);
    ReachIsClosed(g, UnionOf(roots[..i]));
    ReachOfUnion(g, UnionOf(roots[..i]), roots[i]);
    UnionOfSnoc(roots, i);
  }

  lemma AllMarked(g: Image, threads: map<ThreadId, ThreadState>, shares: seq<Share>, roots: seq<set<Addr>>,
                  current: map<ThreadId, ThreadState>, marks: set<Obj>)
    requires MarkedSoFar(g, threads, shares, roots, |shares|, current, marks)
    ensures marks == Reach(g, UnionOf(roots)) && !SomeUnscannable(threads, shares)
    ensures Shared(threads, shares, current, |shares|)
  {
    assert roots[..|shares|] == roots;
  }

  lemma NothingReached(g: Image)
    ensures Reach(g, UnionOf([])) == {}
  {
    assert Closed(g, {}) && AllLand(g, {}, {});
    ReachIsLeast(g, {}, {});
  }

  ghost function Lists(team: seq<GcThread>): seq<seq<Addr>>
    reads team
  {
    seq(|team|, j requires 0 <= j < |team| reads team => team[j].toBeFreed)
  }

  /** The sweep phase: together the gc threads sweep every block once. */
  method SweepPhase(gks: Kernel, team: seq<GcThread>, ghost parts: seq<seq<seq<Addr>>>)
    returns (ghost lists: seq<seq<Addr>>)
    requires Team(gks, team) && |parts| == |team|
    requires forall j | 0 <= j < |team| :: team[j].blocks == parts[j]
    requires NoRepeats(Concat(Concat(parts))) && forall os | os in Concat(Concat(parts)) :: os in gks.sparse
    modifies gks`sparse, gks`numFreed, team`toBeFreed
    ensures gks.sparse == Swept(old(gks.sparse), Concat(Concat(parts)))
    ensures |lists| == |team| && forall j | 0 <= j < |team| :: team[j].toBeFreed == old(team[j].toBeFreed) + lists[j]
    ensures Concat(lists) == ToBeFreed(old(gks.sparse), Concat(Concat(parts)))
    ensures gks.numFreed == old(gks.numFreed) + FreedCount(old(gks.sparse), Concat(Concat(parts)))
  {
    hide TeamSwept, NoRepeats, Concat, Swept, ToBeFreed, FreedCount;
    ghost var sparse0 := gks.sparse;
    ghost var freed: nat := 0;
    lists := [];
    NothingSwept(sparse0, parts);
    DifferentMembers(team);
    var i := 0;
    while i < |team|
      invariant i <= |team| && |lists| == i
      invariant forall j | 0 <= j < i :: team[j].toBeFreed == old(team[j].toBeFreed) + lists[j]
      invariant forall j | i <= j < |team| :: team[j].toBeFreed == old(team[j].toBeFreed)
      invariant TeamSwept(sparse0, parts, i, gks.sparse, lists, freed)
      invariant gks.numFreed == old(gks.numFreed) + freed
    {
      SweepOneMore(sparse0, parts, i, gks.sparse, lists, freed);
      ghost var list := ToBeFreed(gks.sparse, Concat(parts[i]));
      freed := freed + FreedCount(gks.sparse, Concat(parts[i]));
      team[i].Sweep();
      lists := lists + [list];
      i := i + 1;
    }
    AllSwept(sparse0, parts, gks.sparse, lists, freed);
  }

  lemma DifferentMembers(team: seq<GcThread>)
    requires NoRepeats(team)
    ensures forall i, j | 0 <= i < j < |team| :: team[i] != team[j]
  {
  }

  /** The first `i` gc threads have swept. */
  ghost predicate TeamSwept(sparse0: map<Addr, SparseObject>, parts: seq<seq<seq<Addr>>>, i: nat,
                            sparse: map<Addr, SparseObject>, lists: seq<seq<Addr>>, freed: nat)
  {
    && i <= |parts|
    && var done := Concat(Concat(parts[..i]));
       && sparse == Swept(sparse0, done)
       && Concat(lists) == ToBeFreed(sparse0, done)
       && freed == FreedCount(sparse0, done)
  }

  lemma NothingSwept(sparse0: map<Addr, SparseObject>, parts: seq<seq<seq<Addr>>>)
    ensures TeamSwept(sparse0, parts, 0, sparse0, [], 0)
  {
    assert parts[..0] == [];
    SweptNothing(sparse0);
  }

  lemma SweepOneMore(sparse0: map<Addr, SparseObject>, parts: seq<seq<seq<Addr>>>, i: nat,
                     sparse: map<Addr, SparseObject>, lists: seq<seq<Addr>>, freed: nat)
    requires i < |parts| && TeamSwept(sparse0, parts, i, sparse, lists, freed)
    requires NoRepeats(Concat(Concat(parts))) && forall os | os in Concat(Concat(parts)) :: os in sparse0
    ensures NoRepeats(Concat(parts[i])) && forall os | os in Concat(parts[i]) :: os in sparse
    ensures TeamSwept(sparse0, parts, i + 1, Swept(sparse, Concat(parts[i])),
                      lists + [ToBeFreed(sparse, Concat(parts[i]))],
                      freed + FreedCount(sparse, Concat(parts[i])))
  {
    var done, mine := Concat(Concat(parts[..i])), Concat(parts[i]);
    ConcatPieces(parts, i);
    PieceOfDistinct(Concat(Concat(parts)), done, mine);
    SweptExact(sparse0, done);
    SweepAfter(sparse0, done, mine);
    assert (lists + [ToBeFreed(sparse, mine)])[..|lists|] == lists;
  }

  lemma AllSwept(sparse0: map<Addr, SparseObject>, parts: seq<seq<seq<Addr>>>,
                 sparse: map<Addr, SparseObject>, lists: seq<seq<Addr>>, freed: nat)
    requires TeamSwept(sparse0, parts, |parts|, sparse, lists, freed)
    ensures var all := Concat(Concat(parts));
      sparse == Swept(sparse0, all) && Concat(lists) == ToBeFreed(sparse0, all) && freed == FreedCount(sparse0, all)
  {
    assert parts[..|parts|] == parts;
  }

  lemma PieceOfDistinct(all: seq<Addr>, done: seq<Addr>, mine: seq<Addr>)
    requires NoRepeats(all) && done + mine <= all
    ensures NoRepeats(mine) && forall os | os in mine :: os !in done && os in all
  {
    var n := |done|;
    assert forall i | 0 <= i < |mine| :: all[n + i] == mine[i];
    assert forall i | 0 <= i < n :: all[i] == done[i];
  }

  // The whole of it.

  /** Unreachable and in use: what the collector may free. */
  ghost predicate Garbage(o: SparseObject, reachable: bool) {
    o.inUse && !reachable
  }

  /** Freed on the spot: no user data, or only the block's default user data. */
  ghost predicate FreedAtOnce(o: SparseObject, reachable: bool) {
    Garbage(o, reachable) && (o.userData.None? || o.userData.value.isDefault)
  }

  /** Queued for finalization: user data of its own, and collectable. */
  ghost predicate Queued(o: SparseObject, reachable: bool) {
    Garbage(o, reachable) && o.userData.Some? && !o.userData.value.isDefault && !o.userData.value.uncollectable
  }

  ghost function FreedAtOnceSet(sparse: map<Addr, SparseObject>, live: set<Obj>): set<Addr> {
    set os | os in sparse && FreedAtOnce(sparse[os], Sparse(os) in live)
  }

  ghost function QueuedSet(sparse: map<Addr, SparseObject>, live: set<Obj>): set<Addr> {
    set os | os in sparse && Queued(sparse[os], Sparse(os) in live)
  }

  /** The sparse heap after a collection in which `live` was reachable. */
  ghost predicate SparseCollected(before: map<Addr, SparseObject>, after: map<Addr, SparseObject>, live: set<Obj>) {
    && after.Keys == before.Keys
    && forall os | os in before ::
         after[os] == if os in FreedAtOnceSet(before, live)
                      then before[os].(marked := false, inUse := false, quasiFreed := true)
                      else before[os].(marked := Sparse(os) in live)
  }

  /** The bitmap heap after marking in which `live` was reachable: only its mark bits differ. */
  ghost predicate SlabsMarked(before: map<Addr, Slab>, after: map<Addr, Slab>, live: set<Obj>) {
    && after.Keys == before.Keys
    && forall st | st in before ::
         && after[st].(marks := {}) == before[st].(marks := {})
         && forall index: nat | index < |before[st].slots| :: index in after[st].marks <==> Slot(st, index) in live
  }

  lemma MarkedSparse(before: Image, after: Image, live: set<Obj>)
    requires EraseMarks(after) == EraseMarks(before) && MarksOf(after) == live
    ensures after.sparse.Keys == before.sparse.Keys
    ensures forall os | os in before.sparse :: after.sparse[os] == before.sparse[os].(marked := Sparse(os) in live)
  {
    assert EraseMarks(after).sparse.Keys == after.sparse.Keys && EraseMarks(before).sparse.Keys == before.sparse.Keys;
    forall os | os in before.sparse
      ensures after.sparse[os] == before.sparse[os].(marked := Sparse(os) in live)
    {
      assert EraseMarks(after).sparse[os] == EraseMarks(before).sparse[os];
      assert Sparse(os) in Nodes(after);
    }
  }

  lemma MarkedSlabs(before: Image, after: Image, live: set<Obj>)
    requires EraseMarks(after) == EraseMarks(before) && MarksOf(after) == live
    ensures SlabsMarked(before.slabs, after.slabs, live)
  {
    assert EraseMarks(after).slabs.Keys == after.slabs.Keys && EraseMarks(before).slabs.Keys == before.slabs.Keys;
    forall st | st in before.slabs
      ensures after.slabs[st].(marks := {}) == before.slabs[st].(marks := {})
      ensures forall index: nat | index < |before.slabs[st].slots| ::
                index in after.slabs[st].marks <==> Slot(st, index) in live
    {
      assert EraseMarks(after).slabs[st] == EraseMarks(before).slabs[st];
      forall index: nat | index < |before.slabs[st].slots|
        ensures index in after.slabs[st].marks <==> Slot(st, index) in live
      {
        assert Slot(st, index) in Nodes(after);
      }
    }
  }

  lemma SweptIsCollected(before: map<Addr, SparseObject>, marked: map<Addr, SparseObject>, list: seq<Addr>,
                         live: set<Obj>)
    requires marked.Keys == before.Keys
    requires forall os | os in before :: marked[os] == before[os].(marked := Sparse(os) in live)
    requires NoRepeats(list) && forall os :: os in list <==> os in before
    ensures SparseCollected(before, Swept(marked, list), live)
    ensures NoRepeats(ToBeFreed(marked, list))
    ensures forall os :: os in ToBeFreed(marked, list) <==> os in QueuedSet(before, live)
    ensures FreedCount(marked, list) == |FreedAtOnceSet(before, live)| + |QueuedSet(before, live)|
  {
    hide Swept, ToBeFreed, FreedCount, NoRepeats;
    SweptExact(marked, list);
    ToBeFreedExact(marked, list);
    FreedCountExact(marked, list);
    assert WithFate(marked, list, QuasiFreed) == FreedAtOnceSet(before, live);
    assert WithFate(marked, list, Listed) == QueuedSet(before, live);
    hide FateOf, WithFate;
  }

  /** The shares deal out the threads of `watch` and the given pieces. */
  ghost predicate SharesOf(shares: seq<Share>, watch: seq<seq<ThreadId>>, rootPieces: seq<seq<Addr>>,
                           rangePieces: seq<seq<seq<Addr>>>)
  {
    && |shares| == |watch| == |rootPieces| == |rangePieces|
    && forall j | 0 <= j < |shares| ::
         shares[j].watch == watch[j] && shares[j].roots == rootPieces[j] && shares[j].rootRanges == rangePieces[j]
  }

  lemma RootIsShared(threads: map<ThreadId, ThreadState>, shares: seq<Share>, watch: seq<seq<ThreadId>>,
                     rootPieces: seq<seq<Addr>>, rangePieces: seq<seq<seq<Addr>>>, w: Addr)
    requires SharesOf(shares, watch, rootPieces, rangePieces)
    requires forall id | id in threads :: exists j: nat :: OnlyOn(watch, id, j)
    requires w in AllRoots(threads, Concat(rootPieces), Concat(rangePieces))
    ensures exists j :: 0 <= j < |shares| && w in RootsOf(threads, shares[j])
  {
    if id :| id in threads && w in ThreadWords(threads, id) {
      var j: nat :| OnlyOn(watch, id, j);
      assert id in shares[j].watch;
      assert w in RootsOf(threads, shares[j]);
    } else if w in Concat(rootPieces) {
      ConcatMember(rootPieces, w);
      var j :| 0 <= j < |rootPieces| && w in rootPieces[j];
      assert w in RootsOf(threads, shares[j]);
    } else {
      ConcatConcatMember(rangePieces, w);
      var j :| 0 <= j < |rangePieces| && w in Concat(rangePieces[j]);
      assert w in RootsOf(threads, shares[j]);
    }
  }

  lemma SharedIsRoot(threads: map<ThreadId, ThreadState>, shares: seq<Share>, watch: seq<seq<ThreadId>>,
                     rootPieces: seq<seq<Addr>>, rangePieces: seq<seq<seq<Addr>>>, j: nat, w: Addr)
    requires SharesOf(shares, watch, rootPieces, rangePieces)
    requires j < |shares| && w in RootsOf(threads, shares[j])
    ensures w in AllRoots(threads, Concat(rootPieces), Concat(rangePieces))
  {
    if w in shares[j].roots {
      ConcatMember(rootPieces, w);
    } else if w in Concat(shares[j].rootRanges) {
      ConcatConcatMember(rangePieces, w);
    }
  }

  lemma SharesCoverRoots(threads: map<ThreadId, ThreadState>, shares: seq<Share>, watch: seq<seq<ThreadId>>,
                         rootPieces: seq<seq<Addr>>, rangePieces: seq<seq<seq<Addr>>>)
    requires SharesOf(shares, watch, rootPieces, rangePieces)
    requires forall id | id in threads :: exists j: nat :: OnlyOn(watch, id, j)
    ensures UnionOf(RootSets(threads, shares)) == AllRoots(threads, Concat(rootPieces), Concat(rangePieces))
  {
    hide RootsOf, AllRoots, OnlyOn, UnionOf, SharesOf;
    var sets := RootSets(threads, shares);
    forall w
      ensures w in UnionOf(sets) <==> w in AllRoots(threads, Concat(rootPieces), Concat(rangePieces))
    {
      UnionOfExact(sets, w);
      if w in UnionOf(sets) {
        var j: nat :| j < |sets| && w in sets[j];
        SharedIsRoot(threads, shares, watch, rootPieces, rangePieces, j, w);
      }
      if w in AllRoots(threads, Concat(rootPieces), Concat(rangePieces)) {
        RootIsShared(threads, shares, watch, rootPieces, rangePieces, w);
        var j :| 0 <= j < |shares| && w in RootsOf(threads, shares[j]);
        assert sets[j] == RootsOf(threads, shares[j]);
      }
    }
  }

  ghost function RootSets(threads: map<ThreadId, ThreadState>, shares: seq<Share>): seq<set<Addr>> {
    seq(|shares|, j requires 0 <= j < |shares| => RootsOf(threads, shares[j]))
  }

  // The mark phase with the gc threads interleaved.

  /** What the gc thread with this share sets out with. */
  ghost function StartOf(l: Layout, threads: map<ThreadId, ThreadState>, share: Share): P.Start {
    P.Start(StackWords(threads, StackRootList(l, threads, share.watch)) + share.roots + Concat(share.rootRanges),
            WatchedPotentialRoots(threads, share.watch))
  }

  ghost function StartsOf(l: Layout, threads: map<ThreadId, ThreadState>, shares: seq<Share>): seq<P.Start> {
    seq(|shares|, j requires 0 <= j < |shares| => StartOf(l, threads, shares[j]))
  }

  lemma StartReaches(g: Image, threads: map<ThreadId, ThreadState>, share: Share)
    requires forall id | id in threads :: threads[id].WellFormed()
    ensures var start := StartOf(g.layout, threads, share);
      Reach(g, start.queued + Elements(start.words)) == Reach(g, RootsOf(threads, share))
  {
    hide Reach, WatchedPotentialRoots, WatchedWords, StackRootList, StackWords, Concat;
    var start := StartOf(g.layout, threads, share);
    var stack := StackWords(threads, StackRootList(g.layout, threads, share.watch));
    var others := Elements(share.roots) + Elements(Concat(share.rootRanges));
    RootsAgree(g, threads, share.watch, {}, others);
    assert start.queued + Elements(start.words) == {} + start.queued + Elements(stack) + others;
    assert RootsOf(threads, share) == {} + WatchedWords(threads, share.watch) + others;
  }

  /** What the gc threads set out with together reaches what their shares' roots reach. */
  lemma {:induction false} StartsReach(g: Image, threads: map<ThreadId, ThreadState>, shares: seq<Share>)
    requires forall id | id in threads :: threads[id].WellFormed()
    ensures Reach(g, P.AllRoots(StartsOf(g.layout, threads, shares))) == Reach(g, UnionOf(RootSets(threads, shares)))
  {
    hide Reach, StartOf, RootsOf;
    if shares != [] {
      var front, last := shares[..|shares|-1], shares[|shares|-1];
      var starts, sets := StartsOf(g.layout, threads, shares), RootSets(threads, shares);
      StartsReach(g, threads, front);
      StartReaches(g, threads, last);
      assert starts[..|shares|-1] == StartsOf(g.layout, threads, front);
      assert sets[..|shares|-1] == RootSets(threads, front);
      var start := StartOf(g.layout, threads, last);
      ReachOfUnion(g, P.AllRoots(StartsOf(g.layout, threads, front)), start.queued + Elements(start.words));
      ReachOfUnion(g, UnionOf(RootSets(threads, front)), RootsOf(threads, last));
      assert P.AllRoots(starts) ==
        P.AllRoots(StartsOf(g.layout, threads, front)) + (start.queued + Elements(start.words));
    }
  }

  /** MarkPhase is no weaker for running the gc threads one after the other: however they interleave,
      once all have returned, what is marked is what MarkPhase promises. */
  lemma InterleavedMarkPhase(g: Image, threads: map<ThreadId, ThreadState>, shares: seq<Share>, run: seq<P.State>)
    requires forall id | id in threads :: threads[id].WellFormed()
    requires P.IsRun(g, StartsOf(g.layout, threads, shares), run) && P.Quiescent(run[|run|-1])
    ensures run[|run|-1].marks == Reach(g, UnionOf(RootSets(threads, shares)))
  {
    hide Reach, RootSets, UnionOf, StartsOf;
    StartsReach(g, threads, shares);
    P.MarksExactlyReach(g, StartsOf(g.layout, threads, shares), run);
  }

  lemma WatchedByOne(threads: map<ThreadId, ThreadState>, shares: seq<Share>, watch: seq<seq<ThreadId>>)
    requires |shares| == |watch| && forall j | 0 <= j < |shares| :: shares[j].watch == watch[j]
    requires forall id | id in threads :: exists j: nat :: OnlyOn(watch, id, j)
    requires forall j, id | 0 <= j < |watch| && id in watch[j] :: id in threads
    ensures WatchedOnce(shares)
    ensures SomeUnscannable(threads, shares) <==> exists id :: id in threads && !threads[id].Scannable()
    ensures forall current | Shared(threads, shares, current, |shares|) :: current == AllForgotten(threads)
  {
    forall current | Shared(threads, shares, current, |shares|)
      ensures current == AllForgotten(threads)
    {
      forall id | id in threads
        ensures current[id] == threads[id].(potentialRoots := [])
      {
        var j: nat :| OnlyOn(watch, id, j);
        assert id in shares[j].watch;
      }
    }
    forall j, k, id | 0 <= j < k < |shares| && id in shares[j].watch
      ensures id !in shares[k].watch
    {
      assert id in watch[j];
      assert id in threads;
      var only: nat :| OnlyOn(watch, id, only);
    }
    if id :| id in threads && !threads[id].Scannable() {
      var j: nat :| OnlyOn(watch, id, j);
      assert !AllScannable(threads, shares[j].watch);
    }
  }

  /** The thread states with their potential roots forgotten. */
  ghost function AllForgotten(threads: map<ThreadId, ThreadState>): map<ThreadId, ThreadState> {
    map id | id in threads :: threads[id].(potentialRoots := [])
  }

  /** Setting up the gc threads: every thread is watched by one, every block, root and root range
      is given to one. */
  method SetupGcThreads(gks: Kernel, team: seq<GcThread>, ids: seq<ThreadId>, blocks: seq<seq<Addr>>,
                        roots: seq<Addr>, rootRanges: seq<seq<Addr>>)
    returns (ghost shares: seq<Share>, ghost parts: seq<seq<seq<Addr>>>)
    requires Team(gks, team) && NoRepeats(ids) && forall id :: id in ids <==> id in gks.threads
    modifies team`watched, team`blocks, team`roots, team`rootRanges, team`pending, team`stackRoots
    ensures |shares| == |team| == |parts| && Concat(parts) == blocks && WatchedOnce(shares)
    ensures forall j | 0 <= j < |team| ::
      && team[j].blocks == parts[j] == shares[j].blocks
      && team[j].watched == shares[j].watch && team[j].roots == shares[j].roots
      && team[j].rootRanges == shares[j].rootRanges
      && team[j].pending == {} && team[j].stackRoots == []
    ensures UnionOf(RootSets(gks.threads, shares)) == AllRoots(gks.threads, roots, rootRanges)
    ensures SomeUnscannable(gks.threads, shares) <==> exists id :: id in gks.threads && !gks.threads[id].Scannable()
    ensures forall current | Shared(gks.threads, shares, current, |shares|) :: current == AllForgotten(gks.threads)
  {
    hide Shared, AllForgotten, RootsOf, AllRoots, UnionOf, RootSets, SomeUnscannable, WatchedOnce, OnlyOn, Sorted,
      Concat;
    var n := |team|;
    var watch := DealThreads(ids, n);
    var blockPieces := Equipartition(blocks, n);
    var rootPieces := Equipartition(roots, n);
    var rangePieces := Equipartition(rootRanges, n);
    parts := blockPieces;
    shares := seq(n, j requires 0 <= j < n => Share(watch[j], blockPieces[j], rootPieces[j], rangePieces[j]));
    var i := 0;
    while i < n
      invariant i <= n
      invariant forall j | 0 <= j < i ::
        && team[j].blocks == blockPieces[j] && team[j].watched == watch[j]
        && team[j].roots == rootPieces[j] && team[j].rootRanges == rangePieces[j]
        && team[j].pending == {} && team[j].stackRoots == []
    {
      team[i].Prepare(watch[i], blockPieces[i], rootPieces[i], rangePieces[i]);
      i := i + 1;
    }
    WatchedByOne(gks.threads, shares, watch);
    SharesCoverRoots(gks.threads, shares, watch, rootPieces, rangePieces);
  }

  /** The work of one collection, from any marks left by earlier ones. */
  method CollectHeaps(gks: Kernel, team: seq<GcThread>, ids: seq<ThreadId>, blocks: seq<seq<Addr>>,
                      roots: seq<Addr>, rootRanges: seq<seq<Addr>>)
    returns (aborted: bool, ghost lists: seq<seq<Addr>>)
    requires Team(gks, team) && gks.Valid()
    requires NoRepeats(ids) && forall id :: id in ids <==> id in gks.threads
    requires forall id | id in gks.threads :: gks.threads[id].WellFormed()
    requires NoRepeats(Concat(blocks)) && forall os :: os in Concat(blocks) <==> os in gks.sparse
    modifies gks`sparse, gks`slabs, gks`threads, gks`numFreed, gks`freed
    modifies team`watched, team`blocks, team`roots, team`rootRanges, team`pending, team`stackRoots, team`toBeFreed
    modifies team`calls, team`deepest
    ensures aborted <==> exists id :: id in old(gks.threads) && !old(gks.threads)[id].Scannable()
    ensures !aborted ==>
      var live := Reach(old(gks.View()), AllRoots(old(gks.threads), roots, rootRanges));
      && gks.threads == AllForgotten(old(gks.threads))
      && SparseCollected(old(gks.sparse), gks.sparse, live)
      && SlabsMarked(old(gks.slabs), gks.slabs, live)
      && |lists| == |team| && (forall j | 0 <= j < |team| :: team[j].toBeFreed == old(team[j].toBeFreed) + lists[j])
      && NoRepeats(Concat(lists))
      && (forall os :: os in Concat(lists) <==> os in QueuedSet(old(gks.sparse), live))
      && gks.numFreed == |FreedAtOnceSet(old(gks.sparse), live)| + |QueuedSet(old(gks.sparse), live)|
      && gks.freed == []
  {
    hide Shared, AllForgotten, Reach, AllRoots, SparseCollected, SlabsMarked, NoRepeats, Concat, FreedAtOnceSet,
      QueuedSet, EraseMarks, MarksOf,
      UnionOf, RootSets, RootsOf, SomeUnscannable, WatchedOnce, Swept, ToBeFreed, FreedCount, Lists, WellFormed;
    ghost var before := Image(gks.layout, gks.sparse, gks.slabs);
    gks.numFreed := 0;
    gks.freed := [];
    ghost var shares, parts := SetupGcThreads(gks, team, ids, blocks, roots, rootRanges);
    ghost var sets := RootSets(gks.threads, shares);
    ClearPhase(gks, team, parts);
    RootSetsAre(gks.threads, shares);
    lists := [];
    aborted := MarkPhase(gks, team, shares, sets);
    if aborted {
      return;
    }
    ghost var marked := Image(gks.layout, gks.sparse, gks.slabs);
    MarkedSparse(before, marked, gks.Marks());
    MarkedSlabs(before, marked, gks.Marks());
    SweptIsCollected(before.sparse, marked.sparse, Concat(blocks), gks.Marks());
    lists := SweepPhase(gks, team, parts);
  }

  lemma RootSetsAre(threads: map<ThreadId, ThreadState>, shares: seq<Share>)
    ensures |RootSets(threads, shares)| == |shares|
    ensures forall j | 0 <= j < |shares| :: RootSets(threads, shares)[j] == RootsOf(threads, shares[j])
  {
  }

  /** The _finalize of every gc thread, one after the other.  What they defer is added to the
      special list. */
  method FinalizeTeam(gks: Kernel, team: seq<GcThread>)
    returns (ghost events: seq<FinalizerEvent>, ghost deferred: seq<Addr>)
    requires Team(gks, team)
    requires NoRepeats(Concat(Lists(team))) && forall os | os in Concat(Lists(team)) :: os in gks.sparse
    modifies gks`sparse, gks`history, gks`special, gks`freed
    ensures gks.history == old(gks.history) + events && gks.special == old(gks.special) + deferred
    ensures TeamFinalized(old(gks.sparse), Concat(Lists(team)), gks.sparse, events, deferred)
    ensures forall os :: Called(os) in events ==>
      os in old(gks.sparse) && old(gks.sparse)[os].userData.Some? && old(gks.sparse)[os].userData.value.anyThread
  {
    hide TeamFinalized, GcEvents, Deferred, Finished, WipeAll, NoRepeats;
    ghost var sparse0, lists := gks.sparse, Lists(team);
    ghost var done: seq<Addr> := [];
    events, deferred := [], [];
    NoneFinalized(sparse0);
    var i := 0;
    while i < |team|
      invariant i <= |team| && done == Concat(lists[..i])
      invariant gks.history == old(gks.history) + events && gks.special == old(gks.special) + deferred
      invariant TeamFinalized(sparse0, done, gks.sparse, events, deferred)
    {
      ConcatSnoc(lists, i);
      ConcatPrefix(lists, i + 1);
      assert forall os | os in lists[i] :: os in done + lists[i];
      assert team[i].toBeFreed == lists[i];
      TeamFinalizedStep(sparse0, done, lists[i], gks.sparse, events, deferred);
      events := events + GcEvents(gks.sparse, lists[i]);
      deferred := deferred + Deferred(gks.sparse, lists[i]);
      done := done + lists[i];
      team[i].Finalize();
      i := i + 1;
    }
    assert lists[..i] == lists;
    forall os | Called(os) in events
      ensures os in sparse0 && sparse0[os].userData.Some? && sparse0[os].userData.value.anyThread
    {
      TeamCalls(sparse0, Concat(lists), gks.sparse, events, deferred, os);
    }
  }

  lemma TeamCalls(sparse0: map<Addr, SparseObject>, done: seq<Addr>, sparse: map<Addr, SparseObject>,
                  events: seq<FinalizerEvent>, deferred: seq<Addr>, os: Addr)
    requires TeamFinalized(sparse0, done, sparse, events, deferred) && Called(os) in events
    ensures os in sparse0 && sparse0[os].userData.Some? && sparse0[os].userData.value.anyThread
  {
    GcThreadCalls(sparse0, done, os);
  }

  /** The finalization of one collection: every gc thread finalizes its list, and then a mutator
      thread takes what was deferred, now and earlier.  Each of these objects is zeroed once and, if
      it has a finalizer, that is called once, before the zeroing; no other object is touched. */
  method FinalizeHeaps(gks: Kernel, team: seq<GcThread>) returns (ghost events: seq<FinalizerEvent>)
    requires Team(gks, team) && NoRepeats(gks.special + Concat(Lists(team)))
    requires forall os | os in gks.special + Concat(Lists(team)) :: os in gks.sparse
    modifies gks`sparse, gks`history, gks`special, gks`freed
    ensures gks.special == [] && gks.history == old(gks.history) + events
    ensures FinalizedExactly(old(gks.sparse), gks.sparse, old(gks.special) + Concat(Lists(team)), events)
  {
    hide TeamFinalized, LocalEvents, NoRepeats, FinalizedExactly;
    ghost var sparse0, earlier, lists := gks.sparse, gks.special, Lists(team);
    ghost var deferred;
    LaterOnes(earlier, Concat(lists));
    events, deferred := FinalizeTeam(gks, team);
    AllFinalized(sparse0, earlier, Concat(lists), gks.sparse, events, deferred);
    events := events + LocalEvents(gks.sparse, gks.special);
    gks.LocalThreadFinalization();
  }

  lemma LaterOnes(a: seq<Addr>, b: seq<Addr>)
    requires NoRepeats(a + b)
    ensures NoRepeats(b)
  {
    forall i, j | 0 <= i < j < |b|
      ensures b[i] != b[j]
    {
      assert (a + b)[|a| + i] == b[i] && (a + b)[|a| + j] == b[j];
    }
  }

  lemma NoneFinalized(sparse: map<Addr, SparseObject>)
    ensures TeamFinalized(sparse, [], sparse, [], [])
  {
  }

  // The bitmap heap.

  /** No two slabs share their bitmaps or their memory. */
  ghost predicate Separate(bitmaps: seq<B.BitmapState>) {
    && NoRepeats(bitmaps)
    && (forall i, j | 0 <= i < j < |bitmaps| :: bitmaps[i].memory != bitmaps[j].memory)
    && forall i | 0 <= i < |bitmaps| :: bitmaps[i].Valid()
  }

  ghost function Shapes(bitmaps: seq<B.BitmapState>): seq<B.Shape> {
    seq(|bitmaps|, i requires 0 <= i < |bitmaps| => bitmaps[i].shape)
  }

  /** A slab's contents and the finalizer calls made for it so far. */
  datatype Snapshot = Snapshot(value: B.SlabValue, calls: seq<B.Call>)

  ghost function Taken(b: B.BitmapState): Snapshot
    reads b, b.memory
  {
    Snapshot(b.Value(), b.calls)
  }

  ghost function Snapshots(bitmaps: seq<B.BitmapState>): seq<Snapshot>
    reads bitmaps, set b | b in bitmaps :: b.memory
  {
    seq(|bitmaps|, i requires 0 <= i < |bitmaps| reads bitmaps, set b | b in bitmaps :: b.memory => Taken(bitmaps[i]))
  }

  /** `states` are the slabs there are, and `shapes[i]` is the shape of the one at `states[i]`. */
  ghost predicate Geometry(slabs: map<Addr, Slab>, states: seq<Addr>, shapes: seq<B.Shape>) {
    && |states| == |shapes| && NoRepeats(states)
    && (forall st | st in slabs :: st in states)
    && forall i | 0 <= i < |states| ::
         states[i] in slabs && shapes[i].size == |slabs[states[i]].slots| && shapes[i].typeId == slabs[states[i]].typeId
  }

  /** The slabs' mark bits are set for exactly the members of `live`. */
  ghost predicate MarkedAs(slabs: map<Addr, Slab>, live: set<Obj>) {
    forall st, slot: nat | st in slabs && slot < |slabs[st].slots| ::
      slot in slabs[st].marks <==> Slot(st, slot) in live
  }

  lemma GeometryKept(before: map<Addr, Slab>, after: map<Addr, Slab>, states: seq<Addr>, shapes: seq<B.Shape>,
                     live: set<Obj>)
    requires SlabsMarked(before, after, live) && Geometry(before, states, shapes)
    ensures Geometry(after, states, shapes) && MarkedAs(after, live)
  {
    forall st | st in before
      ensures after[st].slots == before[st].slots && after[st].typeId == before[st].typeId
    {
      assert after[st].(marks := {}) == before[st].(marks := {});
    }
  }

  /** A slab after a collection in which `live` was reachable: newly free are exactly the allocated
      slots that were not reachable; free and reachable slots keep their bytes, and newly free ones
      are zero, but for finalizeable ones without user data; a slab that satisfies the invariant of
      its runs, under which there are none of these and all free slots are zero, still does;
      finalized, once each, and with their bytes as they were, are exactly the newly free
      finalizeable slots with user data. */
  ghost predicate SlabCollected(st: Addr, shape: B.Shape, before: Snapshot, after: Snapshot, live: set<Obj>) {
    var v, v' := before.value, after.value;
    && B.Fits(shape, v)
    && (forall slot: nat | slot < shape.size :: slot in v'.free <==> slot in v.free || Slot(st, slot) !in live)
    && |v'.memory| == |v.memory|
    && (forall p: nat | p < |v.memory| ::
          var slot := shape.SlotOf(p);
          v'.memory[p] == if slot in v.free || Slot(st, slot) in live then v.memory[p]
                          else if shape.typeId == 2 || slot !in v.finalizeable then 0 else v.memory[p])
    && (B.RunInvariant(shape, v) ==> B.RunInvariant(shape, v'))
    && before.calls <= after.calls
    && (forall k | |before.calls| <= k < |after.calls| ::
          var call := after.calls[k];
          call.slot < shape.size && call.bytes == B.SlotBytes(shape, v.memory, call.slot))
    && forall slot: nat | slot < shape.size ::
         B.CallsTo(after.calls[|before.calls|..], slot) ==
         if shape.typeId == 2 && slot in v.finalizeable && slot !in v.free && Slot(st, slot) !in live
         then 1 else 0
  }

  /** Finalizing a slab whose marks are what was reachable does that. */
  lemma SlabFreedExactly(st: Addr, shape: B.Shape, before: Snapshot, marks: set<nat>, after: Snapshot, live: set<Obj>)
    requires forall slot: nat | slot < shape.size :: slot in marks <==> Slot(st, slot) in live
    requires var marked := before.value.(marked := marks);
      && B.Fits(shape, marked) && B.FinalizeStep(shape, marked, after.value)
      && after.calls == before.calls + B.CallsBelow(shape, marked, shape.size)
    ensures SlabCollected(st, shape, before, after, live)
  {
    var v, v' := before.value, after.value;
    var marked := v.(marked := marks);
    if B.RunInvariant(shape, v) {
      assert B.FreeSlotsZero(shape, marked);
      B.FinalizeKeepsZero(shape, marked, v');
    }
    forall p: nat | p < |v.memory|
      ensures shape.SlotOf(p) < shape.size
    {
      B.SlotBounds(shape, p, shape.size);
    }
    assert after.calls[|before.calls|..] == B.CallsBelow(shape, marked, shape.size);
    forall k | |before.calls| <= k < |after.calls|
      ensures var call := after.calls[k];
        call.slot < shape.size && call.bytes == B.SlotBytes(shape, v.memory, call.slot)
    {
      B.CalledBeforeZeroing(shape, marked, shape.size, k - |before.calls|);
      assert after.calls[k] == B.CallsBelow(shape, marked, shape.size)[k - |before.calls|];
    }
    forall slot: nat
      ensures B.CallsTo(B.CallsBelow(shape, marked, shape.size), slot) ==
              if slot < shape.size && B.Finalized(shape, marked, slot) then 1 else 0
    {
      B.CalledExactlyOnce(shape, marked, shape.size, slot);
    }
  }

  ghost predicate SlabsCollected(states: seq<Addr>, shapes: seq<B.Shape>, before: seq<Snapshot>, after: seq<Snapshot>,
                                 live: set<Obj>)
  {
    && |states| == |shapes| == |before| == |after|
    && forall i | 0 <= i < |states| :: SlabCollected(states[i], shapes[i], before[i], after[i], live)
  }

  /** finalize(state) on one slab, with the marks that the marker has left there. */
  method FinalizeSlab(b: B.BitmapState, st: Addr, marks: set<nat>, ghost live: set<Obj>) returns (outcome: B.Outcome)
    requires b.Valid()
    requires forall slot: nat | slot < b.shape.size :: slot in marks <==> Slot(st, slot) in live
    modifies b`free, b`marked, b`finalizeable, b`anyThread, b`calls, b.memory
    ensures outcome == B.Completed ==> SlabCollected(st, b.shape, old(Taken(b)), Taken(b), live)
  {
    hide B.FinalizeStep, B.CallsBelow, SlabCollected;
    ghost var before := Taken(b);
    b.Remark(marks);
    outcome := b.Finalize();
    if outcome == B.Completed {
      SlabFreedExactly(st, b.shape, before, marks, Taken(b), live);
    }
  }

  /** The bitmap heap's half of the sweep phase.  It may end the process. */
  method FinalizeSlabs(gks: Kernel, states: seq<Addr>, bitmaps: seq<B.BitmapState>, ghost live: set<Obj>)
    returns (outcome: B.Outcome)
    requires Separate(bitmaps) && Geometry(gks.slabs, states, Shapes(bitmaps)) && MarkedAs(gks.slabs, live)
    modifies bitmaps`free, bitmaps`marked, bitmaps`finalizeable, bitmaps`anyThread, bitmaps`calls
    modifies set b | b in bitmaps :: b.memory
    ensures outcome == B.Completed ==>
      SlabsCollected(states, Shapes(bitmaps), old(Snapshots(bitmaps)), Snapshots(bitmaps), live)
  {
    hide Taken, SlabCollected;
    outcome := B.Completed;
    ghost var before := Snapshots(bitmaps);
    var i := 0;
    while i < |bitmaps|
      invariant i <= |bitmaps| && outcome == B.Completed
      invariant forall j | 0 <= j < i ::
        SlabCollected(states[j], bitmaps[j].shape, before[j], Taken(bitmaps[j]), live)
      invariant forall j | i <= j < |bitmaps| :: before[j] == Taken(bitmaps[j])
    {
      outcome := FinalizeSlab(bitmaps[i], states[i], gks.slabs[states[i]].marks, live);
      if outcome != B.Completed {
        return;
      }
      i := i + 1;
    }
  }

  // The whole of a collection.

  /** The sparse heap after a whole collection in which `live` was reachable.  Reachable objects and
      uncollectable ones keep everything but their mark; other unreachable objects in use are freed on
      the spot if they have no user data or default user data, and otherwise have all their words set
      to 0.  The latter, and only they, are zeroed, once, after the one call of their finalizer if they
      have one. */
  ghost predicate SparseCycle(before: map<Addr, SparseObject>, after: map<Addr, SparseObject>, live: set<Obj>,
                              events: seq<FinalizerEvent>)
  {
    var garbage := set os | os in before && before[os].inUse && Sparse(os) !in live;
    var plain := set os | os in garbage && (before[os].userData.None? || before[os].userData.value.isDefault);
    var own := set os | os in garbage && os !in plain && !before[os].userData.value.uncollectable;
    && after.Keys == before.Keys
    && (forall os | os in before && os !in plain && os !in own ::
          after[os] == before[os].(marked := Sparse(os) in live))
    && (forall os | os in plain :: after[os] == before[os].(marked := false, inUse := false, quasiFreed := true))
    && (forall os | os in own ::
          && after[os] == before[os].(marked := false, words := after[os].words)
          && |after[os].words| == |before[os].words|)
    && (forall os, i | os in own && 0 <= i < |after[os].words| :: after[os].words[i] == 0)
    && CallsComeFirst(before, events)
    && (forall os :: Occurrences(events, Zeroed(os)) == if os in own then 1 else 0)
    && (forall os :: Occurrences(events, Called(os)) ==
          if os in own && before[os].userData.value.hasFinalizer then 1 else 0)
  }

  lemma CycleOfParts(before: map<Addr, SparseObject>, swept: map<Addr, SparseObject>, after: map<Addr, SparseObject>,
                     live: set<Obj>, list: seq<Addr>, events: seq<FinalizerEvent>)
    requires SparseCollected(before, swept, live)
    requires forall os :: os in list <==> os in QueuedSet(before, live)
    requires FinalizedExactly(swept, after, list, events)
    ensures SparseCycle(before, after, live, events)
  {
    hide Occurrences;
    assert forall os :: Finalizable(swept, os) <==> Finalizable(before, os);
    assert CallsComeFirst(before, events);
    hide CallsComeFirst;
    forall os | os in before
      ensures os in QueuedSet(before, live) <==>
        && before[os].inUse && Sparse(os) !in live && before[os].userData.Some? && !before[os].userData.value.isDefault
        && !before[os].userData.value.uncollectable
      ensures os in QueuedSet(before, live) ==>
        os !in FreedAtOnceSet(before, live) && (Finalizable(before, os) <==> before[os].userData.value.hasFinalizer)
    {
    }
  }

  lemma QueuedStay(before: map<Addr, SparseObject>, swept: map<Addr, SparseObject>, live: set<Obj>, list: seq<Addr>)
    requires SparseCollected(before, swept, live) && forall os | os in list :: os in QueuedSet(before, live)
    ensures forall os | os in list :: os in swept
  {
  }

  lemma ListsFromEmpty(team: seq<GcThread>, lists: seq<seq<Addr>>)
    requires |lists| == |team| && forall j | 0 <= j < |team| :: team[j].toBeFreed == lists[j]
    ensures Lists(team) == lists
  {
  }

  /** One collection from beginning to end, on both heaps, from any marks left by earlier ones. */
  method Collect(gks: Kernel, team: seq<GcThread>, ids: seq<ThreadId>, blocks: seq<seq<Addr>>,
                 roots: seq<Addr>, rootRanges: seq<seq<Addr>>, states: seq<Addr>, bitmaps: seq<B.BitmapState>)
    returns (aborted: bool, outcome: B.Outcome, ghost events: seq<FinalizerEvent>)
    requires Team(gks, team) && gks.Valid()
    requires gks.special == [] && forall j | 0 <= j < |team| :: team[j].toBeFreed == []
    requires NoRepeats(ids) && forall id :: id in ids <==> id in gks.threads
    requires forall id | id in gks.threads :: gks.threads[id].WellFormed()
    requires NoRepeats(Concat(blocks)) && forall os :: os in Concat(blocks) <==> os in gks.sparse
    requires Separate(bitmaps) && Geometry(gks.slabs, states, Shapes(bitmaps))
    modifies gks`sparse, gks`slabs, gks`threads, gks`numFreed, gks`freed, gks`history, gks`special
    modifies team`watched, team`blocks, team`roots, team`rootRanges, team`pending, team`stackRoots, team`toBeFreed
    modifies team`calls, team`deepest
    modifies bitmaps`free, bitmaps`marked, bitmaps`finalizeable, bitmaps`anyThread, bitmaps`calls
    modifies set b | b in bitmaps :: b.memory
    ensures aborted <==> exists id :: id in old(gks.threads) && !old(gks.threads)[id].Scannable()
    ensures !aborted && outcome == B.Completed ==>
      var live := Reach(old(gks.View()), AllRoots(old(gks.threads), roots, rootRanges));
      && SparseCycle(old(gks.sparse), gks.sparse, live, events)
      && gks.history == old(gks.history) + events && gks.special == []
      && gks.numFreed == |FreedAtOnceSet(old(gks.sparse), live)| + |QueuedSet(old(gks.sparse), live)|
      && SlabsMarked(old(gks.slabs), gks.slabs, live)
      && SlabsCollected(states, Shapes(bitmaps), old(Snapshots(bitmaps)), Snapshots(bitmaps), live)
  {
    hide SlabsCollected, Snapshots, Reach, AllRoots, SparseCollected, SparseCycle, NoRepeats, Concat,
      FreedAtOnceSet, QueuedSet, FinalizedExactly, SlabCollected, WellFormed, Geometry, MarkedAs, SlabsMarked,
      Separate, Lists, Shapes;
    ghost var live := Reach(gks.View(), AllRoots(gks.threads, roots, rootRanges));
    ghost var before, slabs0 := gks.sparse, gks.slabs;
    ghost var lists;
    outcome, events := B.Completed, [];
    aborted, lists := CollectHeaps(gks, team, ids, blocks, roots, rootRanges);
    if aborted {
      return;
    }
    ListsFromEmpty(team, lists);
    QueuedStay(before, gks.sparse, live, Concat(lists));
    GeometryKept(slabs0, gks.slabs, states, Shapes(bitmaps), live);
    ghost var swept := gks.sparse;
    outcome := FinalizeSlabs(gks, states, bitmaps, live);
    if outcome != B.Completed {
      return;
    }
    assert gks.special + Concat(lists) == Concat(lists);
    events := FinalizeHeaps(gks, team);
    CycleOfParts(before, swept, gks.sparse, live, Concat(lists), events);
  }
}

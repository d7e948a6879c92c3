/**
 gc_thread_t: the thread that clears, marks, sweeps and finalizes its share of the heap
 (cgc1/src/gc_thread.cpp).  Its mutexes and condition variables are in module Handshake.
 */
module GcThread {
  import opened Heap
  import opened Reachability
  import opened MarkSpec
  import opened StackScan
  import opened Kernel
  import opened SparseFinalization
  import opened SweepSpec

  class GcThread {
    const gks: Kernel
    // m_watched_threads
    var watched: seq<ThreadId>
    // m_block_begin .. m_block_end: the addresses of the object states in each block
    var blocks: seq<seq<Addr>>
    // the words that m_root_begin .. m_root_end lead to
    var roots: seq<Addr>
    // for each of m_root_ranges, the word read at every byte offset of the range
    var rootRanges: seq<seq<Addr>>
    // m_addresses_to_mark, an ordered set
    var pending: set<Addr>
    // m_stack_roots: which word of which thread's stack
    var stackRoots: seq<(ThreadId, nat)>
    // m_to_be_freed
    var toBeFreed: seq<Addr>
    // meters: calls of _mark_addrs, and the largest depth passed to one
    ghost var calls: nat
    ghost var deepest: nat

    constructor (gks: Kernel)
      ensures this.gks == gks && watched == [] && blocks == [] && roots == [] && rootRanges == []
      ensures pending == {} && stackRoots == [] && toBeFreed == [] && calls == 0 && deepest == 0
    {
      this.gks := gks;
      watched, blocks, roots, rootRanges := [], [], [], [];
      pending, stackRoots, toBeFreed := {}, [], [];
      calls, deepest := 0, 0;
    }

    /** reset, then add_thread for each thread to watch, set_allocator_blocks, set_root_iterators and
        set_root_ranges.  The list of objects to be freed is not touched. */
    method Prepare(watched: seq<ThreadId>, blocks: seq<seq<Addr>>, roots: seq<Addr>, rootRanges: seq<seq<Addr>>)
      modifies this`watched, this`blocks, this`roots, this`rootRanges, this`pending, this`stackRoots
      ensures this.watched == watched && this.blocks == blocks
      ensures this.roots == roots && this.rootRanges == rootRanges
      ensures pending == {} && stackRoots == []
    {
      pending, stackRoots := {}, [];
      this.watched, this.blocks, this.roots, this.rootRanges := watched, blocks, roots, rootRanges;
    }

    ghost function State(): MarkState
      reads this, gks
    {
      MarkState(gks.Marks(), pending, calls, deepest)
    }

    /** _mark_addrs: marks what the word points to, and what that points to in turn, except for
        what lies too deep, which is postponed. */
    method MarkAddrs(addr: Addr, depth: nat, ghost R: set<Obj>)
      requires gks.Valid()
      requires Closed(gks.View(), R) && Within(gks.View(), State(), R) && Lands(gks.View(), addr, R)
      modifies this`pending, this`calls, this`deepest, gks`sparse, gks`slabs
      ensures gks.View() == old(gks.View())
      ensures Visit(gks.View(), old(State()), State(), addr, depth, 1)
      ensures DepthRule(gks.View(), old(State()), State(), addr, depth)
      ensures Within(gks.View(), State(), R)
      ensures calls > old(calls) && deepest >= old(deepest) && deepest >= depth
      ensures !Keeps(gks.layout, addr) ==> gks.Marks() == old(gks.Marks()) && pending == old(pending)
      decreases Nodes(gks.View()) - gks.Marks(), 1
    {
      hide Visit, Within, Closed, Lands, Target;
      ghost var g, s0 := gks.View(), State();
      calls := calls + 1;
      deepest := if depth > deepest then depth else deepest;
      ghost var s1 := State();
      assert Within(g, s1, R) by {
        StaysWithin(g, s0, s1, addr, R);
      }
      if gks.layout.InFastHeap(addr) {
        MarkAddrsBitmap(addr, depth, R);
        CallMetered(g, s0, s1, State(), addr, depth);
        return;
      }
      var os := addr - gks.layout.stateBytes;
      if gks.layout.InSparseHeap(os) {
        MarkAddrsSparse(addr, depth, R);
        CallMetered(g, s0, s1, State(), addr, depth);
        return;
      }
      InertWord(g, s1, addr);
      NothingToDo(g, s1, addr, depth);
      CallMetered(g, s0, s1, s1, addr, depth);
    }

    method MarkAddrsBitmap(addr: Addr, depth: nat, ghost R: set<Obj>)
      requires gks.Valid() && gks.layout.InFastHeap(addr)
      requires Closed(gks.View(), R) && Within(gks.View(), State(), R) && Lands(gks.View(), addr, R)
      modifies this`pending, this`calls, this`deepest, gks`sparse, gks`slabs
      ensures gks.View() == old(gks.View())
      ensures Visit(gks.View(), old(State()), State(), addr, depth, 0)
      ensures DepthRule(gks.View(), old(State()), State(), addr, depth)
      ensures Within(gks.View(), State(), R)
      ensures calls >= old(calls) && deepest >= old(deepest)
      decreases Nodes(gks.View()) - gks.Marks(), 0
    {
      hide Visit, ScannedPrefix, Within, Closed, WellFormed, Nodes, MarksOf;
      ghost var g, s0 := gks.View(), State();
      if depth > BITMAP_DEPTH_LIMIT {
        pending := pending + {addr};
        Postponed(g, s0, State(), addr, depth);
        StaysWithin(g, s0, State(), addr, R);
        return;
      }
      var code := gks.IsBitmapAddrMarkable(addr, true, false);
      StaysWithin(g, s0, State(), addr, R);
      TargetIsNode(g, addr);
      if code != 0 {
        if code == 7 {
          LeafMarked(g, s0, State(), Target(g, addr).value, addr, depth);
        } else {
          NothingToDo(g, s0, addr, depth);
        }
        return;
      }
      ghost var o := Target(g, addr).value;
      var st := gks.layout.stateOf(addr);
      var index := gks.slabs[st].IndexOf(st, addr).value;
      var words := gks.slabs[st].slots[index];
      ScanWords(words, depth, R, s0, o, addr);
    }

    method MarkAddrsSparse(addr: Addr, depth: nat, ghost R: set<Obj>)
      requires gks.Valid() && !gks.layout.InFastHeap(addr)
      requires gks.layout.InSparseHeap(addr - gks.layout.stateBytes)
      requires Closed(gks.View(), R) && Within(gks.View(), State(), R) && Lands(gks.View(), addr, R)
      modifies this`pending, this`calls, this`deepest, gks`sparse, gks`slabs
      ensures gks.View() == old(gks.View())
      ensures Visit(gks.View(), old(State()), State(), addr, depth, 0)
      ensures DepthRule(gks.View(), old(State()), State(), addr, depth)
      ensures Within(gks.View(), State(), R)
      ensures calls >= old(calls) && deepest >= old(deepest)
      decreases Nodes(gks.View()) - gks.Marks(), 0
    {
      hide Visit, ScannedPrefix, Within, Closed, WellFormed, Nodes, MarksOf, Target;
      ghost var g, s0 := gks.View(), State();
      var os := addr - gks.layout.stateBytes;
      if gks.layout.recognized(os) {
        RecognizedCovers(g, addr);
      } else {
        var found := gks.FindValidObjectState(addr);
        if found.None? {
          NotInUse(g, addr);
          NothingToDo(g, s0, addr, depth);
          return;
        }
        os := found.value;
      }
      SparseResolves(g, os, addr);
      if !gks.sparse[os].inUse || gks.sparse[os].quasiFreed || !gks.sparse[os].linked {
        NothingToDo(g, s0, addr, depth);
        return;
      }
      ghost var o := Sparse(os);
      TargetIsNode(g, addr);
      MarksOfErased(Image(gks.layout, gks.sparse, gks.slabs), o);
      if gks.sparse[os].marked {
        NothingToDo(g, s0, addr, depth);
        return;
      }
      if gks.sparse[os].atomic {
        gks.SetMark(os);
        LeafMarked(g, s0, State(), o, addr, depth);
        StaysWithin(g, s0, State(), addr, R);
        return;
      }
      if depth > SPARSE_DEPTH_LIMIT {
        pending := pending + {addr};
        Postponed(g, s0, State(), addr, depth);
        StaysWithin(g, s0, State(), addr, R);
        return;
      }
      var words := gks.sparse[os].words;
      gks.SetMark(os);
      StaysWithin(g, s0, State(), addr, R);
      ScanWords(words, depth, R, s0, o, addr);
    }

    /** The loop that ends both of the above: follows every word of the object just marked. */
    method ScanWords(words: seq<Addr>, depth: nat, ghost R: set<Obj>, ghost s0: MarkState, ghost o: Obj,
                     ghost addr: Addr)
      requires gks.Valid() && depth <= BITMAP_DEPTH_LIMIT
      requires Closed(gks.View(), R) && Within(gks.View(), State(), R)
      requires o !in s0.marks && o in Nodes(gks.View()) && Target(gks.View(), addr) == Some(o)
      requires words == Words(gks.View(), o)
      requires State() == s0.(marks := s0.marks + {o}) && o in R
      modifies this`pending, this`calls, this`deepest, gks`sparse, gks`slabs
      ensures gks.View() == old(gks.View())
      ensures Visit(gks.View(), s0, State(), addr, depth, 0) && Lands(gks.View(), addr, gks.Marks())
      ensures Within(gks.View(), State(), R)
      ensures calls >= old(calls) && deepest >= old(deepest)
      decreases Nodes(gks.View()) - gks.Marks(), 2
    {
      hide Visit, ScannedPrefix, Within, Closed, Lands, WellFormed, Nodes, Target;
      ghost var g, s1 := gks.View(), State();
      ScanStart(g, s1, words);
      var i := 0;
      while i < |words|
        invariant i <= |words| && gks.View() == g && s1.marks <= gks.Marks()
        invariant ScannedPrefix(g, s1, State(), words, i)
        invariant Within(g, State(), R)
        invariant calls >= s1.calls && deepest >= s1.deepest
      {
        ghost var si := State();
        WordLands(g, R, o, words[i]);
        MarkAddrs(words[i], depth + 1, R);
        ScanStep(g, s1, si, State(), words, i, depth);
        i := i + 1;
      }
      ScanDone(g, s0, s1, State(), o, addr, depth);
    }

    /** _mark_mark_vector: visits the postponed addresses from depth 0, the greatest one first,
        until none is left; visiting one may postpone others. */
    method MarkMarkVector(ghost R: set<Obj>, ghost s0: MarkState, ghost done: set<Addr>, ghost budget: nat)
      requires gks.Valid()
      requires Closed(gks.View(), R) && Within(gks.View(), State(), R)
      requires Tricolour(gks.View(), s0, State(), done, budget)
      modifies this`pending, this`calls, this`deepest, gks`sparse, gks`slabs
      ensures gks.View() == old(gks.View()) && pending == {}
      ensures Tricolour(gks.View(), s0, State(), done, budget)
      ensures Within(gks.View(), State(), R)
    {
      hide Visit, Tricolour, Within, Closed, WellFormed, Nodes, MarksOf;
      ghost var g := gks.View();
      while pending != {}
        invariant gks.View() == g
        invariant Tricolour(g, s0, State(), done, budget)
        invariant Within(g, State(), R)
        decreases Nodes(g) - gks.Marks(), |pending|
      {
        ghost var s1 := State();
        GreatestExists(pending);
        var addr :| addr in pending && forall a | a in pending :: a <= addr;
        PendingLands(g, s1, addr, R);
        pending := pending - {addr};
        ghost var s := State();
        StaysWithin(g, s1, s, addr, R);
        MarkAddrs(addr, 0, R);
        RestartStep(g, s0, s1, s, State(), done, addr, budget);
      }
    }

    /** handle_thread: queues the thread's potential roots and lists the stack words to visit.
        The process aborts when the thread's stack bounds were never set. */
    method HandleThread(id: ThreadId) returns (aborted: bool)
      requires forall t | t in gks.threads :: gks.threads[t].WellFormed()
      modifies this`pending, this`stackRoots, gks`threads
      ensures aborted <==> id in gks.threads && !gks.threads[id].Scannable()
      ensures gks.threads == WithoutPotentialRoots(old(gks.threads), id)
      ensures pending == old(pending) + PotentialRoots(old(gks.threads), id)
      ensures !aborted ==> stackRoots == old(stackRoots) + StackRootsOf(gks.layout, old(gks.threads), id)
    {
      if id !in gks.threads {
        return false;
      }
      var t := gks.threads[id];
      pending := pending + set w | w in t.potentialRoots;
      gks.threads := gks.threads[id := t.(potentialRoots := [])];
      var kept;
      aborted, kept := ScanStack(gks.layout, t, []);
      stackRoots := stackRoots + seq(|kept|, i requires 0 <= i < |kept| => (id, kept[i]));
    }

    /** Every word this thread starts marking from. */
    ghost function RootWords(): set<Addr>
      reads this, gks
    {
      pending + WatchedWords(gks.threads, watched) + Elements(roots) + Elements(Concat(rootRanges))
    }

    /** How many root words the thread visits, and how many addresses are queued to begin with. */
    ghost function RootCount(): nat
      reads this, gks
    {
      |StackRootList(gks.layout, gks.threads, watched)| + |roots| + |Concat(rootRanges)|
    }

    ghost function QueuedCount(): nat
      reads this, gks
    {
      |pending| + PotentialCount(gks.threads, watched)
    }

    /** The first loop of _mark: handle_thread on every watched thread. */
    method HandleThreads() returns (aborted: bool)
      requires stackRoots == []
      requires forall t | t in gks.threads :: gks.threads[t].WellFormed()
      modifies this`pending, this`stackRoots, gks`threads
      ensures aborted <==> !AllScannable(old(gks.threads), watched)
      ensures !aborted ==>
        Handled(gks.layout, old(gks.threads), watched, gks.threads, stackRoots, old(pending), pending)
    {
      aborted := false;
      ghost var threads0, done := gks.threads, [];
      var i := 0;
      while i < |watched|
        invariant i <= |watched| && done == watched[..i]
        invariant Handled(gks.layout, threads0, done, gks.threads, stackRoots, old(pending), pending)
      {
        ghost var before, roots0, pending0 := gks.threads, stackRoots, pending;
        ForgettingKeeps(threads0, done);
        aborted := HandleThread(watched[i]);
        if aborted {
          return;
        }
        HandledStep(gks.layout, threads0, done, watched[i], before, roots0, old(pending), pending0);
        done := done + [watched[i]];
        i := i + 1;
      }
      assert done == watched;
    }

    /** Marks from each of the given words, as each of the three root loops of _mark does. */
    method MarkRoots(words: seq<Addr>, ghost R: set<Obj>, ghost s0: MarkState, ghost done: set<Addr>, ghost budget: nat)
      requires gks.Valid() && Closed(gks.View(), R) && AllLand(gks.View(), Elements(words), R)
      requires Tricolour(gks.View(), s0, State(), done, budget) && Within(gks.View(), State(), R)
      modifies this`pending, this`calls, this`deepest, gks`sparse, gks`slabs
      ensures gks.View() == old(gks.View())
      ensures Tricolour(gks.View(), s0, State(), done + Elements(words), budget + |words|)
      ensures Within(gks.View(), State(), R)
    {
      hide Visit, Tricolour, Within, Closed, WellFormed, Nodes, MarksOf;
      ghost var g, visited := gks.View(), done;
      var i := 0;
      while i < |words|
        invariant i <= |words| && gks.View() == g
        invariant visited == done + Elements(words[..i])
        invariant Tricolour(g, s0, State(), visited, budget + i)
        invariant Within(g, State(), R)
      {
        ghost var s1 := State();
        assert words[i] in Elements(words);
        MarkAddrs(words[i], 0, R);
        RootStep(g, s0, s1, State(), visited, words[i], budget + i);
        assert Elements(words[..i+1]) == Elements(words[..i]) + {words[i]};
        visited := visited + {words[i]};
        i := i + 1;
      }
      assert words[..|words|] == words;
    }

    /** Everything from the stack roots on: the visits and the draining of _mark. */
    method MarkAndDrain(stackWords: seq<Addr>, ghost R: set<Obj>, ghost s0: MarkState, ghost budget: nat)
      requires gks.Valid() && Closed(gks.View(), R)
      requires AllLand(gks.View(), Elements(stackWords) + Elements(roots) + Elements(Concat(rootRanges)), R)
      requires Tricolour(gks.View(), s0, State(), pending, budget) && Within(gks.View(), State(), R)
      modifies this`pending, this`calls, this`deepest, gks`sparse, gks`slabs
      ensures gks.View() == old(gks.View()) && pending == {}
      ensures Tricolour(gks.View(), s0, State(),
                        old(pending) + Elements(stackWords) + Elements(roots) + Elements(Concat(rootRanges)),
                        budget + |stackWords| + |roots| + |Concat(rootRanges)|)
      ensures Within(gks.View(), State(), R)
    {
      hide Visit, Tricolour, Within, Closed, WellFormed, Nodes, MarksOf, Lands;
      ghost var g, done, spent := gks.View(), pending, budget;
      // mark everything from the stacks
      MarkRoots(stackWords, R, s0, done, spent);
      done, spent := done + Elements(stackWords), spent + |stackWords|;
      // mark all roots
      MarkRoots(roots, R, s0, done, spent);
      done, spent := done + Elements(roots), spent + |roots|;
      // mark all root ranges
      assert done + Elements(Concat(rootRanges[..0])) == done;
      var i := 0;
      while i < |rootRanges|
        invariant i <= |rootRanges| && gks.View() == g
        invariant Tricolour(g, s0, State(), done + Elements(Concat(rootRanges[..i])), spent + |Concat(rootRanges[..i])|)
        invariant Within(g, State(), R)
      {
        ConcatSnoc(rootRanges, i);
        ConcatContains(rootRanges, i);
        ghost var before := Concat(rootRanges[..i]);
        assert Elements(rootRanges[i]) <= Elements(Concat(rootRanges));
        MarkRoots(rootRanges[i], R, s0, done + Elements(before), spent + |before|);
        assert done + Elements(before) + Elements(rootRanges[i]) == done + Elements(before + rootRanges[i]);
        i := i + 1;
      }
      assert rootRanges[..i] == rootRanges;
      // mark what was postponed
      MarkMarkVector(R, s0, done + Elements(Concat(rootRanges)), spent + |Concat(rootRanges)|);
    }

    /** _mark: marks everything this thread's roots reach, and nothing else. */
    method Mark() returns (aborted: bool)
      requires gks.Valid() && stackRoots == []
      requires forall t | t in gks.threads :: gks.threads[t].WellFormed()
      requires Closed(gks.View(), gks.Marks())
      modifies this`pending, this`stackRoots, this`calls, this`deepest, gks`sparse, gks`slabs, gks`threads
      ensures gks.View() == old(gks.View())
      ensures aborted <==> !AllScannable(old(gks.threads), watched)
      ensures !aborted ==>
        && gks.Marks() == old(gks.Marks()) + Reach(gks.View(), old(RootWords()))
        && pending == {}
        && gks.threads == ForgetPotentialRoots(old(gks.threads), watched)
        && calls + 2 * WordCount(gks.View(), old(gks.Marks()))
             <= old(calls) + old(RootCount()) + old(QueuedCount()) + 2 * WordCount(gks.View(), gks.Marks())
        && (deepest <= old(deepest) || deepest <= 301)
    {
      hide Tricolour, Within, Closed, WellFormed, Nodes, MarksOf, Lands, AllLand, Reach, WatchedWords, Concat,
        StackRootList, ForgetPotentialRoots, WatchedPotentialRoots, PotentialCount, AllScannable, WordCount;
      ghost var g, s0, threads0 := gks.View(), State(), gks.threads;
      ghost var A := RootWords();
      ghost var others := Elements(roots) + Elements(Concat(rootRanges));
      assert A == s0.pending + WatchedWords(threads0, watched) + others;
      aborted := HandleThreads();
      if aborted {
        return;
      }
      var stackWords := StackWords(gks.threads, stackRoots);
      StackWordsKept(gks.layout, threads0, watched);
      ghost var visited := pending + Elements(stackWords) + others;
      assert visited == pending + Elements(stackWords) + Elements(roots) + Elements(Concat(rootRanges));
      RootsAgree(g, threads0, watched, s0.pending, others);
      QueueSize(threads0, watched);
      ghost var n := PotentialCount(threads0, watched);
      ghost var R := s0.marks + Reach(g, A);
      MarkStart(g, s0, State(), WatchedPotentialRoots(threads0, watched), n, A);
      FewerLand(g, Elements(stackWords) + Elements(roots) + Elements(Concat(rootRanges)), A, R);
      MarkAndDrain(stackWords, R, s0, n);
      MarkEnd(g, s0, State(), visited, n + |stackWords| + |roots| + |Concat(rootRanges)|, A);
    }

    /** _clear_marks: clears the mark of every object in this thread's blocks. */
    method ClearMarks()
      requires forall os | os in Concat(blocks) :: os in gks.sparse
      modifies gks`sparse
      ensures gks.View() == old(gks.View()) && gks.sparse.Keys == old(gks.sparse.Keys)
      ensures gks.Marks() == old(gks.Marks()) - SparseObjects(Concat(blocks))
    {
      hide MarksOf, EraseMarks, Nodes;
      ghost var done := [];
      var i := 0;
      while i < |blocks|
        invariant i <= |blocks| && done == Concat(blocks[..i])
        invariant gks.View() == old(gks.View()) && gks.sparse.Keys == old(gks.sparse.Keys)
        invariant gks.Marks() == old(gks.Marks()) - SparseObjects(done)
      {
        var block := blocks[i];
        ConcatSnoc(blocks, i);
        ConcatContains(blocks, i);
        var j := 0;
        while j < |block|
          invariant j <= |block| && done == Concat(blocks[..i]) + block[..j]
          invariant gks.View() == old(gks.View()) && gks.sparse.Keys == old(gks.sparse.Keys)
          invariant gks.Marks() == old(gks.Marks()) - SparseObjects(done)
        {
          assert block[j] in block;
          gks.ClearMark(block[j]);
          assert SparseObjects(done + [block[j]]) == SparseObjects(done) + {Sparse(block[j])};
          done := done + [block[j]];
          j := j + 1;
        }
        i := i + 1;
      }
      assert blocks[..i] == blocks;
    }

    /** The body of the loop of _sweep over a block's objects; `counted` is what it does to the
        number of freed objects. */
    method SweepObject(os: Addr) returns (counted: int)
      requires os in gks.sparse
      modifies this`toBeFreed, gks`sparse
      ensures var o := old(gks.sparse)[os];
        && gks.sparse == (if FateOf(o) == QuasiFreed then old(gks.sparse)[os := SetQuasiFreed(o)] else old(gks.sparse))
        && toBeFreed == old(toBeFreed) + (if FateOf(o) == Listed then [os] else [])
        && counted == (if FateOf(o) == Stays then 0 else 1)
    {
      counted := 0;
      if gks.sparse[os].inUse && !gks.sparse[os].marked {
        counted := counted + 1;
        var ud := gks.sparse[os].userData;
        if ud.Some? {
          if ud.value.isDefault {
            gks.sparse := gks.sparse[os := SetQuasiFreed(gks.sparse[os])];
          } else {
            if ud.value.uncollectable {
              // nothing is freed after all
              counted := counted - 1;
              return;
            }
            toBeFreed := toBeFreed + [os];
          }
        } else {
          gks.sparse := gks.sparse[os := SetQuasiFreed(gks.sparse[os])];
        }
      }
    }

    /** _sweep: quasi-frees or lists every unmarked object in use in this thread's blocks. */
    method Sweep()
      requires NoRepeats(Concat(blocks)) && forall os | os in Concat(blocks) :: os in gks.sparse
      modifies this`toBeFreed, gks`sparse, gks`numFreed
      ensures gks.sparse == Swept(old(gks.sparse), Concat(blocks))
      ensures toBeFreed == old(toBeFreed) + ToBeFreed(old(gks.sparse), Concat(blocks))
      ensures gks.numFreed == old(gks.numFreed) + FreedCount(old(gks.sparse), Concat(blocks))
    {
      hide NoRepeats, FateOf, Swept, ToBeFreed, FreedCount;
      ghost var all, sparse0, done := Concat(blocks), gks.sparse, [];
      var numFreed: int := 0;
      var i := 0;
      SweptNothing(sparse0);
      while i < |blocks|
        invariant i <= |blocks| && done == Concat(blocks[..i]) && done <= all
        invariant gks.numFreed == old(gks.numFreed)
        invariant SweptSoFar(sparse0, done, gks.sparse, old(toBeFreed), toBeFreed, numFreed)
      {
        var block := blocks[i];
        ConcatSnoc(blocks, i);
        ConcatPrefix(blocks, i + 1);
        ghost var before := done;
        var j := 0;
        while j < |block|
          invariant j <= |block| && done == before + block[..j] && gks.numFreed == old(gks.numFreed)
          invariant SweptSoFar(sparse0, done, gks.sparse, old(toBeFreed), toBeFreed, numFreed)
        {
          assert done + [block[j]] == before + block[..j+1] <= before + block;
          FreshInDistinct(all, done, block[j]);
          SweptOneMore(sparse0, done, block[j], gks.sparse, old(toBeFreed), toBeFreed, numFreed);
          var counted := SweepObject(block[j]);
          numFreed := numFreed + counted;
          done := done + [block[j]];
          j := j + 1;
        }
        assert block[..j] == block;
        i := i + 1;
      }
      assert blocks[..i] == blocks;
      gks.numFreed := gks.numFreed + numFreed;
    }

    /** The body of the loop of _finalize; `deferred` says that the object goes to the special list. */
    method FinalizeObject(os: Addr) returns (deferred: bool)
      requires os in gks.sparse
      modifies gks`sparse, gks`history
      ensures deferred <==>
        var ud := old(gks.sparse)[os].userData;
        ud.Some? && !ud.value.isDefault && ud.value.hasFinalizer && !ud.value.anyThread
      ensures deferred ==> gks.sparse == old(gks.sparse) && gks.history == old(gks.history)
      ensures !deferred ==>
        && gks.sparse == old(gks.sparse)[os := Wiped(old(gks.sparse)[os])]
        && |gks.sparse[os].words| == |old(gks.sparse)[os].words|
        && (forall i | 0 <= i < |gks.sparse[os].words| :: gks.sparse[os].words[i] == 0)
        && gks.history == old(gks.history) + EventsOf(old(gks.sparse), os)
    {
      var ud := gks.sparse[os].userData;
      if ud.Some? {
        if !ud.value.isDefault {
          if ud.value.hasFinalizer && ud.value.anyThread {
            gks.CallFinalizer(os);
          } else if ud.value.hasFinalizer {
            // its memory must stay as it is until its finalizer has run
            return true;
          }
        }
      }
      gks.ZeroObject(os);
      deferred := false;
    }

    /** _finalize: runs the finalizers that may run here, zeroes and reports those objects and the
        ones without a finalizer, and defers the rest. */
    method Finalize()
      requires forall os | os in toBeFreed :: os in gks.sparse
      modifies gks`sparse, gks`history, gks`special, gks`freed
      ensures gks.sparse == WipeAll(old(gks.sparse), Finished(old(gks.sparse), toBeFreed))
      ensures gks.history == old(gks.history) + GcEvents(old(gks.sparse), toBeFreed)
      ensures gks.special == old(gks.special) + Deferred(old(gks.sparse), toBeFreed)
      ensures forall os :: os in gks.special[|old(gks.special)|..] <==>
        && os in toBeFreed
        && var ud := old(gks.sparse)[os].userData;
           ud.Some? && !ud.value.isDefault && ud.value.hasFinalizer && !ud.value.anyThread
      ensures forall os :: Called(os) in gks.history[|old(gks.history)|..] <==>
        && os in toBeFreed
        && var ud := old(gks.sparse)[os].userData;
           ud.Some? && !ud.value.isDefault && ud.value.hasFinalizer && ud.value.anyThread
      ensures gks.freed == old(gks.freed) + Starts(gks.layout.stateBytes, Finished(old(gks.sparse), toBeFreed))
    {
      hide WipeAll, GcEvents, Deferred, Finished, EventsOf;
      ghost var sparse0, done, events, finished := gks.sparse, [], [], [];
      NothingFinalized(sparse0);
      var freed, special := [], [];
      var i := 0;
      while i < |toBeFreed|
        invariant i <= |toBeFreed| && done == toBeFreed[..i]
        invariant gks.history == old(gks.history) + events
        invariant gks.special == old(gks.special) && gks.freed == old(gks.freed)
        invariant GcFinalized(sparse0, done, gks.sparse, events, special, finished)
        invariant freed == Starts(gks.layout.stateBytes, finished)
      {
        var os := toBeFreed[i];
        GcFinalizedStep(sparse0, done, os, gks.sparse, events, special, finished);
        SameEvents(sparse0, gks.sparse, os);
        var deferred := FinalizeObject(os);
        if deferred {
          special := special + [os];
        } else {
          events := events + EventsOf(sparse0, os);
          freed := freed + [os + gks.layout.stateBytes];
          finished := finished + [os];
        }
        done := done + [os];
        i := i + 1;
      }
      assert done == toBeFreed;
      gks.freed := gks.freed + freed;
      gks.special := gks.special + special;
      forall os
        ensures Called(os) in events <==>
          && os in toBeFreed
          && var ud := sparse0[os].userData;
             ud.Some? && !ud.value.isDefault && ud.value.hasFinalizer && ud.value.anyThread
        ensures os in special <==>
          && os in toBeFreed
          && var ud := sparse0[os].userData;
             ud.Some? && !ud.value.isDefault && ud.value.hasFinalizer && !ud.value.anyThread
      {
        GcThreadCalls(sparse0, toBeFreed, os);
        GcThreadDefers(sparse0, toBeFreed, os);
      }
    }
  }

  ghost function SparseObjects(list: seq<Addr>): set<Obj> {
    set os | os in list :: Sparse(os)
  }

  lemma FreshInDistinct(list: seq<Addr>, done: seq<Addr>, next: Addr)
    requires NoRepeats(list) && done + [next] <= list
    ensures next !in done && next in list
  {
    assert list[|done|] == next;
    assert forall i | 0 <= i < |done| :: list[i] == done[i];
  }

  ghost function Elements(s: seq<Addr>): set<Addr> {
    set w | w in s
  }

  function StackWords(threads: map<ThreadId, ThreadState>, list: seq<(ThreadId, nat)>): seq<Addr> {
    seq(|list|, i requires 0 <= i < |list| => StackWord(threads, list[i]))
  }

  /** Forgetting the potential roots leaves the stacks alone. */
  lemma StackWordsKept(l: Layout, threads: map<ThreadId, ThreadState>, ids: seq<ThreadId>)
    ensures var list := StackRootList(l, threads, ids);
            StackWords(ForgetPotentialRoots(threads, ids), list) == StackWords(threads, list)
  {
    ForgettingKeeps(threads, ids);
  }

  /** Each word visited is a word of a watched thread. */
  lemma VisitedIsWord(l: Layout, threads: map<ThreadId, ThreadState>, ids: seq<ThreadId>, w: Addr)
    requires forall t | t in threads :: threads[t].WellFormed()
    requires w in WatchedPotentialRoots(threads, ids) || w in StackWords(threads, StackRootList(l, threads, ids))
    ensures w in WatchedWords(threads, ids)
  {
    hide StackRootList, WatchedPotentialRoots, Keeps;
    var list := StackRootList(l, threads, ids);
    var words := StackWords(threads, list);
    WatchedPotentialRootsExact(threads, ids, w);
    if w in words {
      var i :| 0 <= i < |words| && words[i] == w;
      ListedWordIsLive(l, threads, ids, list[i]);
      assert w in ThreadWords(threads, list[i].0);
    } else {
      var t :| t in ids && w in PotentialRoots(threads, t);
      assert w in ThreadWords(threads, t);
    }
  }

  /** Each word of a watched thread is visited or points nowhere. */
  lemma WordIsVisited(g: Image, threads: map<ThreadId, ThreadState>, ids: seq<ThreadId>, w: Addr)
    requires w in WatchedWords(threads, ids)
    ensures w in WatchedPotentialRoots(threads, ids) || Target(g, w).None?
            || w in StackWords(threads, StackRootList(g.layout, threads, ids))
  {
    hide StackRootList, WatchedPotentialRoots, Target;
    var list := StackRootList(g.layout, threads, ids);
    WatchedPotentialRootsExact(threads, ids, w);
    DroppedWordsAreInert(g, w);
    var id :| id in ids && w in ThreadWords(threads, id);
    if w in threads[id].LiveStack() && Keeps(g.layout, w) {
      var r := LiveWordIsListed(g.layout, threads, ids, id, w);
      var i :| 0 <= i < |list| && list[i] == r;
      assert StackWords(threads, list)[i] == w;
    }
  }

  /** The words the thread visits for its watched threads reach what all their words reach. */
  lemma RootsAgree(g: Image, threads: map<ThreadId, ThreadState>, ids: seq<ThreadId>, pending: set<Addr>,
                   others: set<Addr>)
    requires forall t | t in threads :: threads[t].WellFormed()
    ensures var visited := pending + WatchedPotentialRoots(threads, ids)
                           + Elements(StackWords(threads, StackRootList(g.layout, threads, ids))) + others;
            var all := pending + WatchedWords(threads, ids) + others;
            visited <= all && Reach(g, visited) == Reach(g, all)
  {
    hide StackRootList, WatchedPotentialRoots, WatchedWords, StackWords, Reach, Target;
    var words := StackWords(threads, StackRootList(g.layout, threads, ids));
    var visited := pending + WatchedPotentialRoots(threads, ids) + Elements(words) + others;
    var all := pending + WatchedWords(threads, ids) + others;
    forall w | w in visited
      ensures w in all
    {
      if w in WatchedPotentialRoots(threads, ids) || w in words {
        VisitedIsWord(g.layout, threads, ids, w);
      }
    }
    forall w | w in all && w !in visited
      ensures Target(g, w).None?
    {
      WordIsVisited(g, threads, ids, w);
    }
    InertRoots(g, visited, all);
  }
}

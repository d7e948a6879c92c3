# Verified model of the cgc1 collector

cgc1 is a stop-the-world, conservative mark-sweep collector for C++ over two heaps: a *sparse* heap
of objects of any size, each behind an object state, and a *bitmap* heap of slabs with equally sized
slots and one mark bit a slot. This project models the collector's core and proves what it is for:
that one collection marks exactly the reachable objects, frees or finalizes, once each, exactly the
unreachable ones that are not uncollectable, touches no other object, and that the protocols which
stop the mutators and drive the gc threads keep the phases of a collection apart.

## How it is built

| file | part of the collector |
|---|---|
| `Heap.dfy` | both heaps as values; what a machine word points to, interior pointers included |
| `Reachability.dfy` | reachability by paths, and an unbounded depth-first search, as references for the marker |
| `StackScan.dfy` | the conservative stack filter, potential roots, and the roots one gc thread takes from its watched threads |
| `MarkSpec.dfy` | one stretch of marking as a relation: the tri-colour argument, the cost in calls, the depth |
| `Kernel.dfy` | class `Kernel`: the heaps, the registered threads, the finalization lists, and the operations on them |
| `GcThread.dfy` | class `GcThread`: depth-bounded marking with its overflow set, clear, sweep, finalize |
| `SweepSpec.dfy` | what sweeping a list of objects does |
| `SparseFinalization.dfy` | what finalizing a list of objects does, in the gc thread and in a mutator thread |
| `Setup.dfy` | dealing threads, blocks and roots to the gc threads |
| `Collection.dfy` | one collection of both heaps: set up, clear, mark, sweep, finalize |
| `ParallelMark.dfy` | any number of markers on one heap, interleaved step by step |
| `Handshake.dfy` | the collecting thread and the gc threads: mutexes, condition variables, do and done flags |
| `WorldStop.dfy` | stopping and restarting the mutators; registering and unregistering threads |
| `BitmapFinalization.dfy` | finalizing a slab of the bitmap heap, byte by byte, and runs of a slab's life |

The code that changes state is modelled by classes with the source's fields and methods, proved
against specification functions on values; the two protocols and the interleaved marker are step
machines whose properties are proved for every reachable state of every run.

Marks are part of the object and slab values held by `Kernel`. `View()` is the heap with its marks
erased, which marking never changes, and `Marks()` is the set of marked objects; nearly every
contract speaks of these two.

### What the library code is taken to do

The allocators and utilities of mcppalloc and mcpputil are used through these contracts only.

- Every object state that the quick test accepts belongs to an object; objects do not overlap and
  are not empty (`Heap.WellFormed`).
- `reverse_consume_for_each` removes the last element, here the greatest address, and then visits it.
- `set_quasi_freed` unsets in-use and sets quasi-freed.
- `or_with_to_be_freed` adds the slots that are neither free nor marked, and `free_unmarked` makes
  free what is free or not marked.
- `for_some_contiguous_bits_flip` visits and clears some disjoint runs of set bits; which ones is
  left open.
- `equipartition` cuts a sequence into consecutive pieces; where is left open.
- Waiting on a condition variable enqueues and releases the mutex in one step. Spurious wake-ups may
  happen: `WorldStop` and the phase barrier of `Handshake` hold with them. The results on progress say
  what they need.
- `std::lock` on several mutexes is one step.
- A finalizer may do anything to its own object's memory and nothing else.
- Setting the mark of one object never clears that of another, even when several gc threads set marks at
  once.

### What is not true of the code

- *Resumed is never above paused* (after the first reset): false between the two stores that reset
  the counters (cgc1/src/global_kernel_state.cpp:391-392). `WorldStop.ResumedExceedsPaused` gives a
  run, `WorldStop.CountersAgree` says exactly when it holds.
- *Paused is below the number of registered threads*: false once a thread has unregistered after a
  collection. `WorldStop.PausedReachesRegistered` gives a run, `WorldStop.PausedBelowRegistered` says
  exactly when it holds. Inside a stop it always does.
- *No wake-up of a gc thread is lost*, if wake-ups can be spurious: `start_mark`, `start_sweep` and
  `notify_all_threads_resumed` do not take the gc thread's mutex, so one that a spurious wake-up has
  put back between its test and its sleep can miss them. `Handshake.SpuriousWakeupIsFatal` gives a
  run. `Handshake.WakeupLostIffMissed` says exactly when it happens: if and only if the collecting
  thread notifies a gc thread that stands there. `Handshake.LostForever` shows that it is then stuck,
  and `Handshake.NoLostWakeup` that it never happens without spurious wake-ups.

## Model

| member | source | states |
|---|---|---|
| `Heap.InteriorSlotPointer` | cgc1/src/gc_thread.cpp:243-266 | a pointer to any byte of a slot, first or interior, resolves to that slot |
| `Heap.SlotTargetInside` | cgc1/src/gc_thread.cpp:243-266 | only a pointer to one of the slot's own bytes does: not one into the header, into another slot or behind the last slot |
| `Heap.InteriorSparsePointer` | cgc1/src/global_kernel_state.cpp:166-184 | a pointer to any of the 8 bytes of any word of a sparse object, within the layout's bounds, resolves to that object if it is in use, not quasi-freed and linked, and to nothing otherwise |
| `Heap.SparseTargetInside` | cgc1/src/global_kernel_state.cpp:166-184 | only a pointer to one of the bytes of a live object's words, outside the bitmap heap and inside the sparse heap, resolves to it |
| `Heap.SparseResolves` | cgc1/src/gc_thread.cpp:302-315 | the one object an address lies in decides what it resolves to: that object if live, else nothing |
| `Heap.RecognizedCovers` | cgc1/src/gc_thread.cpp:302-311 | the object state that the quick test accepts is the one and only object that covers the address, so the search through the blocks could have found no other |
| `Reachability.ReachIsLeast` | cgc1/src/gc_thread.cpp:221-242 | the objects on paths from the roots are within every closed set that the roots lead into |
| `Reachability.DfsIsReach` | cgc1/src/gc_thread.cpp:335-351 | a depth-first search with no depth limit and no overflow set finds exactly the objects on paths from the roots |
| `Reachability.ReachOfUnion` | cgc1/src/gc_thread.cpp:221-242 | what two sets of roots reach together is what they reach one by one, so marking may be shared out |
| `Reachability.FieldOfReachable` | cgc1/src/gc_thread.cpp:329-333 | whatever any word of a reachable sparse object, the first and the last included, points to is reachable, unless the object is atomic |
| `Reachability.SlotWordOfReachable` | cgc1/src/gc_thread.cpp:288-295 | whatever any word of a reachable slot of a slab of type 2 points to is reachable |
| `Reachability.ReachableOnlySo` | cgc1/src/gc_thread.cpp:221-351 | an object is reachable if and only if a root points to it or some word of a reachable object does that is not atomic and, in the bitmap heap, in a slab of type 2 |
| `Reachability.WordsCounted` | cgc1/src/gc_thread.cpp:288-333 | what the marking costs are measured in: an object counts as many as it has words, but nothing if it is atomic or in a slab of another type than 2 |
| `StackScan.ScanStack` | cgc1/src/thread_local_kernel_state_impl.hpp:113-133 | aborts exactly if a stack bound was never set; otherwise appends exactly the positions from stack pointer to top whose words lie in the bitmap heap's bounds or, less the size of an object state, in the sparse heap's, and keeps the container's earlier contents |
| `StackScan.KeptSlotsExact` | cgc1/src/thread_local_kernel_state_impl.hpp:124-132 | the kept positions are exactly those between stack pointer and top whose words pass the filter, each once and in order |
| `StackScan.DroppedWordsAreInert` | cgc1/src/thread_local_kernel_state_impl.hpp:126-131 | a word that the filter drops resolves to no object |
| `StackScan.FilterPreservesReach` | cgc1/src/thread_local_kernel_state_impl.hpp:113-133 | the kept slots reach exactly what all words between stack pointer and top reach, on every heap and stack |
| `StackScan.ForgettingKeeps` | cgc1/src/gc_thread.cpp:193-196 | handling threads forgets their potential roots and changes nothing else about any thread |
| `StackScan.ThreadWordsAre` | cgc1/src/thread_local_kernel_state_impl.hpp:113-133 | the words of a thread are exactly its potential roots and every word of its stack from the stack pointer, included, to the top |
| `StackScan.StackRootsListedOnce` | cgc1/src/gc_thread.cpp:186-203 | over all watched threads each kept stack slot is listed exactly once |
| `StackScan.PotentialRootsCounted` | cgc1/src/gc_thread.cpp:195 | each watched thread adds to the number of queued addresses as many as it holds potential roots |
| `MarkSpec.ScanStep` | cgc1/src/gc_thread.cpp:329-333 | scanning one more word of a marked object keeps every earlier word covered, and costs at most one call and one postponement |
| `MarkSpec.DepthInNumbers` | cgc1/src/gc_thread.cpp:277-334 | from the depth rule that every call obeys: a bitmap word is followed down to depth 300 and postponed beyond, a sparse one down to depth 100, deeper only if the object is atomic or marked |
| `MarkSpec.ScanDone` | cgc1/src/gc_thread.cpp:326-333 | marking an object and scanning all its words leaves all of them resolved to marked or postponed, paid for by two units a word |
| `MarkSpec.RestartStep` | cgc1/src/gc_thread.cpp:352-359 | restarting from a postponed address marks something new or postpones nothing, so draining ends although the set may grow |
| `MarkSpec.MarkEnd` | cgc1/src/gc_thread.cpp:221-242 | with nothing postponed any more, what is marked is what was marked before plus exactly what the roots reach |
| `Kernel.Kernel.SetMark` | cgc1/src/gc_allocator_impl.hpp:19-22 | one more object is marked; nothing else about the heap changes |
| `Kernel.Kernel.ClearMark` | cgc1/src/gc_allocator.hpp:99-102 | one object is no longer marked; nothing else about the heap changes |
| `Kernel.Kernel.SetMarked` | cgc1/src/gc_thread.cpp:268-270 | one more slot is marked; nothing else about the heap changes |
| `Kernel.Kernel.ClearAllSlabMarks` | cgc1/src/global_kernel_state.cpp:419-421 | no slot is marked any more; marks of sparse objects stay |
| `Kernel.Kernel.FindValidObjectState` | cgc1/src/global_kernel_state.cpp:166-184 | finds an in-use object such that the address is one of the bytes of its words, and finds none only if no in-use object is so |
| `Kernel.Kernel.IsBitmapAddrMarkable` | cgc1/src/gc_thread.cpp:243-276 | which of the eight codes is returned, in terms of what the word points to, whether that is marked and whether it has words to follow; and that at most that slot gets marked |
| `Kernel.Kernel.CallFinalizer` | cgc1/src/gc_thread.cpp:422 | one call is recorded, and no object but its own can have changed |
| `Kernel.Kernel.FinalizeLocally` | cgc1/src/sparse_finalization.hpp:10-24 | one deferred object keeps its number of words and all are 0 afterwards; its finalizer is called before, if it has one of its own |
| `Kernel.Kernel.DoLocalSparseFinalization` | cgc1/src/sparse_finalization.hpp:6-27 | the finalizer calls and zeroings made, in order; every listed object keeps its number of words and all are 0 afterwards, no other object changes; reported is, for each, where its memory starts |
| `Kernel.Kernel.LocalThreadFinalization` | cgc1/src/global_kernel_state.cpp:312-329 | all deferred objects are taken and finalized, with all their words 0 afterwards, no other object changes, and none is left |
| `GcThread.GcThread.MarkAddrs` | cgc1/src/gc_thread.cpp:335-351 | marks and postponed addresses only grow, every newly marked object has all its words resolved to marked or postponed, only words of newly marked objects or a too deep address are postponed, a word is postponed exactly if it leads too deep and otherwise what it points to is marked, no more than what any closed bound allows is marked, the cost is paid by the words of what got marked, and no call is deeper than 301 |
| `GcThread.GcThread.MarkAddrsBitmap` | cgc1/src/gc_thread.cpp:277-296 | the same for an address in the bitmap heap, with postponement beyond depth 300 |
| `GcThread.GcThread.MarkAddrsSparse` | cgc1/src/gc_thread.cpp:298-334 | the same for an address in the sparse heap, with postponement beyond depth 100 of objects that have words |
| `GcThread.GcThread.ScanWords` | cgc1/src/gc_thread.cpp:330-333 | following all words of an object just marked completes the visit of the address that led to it |
| `GcThread.GcThread.MarkMarkVector` | cgc1/src/gc_thread.cpp:352-359 | terminates with nothing postponed, and what was covered before is marked |
| `GcThread.GcThread.HandleThread` | cgc1/src/gc_thread.cpp:186-203 | a registered thread's potential roots are queued and forgotten and its kept stack slots are listed; an unknown thread changes nothing |
| `GcThread.GcThread.HandleThreads` | cgc1/src/gc_thread.cpp:223-226 | the same for all watched threads; aborts exactly if one of the registered ones has no stack bounds |
| `GcThread.GcThread.MarkRoots` | cgc1/src/gc_thread.cpp:227-239 | every given word is covered afterwards, for one call each beyond what newly marked words pay |
| `GcThread.GcThread.MarkAndDrain` | cgc1/src/gc_thread.cpp:227-241 | after the three root loops and the draining nothing is postponed and all root words are covered |
| `GcThread.GcThread.Mark` | cgc1/src/gc_thread.cpp:221-242 | from any closed set of marks: marked afterwards is exactly that set plus what the thread's stacks (all words, unfiltered), roots, root ranges and potential roots reach; at most R + S + 2W calls are made, none deeper than 301; aborts exactly if a watched stack has no bounds |
| `GcThread.GcThread.ClearMarks` | cgc1/src/gc_thread.cpp:204-220 | exactly the objects of this thread's blocks lose their mark |
| `GcThread.GcThread.SweepObject` | cgc1/src/gc_thread.cpp:373-404 | the object meets its fate: kept, quasi-freed or listed, and is counted unless kept |
| `GcThread.GcThread.Sweep` | cgc1/src/gc_thread.cpp:360-408 | heap, to-be-freed list and freed counter after the sweep are those of `SweepSpec` on the thread's blocks |
| `GcThread.GcThread.FinalizeObject` | cgc1/src/gc_thread.cpp:414-440 | an object is deferred, untouched, if and only if it has user data of its own with a finalizer that is not allowed in any thread; any other has all its words 0 afterwards, after a call of its finalizer if it has one |
| `GcThread.GcThread.Finalize` | cgc1/src/gc_thread.cpp:409-445 | added to the special list are exactly the listed objects with a finalizer of their own that is not allowed in any thread; called are exactly the listed ones with one that is; events, heap and reported starts are those of `SparseFinalization` on the list |
| `SweepSpec.SweptExact` | cgc1/src/gc_thread.cpp:374-405 | quasi-freed are exactly the unmarked in-use objects without user data or with default user data; no other object changes |
| `SweepSpec.FateInFields` | cgc1/src/gc_thread.cpp:373-404 | which fate an object meets, and what quasi-freeing does to it, in the fields of the object and its user data |
| `SweepSpec.ToBeFreedExact` | cgc1/src/gc_thread.cpp:376-402 | listed, and exactly once, are the unmarked in-use objects with collectable user data of their own |
| `SweepSpec.FreedCountExact` | cgc1/src/gc_thread.cpp:375-407 | the counter grows by the number quasi-freed plus the number listed; uncollectable objects do not count |
| `SweepSpec.SweepAfter` | cgc1/src/gc_thread.cpp:360-408 | sweeping two disjoint lists one after the other is sweeping both together |
| `SparseFinalization.FinalizedOnce` | cgc1/src/gc_thread.cpp:409-441 | over the gc thread's finalization and the later handling of what it deferred and of what was deferred earlier, each of these objects is zeroed once and its finalizer called once, a restricted one never by the gc thread, no zeroing comes before its call, and no other object is zeroed or has its finalizer called |
| `SparseFinalization.DeferringPartitions` | cgc1/src/gc_thread.cpp:415-440 | each listed object is either finished by the gc thread or deferred, according to where its finalizer may run; none gets lost or doubled |
| `SparseFinalization.GcThreadCalls` | cgc1/src/gc_thread.cpp:421-430 | the gc thread calls exactly the finalizers of those listed objects whose user data is their own and allows any thread |
| `SparseFinalization.GcThreadDefers` | cgc1/src/gc_thread.cpp:421-430 | it defers exactly the listed objects with a finalizer of their own that is not allowed in any thread |
| `SparseFinalization.WipedIsZero` | cgc1/src/gc_thread.cpp:435 | a zeroed object has as many words as before, each of them 0, and is otherwise unchanged |
| `SparseFinalization.WipeAllIsZero` | cgc1/src/sparse_finalization.hpp:22 | over a whole list the same for every listed object, and no other object changes |
| `SparseFinalization.GcEventsAreLocalEventsOfFinished` | cgc1/src/sparse_finalization.hpp:10-24 | the gc thread treats what it does not defer exactly as a mutator thread would |
| `SparseFinalization.LocalEventsConcat` | cgc1/src/global_kernel_state.cpp:312-329 | deferred objects may be drained in batches without any difference |
| `SparseFinalization.AllFinalized` | cgc1/src/gc_thread.cpp:409-445 | once the special list is drained too, with all that was on it before, every listed object has all its words 0, is zeroed once and after the one call of its finalizer, and every other object is as it was, neither called nor zeroed |
| `Setup.DealThreads` | cgc1/src/global_kernel_state.cpp:259-274 | each registered thread is on exactly one watch list, nobody else is on any, and the lists' lengths differ by at most one |
| `Setup.InsertUniqueSorted` | cgc1/src/gc_thread.cpp:77-81 | a sorted list stays sorted and without repeats and gains exactly the one thread |
| `Setup.Equipartition` | cgc1/src/global_kernel_state.cpp:296-298 | wherever the cuts fall, one piece for each gc thread, and the pieces in order are the whole |
| `Collection.SetupGcThreads` | cgc1/src/global_kernel_state.cpp:259-299 | the shares' root words together are exactly all root words, no thread is watched twice, the blocks are dealt out in full |
| `Collection.RootWordsAre` | cgc1/src/gc_thread.cpp:221-242 | root words are exactly the words of every registered thread, every root and every word of every root range |
| `Collection.ClearPhase` | cgc1/src/global_kernel_state.cpp:417-424 | whatever marks earlier collections left, none is left in either heap, and nothing else changed |
| `Collection.MarkPhase` | cgc1/src/global_kernel_state.cpp:427-430 | all gc threads together mark exactly what the union of their roots reaches |
| `Collection.StartsReach` | cgc1/src/gc_thread.cpp:221-242 | what the gc threads set out with together, kept stack words, roots, root ranges and potential roots, reaches what all the words of their shares reach |
| `Collection.InterleavedMarkPhase` | cgc1/src/global_kernel_state.cpp:427-430 | however the gc threads of a team interleave while marking, once all have returned the marks are those that the mark phase promises |
| `Collection.SweepPhase` | cgc1/src/global_kernel_state.cpp:433-441 | all gc threads together sweep every block once, add to their lists exactly the objects to be freed, and add exactly their number to the counter |
| `Collection.CollectHeaps` | cgc1/src/global_kernel_state.cpp:388-441 | from any marks: quasi-freed exactly the unreachable in-use sparse objects with null or default user data, newly listed exactly once each unreachable one with collectable user data of its own, all else unchanged but for marks, which are exactly on what the program's roots reach in both heaps; the freed counter is the sum of the two numbers; all potential roots are forgotten |
| `Collection.FinalizeTeam` | cgc1/src/gc_thread.cpp:409-445 | the finalizations of all gc threads add up to one finalization of all their lists, what they defer is added to the special list, and no finalizer is called that is not allowed in any thread |
| `Collection.FinalizeHeaps` | cgc1/src/gc_thread.cpp:409-445 | after all gc threads have finalized and a mutator has drained the special list, each object listed or deferred earlier keeps its number of words and all are 0, zeroed once, after the one call of its finalizer, and no other object was called, zeroed or changed |
| `Collection.SlabFreedExactly` | cgc1/src/bitmap_finalization.cpp:7-58 | finalizing a slab whose marks are what was reachable makes newly free exactly the allocated unreachable slots, keeps the bytes of free and reachable ones, zeroes the newly free ones unless they are finalizeable without user data, which no run makes, keeps all free slots of a slab of any run zero, and calls exactly the newly free finalizeable slots with user data, once each and with their bytes as they were |
| `Collection.FinalizeSlab` | cgc1/src/bitmap_finalization.cpp:7-58 | if finalize(state) completes on a slab marked with what was reachable, the slab has been collected in that sense |
| `Collection.FinalizeSlabs` | cgc1/src/global_kernel_state.cpp:435-439 | every slab of the bitmap heap is finalized so |
| `Collection.Collect` | cgc1/src/global_kernel_state.cpp:388-444 | one whole collection of both heaps, from any marks: reachable and uncollectable sparse objects keep everything but their mark and are neither finalized nor zeroed; every other unreachable one is quasi-freed, or, with user data of its own, has all its words 0, zeroed once after the one call of its finalizer; in every slab exactly the allocated unreachable slots become free, their finalizers are called once on their old bytes, and in a slab of any run every free slot is zero afterwards; the counter says how many sparse objects were freed |
| `ParallelMark.StepKeepsInvariant` | cgc1/src/gc_thread.cpp:277-359 | any step of any marker keeps every word of a marked object and every root accounted for: resolved to a marked object, or on some marker's stack, roots or overflow set |
| `ParallelMark.MarksExactlyReach` | cgc1/src/gc_thread.cpp:277-359 | for any number of gc threads and any interleaving of looking at marks and setting them, once all stacks and overflow sets are empty the marks are exactly what all roots reach |
| `ParallelMark.AlwaysSafe` | cgc1/src/gc_thread.cpp:277-351 | at every moment of every run only reachable objects are marked, no mark has been taken back, and no call of any gc thread is deeper than 301 |
| `ParallelMark.OnlyDeepCallsPostpone` | cgc1/src/gc_thread.cpp:279-283 | in every run the step that postpones an address is a call for it deeper than the sparse limit, made for a word of an object marked before; calls for roots and restarts postpone nothing |
| `ParallelMark.PostponedAreScannedWords` | cgc1/src/gc_thread.cpp:277-359 | at every moment of every run each postponed address of a gc thread is one of the potential roots it had queued or a word of a marked object |
| `ParallelMark.RunsAreBounded` | cgc1/src/gc_thread.cpp:277-359 | no interleaving takes more steps than a bound given by roots, queued addresses, objects and words |
| `ParallelMark.EveryRunFinishes` | cgc1/src/gc_thread.cpp:221-242 | every partial run can be carried on to one where all markers are done, within that bound, and then exactly the reachable objects are marked |
| `Handshake.StepKeepsInvariant` | cgc1/src/gc_thread.cpp:100-181 | every step keeps the relation between flags, mutex owner, sleepers and finished jobs, in the strength that the past allows: nothing spurious, no notification missed, or anything |
| `Handshake.NoLostWakeup` | cgc1/src/gc_thread.cpp:141-181 | in every run without spurious wake-ups no gc thread sleeps, or is about to, with its flag set and no notification coming, although three of the flags are set without the mutex; in every run at all, a collecting thread asleep although the job is done is about to be notified |
| `Handshake.WakeupLostIffMissed` | cgc1/src/gc_thread.cpp:119-175 | over all runs, with spurious wake-ups or without: some gc thread is ever left asleep or about to sleep with its flag set and no notification coming, if and only if at some step the collecting thread notified a gc thread between its test and its sleep |
| `Handshake.NothingMissed` | cgc1/src/gc_thread.cpp:141-175 | without spurious wake-ups no gc thread is ever notified between its test and its sleep |
| `Handshake.LostForever` | cgc1/src/gc_thread.cpp:119-175 | from then on nothing but a spurious wake-up of that same gc thread ends that state, whatever the other threads do |
| `Handshake.PhaseBarrier` | cgc1/src/global_kernel_state.cpp:417-444 | in every run, spurious and lost wake-ups included: nobody marks before every clear and the bitmap clear of this cycle, nobody sweeps and the bitmap heap is not finalized before every mark, nobody finalizes before every sweep and the bitmap finalization; no job is done twice in a cycle; all at work are in the same stage |
| `Handshake.NoStaleDoneFlag` | cgc1/src/gc_thread.cpp:54-71 | in every run a done flag lets the collecting thread through only if the job was done in this cycle; all jobs of a cycle are done before the next reset |
| `Handshake.NeverStuck` | cgc1/src/gc_thread.cpp:100-181 | unless a notification was missed, in the middle of a cycle the collecting thread or a gc thread can take a step, or a third thread holds a mutex it can give back |
| `Handshake.CycleEnds` | cgc1/src/global_kernel_state.cpp:345-463 | however the threads interleave, and unless a notification is missed, a cycle with K gc threads ends within 122 K + 4 of their and the collecting thread's steps, and 3 more for each spurious wake-up |
| `Handshake.StepsCounted` | cgc1/src/gc_thread.cpp:100-181 | what that bound counts: the positions in the run at which the collecting thread or a gc thread took a step, and those at which a wake-up was spurious |
| `Handshake.SpuriousWakeupIsFatal` | cgc1/src/gc_thread.cpp:119-121 | a run with one spurious wake-up after which the gc thread sleeps with its flag set and the collecting thread waits for it |
| `Handshake.StuckForever` | cgc1/src/gc_thread.cpp:151-160 | nothing but another spurious wake-up ends that state |
| `WorldStop.StepKeepsInvariant` | cgc1/src/global_kernel_state.cpp:345-463 | every step of the collecting thread, of the pause handler and of ordinary threads keeps the relation between locks, flags, counters, signals and threads in the handler |
| `WorldStop.StopTheWorld` | cgc1/src/global_kernel_state.cpp:588-661 | from the end of the pause spin until the finished flag is set every other registered thread is parked in the handler and can take no step of its own, and the paused counter is their number |
| `WorldStop.NobodyCarriedOver` | cgc1/src/global_kernel_state.cpp:374-392 | while flag and counters are reset, no thread of an earlier collection is in the handler and no signal is on its way |
| `WorldStop.AllocatorsAwaited` | cgc1/src/global_kernel_state.cpp:641-650 | in every run the allocators are unavailable exactly from before the first signal until after the pause spin, and meanwhile no stopped thread gets beyond waiting for them |
| `WorldStop.EverybodyIsWoken` | cgc1/src/global_kernel_state.cpp:627-661 | in every run, spurious wake-ups included: with the finished flag set nobody is about to sleep in the pause handler, and nobody sleeps there except while the collecting thread is about to notify |
| `WorldStop.WorldRestarts` | cgc1/src/global_kernel_state.cpp:627-661 | once it has notified, a thread in the handler can always take a step towards its end, unless the restart mutex that it needs is held; and then its holder can take such a step, or is the collecting thread and can give it back |
| `WorldStop.SleepsUntilWoken` | cgc1/src/global_kernel_state.cpp:651-654 | in every run, going to sleep in the handler gives the restart mutex back in the same step, and of all steps only the notification and a spurious wake-up end the sleep |
| `WorldStop.RegisterUnregister` | cgc1/src/global_kernel_state.cpp:504-563 | in every run a thread that holds both kernel mutexes can register, because no stop is then under way; it is on the list and can collect afterwards, and unregistering it again gives back the state before |
| `WorldStop.ThreadListFrozen` | cgc1/src/global_kernel_state.cpp:372-459 | at every step between the big lock and the end the collecting thread holds one of the two mutexes that registering needs, no step changes the list, and no second collection starts |
| `WorldStop.CountersAgree` | cgc1/src/global_kernel_state.cpp:641-659 | paused minus resumed is the number of parked threads, except between the two resetting stores; resumed is above paused exactly there, if and only if more than one thread was registered for the collection before |
| `WorldStop.PausedBelowRegistered` | cgc1/src/global_kernel_state.cpp:612-619 | paused is below the number of registered threads if and only if there are no fewer of them than when the last collection began |
| `WorldStop.PausedReachesRegistered` | cgc1/src/global_kernel_state.cpp:534-563 | a run in which a thread unregisters after a collection and paused reaches the number of registered threads |
| `WorldStop.ResumedExceedsPaused` | cgc1/src/global_kernel_state.cpp:390-392 | a run in which resumed is above paused between the two stores of the second reset |
| `BitmapFinalization.BitmapState.Finalize` | cgc1/src/bitmap_finalization.cpp:7-58 | if it completes: newly free are exactly the allocated unmarked slots, each finalizeable one with user data was finalized in order and zeroed, other dead slots are zeroed whichever runs are picked, live and already free slots keep their bytes; it stops at the first slot that says abort_on_collect or throws something unknown, and which one that is |
| `BitmapFinalization.BitmapState.FinalizeSlot` | cgc1/src/bitmap_finalization.cpp:26-48 | without user data nothing happens; otherwise the slot is aborted on, or called once and, unless something unknown is thrown, zeroed and no longer finalizeable |
| `BitmapFinalization.BitmapState.CallFinalizer` | cgc1/src/bitmap_finalization.cpp:38-46 | one call is recorded with the slot's bytes at that moment, and bytes of other slots stay |
| `BitmapFinalization.BitmapState.ZeroSlots` | cgc1/src/bitmap_finalization.cpp:53 | exactly the bytes of the slots in the range are zeroed |
| `BitmapFinalization.BitmapState.ZeroEach` | cgc1/src/bitmap_finalization.cpp:55-56 | exactly the bytes of the slots in the set are zeroed |
| `BitmapFinalization.BitmapState.Allocate` | cgc1/src/global_kernel_state.cpp:199-203 | one free slot is taken; of all bytes only the last ones of that slot may differ, and these hold its user data; marks and finalizeable bits stay |
| `BitmapFinalization.BitmapState.RegisterFinalizer` | cgc1/src/kernel.cpp:274-301 | succeeds exactly for slots with user data, of slabs of type 2; the slot, and no other, becomes finalizeable, and its arbitrary-thread bit is what the caller asks |
| `BitmapFinalization.BitmapState.ZeroSomeRuns` | cgc1/src/bitmap_finalization.cpp:52-54 | whatever runs are visited, exactly the bytes of the slots taken out of the set are zeroed |
| `BitmapFinalization.CalledExactlyOnce` | cgc1/src/bitmap_finalization.cpp:21-49 | each dead finalizeable slot with user data is called exactly once, no other slot is |
| `BitmapFinalization.CalledBeforeZeroing` | cgc1/src/bitmap_finalization.cpp:38-47 | each of these calls sees the slot's bytes as they were before anything was zeroed |
| `BitmapFinalization.SlotBytesAre` | cgc1/src/bitmap_finalization.cpp:47 | the bytes of a slot are the entry size many bytes from index times entry size on |
| `BitmapFinalization.ByteOfSlot` | cgc1/src/bitmap_finalization.cpp:53 | a byte belongs to a slot if and only if it is one of these |
| `BitmapFinalization.NewlyFreedAreZero` | cgc1/src/bitmap_finalization.cpp:21-57 | in every run a finalization makes newly free exactly the dead slots and leaves every byte of each of them zero |
| `BitmapFinalization.NewlyFreeAreZeroIff` | cgc1/src/bitmap_finalization.cpp:26-57 | taken alone, on any slab: the dead slots become newly free, and all are left zero if and only if no finalizeable one without user data still holds something |
| `BitmapFinalization.StepKeepsInvariant` | cgc1/src/bitmap_finalization.cpp:51-57 | allocating, writing to an allocated slot, marking, registering a finalizer and finalizing each keep every free slot zero |
| `BitmapFinalization.FreeSlotsStayZero` | cgc1/src/bitmap_finalization.cpp:51-57 | over any run of these, every byte of every free slot is zero, so allocation need not zero |

## Left out

- Signal delivery, pthread calls, memory fences, timing and the Windows paths: a signal is "the signalled thread may enter the pause handler at any later step".
- Allocator internals: slabs, blocks and object states are what the contracts above say; `bulk_destroy_memory`, the release of user data and explicit `deallocate` are not modelled.
- Aliasing between heap objects and collector state: objects are values in the maps of `Kernel`, not Dafny objects of their own.
- Integer widths: addresses, sizes and counters are unbounded, so the wrap-around of the number of collections and of addresses near zero is not modelled.
- Alignment: stacks and objects are sequences of words; the words that a root range yields at every byte offset are given as they are.
- The link between a slot's words, which the marker reads, and its bytes, which bitmap finalization zeroes.
- The root API: root words and ranges are given to a collection; nothing is claimed about `cgc_add_root`.
- Verbose tracking: the constant `c_gc_verbose_track` is false (cgc1/include/cgc1/declarations.hpp:5), and only that branch is modelled.
- `Collection.CollectHeaps`: runs the gc threads of a phase one after the other; for marking, `Collection.InterleavedMarkPhase` shows that any interleaving ends the same, and `Handshake` has the barriers between phases.
- `Collection.Collect`: starts with an empty special list, because force_collect drains it first (cgc1/src/global_kernel_state.cpp:367,308-310), and with empty to-be-freed lists: nothing in this repository empties these again, and whether `bulk_destroy_memory` does is up to the library. The slabs are finalized between the sweep and the finalization of sparse objects, where the source finalizes them while the gc threads sweep.
- `Collection.FinalizeHeaps`: one mutator thread drains the special list at the end; draining it in several batches makes no difference by `SparseFinalization.LocalEventsConcat`.
- `ParallelMark.MarksExactlyReach`: finding the object behind a word and looking at its mark are one step, because nothing but marks changes meanwhile.
- `Handshake.NeverStuck`: shutting the gc threads down is not modelled; the collecting thread may be one of several in turn, and any other waiters count as third threads.
- `Handshake.CycleEnds`: bounds the steps of the handshake's own threads; that they get their turn, and that a third thread gives a mutex back, is up to the scheduler.
- `WorldStop.StopTheWorld`: safety only. Nothing is claimed about the stop ever being reached, since a thread may be paused while it holds a mutex that the collecting thread waits for.
- `WorldStop.WorldRestarts`: that a thread which can take its next step gets its turn, and is not overtaken at the restart mutex for ever, is up to the scheduler.
- `WorldStop.NobodyCarriedOver`: the allocators' own mutexes, which the big lock takes too, play no part in it and are left out.
- `Kernel.Kernel.LocalThreadFinalization`: exceptions thrown by finalizers of sparse objects are not modelled.
- "Finalizers run only after the mutators resume" is not claimed: the gc threads are told to go before the mutators are released.
- The `gc.h` shims, JSON output, operator new and delete, stack cleaning, parameters and the benchmarks.

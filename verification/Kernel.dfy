/**
 The parts of global_kernel_state_t that a collection reads and changes, apart from the locks
 and counters of the world-stop protocol.  Mark bits live in the heaps, as in the source;
 `View` is the heaps without them and `Marks` is the set of marked objects.
 */
module Kernel {
  import opened Heap
  import opened StackScan
  import opened SparseFinalization

  class Kernel {
    const layout: Layout
    var sparse: map<Addr, SparseObject>
    var slabs: map<Addr, Slab>
    // m_threads, by thread id
    var threads: map<ThreadId, ThreadState>
    // m_num_freed_in_last_collection
    var numFreed: nat
    // m_need_special_finalizing_collection_sparse
    var special: seq<Addr>
    // m_freed_in_last_collection: where the freed objects started
    var freed: seq<Addr>
    // What finalization did to sparse objects, oldest first.
    var history: seq<FinalizerEvent>

    constructor (layout: Layout)
      ensures this.layout == layout && sparse == map[] && slabs == map[] && threads == map[]
      ensures numFreed == 0 && special == [] && freed == [] && history == []
    {
      this.layout := layout;
      sparse, slabs, threads := map[], map[], map[];
      numFreed, special, freed, history := 0, [], [], [];
    }

    ghost function View(): Image
      reads this
    {
      EraseMarks(Image(layout, sparse, slabs))
    }

    ghost function Marks(): set<Obj>
      reads this
    {
      MarksOf(Image(layout, sparse, slabs))
    }

    ghost predicate Valid()
      reads this
    {
      WellFormed(View())
    }

    /** set_mark on a sparse object; its other flags keep their values. */
    method SetMark(os: Addr)
      requires os in sparse
      modifies this`sparse
      ensures View() == old(View()) && Marks() == old(Marks()) + {Sparse(os)} && sparse.Keys == old(sparse.Keys)
    {
      hide EraseMarks, MarksOf;
      MarkOneObject(Image(layout, sparse, slabs), os, true);
      sparse := sparse[os := sparse[os].(marked := true)];
    }

    /** clear_mark on a sparse object. */
    method ClearMark(os: Addr)
      requires os in sparse
      modifies this`sparse
      ensures View() == old(View()) && Marks() == old(Marks()) - {Sparse(os)} && sparse.Keys == old(sparse.Keys)
    {
      hide EraseMarks, MarksOf;
      MarkOneObject(Image(layout, sparse, slabs), os, false);
      sparse := sparse[os := sparse[os].(marked := false)];
    }

    /** bitmap_state_t::set_marked. */
    method SetMarked(st: Addr, index: nat)
      requires st in slabs && index < |slabs[st].slots|
      modifies this`slabs
      ensures View() == old(View()) && Marks() == old(Marks()) + {Slot(st, index)}
    {
      hide EraseMarks, MarksOf;
      MarkOneSlot(Image(layout, sparse, slabs), st, index);
      slabs := slabs[st := slabs[st].(marks := slabs[st].marks + {index})];
    }

    /** clear_mark_bits on every slab. */
    method ClearAllSlabMarks()
      modifies this`slabs
      ensures View() == old(View())
      ensures Marks() == set o | o in old(Marks()) && o.Sparse?
    {
      slabs := map st | st in slabs :: slabs[st].(marks := {});
      assert View().slabs == old(View().slabs);
      assert View() == old(View());
    }

    /** _u_find_valid_object_state: the object that covers the address, if it is in use. */
    method FindValidObjectState(addr: Addr) returns (found: Option<Addr>)
      requires Valid()
      ensures found.Some? ==>
        && found.value in sparse && sparse[found.value].inUse
        && var start := found.value + layout.stateBytes; start <= addr < start + 8 * |sparse[found.value].words|
      ensures found.None? ==> forall os | os in sparse && sparse[os].inUse ::
        !(os + layout.stateBytes <= addr < os + layout.stateBytes + 8 * |sparse[os].words|)
    {
      ghost var g := View();
      assert forall os | os in sparse ::
        Covers(g, os, addr) <==> os + layout.stateBytes <= addr < os + layout.stateBytes + 8 * |sparse[os].words|;
      if exists os | os in sparse :: Covers(Image(layout, sparse, slabs), os, addr) {
        var os :| os in sparse && Covers(Image(layout, sparse, slabs), os, addr);
        assert Covers(g, os, addr);
        return if sparse[os].inUse then Some(os) else None;
      }
      assert forall os :: Covers(g, os, addr) ==> Covers(Image(layout, sparse, slabs), os, addr);
      found := None;
    }

    /** The bitmap half of _mark_addrs: says why an address is not to be followed, and marks the
        slot it points to on request.  The result is the source's code: 0 follow, 1 and 2 state
        outside the heap, 3 no slab there, 4 in the header, 5 past the last slot, 6 already
        marked, 7 a leaf. */
    method IsBitmapAddrMarkable(addr: Addr, doMark: bool, forceMark: bool) returns (code: nat)
      modifies this`slabs
      ensures View() == old(View())
      ensures SlotTarget(View(), addr).None? <==> 1 <= code <= 5
      ensures var st := layout.stateOf(addr);
        && (code == 1 <==> st >= layout.fastEnd)
        && (code == 2 <==> st < layout.fastBegin && st < layout.fastEnd)
        && (code == 3 <==> layout.InFastHeap(st) && st !in old(slabs))
        && (code == 4 <==> layout.InFastHeap(st) && st in old(slabs) && old(slabs)[st].InHeader(st, addr))
      ensures 1 <= code <= 6 ==> Marks() == old(Marks())
      ensures code == 6 <==>
        !forceMark && SlotTarget(View(), addr).Some? && SlotTarget(View(), addr).value in old(Marks())
      ensures code == 0 || code == 7 ==>
        var t := SlotTarget(View(), addr);
        && t.Some? && (!forceMark ==> t.value !in old(Marks()))
        && Marks() == (if doMark then old(Marks()) + {t.value} else old(Marks()))
        && (code == 7 <==> View().slabs[t.value.state].typeId != 2)
      ensures code <= 7
    {
      var st := layout.stateOf(addr);
      if st >= layout.fastEnd {
        return 1;
      }
      if st < layout.fastBegin {
        return 2;
      }
      if st !in slabs {
        return 3;
      }
      assert View().slabs[st] == slabs[st].(marks := {});
      if slabs[st].InHeader(st, addr) {
        return 4;
      }
      var index := slabs[st].IndexOf(st, addr);
      if index.None? {
        return 5;
      }
      assert SlotTarget(View(), addr) == Some(Slot(st, index.value));
      if index.value in slabs[st].marks && !forceMark {
        assert Slot(st, index.value) in Marks();
        return 6;
      }
      if doMark {
        SetMarked(st, index.value);
      }
      if slabs[st].typeId != 2 {
        return 7;
      }
      return 0;
    }

    /** A finalizer may do anything to its own object's memory and nothing else. */
    method CallFinalizer(os: Addr)
      requires os in sparse
      modifies this`sparse, this`history
      ensures history == old(history) + [Called(os)]
      ensures os in sparse && |sparse[os].words| == |old(sparse)[os].words|
      ensures sparse == old(sparse)[os := old(sparse)[os].(words := sparse[os].words)]
    {
      var n, scribble: nat -> Addr := |sparse[os].words|, *;
      history := history + [Called(os)];
      sparse := sparse[os := sparse[os].(words := seq(n, i requires 0 <= i < n => scribble(i)))];
    }

    /** secure_zero on an object's memory. */
    method ZeroObject(os: Addr)
      requires os in sparse
      modifies this`sparse, this`history
      ensures history == old(history) + [Zeroed(os)]
      ensures sparse == old(sparse)[os := Wiped(old(sparse)[os])]
      ensures |sparse[os].words| == |old(sparse)[os].words|
      ensures forall i | 0 <= i < |sparse[os].words| :: sparse[os].words[i] == 0
    {
      history := history + [Zeroed(os)];
      sparse := sparse[os := Wiped(sparse[os])];
    }

    /** The body of the loop of do_local_sparse_finalization. */
    method FinalizeLocally(os: Addr)
      requires os in sparse
      modifies this`sparse, this`history
      ensures sparse == old(sparse)[os := Wiped(old(sparse)[os])]
      ensures |sparse[os].words| == |old(sparse)[os].words|
      ensures forall i | 0 <= i < |sparse[os].words| :: sparse[os].words[i] == 0
      ensures history == old(history) + EventsOf(old(sparse), os)
    {
      var ud := sparse[os].userData;
      if ud.Some? {
        if !ud.value.isDefault {
          if ud.value.hasFinalizer {
            CallFinalizer(os);
          }
        }
      }
      ZeroObject(os);
    }

    /** do_local_sparse_finalization on a list of deferred objects. */
    method DoLocalSparseFinalization(vec: seq<Addr>) returns (toBeFreed: seq<Addr>)
      requires forall os | os in vec :: os in sparse
      modifies this`sparse, this`history
      ensures sparse == WipeAll(old(sparse), vec)
      ensures sparse.Keys == old(sparse).Keys && forall os | os in sparse && os !in vec :: sparse[os] == old(sparse)[os]
      ensures forall os | os in vec :: |sparse[os].words| == |old(sparse)[os].words|
      ensures forall os, i | os in vec && 0 <= i < |sparse[os].words| :: sparse[os].words[i] == 0
      ensures history == old(history) + LocalEvents(old(sparse), vec)
      ensures |toBeFreed| == |vec| && forall i | 0 <= i < |vec| :: toBeFreed[i] == vec[i] + layout.stateBytes
    {
      hide WipeAll, LocalEvents, EventsOf;
      ghost var sparse0, done, events := sparse, [], [];
      NothingFinalized(sparse);
      toBeFreed := [];
      var i := 0;
      while i < |vec|
        invariant i <= |vec| && done == vec[..i]
        invariant history == old(history) + events
        invariant LocallyFinalized(sparse0, done, sparse, events)
        invariant toBeFreed == Starts(layout.stateBytes, done)
      {
        LocallyFinalizedStep(sparse0, done, vec[i], sparse, events);
        SameEvents(sparse0, sparse, vec[i]);
        FinalizeLocally(vec[i]);
        events := events + EventsOf(sparse0, vec[i]);
        toBeFreed := toBeFreed + [vec[i] + layout.stateBytes];
        done := done + [vec[i]];
        i := i + 1;
      }
      assert done == vec;
      WipeAllIsZero(sparse0, vec);
    }

    /** local_thread_finalization: takes all deferred objects and finalizes them. */
    method LocalThreadFinalization()
      requires forall os | os in special :: os in sparse
      modifies this`special, this`sparse, this`history, this`freed
      ensures special == []
      ensures sparse == WipeAll(old(sparse), old(special))
      ensures sparse.Keys == old(sparse).Keys
      ensures forall os | os in sparse && os !in old(special) :: sparse[os] == old(sparse)[os]
      ensures forall os | os in old(special) :: |sparse[os].words| == |old(sparse)[os].words|
      ensures forall os, i | os in old(special) && 0 <= i < |sparse[os].words| :: sparse[os].words[i] == 0
      ensures history == old(history) + LocalEvents(old(sparse), old(special))
      ensures freed == old(freed) + Starts(layout.stateBytes, old(special))
    {
      var vec := special;
      special := [];
      var toBeFreed := DoLocalSparseFinalization(vec);
      freed := freed + toBeFreed;
      assert toBeFreed == Starts(layout.stateBytes, vec);
    }
  }

  lemma NothingFinalized(sparse: map<Addr, SparseObject>)
    ensures LocallyFinalized(sparse, [], sparse, [])
    ensures GcFinalized(sparse, [], sparse, [], [], [])
  {
  }
}

/**
 Finalizing one slab of the bitmap heap (cgc1/src/bitmap_finalization.cpp): the dead slots with a
 finalizer are finalized and zeroed one by one, the other dead slots are zeroed run by run, and
 every unmarked slot becomes free.
 */
module BitmapFinalization {
  import opened Heap

  type Byte = n: int | 0 <= n < 256

  const USER_DATA_TYPE := 2

  /** One call of a finalizer: the slot, and its bytes at that moment. */
  datatype Call = Call(slot: nat, bytes: seq<Byte>)

  /** How finalize(state) ends.  The last two are the places where it terminates the process. */
  datatype Outcome = Completed | AbortOnCollect(slot: nat) | UnknownException(slot: nat)

  /** How a finalizer ends. */
  datatype Thrown = Nothing | StdException | Unknown

  /** A slab's geometry: `size` slots of `entryBytes` bytes each, bitmaps of `capacity` bits. */
  datatype Shape = Shape(typeId: nat, size: nat, capacity: nat, entryBytes: Positive)
  {
    ghost predicate Valid() {
      size <= capacity
    }

    /** The slot that byte `p` belongs to. */
    function SlotOf(p: nat): nat {
      p / entryBytes
    }

    function SlotStart(slot: nat): nat {
      slot * entryBytes
    }
  }

  lemma SlotBounds(s: Shape, p: nat, slot: nat)
    ensures s.SlotStart(slot) <= p <==> slot <= s.SlotOf(p)
  {
    var e: nat := s.entryBytes;
    assert p == s.SlotOf(p) * e + p % e;
    if slot <= s.SlotOf(p) {
      assert slot * e <= s.SlotOf(p) * e;
    } else {
      assert (s.SlotOf(p) + 1) * e <= slot * e;
    }
  }

  /** The bytes of a slot, in numbers. */
  lemma ByteOfSlot(s: Shape, p: nat, slot: nat)
    ensures s.SlotOf(p) == slot <==> slot * s.entryBytes <= p < (slot + 1) * s.entryBytes
  {
    SlotBounds(s, p, slot);
    SlotBounds(s, p, slot + 1);
  }

  lemma SlotStartMonotone(s: Shape, a: nat, b: nat)
    requires a <= b
    ensures s.SlotStart(a) <= s.SlotStart(b)
  {
  }

  /** The bitmap whose first `n` bits are set. */
  function Bits(n: nat): (r: set<nat>)
    ensures forall i :: i in r <==> 0 <= i < n
  {
    if n == 0 then {} else Bits(n - 1) + {n - 1}
  }

  /** A slab's contents as a value. */
  datatype SlabValue = SlabValue(free: set<nat>, marked: set<nat>, finalizeable: set<nat>, memory: seq<Byte>)

  ghost predicate Fits(s: Shape, v: SlabValue) {
    && s.Valid()
    && |v.memory| == s.SlotStart(s.size)
  }

  /** Allocated and not marked: what this collection frees. */
  ghost predicate Dead(s: Shape, v: SlabValue, slot: nat) {
    slot < s.capacity && slot !in v.free && slot !in v.marked
  }

  /** The dead slots on which a finalizer is called. */
  ghost predicate Finalized(s: Shape, v: SlabValue, slot: nat) {
    slot < s.size && s.typeId == USER_DATA_TYPE && Dead(s, v, slot) && slot in v.finalizeable
  }

  /** The dead slots that get zeroed: all of them, except those that carry the finalizeable bit in
      a slab that has no user data. */
  ghost predicate Zeroed(s: Shape, v: SlabValue, slot: nat) {
    slot < s.size && Dead(s, v, slot) && (s.typeId == USER_DATA_TYPE || slot !in v.finalizeable)
  }

  ghost function SlotBytes(s: Shape, memory: seq<Byte>, slot: nat): seq<Byte>
    requires slot < s.size && |memory| == s.SlotStart(s.size)
  {
    SlotStartMonotone(s, slot, slot + 1);
    SlotStartMonotone(s, slot + 1, s.size);
    memory[s.SlotStart(slot)..s.SlotStart(slot + 1)]
  }

  /** A slot's bytes, in numbers. */
  lemma SlotBytesAre(s: Shape, memory: seq<Byte>, slot: nat, i: nat)
    requires slot < s.size && |memory| == s.SlotStart(s.size) && i < s.entryBytes
    ensures |SlotBytes(s, memory, slot)| == s.entryBytes
    ensures slot * s.entryBytes + i < |memory| && SlotBytes(s, memory, slot)[i] == memory[slot * s.entryBytes + i]
  {
    SlotStartMonotone(s, slot + 1, s.size);
    assert s.SlotStart(slot + 1) == s.SlotStart(slot) + s.entryBytes;
  }

  /** The finalizer calls for the slots below `n`, in order. */
  ghost function CallsBelow(s: Shape, v: SlabValue, n: nat): seq<Call>
    requires Fits(s, v) && n <= s.size
  {
    if n == 0 then []
    else CallsBelow(s, v, n - 1) + if Finalized(s, v, n - 1) then [Call(n - 1, SlotBytes(s, v.memory, n - 1))] else []
  }

  function CallsTo(calls: seq<Call>, slot: nat): nat {
    if calls == [] then 0 else CallsTo(calls[..|calls|-1], slot) + if calls[|calls|-1].slot == slot then 1 else 0
  }

  lemma CallsToSnoc(calls: seq<Call>, c: Call, slot: nat)
    ensures CallsTo([], slot) == 0
    ensures CallsTo(calls + [c], slot) == CallsTo(calls, slot) + if c.slot == slot then 1 else 0
  {
    assert (calls + [c])[..|calls|] == calls;
  }

  /** Each slot to be finalized is called exactly once, and no other slot is. */
  lemma {:induction false} CalledExactlyOnce(s: Shape, v: SlabValue, n: nat, slot: nat)
    requires Fits(s, v) && n <= s.size
    ensures CallsTo(CallsBelow(s, v, n), slot) == if slot < n && Finalized(s, v, slot) then 1 else 0
  {
    hide CallsTo, Finalized, SlotBytes;
    if n > 0 {
      CalledExactlyOnce(s, v, n - 1, slot);
      var before := CallsBelow(s, v, n - 1);
      CallsToSnoc(before, Call(n - 1, SlotBytes(s, v.memory, n - 1)), slot);
      assert before + [] == before;
    } else {
      CallsToSnoc([], Call(0, []), slot);
    }
  }

  /** Every call sees the slot's bytes as they were before anything was zeroed. */
  lemma {:induction false} CalledBeforeZeroing(s: Shape, v: SlabValue, n: nat, k: nat)
    requires Fits(s, v) && n <= s.size && k < |CallsBelow(s, v, n)|
    ensures var c := CallsBelow(s, v, n)[k]; c.slot < n && c.bytes == SlotBytes(s, v.memory, c.slot)
  {
    hide Finalized, SlotBytes;
    if k < |CallsBelow(s, v, n - 1)| {
      CalledBeforeZeroing(s, v, n - 1, k);
    }
  }

  /** What a finalization that runs to its end does to a slab. */
  ghost predicate FinalizeStep(s: Shape, v: SlabValue, v': SlabValue) {
    && (forall i: nat :: i in v'.free <==> i in v.free || (i < s.capacity && i !in v.marked))
    && v'.marked == v.marked
    && (forall i: nat :: i in v'.finalizeable <==> i in v.finalizeable && !Finalized(s, v, i))
    && |v'.memory| == |v.memory|
    && (forall p: nat | p < |v.memory| :: v'.memory[p] == if Zeroed(s, v, s.SlotOf(p)) then 0 else v.memory[p])
  }

  class BitmapState {
    const shape: Shape
    // the bitmaps
    var free: set<nat>
    var marked: set<nat>
    var finalizeable: set<nat>
    var anyThread: set<nat>
    // which slots' user data say abort_on_collect
    var abortOnCollect: set<nat>
    const memory: array<Byte>
    // the finalizer calls made so far, oldest first
    var calls: seq<Call>

    ghost predicate Valid() {
      && shape.Valid()
      && memory.Length == shape.SlotStart(shape.size)
    }

    ghost function Value(): SlabValue
      reads this, memory
    {
      SlabValue(free, marked, finalizeable, memory[..])
    }

    constructor (shape: Shape)
      requires shape.Valid()
      ensures this.shape == shape && Valid() && fresh(memory)
      ensures free == Bits(shape.capacity) && marked == {} && finalizeable == {} && anyThread == {}
      ensures abortOnCollect == {} && calls == []
      ensures forall p | 0 <= p < memory.Length :: memory[p] == 0
    {
      this.shape := shape;
      free := Bits(shape.capacity);
      marked, finalizeable, anyThread, abortOnCollect, calls := {}, {}, {}, {}, [];
      memory := new Byte[shape.SlotStart(shape.size)](_ => 0);
    }

    /** secure_zero on the slots begin .. end - 1: one range of bytes. */
    method ZeroSlots(begin: nat, end: nat)
      requires Valid() && begin <= end <= shape.size
      modifies memory
      ensures forall p | 0 <= p < memory.Length ::
                memory[p] == if begin <= shape.SlotOf(p) < end then 0 else old(memory[p])
    {
      SlotStartMonotone(shape, begin, end);
      SlotStartMonotone(shape, end, shape.size);
      var lo, hi := shape.SlotStart(begin), shape.SlotStart(end);
      for p := lo to hi
        invariant forall q | 0 <= q < memory.Length :: memory[q] == if lo <= q < p then 0 else old(memory[q])
      {
        memory[p] := 0;
      }
      forall p | 0 <= p < memory.Length
        ensures lo <= p < hi <==> begin <= shape.SlotOf(p) < end
      {
        SlotBounds(shape, p, begin);
        SlotBounds(shape, p, end);
      }
    }

    /** A finalizer may do anything to its own slot's bytes and may throw. */
    method CallFinalizer(slot: nat) returns (thrown: Thrown)
      requires Valid() && slot < shape.size
      modifies this`calls, memory
      ensures calls == old(calls) + [Call(slot, old(SlotBytes(shape, memory[..], slot)))]
      ensures forall p | 0 <= p < memory.Length && shape.SlotOf(p) != slot :: memory[p] == old(memory[p])
    {
      SlotStartMonotone(shape, slot, slot + 1);
      SlotStartMonotone(shape, slot + 1, shape.size);
      var lo, hi := shape.SlotStart(slot), shape.SlotStart(slot + 1);
      ghost var bytes := SlotBytes(shape, memory[..], slot);
      assert memory[lo..hi] == memory[..][lo..hi] == bytes;
      calls := calls + [Call(slot, memory[lo..hi])];
      for p := lo to hi
        invariant calls == old(calls) + [Call(slot, bytes)]
        invariant forall q | 0 <= q < memory.Length && !(lo <= q < hi) :: memory[q] == old(memory[q])
      {
        var scribble: Byte := *;
        memory[p] := scribble;
      }
      forall p | 0 <= p < memory.Length
        ensures lo <= p < hi <==> shape.SlotOf(p) == slot
      {
        SlotBounds(shape, p, slot);
        SlotBounds(shape, p, slot + 1);
      }
      thrown := *;
    }

    /** The body of the loop over the slots, for a dead slot with the finalizeable bit. */
    method FinalizeSlot(slot: nat) returns (outcome: Outcome)
      requires Valid() && slot < shape.size && slot in finalizeable
      modifies this`finalizeable, this`anyThread, this`calls, memory
      ensures shape.typeId != 2 ==>
        && outcome == Completed && finalizeable == old(finalizeable) && anyThread == old(anyThread)
        && calls == old(calls)
        && forall p | 0 <= p < memory.Length :: memory[p] == old(memory[p])
      ensures shape.typeId == 2 ==>
        && (outcome.AbortOnCollect? <==> slot in abortOnCollect)
        && (outcome.AbortOnCollect? ==> outcome.slot == slot && calls == old(calls))
        && (outcome.UnknownException? ==> outcome.slot == slot)
        && (!outcome.AbortOnCollect? ==>
              && finalizeable == old(finalizeable) - {slot} && anyThread == old(anyThread) - {slot}
              && calls == old(calls) + [Call(slot, old(SlotBytes(shape, memory[..], slot)))])
        && (outcome == Completed ==>
              forall p | 0 <= p < memory.Length :: memory[p] == if shape.SlotOf(p) == slot then 0 else old(memory[p]))
    {
      // there is user data only in slabs of type 2
      if shape.typeId != USER_DATA_TYPE {
        return Completed;
      }
      if slot in abortOnCollect {
        return AbortOnCollect(slot);
      }
      finalizeable := finalizeable - {slot};
      anyThread := anyThread - {slot};
      var thrown := CallFinalizer(slot);
      if thrown == Unknown {
        return UnknownException(slot);
      }
      ZeroSlots(slot, slot + 1);
      outcome := Completed;
    }

    /** for_some_contiguous_bits_flip with the zeroing of the run as its action: some disjoint runs
        of set bits are visited and cleared; which ones is the library's choice. */
    method ZeroSomeRuns(bits: set<nat>) returns (rest: set<nat>)
      requires Valid()
      modifies memory
      ensures rest <= bits
      ensures forall p: nat | p < memory.Length ::
                memory[p] == if shape.SlotOf(p) in bits - rest then 0 else old(memory[p])
    {
      rest := bits;
      while *
        invariant rest <= bits
        invariant forall p: nat | p < memory.Length ::
                    memory[p] == if shape.SlotOf(p) in bits - rest then 0 else old(memory[p])
        decreases |rest|
      {
        var begin: nat, end: nat := *, *;
        if !(begin < end <= shape.size && Bits(end) - Bits(begin) <= rest) {
          break;
        }
        ZeroSlots(begin, end);
        assert begin in Bits(end) - Bits(begin);
        rest := rest - (Bits(end) - Bits(begin));
      }
    }

    /** for_set_bits with the zeroing of the slot as its action. */
    method ZeroEach(bits: set<nat>)
      requires Valid()
      modifies memory
      ensures forall p: nat | p < memory.Length ::
                memory[p] == if shape.SlotOf(p) in bits && shape.SlotOf(p) < shape.size then 0 else old(memory[p])
    {
      for i := 0 to shape.size
        invariant forall p: nat | p < memory.Length ::
                    memory[p] == if shape.SlotOf(p) in bits && shape.SlotOf(p) < i then 0 else old(memory[p])
      {
        if i in bits {
          ZeroSlots(i, i + 1);
        }
      }
    }

    /** finalize(state). */
    method Finalize() returns (outcome: Outcome)
      requires Valid()
      modifies this`free, this`finalizeable, this`anyThread, this`calls, memory
      ensures outcome == Completed ==> FinalizeStep(shape, old(Value()), Value())
      ensures outcome == Completed ==> calls == old(calls) + CallsBelow(shape, old(Value()), shape.size)
      ensures outcome == Completed ==> forall i: nat | Finalized(shape, old(Value()), i) :: i !in abortOnCollect
      ensures outcome == Completed ==>
        forall i: nat :: i in anyThread <==> i in old(anyThread) && !Finalized(shape, old(Value()), i)
      ensures outcome.AbortOnCollect? ==>
        && Finalized(shape, old(Value()), outcome.slot) && outcome.slot in abortOnCollect
        && calls == old(calls) + CallsBelow(shape, old(Value()), outcome.slot)
      ensures outcome.UnknownException? ==>
        && Finalized(shape, old(Value()), outcome.slot) && outcome.slot !in abortOnCollect
        && calls == old(calls) + CallsBelow(shape, old(Value()), outcome.slot + 1)
    {
      ghost var v := Value();
      var toBeFreed := Bits(shape.capacity) - free - marked;
      var withFinalizer := toBeFreed * finalizeable;
      assert forall i: nat :: i in toBeFreed <==> Dead(shape, v, i);
      for i := 0 to shape.size
        invariant free == v.free
        invariant forall k: nat :: k in finalizeable <==> k in v.finalizeable && !(k < i && Finalized(shape, v, k))
        invariant forall k: nat :: k in anyThread <==> k in old(anyThread) && !(k < i && Finalized(shape, v, k))
        invariant calls == old(calls) + CallsBelow(shape, v, i)
        invariant forall k: nat | k < i && Finalized(shape, v, k) :: k !in abortOnCollect
        invariant forall p: nat | p < memory.Length ::
          memory[p] == if shape.SlotOf(p) < i && Finalized(shape, v, shape.SlotOf(p)) then 0 else v.memory[p]
      {
        if i !in withFinalizer {
          continue;
        }
        SameBytes(shape, v.memory, memory[..], i);
        outcome := FinalizeSlot(i);
        if outcome != Completed {
          return;
        }
      }
      toBeFreed := toBeFreed - withFinalizer;
      var rest := ZeroSomeRuns(toBeFreed);
      ZeroEach(rest);
      free := free + (Bits(shape.capacity) - marked);
      outcome := Completed;
      forall p: nat | p < memory.Length
        ensures shape.SlotOf(p) < shape.size
      {
        SlotBounds(shape, p, shape.size);
      }
    }

    /** Handing out a free slot.  Slots of type 2 get their user data built in place, in their last
        bytes; nothing else is written, and in particular nothing is zeroed. */
    method Allocate(slot: nat, userData: seq<Byte>)
      requires Valid() && slot < shape.size && slot in free
      requires |userData| <= shape.entryBytes && (shape.typeId != USER_DATA_TYPE ==> userData == [])
      modifies this`free, this`abortOnCollect, memory
      ensures AllocateStep(shape, old(Value()), Value(), slot, userData)
      ensures free == old(free) - {slot} && marked == old(marked) && finalizeable == old(finalizeable)
      ensures abortOnCollect == old(abortOnCollect) - {slot}
      ensures var last := (slot + 1) * shape.entryBytes;
        && last <= memory.Length
        && forall p: nat | p < memory.Length ::
             memory[p] == if last - |userData| <= p < last then userData[p - (last - |userData|)] else old(memory[p])
    {
      SlotStartMonotone(shape, slot, slot + 1);
      SlotStartMonotone(shape, slot + 1, shape.size);
      free := free - {slot};
      abortOnCollect := abortOnCollect - {slot};
      var at := shape.SlotStart(slot + 1) - |userData|;
      for i := 0 to |userData|
        invariant free == old(free) - {slot} && abortOnCollect == old(abortOnCollect) - {slot}
        invariant forall p: nat | p < memory.Length ::
                    memory[p] == if at <= p < at + i then userData[p - at] else old(memory[p])
      {
        memory[at + i] := userData[i];
      }
    }

    /** A mutator writes to a slot it has been given. */
    method Write(p: nat, b: Byte)
      requires Valid() && p < memory.Length && shape.SlotOf(p) !in free
      modifies memory
      ensures WriteStep(shape, old(Value()), Value(), p, b)
    {
      memory[p] := b;
    }

    /** Clearing and setting marks, in whatever way the collector does it. */
    method Remark(marks: set<nat>)
      modifies this`marked
      ensures Value() == old(Value()).(marked := marks)
    {
      marked := marks;
    }

    /** cgc_register_finalizer reaches only slots that have user data. */
    method RegisterFinalizer(slot: nat, arbitraryThread: bool) returns (registered: bool)
      requires Valid() && slot < shape.size
      modifies this`finalizeable, this`anyThread
      ensures registered <==> shape.typeId == 2
      ensures forall i: nat :: i in finalizeable <==> i in old(finalizeable) || (registered && i == slot)
      ensures forall i: nat ::
        i in anyThread <==> if registered && i == slot then arbitraryThread else i in old(anyThread)
      ensures RegisterStep(shape, old(Value()), Value(), slot)
    {
      registered := shape.typeId == USER_DATA_TYPE;
      if registered {
        finalizeable := finalizeable + {slot};
        anyThread := if arbitraryThread then anyThread + {slot} else anyThread - {slot};
      }
    }
  }

  // Runs: any sequence of allocations, writes, markings, registrations and finalizations.

  ghost predicate AllocateStep(s: Shape, v: SlabValue, v': SlabValue, slot: nat, userData: seq<Byte>) {
    && slot < s.size && slot in v.free && |userData| <= s.entryBytes
    && v'.free == v.free - {slot} && v'.marked == v.marked && v'.finalizeable == v.finalizeable
    && |v'.memory| == |v.memory|
    && var at := s.SlotStart(slot + 1) - |userData|;
       forall p: nat | p < |v.memory| ::
         v'.memory[p] == if at <= p < at + |userData| then userData[p - at] else v.memory[p]
  }

  ghost predicate WriteStep(s: Shape, v: SlabValue, v': SlabValue, p: nat, b: Byte) {
    p < |v.memory| && s.SlotOf(p) !in v.free && v' == v.(memory := v.memory[p := b])
  }

  ghost predicate RemarkStep(v: SlabValue, v': SlabValue) {
    v' == v.(marked := v'.marked)
  }

  ghost predicate RegisterStep(s: Shape, v: SlabValue, v': SlabValue, slot: nat) {
    v' == if s.typeId == USER_DATA_TYPE then v.(finalizeable := v.finalizeable + {slot}) else v
  }

  ghost predicate Step(s: Shape, v: SlabValue, v': SlabValue) {
    || (exists slot, userData :: AllocateStep(s, v, v', slot, userData))
    || (exists p, b :: WriteStep(s, v, v', p, b))
    || RemarkStep(v, v')
    || (exists slot :: RegisterStep(s, v, v', slot))
    || FinalizeStep(s, v, v')
  }

  ghost predicate Initial(s: Shape, v: SlabValue) {
    && Fits(s, v) && v.finalizeable == {} && v.free == Bits(s.capacity)
    && forall p | 0 <= p < |v.memory| :: v.memory[p] == 0
  }

  ghost predicate IsRun(s: Shape, run: seq<SlabValue>) {
    && |run| > 0 && Initial(s, run[0])
    && forall i | 0 < i < |run| :: Step(s, run[i-1], run[i])
  }

  /** Every byte of every free slot is zero. */
  ghost predicate FreeSlotsZero(s: Shape, v: SlabValue) {
    forall p: nat | p < |v.memory| && s.SlotOf(p) in v.free :: v.memory[p] == 0
  }

  ghost predicate RunInvariant(s: Shape, v: SlabValue) {
    Fits(s, v) && FreeSlotsZero(s, v) && (s.typeId != USER_DATA_TYPE ==> v.finalizeable == {})
  }

  lemma StepKeepsInvariant(s: Shape, v: SlabValue, v': SlabValue)
    requires RunInvariant(s, v) && Step(s, v, v')
    ensures RunInvariant(s, v')
  {
    if slot: nat, userData: seq<Byte> :| AllocateStep(s, v, v', slot, userData) {
      SlotStartMonotone(s, slot, slot + 1);
      SlotStartMonotone(s, slot + 1, s.size);
      var at := s.SlotStart(slot + 1) - |userData|;
      forall p: nat | p < |v.memory| && s.SlotOf(p) in v'.free
        ensures v'.memory[p] == 0
      {
        UserDataInSlot(s, slot, userData, p);
      }
    } else if FinalizeStep(s, v, v') {
      FinalizeKeepsZero(s, v, v');
    }
  }

  lemma UserDataInSlot(s: Shape, slot: nat, userData: seq<Byte>, p: nat)
    requires |userData| <= s.entryBytes
    ensures s.SlotStart(slot + 1) - |userData| <= p < s.SlotStart(slot + 1) ==> s.SlotOf(p) == slot
  {
    SlotBounds(s, p, slot);
    SlotBounds(s, p, slot + 1);
    assert s.SlotStart(slot + 1) == s.SlotStart(slot) + s.entryBytes;
  }

  lemma FinalizeKeepsZero(s: Shape, v: SlabValue, v': SlabValue)
    requires RunInvariant(s, v) && FinalizeStep(s, v, v')
    ensures RunInvariant(s, v')
  {
    forall p: nat | p < |v.memory| && s.SlotOf(p) in v'.free
      ensures v'.memory[p] == 0
    {
      SlotBounds(s, p, s.size);
    }
    if s.typeId != USER_DATA_TYPE {
      assert forall i: nat :: i !in v'.finalizeable;
    }
  }

  /** Over any run, every free slot is all zero: a slot can be handed out without being zeroed. */
  lemma {:induction false} FreeSlotsStayZero(s: Shape, run: seq<SlabValue>)
    requires IsRun(s, run)
    ensures RunInvariant(s, run[|run|-1])
  {
    if |run| > 1 {
      var front := run[..|run|-1];
      assert forall i | 0 < i < |front| :: Step(s, front[i-1], front[i]);
      FreeSlotsStayZero(s, front);
      StepKeepsInvariant(s, front[|front|-1], run[|run|-1]);
    }
  }

  /** In every run, a finalization makes newly free exactly the dead slots, and leaves every byte of
      each of them zero. */
  lemma NewlyFreedAreZero(s: Shape, run: seq<SlabValue>, v': SlabValue)
    requires IsRun(s, run) && FinalizeStep(s, run[|run|-1], v')
    ensures var v := run[|run|-1];
      && (forall i: nat :: i in v'.free && i !in v.free <==> Dead(s, v, i))
      && forall p: nat | p < |v'.memory| && s.SlotOf(p) in v'.free && s.SlotOf(p) !in v.free :: v'.memory[p] == 0
  {
    FreeSlotsStayZero(s, run);
    NewlyFreeAreZeroIff(s, run[|run|-1], v');
  }

  /** What one finalization makes newly free, on any slab: exactly the dead slots, and it leaves
      them all zero if and only if none of them is a finalizeable slot without user data that
      still holds something.  No run makes such a slot: cgc_register_finalizer, which alone sets the
      finalizeable bit, tests for user data first. */
  lemma NewlyFreeAreZeroIff(s: Shape, v: SlabValue, v': SlabValue)
    requires Fits(s, v) && FinalizeStep(s, v, v')
    ensures forall i: nat :: i in v'.free && i !in v.free <==> Dead(s, v, i)
    ensures (forall p: nat | p < |v.memory| && Dead(s, v, s.SlotOf(p)) :: v'.memory[p] == 0)
       <==> s.typeId == USER_DATA_TYPE ||
            forall p: nat | p < |v.memory| && Dead(s, v, s.SlotOf(p)) && s.SlotOf(p) in v.finalizeable ::
              v.memory[p] == 0
  {
    forall p: nat | p < |v.memory|
      ensures s.SlotOf(p) < s.size
    {
      SlotBounds(s, p, s.size);
    }
  }

  lemma SameBytes(s: Shape, a: seq<Byte>, b: seq<Byte>, slot: nat)
    requires slot < s.size && |a| == |b| == s.SlotStart(s.size)
    requires forall p: nat | p < |a| && s.SlotOf(p) == slot :: a[p] == b[p]
    ensures SlotBytes(s, a, slot) == SlotBytes(s, b, slot)
  {
    SlotStartMonotone(s, slot, slot + 1);
    SlotStartMonotone(s, slot + 1, s.size);
    forall p: nat | s.SlotStart(slot) <= p < s.SlotStart(slot + 1)
      ensures s.SlotOf(p) == slot
    {
      SlotBounds(s, p, slot);
      SlotBounds(s, p, slot + 1);
    }
  }
}

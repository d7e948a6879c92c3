/**
 The two garbage collected heaps as plain values: the sparse heap, a map from the
 address of an object state to the object behind it, and the bitmap heap, a map from
 the address of a slab's state to the slab.  `Target` says which live object an
 arbitrary machine word points to, if any; this is the meaning of a conservative
 pointer that every later module is proved against.
 */
module Heap {

  // Addresses are unbounded here; subtracting the size of an object state from a small
  // address gives a negative number, which no heap range contains.
  type Addr = int

  const WORD_BYTES := 8

  type Positive = n: nat | 0 < n witness 1

  datatype Option<+T> = None | Some(value: T)

  /** gc_user_data_t: what the collector needs to know about one object's user data. */
  datatype UserData = UserData(isDefault: bool, uncollectable: bool, hasFinalizer: bool, anyThread: bool)

  /** An object of the sparse heap together with its object state.
      `linked` is "the state's next pointer is not null". */
  datatype SparseObject = SparseObject(
    words: seq<Addr>,
    userData: Option<UserData>,
    inUse: bool,
    quasiFreed: bool,
    linked: bool,
    atomic: bool,
    marked: bool)
  {
    predicate Live() {
      inUse && !quasiFreed && linked
    }
  }

  /** A slab of the bitmap heap: equally sized slots behind a header, and one mark bit a slot. */
  datatype Slab = Slab(typeId: nat, headerBytes: nat, entryBytes: Positive, slots: seq<seq<Addr>>, marks: set<nat>)
  {
    predicate InHeader(at: Addr, addr: Addr) {
      addr < at + headerBytes
    }

    /** The slot that holds `addr` when this slab's state lies at `at`. */
    function IndexOf(at: Addr, addr: Addr): Option<nat>
      requires !InHeader(at, addr)
    {
      var index := (addr - (at + headerBytes)) / entryBytes;
      if index < |slots| then Some(index) else None
    }
  }

  /** Where the heaps lie.  `stateOf` is the library's map from an address to the address of
      the state of the slab around it; `recognized` is its quick, possibly falsely negative
      test for "this is the address of an object state". */
  datatype Layout = Layout(
    fastBegin: Addr,
    fastEnd: Addr,
    sparseBegin: Addr,
    sparseEnd: Addr,
    stateBytes: nat,
    stateOf: Addr -> Addr,
    recognized: Addr -> bool)
  {
    predicate InFastHeap(addr: Addr) {
      fastBegin <= addr < fastEnd
    }

    predicate InSparseHeap(os: Addr) {
      sparseBegin <= os < sparseEnd
    }
  }

  /** Both heaps at one moment.  The marker works on images whose marks are erased, because
      these do not change while it runs. */
  datatype Image = Image(layout: Layout, sparse: map<Addr, SparseObject>, slabs: map<Addr, Slab>)

  /** An object of either heap, named by where its state lies. */
  datatype Obj = Sparse(os: Addr) | Slot(state: Addr, index: nat)

  /** `addr` lies in the memory of the sparse object whose state is at `os`. */
  predicate Covers(g: Image, os: Addr, addr: Addr) {
    && os in g.sparse
    && var start := os + g.layout.stateBytes;
       start <= addr < start + WORD_BYTES * |g.sparse[os].words|
  }

  /** What the allocators promise about the heaps they hand to the collector. */
  ghost predicate WellFormed(g: Image) {
    && (forall os :: g.layout.recognized(os) ==> os in g.sparse)
    && (forall os | os in g.sparse :: |g.sparse[os].words| > 0)
    && (forall a, b, addr :: Covers(g, a, addr) && Covers(g, b, addr) ==> a == b)
  }

  /** The live sparse object that a word points into. */
  ghost function SparseTarget(g: Image, addr: Addr): Option<Obj> {
    if exists os :: Covers(g, os, addr) && g.sparse[os].Live() then
      var os :| Covers(g, os, addr) && g.sparse[os].Live();
      Some(Sparse(os))
    else
      None
  }

  /** The slot that a word points into; whether the slot is allocated plays no part. */
  ghost function SlotTarget(g: Image, addr: Addr): Option<Obj> {
    var st := g.layout.stateOf(addr);
    if !g.layout.InFastHeap(st) || st !in g.slabs || g.slabs[st].InHeader(st, addr) then
      None
    else
      match g.slabs[st].IndexOf(st, addr)
      case None => None
      case Some(index) => Some(Slot(st, index))
  }

  /** The object that a word keeps alive. */
  ghost function Target(g: Image, addr: Addr): Option<Obj> {
    if g.layout.InFastHeap(addr) then
      SlotTarget(g, addr)
    else if g.layout.InSparseHeap(addr - g.layout.stateBytes) then
      SparseTarget(g, addr)
    else
      None
  }

  /** The words of an object that the marker follows: none for atomic sparse objects and
      for slots of any slab type but 2. */
  ghost function Words(g: Image, o: Obj): seq<Addr> {
    match o
    case Sparse(os) =>
      if os in g.sparse && !g.sparse[os].atomic then g.sparse[os].words else []
    case Slot(st, index) =>
      if st in g.slabs && index < |g.slabs[st].slots| && g.slabs[st].typeId == 2
      then g.slabs[st].slots[index] else []
  }

  /** Every object there is. */
  ghost function Nodes(g: Image): set<Obj> {
    (set os | os in g.sparse :: Sparse(os)) +
    (set st, index | st in g.slabs && 0 <= index < |g.slabs[st].slots| :: Slot(st, index))
  }

  ghost function EraseMarks(g: Image): Image {
    Image(g.layout,
          map os | os in g.sparse :: g.sparse[os].(marked := false),
          map st | st in g.slabs :: g.slabs[st].(marks := {}))
  }

  ghost predicate MarkedIn(g: Image, o: Obj) {
    match o
    case Sparse(os) => os in g.sparse && g.sparse[os].marked
    case Slot(st, index) => st in g.slabs && index in g.slabs[st].marks
  }

  /** The objects whose mark is set. */
  ghost function MarksOf(g: Image): set<Obj> {
    set o | o in Nodes(g) && MarkedIn(g, o)
  }

  /** Erasing marks forgets which objects are marked and nothing else. */
  lemma MarksOfErased(g: Image, o: Obj)
    ensures Nodes(EraseMarks(g)) == Nodes(g)
    ensures o in MarksOf(g) <==> o in Nodes(EraseMarks(g)) && MarkedIn(g, o)
  {
    assert EraseMarks(g).sparse.Keys == g.sparse.Keys;
  }

  /** Setting or clearing the mark of a sparse object. */
  lemma MarkOneObject(g: Image, os: Addr, status: bool)
    requires os in g.sparse
    ensures var g' := g.(sparse := g.sparse[os := g.sparse[os].(marked := status)]);
      && EraseMarks(g') == EraseMarks(g)
      && MarksOf(g') == if status then MarksOf(g) + {Sparse(os)} else MarksOf(g) - {Sparse(os)}
  {
    var g' := g.(sparse := g.sparse[os := g.sparse[os].(marked := status)]);
    assert EraseMarks(g').sparse == EraseMarks(g).sparse;
    assert g'.sparse.Keys == g.sparse.Keys;
    forall o
      ensures o in MarksOf(g') <==> if o == Sparse(os) then status else o in MarksOf(g)
    {
      assert o in Nodes(g') <==> o in Nodes(g);
    }
  }

  /** Setting the mark of a slot. */
  lemma MarkOneSlot(g: Image, st: Addr, index: nat)
    requires st in g.slabs && index < |g.slabs[st].slots|
    ensures var g' := g.(slabs := g.slabs[st := g.slabs[st].(marks := g.slabs[st].marks + {index})]);
      EraseMarks(g') == EraseMarks(g) && MarksOf(g') == MarksOf(g) + {Slot(st, index)}
  {
    var g' := g.(slabs := g.slabs[st := g.slabs[st].(marks := g.slabs[st].marks + {index})]);
    assert EraseMarks(g').slabs == EraseMarks(g).slabs;
    assert g'.slabs.Keys == g.slabs.Keys;
    forall o
      ensures o in MarksOf(g') <==> o == Slot(st, index) || o in MarksOf(g)
    {
      assert o in Nodes(g') <==> o in Nodes(g);
    }
  }

  lemma TargetIsNode(g: Image, addr: Addr)
    ensures Target(g, addr).Some? ==> Target(g, addr).value in Nodes(g)
  {
  }

  // Which addresses lie where, in numbers.

  /** A pointer to any byte of a slot, first or interior, resolves to that slot. */
  lemma InteriorSlotPointer(g: Image, st: Addr, index: nat, offset: nat)
    requires st in g.slabs && g.layout.fastBegin <= st < g.layout.fastEnd
    requires index < |g.slabs[st].slots| && offset < g.slabs[st].entryBytes
    requires var addr := st + g.slabs[st].headerBytes + index * g.slabs[st].entryBytes + offset;
             g.layout.fastBegin <= addr < g.layout.fastEnd && g.layout.stateOf(addr) == st
    ensures var addr := st + g.slabs[st].headerBytes + index * g.slabs[st].entryBytes + offset;
            Target(g, addr) == Some(Slot(st, index))
  {
    var entry: nat := g.slabs[st].entryBytes;
    var delta := index * entry + offset;
    assert delta / entry == index by {
      DivideUnique(delta, entry, index, offset);
    }
  }

  /** Only a pointer to one of the slot's own bytes does: not one into the header, into another slot
      or behind the last one. */
  lemma SlotTargetInside(g: Image, addr: Addr, st: Addr, index: nat)
    requires Target(g, addr) == Some(Slot(st, index))
    ensures g.layout.fastBegin <= addr < g.layout.fastEnd && g.layout.fastBegin <= st < g.layout.fastEnd
    ensures st == g.layout.stateOf(addr) && st in g.slabs && index < |g.slabs[st].slots|
    ensures var start := st + g.slabs[st].headerBytes + index * g.slabs[st].entryBytes;
            start <= addr < start + g.slabs[st].entryBytes
  {
    assert SlotTarget(g, addr) == Some(Slot(st, index));
    var entry: nat := g.slabs[st].entryBytes;
    var delta := addr - (st + g.slabs[st].headerBytes);
    assert index == delta / entry;
    assert delta == entry * (delta / entry) + delta % entry;
  }

  lemma DivideUnique(n: nat, d: nat, q: nat, r: nat)
    requires d > 0 && r < d && n == q * d + r
    ensures n / d == q
  {
    var k := n / d - q;
    assert k * d == r - n % d;
    SmallMultiple(k, d);
  }

  lemma SmallMultiple(k: int, d: int)
    requires d > 0 && -d < k * d < d
    ensures k == 0
  {
    assert k >= 1 ==> k * d >= d;
    assert k <= -1 ==> k * d <= -d;
  }

  /** The object an address lies in decides what the address resolves to. */
  lemma SparseResolves(g: Image, os: Addr, addr: Addr)
    requires WellFormed(g) && Covers(g, os, addr)
    requires !g.layout.InFastHeap(addr) && g.layout.InSparseHeap(addr - g.layout.stateBytes)
    ensures Target(g, addr) == if g.sparse[os].Live() then Some(Sparse(os)) else None
  {
  }

  lemma NotInUse(g: Image, addr: Addr)
    requires !g.layout.InFastHeap(addr)
    requires forall os :: Covers(g, os, addr) ==> !g.sparse[os].inUse
    ensures Target(g, addr) == None
  {
  }

  /** The two ways of finding the object agree: a recognized state is the one object that covers
      the address, which is what the search through the blocks looks for. */
  lemma RecognizedCovers(g: Image, addr: Addr)
    requires WellFormed(g) && g.layout.recognized(addr - g.layout.stateBytes)
    ensures forall os :: Covers(g, os, addr) <==> os == addr - g.layout.stateBytes
  {
    assert Covers(g, addr - g.layout.stateBytes, addr);
  }

  /** A pointer to any byte of a sparse object, first or interior, resolves to that object if it is
      live, and to nothing if it is not. */
  lemma InteriorSparsePointer(g: Image, os: Addr, offset: nat)
    requires WellFormed(g) && os in g.sparse && offset < 8 * |g.sparse[os].words|
    requires g.layout.sparseBegin <= os + offset < g.layout.sparseEnd
    requires var addr := os + g.layout.stateBytes + offset; !(g.layout.fastBegin <= addr < g.layout.fastEnd)
    ensures Target(g, os + g.layout.stateBytes + offset) ==
            if g.sparse[os].inUse && !g.sparse[os].quasiFreed && g.sparse[os].linked then Some(Sparse(os)) else None
  {
    SparseResolves(g, os, os + g.layout.stateBytes + offset);
  }

  /** Only a pointer to one of the object's own bytes does. */
  lemma SparseTargetInside(g: Image, addr: Addr, os: Addr)
    requires Target(g, addr) == Some(Sparse(os))
    ensures !(g.layout.fastBegin <= addr < g.layout.fastEnd)
    ensures g.layout.sparseBegin <= addr - g.layout.stateBytes < g.layout.sparseEnd
    ensures os in g.sparse && g.sparse[os].inUse && !g.sparse[os].quasiFreed && g.sparse[os].linked
    ensures var start := os + g.layout.stateBytes; start <= addr < start + 8 * |g.sparse[os].words|
  {
    assert SparseTarget(g, addr) == Some(Sparse(os));
  }

  ghost predicate NoRepeats<T>(s: seq<T>) {
    forall i, j :: 0 <= i < j < |s| ==> s[i] != s[j]
  }

  /** The elements of `ss` one after the other. */
  function Concat<T>(ss: seq<seq<T>>): seq<T> {
    if ss == [] then [] else Concat(ss[..|ss|-1]) + ss[|ss|-1]
  }

  lemma ConcatSnoc<T>(ss: seq<seq<T>>, i: nat)
    requires i < |ss|
    ensures Concat(ss[..i+1]) == Concat(ss[..i]) + ss[i]
  {
    assert ss[..i+1][..i] == ss[..i];
  }

  lemma {:induction false} ConcatContains<T>(ss: seq<seq<T>>, i: nat)
    requires i < |ss|
    ensures forall x :: x in ss[i] ==> x in Concat(ss)
  {
    if i < |ss| - 1 {
      ConcatContains(ss[..|ss|-1], i);
    }
  }

  lemma {:induction false} ConcatPrefix<T>(ss: seq<seq<T>>, i: nat)
    requires i <= |ss|
    ensures Concat(ss[..i]) <= Concat(ss)
  {
    if i < |ss| {
      ConcatPrefix(ss[..|ss|-1], i);
      assert ss[..|ss|-1][..i] == ss[..i];
    } else {
      assert ss[..i] == ss;
    }
  }

  lemma {:induction false} ConcatAppend<T>(a: seq<seq<T>>, b: seq<seq<T>>)
    ensures Concat(a + b) == Concat(a) + Concat(b)
  {
    if b == [] {
      assert a + b == a;
    } else {
      ConcatAppend(a, b[..|b|-1]);
      assert (a + b)[..|a + b|-1] == a + b[..|b|-1];
    }
  }

  /** Concatenating one more piece of a sequence of sequences. */
  lemma ConcatPieces<T>(pieces: seq<seq<seq<T>>>, i: nat)
    requires i < |pieces|
    ensures Concat(Concat(pieces[..i+1])) == Concat(Concat(pieces[..i])) + Concat(pieces[i])
    ensures Concat(Concat(pieces[..i+1])) <= Concat(Concat(pieces))
  {
    ConcatSnoc(pieces, i);
    ConcatAppend(Concat(pieces[..i]), pieces[i]);
    ConcatPrefix(pieces, i + 1);
    var n := |Concat(pieces[..i+1])|;
    assert Concat(pieces[..i+1]) == Concat(pieces)[..n];
    ConcatPrefix(Concat(pieces), n);
  }

  lemma {:induction false} ConcatMember<T>(ss: seq<seq<T>>, x: T)
    ensures x in Concat(ss) <==> exists i :: 0 <= i < |ss| && x in ss[i]
  {
    if ss != [] {
      ConcatMember(ss[..|ss|-1], x);
      if i :| 0 <= i < |ss| && x in ss[i] {
        assert i < |ss| - 1 ==> ss[..|ss|-1][i] == ss[i];
      }
    }
  }

  lemma ConcatConcatMember<T>(sss: seq<seq<seq<T>>>, x: T)
    ensures x in Concat(Concat(sss)) <==> exists i :: 0 <= i < |sss| && x in Concat(sss[i])
  {
    ConcatMember(Concat(sss), x);
    if k :| 0 <= k < |Concat(sss)| && x in Concat(sss)[k] {
      ConcatMember(sss, Concat(sss)[k]);
      var i :| 0 <= i < |sss| && Concat(sss)[k] in sss[i];
      ConcatMember(sss[i], x);
    }
    if i :| 0 <= i < |sss| && x in Concat(sss[i]) {
      ConcatMember(sss[i], x);
      var k :| 0 <= k < |sss[i]| && x in sss[i][k];
      ConcatMember(sss, sss[i][k]);
      assert sss[i][k] in Concat(sss);
      var n :| 0 <= n < |Concat(sss)| && Concat(sss)[n] == sss[i][k];
    }
  }
}

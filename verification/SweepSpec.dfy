/**
 What sweeping does to the sparse heap, as functions of the heap before and of the list of
 objects swept.
 */
module SweepSpec {
  import opened Heap
  import opened SparseFinalization

  /** What becomes of a swept object: it stays; it is quasi-freed on the spot; or it is listed for
      finalization because it has user data of its own. */
  datatype Fate = Stays | QuasiFreed | Listed

  function FateOf(o: SparseObject): Fate {
    if !o.inUse || o.marked then Stays
    else match o.userData
      case None => QuasiFreed
      case Some(ud) =>
        if ud.isDefault then QuasiFreed
        else if ud.uncollectable then Stays
        else Listed
  }

  /** set_quasi_freed. */
  function SetQuasiFreed(o: SparseObject): SparseObject {
    o.(inUse := false, quasiFreed := true)
  }

  /** The fates, and quasi-freeing, in the fields of the object. */
  lemma FateInFields(o: SparseObject)
    ensures FateOf(o) == QuasiFreed <==> o.inUse && !o.marked && (o.userData.None? || o.userData.value.isDefault)
    ensures FateOf(o) == Listed <==>
      o.inUse && !o.marked && o.userData.Some? && !o.userData.value.isDefault && !o.userData.value.uncollectable
    ensures SetQuasiFreed(o) == SparseObject(o.words, o.userData, false, true, o.linked, o.atomic, o.marked)
  {
  }

  /** The heap after the objects of `list` have been swept. */
  function Swept(sparse: map<Addr, SparseObject>, list: seq<Addr>): map<Addr, SparseObject> {
    if list == [] then sparse else
    var before, os := Swept(sparse, list[..|list|-1]), list[|list|-1];
    if os in before && FateOf(before[os]) == QuasiFreed then before[os := SetQuasiFreed(before[os])] else before
  }

  /** The objects of `list` that get listed, in order. */
  function ToBeFreed(sparse: map<Addr, SparseObject>, list: seq<Addr>): seq<Addr> {
    if list == [] then [] else
    var os := list[|list|-1];
    ToBeFreed(sparse, list[..|list|-1]) + if os in sparse && FateOf(sparse[os]) == Listed then [os] else []
  }

  /** What is added to the counter of freed objects. */
  function FreedCount(sparse: map<Addr, SparseObject>, list: seq<Addr>): nat {
    if list == [] then 0 else
    var os := list[|list|-1];
    FreedCount(sparse, list[..|list|-1]) + if os in sparse && FateOf(sparse[os]) != Stays then 1 else 0
  }

  ghost function WithFate(sparse: map<Addr, SparseObject>, list: seq<Addr>, fate: Fate): set<Addr> {
    set os | os in list && os in sparse && FateOf(sparse[os]) == fate
  }

  /** Sweeping quasi-frees exactly the objects with that fate and changes nothing else. */
  lemma {:induction false} SweptExact(sparse: map<Addr, SparseObject>, list: seq<Addr>)
    ensures var after := Swept(sparse, list);
      && after.Keys == sparse.Keys
      && forall os | os in sparse ::
           after[os] == if os in WithFate(sparse, list, QuasiFreed) then SetQuasiFreed(sparse[os]) else sparse[os]
  {
    if list != [] {
      SweptExact(sparse, list[..|list|-1]);
    }
  }

  /** An object is listed exactly once if that is its fate, and not at all otherwise. */
  lemma {:induction false} ToBeFreedExact(sparse: map<Addr, SparseObject>, list: seq<Addr>)
    requires NoRepeats(list)
    ensures forall os :: os in ToBeFreed(sparse, list) <==> os in WithFate(sparse, list, Listed)
    ensures NoRepeats(ToBeFreed(sparse, list))
  {
    if list != [] {
      var front, os := list[..|list|-1], list[|list|-1];
      ToBeFreedExact(sparse, front);
      assert os !in front;
      var shorter := ToBeFreed(sparse, front);
      assert os !in shorter;
      assert forall i | 0 <= i < |shorter| :: shorter[i] in shorter;
    }
  }

  /** The counter grows by the number of objects quasi-freed plus the number listed. */
  lemma {:induction false} FreedCountExact(sparse: map<Addr, SparseObject>, list: seq<Addr>)
    requires NoRepeats(list)
    ensures FreedCount(sparse, list) == |WithFate(sparse, list, QuasiFreed)| + |WithFate(sparse, list, Listed)|
  {
    if list != [] {
      var front, os := list[..|list|-1], list[|list|-1];
      FreedCountExact(sparse, front);
      WithFateGrows(sparse, list, QuasiFreed);
      WithFateGrows(sparse, list, Listed);
    }
  }

  lemma WithFateGrows(sparse: map<Addr, SparseObject>, list: seq<Addr>, fate: Fate)
    requires NoRepeats(list) && list != []
    ensures var front, os := list[..|list|-1], list[|list|-1];
      |WithFate(sparse, list, fate)| ==
        |WithFate(sparse, front, fate)| + if os in sparse && FateOf(sparse[os]) == fate then 1 else 0
  {
    var front, os := list[..|list|-1], list[|list|-1];
    assert os !in front;
    hide NoRepeats, FateOf;
    var fewer, more := WithFate(sparse, front, fate), WithFate(sparse, list, fate);
    forall x
      ensures x in more <==> x in fewer || (x == os && os in sparse && FateOf(sparse[os]) == fate)
    {
      assert x in list <==> x in front || x == os;
    }
    if os in sparse && FateOf(sparse[os]) == fate {
      assert more == fewer + {os};
    } else {
      assert more == fewer;
    }
  }

  /** Sweeping one more object. */
  lemma SweepStep(sparse: map<Addr, SparseObject>, list: seq<Addr>, os: Addr)
    requires os in sparse && os !in list
    ensures os in Swept(sparse, list) && Swept(sparse, list)[os] == sparse[os]
    ensures Swept(sparse, list + [os]) ==
              if FateOf(sparse[os]) == QuasiFreed then Swept(sparse, list)[os := SetQuasiFreed(sparse[os])]
              else Swept(sparse, list)
    ensures ToBeFreed(sparse, list + [os]) ==
            ToBeFreed(sparse, list) + if FateOf(sparse[os]) == Listed then [os] else []
    ensures FreedCount(sparse, list + [os]) == FreedCount(sparse, list) + if FateOf(sparse[os]) != Stays then 1 else 0
  {
    assert (list + [os])[..|list|] == list;
    SweptExact(sparse, list);
  }

  /** The objects `done` have been swept. */
  ghost predicate SweptSoFar(sparse: map<Addr, SparseObject>, done: seq<Addr>, sparse': map<Addr, SparseObject>,
                             list: seq<Addr>, list': seq<Addr>, n: int)
  {
    && sparse' == Swept(sparse, done)
    && list' == list + ToBeFreed(sparse, done)
    && n == FreedCount(sparse, done)
  }

  lemma SweptNothing(sparse: map<Addr, SparseObject>)
    ensures Swept(sparse, []) == sparse && ToBeFreed(sparse, []) == [] && FreedCount(sparse, []) == 0
  {
  }

  lemma SweptOneMore(sparse: map<Addr, SparseObject>, done: seq<Addr>, os: Addr, sparse': map<Addr, SparseObject>,
                     list: seq<Addr>, list': seq<Addr>, n: int)
    requires os in sparse && os !in done && SweptSoFar(sparse, done, sparse', list, list', n)
    ensures os in sparse'
    ensures var fate := FateOf(sparse'[os]);
      SweptSoFar(sparse, done + [os],
                 if fate == QuasiFreed then sparse'[os := SetQuasiFreed(sparse'[os])] else sparse',
                 list, list' + (if fate == Listed then [os] else []),
                 n + if fate == Stays then 0 else 1)
  {
    SweepStep(sparse, done, os);
  }

  /** Sweeping a second list after a first one that shares no object with it. */
  lemma {:induction false} SweepAfter(sparse: map<Addr, SparseObject>, a: seq<Addr>, b: seq<Addr>)
    requires forall os | os in b :: os !in a
    ensures Swept(sparse, a + b) == Swept(Swept(sparse, a), b)
    ensures ToBeFreed(sparse, a + b) == ToBeFreed(sparse, a) + ToBeFreed(Swept(sparse, a), b)
    ensures FreedCount(sparse, a + b) == FreedCount(sparse, a) + FreedCount(Swept(sparse, a), b)
  {
    if b == [] {
      assert a + b == a;
    } else {
      var front, os := b[..|b|-1], b[|b|-1];
      SweepAfter(sparse, a, front);
      assert (a + b)[..|a + b|-1] == a + front;
      assert (a + b)[|a + b|-1] == os;
      SweptExact(sparse, a);
      assert os !in a;
    }
  }
}

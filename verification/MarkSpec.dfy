/**
 What one stretch of marking may do, as a relation between two marker states.
 The relation is the tri-colour argument without colours: an object marked during the
 stretch has, at its end, all its words resolved to marked objects or postponed, so only
 the objects that were already marked at its start need a promise from somebody else.
 */
module MarkSpec {
  import opened Heap
  import opened Reachability
  import opened StackScan

  const SPARSE_DEPTH_LIMIT := 100
  const BITMAP_DEPTH_LIMIT := 300
  // One more than the larger limit: the depth at which a call made from a slot is postponed.
  const DEEPEST_CALL := 301

  /** Marked objects, the postponed addresses (m_addresses_to_mark), and two meters:
      the number of _mark_addrs calls made and the largest depth any of them was given. */
  datatype MarkState = MarkState(marks: set<Obj>, pending: set<Addr>, calls: nat, deepest: nat)

  /** The word `w` points nowhere, to a marked object, or is postponed. */
  ghost predicate Covered(g: Image, s: MarkState, w: Addr) {
    Lands(g, w, s.marks) || w in s.pending
  }

  /** `q` is a word of an object that was marked between `s0` and `s1`. */
  ghost predicate WordOfNew(g: Image, s0: MarkState, s1: MarkState, q: Addr) {
    exists o :: o in s1.marks && o !in s0.marks && q in Words(g, o)
  }

  /** From `s0` to `s1` marks and postponed addresses only grow, every newly marked object has
      all its words covered, and every newly postponed address is in `extra` or is a word of a
      newly marked object. */
  ghost predicate Progress(g: Image, s0: MarkState, s1: MarkState, extra: set<Addr>) {
    && s0.marks <= s1.marks <= s0.marks + Nodes(g)
    && s0.pending <= s1.pending
    && (forall o, w :: o in s1.marks && o !in s0.marks && w in Words(g, o) ==> Covered(g, s1, w))
    && (forall q :: q in s1.pending && q !in s0.pending ==> q in extra || WordOfNew(g, s0, s1, q))
  }

  /** Everything marked or postponed stays inside `R`. */
  ghost predicate Within(g: Image, s: MarkState, R: set<Obj>) {
    && s.marks <= R
    && AllLand(g, s.pending, R)
  }

  /** Calls made plus addresses postponed, less `budget`, are paid for by the words of the
      newly marked objects: two for each. */
  ghost predicate Paid(g: Image, s0: MarkState, s1: MarkState, budget: nat) {
    s1.calls + |s1.pending| + 2 * WordCount(g, s0.marks)
      <= s0.calls + |s0.pending| + 2 * WordCount(g, s1.marks) + budget
  }

  ghost predicate DepthKept(s0: MarkState, s1: MarkState, depth: nat) {
    s1.deepest <= s0.deepest || s1.deepest <= depth || s1.deepest <= DEEPEST_CALL
  }

  /** A call this deep postpones its word instead of following it: always in the bitmap heap, and
      in the sparse heap for an object with words to follow.  A sparse object that is already
      marked needs neither. */
  ghost predicate TooDeep(g: Image, addr: Addr, depth: nat) {
    if g.layout.InFastHeap(addr) then depth > BITMAP_DEPTH_LIMIT
    else
      && depth > SPARSE_DEPTH_LIMIT
      && var t := Target(g, addr);
         t.Some? && t.value.Sparse? && t.value.os in g.sparse && !g.sparse[t.value.os].atomic
  }

  /** Postponing happens exactly then; otherwise what the word points to is marked afterwards. */
  ghost predicate DepthRule(g: Image, s0: MarkState, s1: MarkState, addr: Addr, depth: nat) {
    if TooDeep(g, addr, depth) && (g.layout.InFastHeap(addr) || !Lands(g, addr, s0.marks))
    then s1.marks == s0.marks && s1.pending == s0.pending + {addr}
    else Lands(g, addr, s1.marks)
  }

  /** The rule in numbers: a word into the bitmap heap is followed down to depth 300, one to a sparse
      object with words to follow down to depth 100, and one to an atomic object always; deeper, the
      word is postponed, whatever a bitmap word points to, and unless a sparse object is marked. */
  lemma DepthInNumbers(g: Image, s0: MarkState, s1: MarkState, addr: Addr, depth: nat)
    requires DepthRule(g, s0, s1, addr, depth)
    ensures g.layout.fastBegin <= addr < g.layout.fastEnd ==>
      if depth <= 300 then Lands(g, addr, s1.marks) else s1.marks == s0.marks && s1.pending == s0.pending + {addr}
    ensures !(g.layout.fastBegin <= addr < g.layout.fastEnd) && depth <= 100 ==> Lands(g, addr, s1.marks)
    ensures forall os | os in g.sparse && Target(g, addr) == Some(Sparse(os)) ::
      && (g.sparse[os].atomic ==> Sparse(os) in s1.marks)
      && (!g.sparse[os].atomic && depth > 100 && Sparse(os) !in s0.marks ==>
            s1.marks == s0.marks && s1.pending == s0.pending + {addr})
  {
    if os :| os in g.sparse && Target(g, addr) == Some(Sparse(os)) {
      SparseTargetInside(g, addr, os);
    }
  }

  /** Addresses a call may postpone for itself: none unless it was made below the sparse limit. */
  function Postponable(addr: Addr, depth: nat): set<Addr> {
    if depth > SPARSE_DEPTH_LIMIT then {addr} else {}
  }

  /** The effect of visiting one word at a given depth. */
  ghost predicate Visit(g: Image, s0: MarkState, s1: MarkState, addr: Addr, depth: nat, budget: nat) {
    && Progress(g, s0, s1, Postponable(addr, depth))
    && Covered(g, s1, addr)
    && (depth <= SPARSE_DEPTH_LIMIT ==> Lands(g, addr, s1.marks))
    && Paid(g, s0, s1, budget + if depth > SPARSE_DEPTH_LIMIT then 1 else 0)
    && DepthKept(s0, s1, depth)
  }

  /** The effect of having scanned the first `n` words of an object since `s0`. */
  ghost predicate ScannedPrefix(g: Image, s0: MarkState, s1: MarkState, words: seq<Addr>, n: nat)
    requires n <= |words|
  {
    && Progress(g, s0, s1, set w | w in words)
    && (forall i :: 0 <= i < n ==> Covered(g, s1, words[i]))
    && Paid(g, s0, s1, 2 * n)
    && DepthKept(s0, s1, DEEPEST_CALL)
  }

  lemma CoveredMonotone(g: Image, s0: MarkState, s1: MarkState, w: Addr)
    requires s0.marks <= s1.marks && s0.pending <= s1.pending && Covered(g, s0, w)
    ensures Covered(g, s1, w)
  {
  }

  lemma ProgressTrans(g: Image, s0: MarkState, s1: MarkState, s2: MarkState, e1: set<Addr>, e2: set<Addr>)
    requires Progress(g, s0, s1, e1) && Progress(g, s1, s2, e2)
    ensures Progress(g, s0, s2, e1 + e2)
  {
    forall o, w | o in s2.marks && o !in s0.marks && w in Words(g, o)
      ensures Covered(g, s2, w)
    {
      if o in s1.marks {
        CoveredMonotone(g, s1, s2, w);
      }
    }
    forall q | q in s2.pending && q !in s0.pending
      ensures q in e1 + e2 || WordOfNew(g, s0, s2, q)
    {
      if q in s1.pending {
        if q !in e1 {
          var o :| o in s1.marks && o !in s0.marks && q in Words(g, o);
          assert o in s2.marks;
        }
      } else if q !in e2 {
        var o :| o in s2.marks && o !in s1.marks && q in Words(g, o);
        assert o !in s0.marks;
      }
    }
  }

  /** Scanning one more word. */
  lemma ScanStep(g: Image, s0: MarkState, s1: MarkState, s2: MarkState, words: seq<Addr>, n: nat, depth: nat)
    requires n < |words| && depth <= BITMAP_DEPTH_LIMIT
    requires ScannedPrefix(g, s0, s1, words, n)
    requires Visit(g, s1, s2, words[n], depth + 1, 1)
    ensures ScannedPrefix(g, s0, s2, words, n + 1) && s1.marks <= s2.marks
  {
    hide WordCount;
    var all := set w | w in words;
    assert Progress(g, s0, s2, all) by {
      ProgressTrans(g, s0, s1, s2, all, Postponable(words[n], depth + 1));
      assert all + Postponable(words[n], depth + 1) == all;
    }
    hide Progress;
    forall i | 0 <= i < n + 1
      ensures Covered(g, s2, words[i])
    {
      if i < n {
        CoveredMonotone(g, s1, s2, words[i]);
      }
    }
  }

  /** Marking `o` and scanning all its words is a visit of any address that resolves to `o`. */
  lemma ScanDone(g: Image, s0: MarkState, s1: MarkState, s2: MarkState, o: Obj, addr: Addr, depth: nat)
    requires o !in s0.marks && o in Nodes(g) && Target(g, addr) == Some(o)
    requires s1 == s0.(marks := s0.marks + {o})
    requires ScannedPrefix(g, s1, s2, Words(g, o), |Words(g, o)|)
    ensures Visit(g, s0, s2, addr, depth, 0) && Lands(g, addr, s2.marks)
  {
    WordCountAdd(g, s0.marks, o);
    forall o', w | o' in s2.marks && o' !in s0.marks && w in Words(g, o')
      ensures Covered(g, s2, w)
    {
    }
    forall q | q in s2.pending && q !in s0.pending
      ensures WordOfNew(g, s0, s2, q)
    {
      if q in Words(g, o) {
        assert o in s2.marks && o !in s0.marks;
      } else {
        assert WordOfNew(g, s1, s2, q);
        var o' :| o' in s2.marks && o' !in s1.marks && q in Words(g, o');
        assert o' !in s0.marks;
      }
    }
  }

  /** A word that points nowhere or to a marked object needs nothing done. */
  lemma NothingToDo(g: Image, s: MarkState, addr: Addr, depth: nat)
    requires Lands(g, addr, s.marks)
    ensures Visit(g, s, s, addr, depth, 0)
  {
  }

  /** So does a word outside both heaps. */
  lemma InertWord(g: Image, s: MarkState, addr: Addr)
    requires !g.layout.InFastHeap(addr) && !g.layout.InSparseHeap(addr - g.layout.stateBytes)
    ensures Lands(g, addr, s.marks)
  {
  }

  /** Below the sparse limit a word may be postponed instead of visited. */
  lemma Postponed(g: Image, s0: MarkState, s1: MarkState, addr: Addr, depth: nat)
    requires depth > SPARSE_DEPTH_LIMIT
    requires s1 == s0.(pending := s0.pending + {addr})
    ensures Visit(g, s0, s1, addr, depth, 0)
  {
  }

  /** The call itself: one more on the meter, and perhaps a new greatest depth. */
  lemma CallMetered(g: Image, s0: MarkState, s1: MarkState, s2: MarkState, addr: Addr, depth: nat)
    requires s1 == s0.(calls := s0.calls + 1, deepest := if depth > s0.deepest then depth else s0.deepest)
    requires Visit(g, s1, s2, addr, depth, 0)
    ensures Visit(g, s0, s2, addr, depth, 1)
  {
  }

  lemma ScanStart(g: Image, s: MarkState, words: seq<Addr>)
    ensures ScannedPrefix(g, s, s, words, 0)
  {
  }

  /** Marking what a word of `R` points to, or postponing such a word, stays inside `R`. */
  lemma StaysWithin(g: Image, s0: MarkState, s1: MarkState, addr: Addr, R: set<Obj>)
    requires Within(g, s0, R) && Lands(g, addr, R)
    requires s1.marks <= s0.marks + (if Target(g, addr).Some? then {Target(g, addr).value} else {})
    requires s1.pending <= s0.pending + {addr}
    ensures Within(g, s1, R)
  {
  }

  lemma PendingLands(g: Image, s: MarkState, addr: Addr, R: set<Obj>)
    requires Within(g, s, R) && addr in s.pending
    ensures Lands(g, addr, R)
  {
  }

  lemma WordLands(g: Image, R: set<Obj>, o: Obj, w: Addr)
    requires Closed(g, R) && o in R && w in Words(g, o)
    ensures Lands(g, w, R)
  {
  }

  /** Marking a leaf is a visit of any address that resolves to it. */
  lemma LeafMarked(g: Image, s0: MarkState, s1: MarkState, o: Obj, addr: Addr, depth: nat)
    requires o !in s0.marks && o in Nodes(g) && Target(g, addr) == Some(o) && Words(g, o) == []
    requires s1 == s0.(marks := s0.marks + {o})
    ensures Visit(g, s0, s1, addr, depth, 0)
  {
    WordCountAdd(g, s0.marks, o);
  }

  /** Since `s0`: every newly marked object and every address in `done` is covered, and the calls
      made are paid for by `budget` and by the words of the newly marked objects. */
  ghost predicate Tricolour(g: Image, s0: MarkState, s: MarkState, done: set<Addr>, budget: nat) {
    && s0.marks <= s.marks <= s0.marks + Nodes(g)
    && (forall o, w :: o in s.marks && o !in s0.marks && w in Words(g, o) ==> Covered(g, s, w))
    && (forall w :: w in done ==> Covered(g, s, w))
    && Paid(g, s0, s, budget)
    && DepthKept(s0, s, 0)
  }

  /** Visiting a root. */
  lemma RootStep(g: Image, s0: MarkState, s1: MarkState, s2: MarkState, done: set<Addr>, addr: Addr, budget: nat)
    requires Tricolour(g, s0, s1, done, budget)
    requires Visit(g, s1, s2, addr, 0, 1)
    ensures Tricolour(g, s0, s2, done + {addr}, budget + 1)
  {
    forall o, w | o in s2.marks && o !in s0.marks && w in Words(g, o)
      ensures Covered(g, s2, w)
    {
      if o in s1.marks {
        CoveredMonotone(g, s1, s2, w);
      }
    }
  }

  /** Taking a postponed address and restarting from it at depth 0.  Nothing is postponed unless
      something is marked. */
  lemma RestartStep(g: Image, s0: MarkState, s1: MarkState, s: MarkState, s2: MarkState, done: set<Addr>, addr: Addr,
                    budget: nat)
    requires Tricolour(g, s0, s1, done, budget) && addr in s1.pending
    requires s == s1.(pending := s1.pending - {addr})
    requires Visit(g, s, s2, addr, 0, 1)
    ensures Tricolour(g, s0, s2, done, budget)
    ensures (s2.marks == s1.marks && s2.pending == s.pending) || Nodes(g) - s2.marks < Nodes(g) - s1.marks
  {
    forall w | Covered(g, s1, w)
      ensures Covered(g, s2, w)
    {
      if w != addr {
        assert Covered(g, s, w);
      }
    }
    if s2.marks == s1.marks {
      forall q | q in s2.pending
        ensures q in s.pending
      {
        assert q in s.pending || q in Postponable(addr, 0) || WordOfNew(g, s, s2, q);
      }
      assert s.pending == s2.pending;
    } else {
      var o :| o in s2.marks && o !in s1.marks;
      assert o in Nodes(g) - s1.marks;
    }
  }

  /** The state in which root visiting starts: `queued` has been added to the postponed addresses. */
  lemma MarkStart(g: Image, s0: MarkState, s1: MarkState, queued: set<Addr>, n: nat, A: set<Addr>)
    requires s1 == s0.(pending := s0.pending + queued) && |queued| <= n
    requires Closed(g, s0.marks) && s1.pending <= A
    ensures Tricolour(g, s0, s1, s1.pending, n)
    ensures var R := s0.marks + Reach(g, A);
            Closed(g, R) && Within(g, s1, R) && AllLand(g, A, R)
  {
    UnionSize(s0.pending, queued);
    ReachIsClosed(g, A);
    ReachContainsRoots(g, A);
    ClosedUnion(g, s0.marks, Reach(g, A));
    forall w | w in A
      ensures Lands(g, w, s0.marks + Reach(g, A))
    {
      assert Lands(g, w, Reach(g, A));
    }
  }

  /** With nothing postponed any more, what was covered is marked, so a closed start ends exactly
      at what the roots reach. */
  lemma MarkEnd(g: Image, s0: MarkState, s: MarkState, done: set<Addr>, budget: nat, A: set<Addr>)
    requires Tricolour(g, s0, s, done, budget) && s.pending == {}
    requires Closed(g, s0.marks) && Within(g, s, s0.marks + Reach(g, A))
    requires Reach(g, done) == Reach(g, A)
    ensures s.marks == s0.marks + Reach(g, A)
    ensures s.calls + 2 * WordCount(g, s0.marks) <= s0.calls + |s0.pending| + budget + 2 * WordCount(g, s.marks)
    ensures s.deepest <= s0.deepest || s.deepest <= DEEPEST_CALL
  {
    assert Closed(g, s.marks) by {
      forall o, w | o in s.marks && w in Words(g, o)
        ensures Lands(g, w, s.marks)
      {
        if o in s0.marks {
          assert Lands(g, w, s0.marks);
        } else {
          assert Covered(g, s, w);
        }
      }
    }
    ExactlyReach(g, done, s0.marks, s.marks);
  }

  lemma {:induction false} GreatestExists(S: set<Addr>)
    requires S != {}
    ensures exists m :: m in S && forall a :: a in S ==> a <= m
  {
    var x := Any(S);
    if S != {x} {
      var rest := S - {x};
      assert S == rest + {x};
      GreatestExists(rest);
      var m: int :| m in rest && forall a :: a in rest ==> a <= m;
      var greatest := if x > m then x else m;
      assert greatest in S;
      forall a | a in S
        ensures a <= greatest
      {
        assert a == x || a in rest;
      }
    }
  }
}

/**
 What "reachable" means on a heap image, without any marker: there is a chain of objects,
 the first one hit by a root word and each next one hit by a word of the one before.
 An unbounded depth-first search is shown to compute exactly this set.
 */
module Reachability {
  import opened Heap

  /** The word `w` points nowhere, or to a member of `S`. */
  ghost predicate Lands(g: Image, w: Addr, S: set<Obj>) {
    var t := Target(g, w);
    t.Some? ==> t.value in S
  }

  /** No word of a member of `S` leads out of `S`. */
  ghost predicate Closed(g: Image, S: set<Obj>) {
    forall o, w :: o in S && w in Words(g, o) ==> Lands(g, w, S)
  }

  ghost predicate AllLand(g: Image, from: set<Addr>, S: set<Obj>) {
    forall w :: w in from ==> Lands(g, w, S)
  }

  lemma FewerLand(g: Image, some: set<Addr>, all: set<Addr>, S: set<Obj>)
    requires some <= all && AllLand(g, all, S)
    ensures AllLand(g, some, S)
  {
  }

  ghost predicate Hit(g: Image, from: set<Addr>, o: Obj) {
    exists w :: w in from && Target(g, w) == Some(o)
  }

  ghost predicate Edge(g: Image, o: Obj, o': Obj) {
    exists w :: w in Words(g, o) && Target(g, w) == Some(o')
  }

  ghost predicate IsPath(g: Image, from: set<Addr>, p: seq<Obj>) {
    && |p| > 0
    && Hit(g, from, p[0])
    && forall i :: 0 < i < |p| ==> Edge(g, p[i-1], p[i])
  }

  ghost predicate Reachable(g: Image, from: set<Addr>, o: Obj) {
    exists p :: IsPath(g, from, p) && p[|p|-1] == o
  }

  ghost function Reach(g: Image, from: set<Addr>): set<Obj> {
    set o | o in Nodes(g) && Reachable(g, from, o)
  }

  lemma ReachContainsRoots(g: Image, from: set<Addr>)
    ensures AllLand(g, from, Reach(g, from))
  {
    forall w | w in from
      ensures Lands(g, w, Reach(g, from))
    {
      var t := Target(g, w);
      if t.Some? {
        TargetIsNode(g, w);
        assert IsPath(g, from, [t.value]);
      }
    }
  }

  lemma ReachIsClosed(g: Image, from: set<Addr>)
    ensures Closed(g, Reach(g, from))
  {
    var S := Reach(g, from);
    forall o, w | o in S && w in Words(g, o)
      ensures Lands(g, w, S)
    {
      var t := Target(g, w);
      if t.Some? {
        TargetIsNode(g, w);
        var p :| IsPath(g, from, p) && p[|p|-1] == o;
        var q := p + [t.value];
        assert Edge(g, o, t.value);
        assert IsPath(g, from, q) && q[|q|-1] == t.value;
      }
    }
  }

  lemma {:induction false} PathStaysInside(g: Image, from: set<Addr>, p: seq<Obj>, S: set<Obj>)
    requires IsPath(g, from, p) && Closed(g, S) && AllLand(g, from, S)
    ensures p[|p|-1] in S
  {
    if |p| == 1 {
      var w :| w in from && Target(g, w) == Some(p[0]);
      assert Lands(g, w, S);
    } else {
      var q := p[..|p|-1];
      PathStaysInside(g, from, q, S);
      assert Edge(g, p[|p|-2], p[|p|-1]);
      var w :| w in Words(g, p[|p|-2]) && Target(g, w) == Some(p[|p|-1]);
      assert Lands(g, w, S);
    }
  }

  /** Reach is the least closed set that the roots land in. */
  lemma ReachIsLeast(g: Image, from: set<Addr>, S: set<Obj>)
    requires Closed(g, S) && AllLand(g, from, S)
    ensures Reach(g, from) <= S
  {
    forall o | o in Reach(g, from)
      ensures o in S
    {
      var p :| IsPath(g, from, p) && p[|p|-1] == o;
      PathStaysInside(g, from, p, S);
    }
  }

  // What makes an object reachable, in the fields of the objects.

  /** Some word of `o` that the marker has to follow leads to `o'`: any word of a sparse object that
      is not atomic, and any word of a slot of type 2. */
  ghost predicate PointsTo(g: Image, o: Obj, o': Obj) {
    match o
    case Sparse(os) =>
      && os in g.sparse && !g.sparse[os].atomic
      && exists i :: 0 <= i < |g.sparse[os].words| && Target(g, g.sparse[os].words[i]) == Some(o')
    case Slot(st, index) =>
      && st in g.slabs && g.slabs[st].typeId == 2 && index < |g.slabs[st].slots|
      && exists i :: 0 <= i < |g.slabs[st].slots[index]| && Target(g, g.slabs[st].slots[index][i]) == Some(o')
  }

  lemma EdgeIsPointsTo(g: Image, o: Obj, o': Obj)
    ensures Edge(g, o, o') <==> PointsTo(g, o, o')
  {
    if Edge(g, o, o') {
      var w :| w in Words(g, o) && Target(g, w) == Some(o');
      var i :| 0 <= i < |Words(g, o)| && Words(g, o)[i] == w;
    }
    if PointsTo(g, o, o') {
      match o
      case Sparse(os) =>
        var i :| 0 <= i < |g.sparse[os].words| && Target(g, g.sparse[os].words[i]) == Some(o');
        assert g.sparse[os].words[i] in Words(g, o);
      case Slot(st, index) =>
        var i :| 0 <= i < |g.slabs[st].slots[index]| && Target(g, g.slabs[st].slots[index][i]) == Some(o');
        assert g.slabs[st].slots[index][i] in Words(g, o);
    }
  }

  /** Whatever a word of a reachable sparse object points to, first word, last or any other, is
      reachable, unless the object is atomic. */
  lemma FieldOfReachable(g: Image, from: set<Addr>, os: Addr, i: nat, o: Obj)
    requires Sparse(os) in Reach(g, from) && os in g.sparse && !g.sparse[os].atomic
    requires i < |g.sparse[os].words| && Target(g, g.sparse[os].words[i]) == Some(o)
    ensures o in Reach(g, from)
  {
    ReachIsClosed(g, from);
    EdgeIsPointsTo(g, Sparse(os), o);
    var w :| w in Words(g, Sparse(os)) && Target(g, w) == Some(o);
    assert Lands(g, w, Reach(g, from));
  }

  /** The same for a word of a reachable slot of type 2. */
  lemma SlotWordOfReachable(g: Image, from: set<Addr>, st: Addr, index: nat, i: nat, o: Obj)
    requires Slot(st, index) in Reach(g, from) && st in g.slabs && g.slabs[st].typeId == 2
    requires index < |g.slabs[st].slots| && i < |g.slabs[st].slots[index]|
    requires Target(g, g.slabs[st].slots[index][i]) == Some(o)
    ensures o in Reach(g, from)
  {
    ReachIsClosed(g, from);
    EdgeIsPointsTo(g, Slot(st, index), o);
    var w :| w in Words(g, Slot(st, index)) && Target(g, w) == Some(o);
    assert Lands(g, w, Reach(g, from));
  }

  /** Nothing else is: a reachable object is one that a root word points to, or one that a word of a
      reachable object does, which then is a sparse object that is not atomic or a slot of type 2. */
  lemma ReachableOnlySo(g: Image, from: set<Addr>, o: Obj)
    ensures o in Reach(g, from) <==>
            || (exists w :: w in from && Target(g, w) == Some(o))
            || (exists p :: p in Reach(g, from) && PointsTo(g, p, o))
  {
    if o in Reach(g, from) {
      LastEdge(g, from, o);
    }
    hide PointsTo, Reach;
    if w :| w in from && Target(g, w) == Some(o) {
      ReachContainsRoots(g, from);
      assert Lands(g, w, Reach(g, from));
    }
    if p :| p in Reach(g, from) && PointsTo(g, p, o) {
      EdgeIsPointsTo(g, p, o);
      ReachIsClosed(g, from);
      var w :| w in Words(g, p) && Target(g, w) == Some(o);
      assert Lands(g, w, Reach(g, from));
    }
  }

  lemma LastEdge(g: Image, from: set<Addr>, o: Obj)
    requires o in Reach(g, from)
    ensures (exists w :: w in from && Target(g, w) == Some(o)) || (exists p :: p in Reach(g, from) && PointsTo(g, p, o))
  {
    hide PointsTo, Edge;
    var path :| IsPath(g, from, path) && path[|path|-1] == o;
    if |path| > 1 {
      var front := path[..|path|-1];
      var p := front[|front|-1];
      assert IsPath(g, from, front);
      assert Edge(g, p, o);
      EdgeIsPointsTo(g, p, o);
      EdgeSourceIsNode(g, p, o);
      assert p in Reach(g, from) && PointsTo(g, p, o);
    }
  }

  lemma EdgeSourceIsNode(g: Image, o: Obj, o': Obj)
    requires Edge(g, o, o')
    ensures o in Nodes(g)
  {
  }

  /** The way every exactness result below is concluded: a closed set that holds the roots and
      lies within what is reachable, give or take an already closed set, is exactly that. */
  lemma ExactlyReach(g: Image, from: set<Addr>, before: set<Obj>, S: set<Obj>)
    requires Closed(g, S) && AllLand(g, from, S)
    requires before <= S <= before + Reach(g, from)
    ensures S == before + Reach(g, from)
  {
    ReachIsLeast(g, from, S);
  }

  lemma ClosedUnion(g: Image, a: set<Obj>, b: set<Obj>)
    requires Closed(g, a) && Closed(g, b)
    ensures Closed(g, a + b)
  {
    forall o, w | o in a + b && w in Words(g, o)
      ensures Lands(g, w, a + b)
    {
      assert (o in a && Lands(g, w, a)) || (o in b && Lands(g, w, b));
    }
  }

  /** Depth-first search with no bound on its depth and no set of postponed addresses. */
  ghost function Dfs(g: Image, work: seq<Addr>, seen: set<Obj>): set<Obj>
    decreases Nodes(g) - seen, |work|
  {
    if work == [] then seen else
    var t := Target(g, work[0]);
    TargetIsNode(g, work[0]);
    if t.None? || t.value in seen then
      Dfs(g, work[1..], seen)
    else
      Dfs(g, Words(g, t.value) + work[1..], seen + {t.value})
  }

  /** Every word of a member of `S` leads into `S` or is still to be visited. */
  ghost predicate ClosedUpTo(g: Image, S: set<Obj>, work: seq<Addr>) {
    forall o, w :: o in S && w in Words(g, o) ==> Lands(g, w, S) || w in work
  }

  lemma {:induction false} DfsFindsAll(g: Image, work: seq<Addr>, seen: set<Obj>)
    requires ClosedUpTo(g, seen, work)
    ensures var found := Dfs(g, work, seen);
            seen <= found && Closed(g, found) && forall w :: w in work ==> Lands(g, w, found)
    decreases Nodes(g) - seen, |work|
  {
    if work != [] {
      var t := Target(g, work[0]);
      TargetIsNode(g, work[0]);
      if t.None? || t.value in seen {
        DfsFindsAll(g, work[1..], seen);
      } else {
        var seen' := seen + {t.value};
        var work' := Words(g, t.value) + work[1..];
        assert forall w :: w in work ==> w == work[0] || w in work';
        DfsFindsAll(g, work', seen');
      }
    }
  }

  lemma {:induction false} DfsStaysInside(g: Image, work: seq<Addr>, seen: set<Obj>, S: set<Obj>)
    requires seen <= S && Closed(g, S) && forall w :: w in work ==> Lands(g, w, S)
    ensures Dfs(g, work, seen) <= S
    decreases Nodes(g) - seen, |work|
  {
    if work != [] {
      var t := Target(g, work[0]);
      TargetIsNode(g, work[0]);
      assert Lands(g, work[0], S);
      if t.None? || t.value in seen {
        DfsStaysInside(g, work[1..], seen, S);
      } else {
        DfsStaysInside(g, Words(g, t.value) + work[1..], seen + {t.value}, S);
      }
    }
  }

  /** The unbounded search finds exactly the reachable objects. */
  lemma DfsIsReach(g: Image, roots: seq<Addr>)
    ensures Dfs(g, roots, {}) == Reach(g, set w | w in roots)
  {
    var from := set w | w in roots;
    var found := Dfs(g, roots, {});
    DfsFindsAll(g, roots, {});
    ReachIsLeast(g, from, found);
    ReachIsClosed(g, from);
    ReachContainsRoots(g, from);
    assert forall w :: w in roots ==> w in from;
    DfsStaysInside(g, roots, {}, Reach(g, from));
  }

  /** Two sets of roots together reach what they reach one by one. */
  lemma ReachOfUnion(g: Image, a: set<Addr>, b: set<Addr>)
    ensures Reach(g, a + b) == Reach(g, a) + Reach(g, b)
  {
    ReachIsClosed(g, a + b);
    ReachContainsRoots(g, a + b);
    assert AllLand(g, a, Reach(g, a + b)) && AllLand(g, b, Reach(g, a + b));
    ReachIsLeast(g, a, Reach(g, a + b));
    ReachIsLeast(g, b, Reach(g, a + b));
    ReachIsClosed(g, a);
    ReachIsClosed(g, b);
    ReachContainsRoots(g, a);
    ReachContainsRoots(g, b);
    var S := Reach(g, a) + Reach(g, b);
    ClosedUnion(g, Reach(g, a), Reach(g, b));
    assert AllLand(g, a + b, S) by {
      forall w | w in a + b
        ensures Lands(g, w, S)
      {
        assert (w in a && Lands(g, w, Reach(g, a))) || (w in b && Lands(g, w, Reach(g, b)));
      }
    }
    ReachIsLeast(g, a + b, S);
  }

  // How many words the marker has to look at in a set of objects.

  ghost function Any<T>(S: set<T>): T
    requires S != {}
    ensures Any(S) in S
  {
    var x :| x in S;
    x
  }

  ghost function WordCount(g: Image, S: set<Obj>): nat {
    if S == {} then 0 else |Words(g, Any(S))| + WordCount(g, S - {Any(S)})
  }

  lemma {:induction false} WordCountRemove(g: Image, S: set<Obj>, o: Obj)
    requires o in S
    ensures WordCount(g, S) == |Words(g, o)| + WordCount(g, S - {o})
    decreases S
  {
    var p := Any(S);
    if p != o {
      WordCountRemove(g, S - {p}, o);
      WordCountRemove(g, S - {o}, p);
      assert S - {p} - {o} == S - {o} - {p};
    }
  }

  /** In the fields of the objects: an atomic object and a slot of another type than 2 count nothing,
      any other object as many as it has words. */
  lemma WordsCounted(g: Image, S: set<Obj>, o: Obj)
    requires o in Nodes(g) && o !in S
    ensures WordCount(g, {}) == 0
    ensures WordCount(g, S + {o}) - WordCount(g, S) ==
      match o
      case Sparse(os) => if g.sparse[os].atomic then 0 else |g.sparse[os].words|
      case Slot(st, index) => if g.slabs[st].typeId == 2 then |g.slabs[st].slots[index]| else 0
  {
    WordCountAdd(g, S, o);
  }

  lemma WordCountAdd(g: Image, S: set<Obj>, o: Obj)
    requires o !in S
    ensures WordCount(g, S + {o}) == |Words(g, o)| + WordCount(g, S)
  {
    WordCountRemove(g, S + {o}, o);
    assert S + {o} - {o} == S;
  }
}

/**
 Several gc threads marking one heap at once, in any interleaving.  A thread's recursion is
 written out as a stack of frames; looking whether an object is marked and marking it are
 separate steps, so two threads may both find an object unmarked and both mark and scan it.
 Setting one mark never clears another.
 */
module ParallelMark {
  import opened Heap
  import opened Reachability
  import opened MarkSpec

  /** One activation of _mark_addrs: about to look at a word; having seen that the object it points
      to is unmarked, about to mark it; or scanning an object from word `pos` on. */
  datatype Frame =
    | Visiting(addr: Addr, depth: nat)
    | Marking(addr: Addr, o: Obj, depth: nat)
    | Scanning(o: Obj, pos: nat, depth: nat)

  /** A gc thread: its recursion, innermost frame last; its postponed addresses; the root words
      it has yet to visit; and, as history, the objects it has found unmarked and gone on to mark. */
  datatype Marker = Marker(stack: seq<Frame>, pending: set<Addr>, roots: seq<Addr>, entered: set<Obj>)

  datatype State = State(marks: set<Obj>, markers: seq<Marker>)

  /** What a gc thread sets out with: the words of its roots and of the stacks it watches, and the
      potential roots it has queued. */
  datatype Start = Start(words: seq<Addr>, queued: set<Addr>)

  ghost predicate Idle(m: Marker) {
    m.stack == [] && m.pending == {} && m.roots == []
  }

  /** All markers have returned. */
  ghost predicate Quiescent(s: State) {
    forall t | 0 <= t < |s.markers| :: Idle(s.markers[t])
  }

  /** Nothing is marked and each marker is about to visit its roots. */
  ghost predicate Initial(s: State, starts: seq<Start>) {
    && s.marks == {} && |s.markers| == |starts|
    && forall t | 0 <= t < |starts| :: s.markers[t] == Marker([], starts[t].queued, starts[t].words, {})
  }

  function Top(m: Marker): Frame
    requires m.stack != []
  {
    m.stack[|m.stack|-1]
  }

  function Pop(m: Marker): Marker
    requires m.stack != []
  {
    m.(stack := m.stack[..|m.stack|-1])
  }

  function Push(m: Marker, f: Frame): Marker {
    m.(stack := m.stack + [f])
  }

  /** _mark_addrs up to the check of the mark. */
  ghost function AfterLook(g: Image, marks: set<Obj>, m: Marker): Marker
    requires m.stack != [] && Top(m).Visiting?
  {
    var Visiting(addr, depth) := Top(m);
    var t := Target(g, addr);
    if g.layout.InFastHeap(addr) && TooDeep(g, addr, depth) then
      Pop(m).(pending := m.pending + {addr})
    else if t.None? || t.value in marks then
      Pop(m)
    else if TooDeep(g, addr, depth) then
      Pop(m).(pending := m.pending + {addr})
    else
      Push(Pop(m).(entered := m.entered + {t.value}), Marking(addr, t.value, depth))
  }

  /** The steps of one marker; only the last but one of them writes a mark. */
  ghost predicate MarkerStep(g: Image, marks: set<Obj>, m: Marker, marks': set<Obj>, m': Marker) {
    if m.stack == [] then
      && marks' == marks
      && if m.roots != [] then
           // start on the next root
           m' == Push(m.(roots := m.roots[1..]), Visiting(m.roots[0], 0))
         else
           // restart from a postponed address
           exists addr :: addr in m.pending && m' == Push(m.(pending := m.pending - {addr}), Visiting(addr, 0))
    else match Top(m)
      case Visiting(_, _) =>
        marks' == marks && m' == AfterLook(g, marks, m)
      case Marking(addr, o, depth) =>
        marks' == marks + {o} && m' == Push(Pop(m), Scanning(o, 0, depth))
      case Scanning(o, pos, depth) =>
        && marks' == marks
        && m' == if pos < |Words(g, o)|
                 then Push(Push(Pop(m), Scanning(o, pos + 1, depth)), Visiting(Words(g, o)[pos], depth + 1))
                 else Pop(m)
  }

  /** Some marker takes a step. */
  ghost predicate Step(g: Image, s: State, s': State) {
    exists t :: StepOf(g, s, s', t)
  }

  ghost predicate StepOf(g: Image, s: State, s': State, t: int) {
    && 0 <= t < |s.markers| == |s'.markers|
    && s'.markers == s.markers[t := s'.markers[t]]
    && MarkerStep(g, s.marks, s.markers[t], s'.marks, s'.markers[t])
  }

  ghost predicate IsRun(g: Image, starts: seq<Start>, run: seq<State>) {
    && |run| > 0 && Initial(run[0], starts)
    && forall i | 0 < i < |run| :: Step(g, run[i-1], run[i])
  }

  // What each marker still owes.

  /** The words that a frame will yet visit. */
  ghost function FrameClaims(g: Image, f: Frame): set<Addr> {
    match f
    case Visiting(addr, _) => {addr}
    case Marking(addr, _, _) => {addr}
    case Scanning(o, pos, _) => set i | pos <= i < |Words(g, o)| :: Words(g, o)[i]
  }

  ghost function StackClaims(g: Image, stack: seq<Frame>): set<Addr> {
    if stack == [] then {} else StackClaims(g, stack[..|stack|-1]) + FrameClaims(g, stack[|stack|-1])
  }

  /** Every word the marker will yet visit, now or after a restart. */
  ghost function Claims(g: Image, m: Marker): set<Addr> {
    StackClaims(g, m.stack) + m.pending + set w | w in m.roots
  }

  /** `w` leads nowhere or to a marked object, or some marker will yet visit it. */
  ghost predicate Accounted(g: Image, s: State, w: Addr) {
    Lands(g, w, s.marks) || exists t :: 0 <= t < |s.markers| && w in Claims(g, s.markers[t])
  }

  /** A call this deep may scan `o`: only an object without words is marked by the deepest calls. */
  ghost predicate MayScan(g: Image, o: Obj, depth: nat) {
    depth <= BITMAP_DEPTH_LIMIT || Words(g, o) == []
  }

  ghost predicate FrameSound(g: Image, f: Frame, R: set<Obj>) {
    && f.depth <= DEEPEST_CALL
    && match f
       case Visiting(addr, _) => Lands(g, addr, R)
       case Marking(addr, o, depth) => Target(g, addr) == Some(o) && o in R && MayScan(g, o, depth)
       case Scanning(o, _, depth) => o in R && MayScan(g, o, depth)
  }

  ghost predicate MarkerSound(g: Image, m: Marker, R: set<Obj>) {
    && (forall k | 0 <= k < |m.stack| :: FrameSound(g, m.stack[k], R))
    && AllLand(g, m.pending, R)
    && forall w | w in m.roots :: Lands(g, w, R)
  }

  ghost function AllRoots(starts: seq<Start>): set<Addr> {
    if starts == [] then {}
    else
      var last := starts[|starts|-1];
      AllRoots(starts[..|starts|-1]) + last.queued + set w | w in last.words
  }

  /** What holds in every reachable state. */
  ghost predicate Invariant(g: Image, roots: set<Addr>, s: State) {
    && (forall o, w :: o in s.marks && w in Words(g, o) ==> Accounted(g, s, w))
    && (forall w :: w in roots ==> Accounted(g, s, w))
    && s.marks <= Reach(g, roots)
    && forall t | 0 <= t < |s.markers| :: MarkerSound(g, s.markers[t], Reach(g, roots))
  }

  lemma {:induction false} ClaimsOfPush(g: Image, m: Marker, f: Frame)
    ensures Claims(g, Push(m, f)) == Claims(g, m) + FrameClaims(g, f)
  {
    assert (m.stack + [f])[..|m.stack|] == m.stack;
  }

  lemma ClaimsOfPop(g: Image, m: Marker)
    requires m.stack != []
    ensures Claims(g, m) == Claims(g, Pop(m)) + FrameClaims(g, Top(m))
  {
  }

  lemma ScanningClaims(g: Image, o: Obj, pos: nat, depth: nat)
    ensures pos < |Words(g, o)| ==>
      FrameClaims(g, Scanning(o, pos, depth)) == FrameClaims(g, Scanning(o, pos + 1, depth)) + {Words(g, o)[pos]}
    ensures pos >= |Words(g, o)| ==> FrameClaims(g, Scanning(o, pos, depth)) == {}
    ensures FrameClaims(g, Scanning(o, 0, depth)) == set w | w in Words(g, o)
  {
    if pos < |Words(g, o)| {
      forall w
        ensures w in FrameClaims(g, Scanning(o, pos, depth)) <==>
                w in FrameClaims(g, Scanning(o, pos + 1, depth)) + {Words(g, o)[pos]}
      {
        if w in FrameClaims(g, Scanning(o, pos, depth)) {
          var i :| pos <= i < |Words(g, o)| && Words(g, o)[i] == w;
          assert i == pos || w in FrameClaims(g, Scanning(o, pos + 1, depth));
        }
      }
    }
  }

  /** A step of a marker drops no claim unless its word now leads nowhere or to a marked object;
      and the words of an object it marks are claimed. */
  lemma StepKeepsClaims(g: Image, marks: set<Obj>, m: Marker, marks': set<Obj>, m': Marker)
    requires MarkerStep(g, marks, m, marks', m')
    requires m.stack != [] && Top(m).Marking? ==> Target(g, Top(m).addr) == Some(Top(m).o)
    ensures marks <= marks'
    ensures forall w | w in Claims(g, m) :: w in Claims(g, m') || Lands(g, w, marks')
    ensures forall o, w | o in marks' && o !in marks && w in Words(g, o) :: w in Claims(g, m')
  {
    hide StackClaims;
    if m.stack == [] {
      if m.roots != [] {
        ClaimsOfPush(g, m.(roots := m.roots[1..]), Visiting(m.roots[0], 0));
      } else {
        var addr :| addr in m.pending && m' == Push(m.(pending := m.pending - {addr}), Visiting(addr, 0));
        ClaimsOfPush(g, m.(pending := m.pending - {addr}), Visiting(addr, 0));
      }
    } else {
      ClaimsOfPop(g, m);
      match Top(m)
      case Visiting(addr, depth) =>
        if m' != Pop(m) && m'.pending == m.pending {
          var o := Target(g, addr).value;
          ClaimsOfPush(g, Pop(m).(entered := m.entered + {o}), Marking(addr, o, depth));
        }
      case Marking(addr, o, depth) =>
        ClaimsOfPush(g, Pop(m), Scanning(o, 0, depth));
        ScanningClaims(g, o, 0, depth);
      case Scanning(o, pos, depth) =>
        ScanningClaims(g, o, pos, depth);
        if pos < |Words(g, o)| {
          ClaimsOfPush(g, Pop(m), Scanning(o, pos + 1, depth));
          ClaimsOfPush(g, Push(Pop(m), Scanning(o, pos + 1, depth)), Visiting(Words(g, o)[pos], depth + 1));
        }
    }
  }

  /** A word looked at leads to the frame's reachable objects, and marking them may go on. */
  lemma LookIsSound(g: Image, marks: set<Obj>, m: Marker, R: set<Obj>)
    requires m.stack != [] && Top(m).Visiting? && FrameSound(g, Top(m), R)
    ensures var m' := AfterLook(g, marks, m);
            || m' == Pop(m)
            || m' == Pop(m).(pending := m.pending + {Top(m).addr})
            || exists o :: m' == Push(Pop(m).(entered := m.entered + {o}), Marking(Top(m).addr, o, Top(m).depth)) &&
                           FrameSound(g, Marking(Top(m).addr, o, Top(m).depth), R)
  {
    var Visiting(addr, depth) := Top(m);
    var t := Target(g, addr);
    if t.Some? && !TooDeep(g, addr, depth) {
      assert FrameSound(g, Marking(addr, t.value, depth), R);
    }
  }

  lemma PushSound(g: Image, m: Marker, f: Frame, R: set<Obj>)
    requires MarkerSound(g, m, R) && FrameSound(g, f, R)
    ensures MarkerSound(g, Push(m, f), R)
  {
  }

  lemma PopSound(g: Image, m: Marker, R: set<Obj>)
    requires MarkerSound(g, m, R) && m.stack != []
    ensures MarkerSound(g, Pop(m), R) && FrameSound(g, Top(m), R)
  {
  }

  /** Soundness and the depth bound of one marker's step. */
  lemma StepKeepsSound(g: Image, marks: set<Obj>, m: Marker, marks': set<Obj>, m': Marker, R: set<Obj>)
    requires MarkerStep(g, marks, m, marks', m') && MarkerSound(g, m, R) && Closed(g, R) && marks <= R
    ensures MarkerSound(g, m', R) && marks' <= R
  {
    hide AfterLook, TooDeep;
    if m.stack == [] {
      if m.roots != [] {
        PushSound(g, m.(roots := m.roots[1..]), Visiting(m.roots[0], 0), R);
      } else {
        var addr :| addr in m.pending && m' == Push(m.(pending := m.pending - {addr}), Visiting(addr, 0));
        PushSound(g, m.(pending := m.pending - {addr}), Visiting(addr, 0), R);
      }
    } else {
      PopSound(g, m, R);
      match Top(m)
      case Visiting(addr, depth) =>
        LookIsSound(g, marks, m, R);
        if o :| m' == Push(Pop(m).(entered := m.entered + {o}), Marking(addr, o, depth)) &&
                FrameSound(g, Marking(addr, o, depth), R)
        {
          PushSound(g, Pop(m).(entered := m.entered + {o}), Marking(addr, o, depth), R);
        }
      case Marking(addr, o, depth) =>
        PushSound(g, Pop(m), Scanning(o, 0, depth), R);
      case Scanning(o, pos, depth) =>
        if pos < |Words(g, o)| {
          var w := Words(g, o)[pos];
          assert w in Words(g, o) && Lands(g, w, R);
          PushSound(g, Pop(m), Scanning(o, pos + 1, depth), R);
          PushSound(g, Push(Pop(m), Scanning(o, pos + 1, depth)), Visiting(w, depth + 1), R);
        }
    }
  }

  /** A word that was accounted for still is, whichever marker takes a step. */
  lemma StillAccounted(g: Image, s: State, s': State, t: int, w: Addr)
    requires StepOf(g, s, s', t) && Accounted(g, s, w)
    requires s.marks <= s'.marks
    requires forall q | q in Claims(g, s.markers[t]) :: q in Claims(g, s'.markers[t]) || Lands(g, q, s'.marks)
    ensures Accounted(g, s', w)
  {
    hide Claims, MarkerStep;
    if !Lands(g, w, s.marks) {
      var u :| 0 <= u < |s.markers| && w in Claims(g, s.markers[u]);
      assert u != t ==> s'.markers[u] == s.markers[u];
    }
  }

  /** Every step of every marker keeps the invariant. */
  lemma StepKeepsInvariant(g: Image, roots: set<Addr>, s: State, s': State)
    requires Step(g, s, s') && Invariant(g, roots, s)
    ensures Invariant(g, roots, s') && s.marks <= s'.marks
  {
    var t :| StepOf(g, s, s', t);
    var R := Reach(g, roots);
    ReachIsClosed(g, roots);
    var m, m' := s.markers[t], s'.markers[t];
    assert MarkerSound(g, m, R);
    assert m.stack != [] ==> FrameSound(g, Top(m), R);
    StepKeepsClaims(g, s.marks, m, s'.marks, m');
    StepKeepsSound(g, s.marks, m, s'.marks, m', R);
    hide Claims, MarkerStep, MarkerSound, Accounted, Reach;
    forall w | Accounted(g, s, w)
      ensures Accounted(g, s', w)
    {
      StillAccounted(g, s, s', t, w);
    }
    forall o, w | o in s'.marks && w in Words(g, o)
      ensures Accounted(g, s', w)
    {
      if o !in s.marks {
        ClaimedIsAccounted(g, s', t, w);
      }
    }
    forall u | 0 <= u < |s'.markers|
      ensures MarkerSound(g, s'.markers[u], R)
    {
      assert u != t ==> s'.markers[u] == s.markers[u];
    }
  }

  lemma ClaimedIsAccounted(g: Image, s: State, t: int, w: Addr)
    requires 0 <= t < |s.markers| && w in Claims(g, s.markers[t])
    ensures Accounted(g, s, w)
  {
  }

  lemma {:induction false} RootOfSome(starts: seq<Start>, w: Addr)
    ensures w in AllRoots(starts) <==>
            exists t :: 0 <= t < |starts| && (w in starts[t].words || w in starts[t].queued)
  {
    if starts != [] {
      var n := |starts| - 1;
      RootOfSome(starts[..n], w);
      if t :| 0 <= t < |starts| && (w in starts[t].words || w in starts[t].queued) {
        assert t < n ==> starts[..n][t] == starts[t];
      }
    }
  }

  lemma InitialInvariant(g: Image, starts: seq<Start>, s: State)
    requires Initial(s, starts)
    ensures Invariant(g, AllRoots(starts), s)
  {
    var R := Reach(g, AllRoots(starts));
    ReachContainsRoots(g, AllRoots(starts));
    forall w | w in AllRoots(starts)
      ensures Accounted(g, s, w)
    {
      RootOfSome(starts, w);
      var t :| 0 <= t < |starts| && (w in starts[t].words || w in starts[t].queued);
      ClaimedIsAccounted(g, s, t, w);
    }
    forall t | 0 <= t < |s.markers|
      ensures MarkerSound(g, s.markers[t], R)
    {
      forall w | w in starts[t].words || w in starts[t].queued
        ensures Lands(g, w, R)
      {
        RootOfSome(starts, w);
      }
    }
  }

  lemma {:induction false} RunInvariant(g: Image, starts: seq<Start>, run: seq<State>)
    requires IsRun(g, starts, run)
    ensures Invariant(g, AllRoots(starts), run[|run|-1])
    ensures forall i | 0 <= i < |run| :: run[i].marks <= run[|run|-1].marks
  {
    hide Invariant, Step, Initial;
    if |run| == 1 {
      InitialInvariant(g, starts, run[0]);
    } else {
      var before := run[..|run|-1];
      assert IsRun(g, starts, before);
      RunInvariant(g, starts, before);
      StepKeepsInvariant(g, AllRoots(starts), run[|run|-2], run[|run|-1]);
    }
  }

  lemma IdleClaimsNothing(g: Image, s: State, w: Addr)
    requires Quiescent(s) && Accounted(g, s, w)
    ensures Lands(g, w, s.marks)
  {
  }

  /** With any number of gc threads and any interleaving of their looks and marks: when every
      recursion and every set of postponed addresses is empty, exactly what the roots reach is
      marked. */
  lemma MarksExactlyReach(g: Image, starts: seq<Start>, run: seq<State>)
    requires IsRun(g, starts, run) && Quiescent(run[|run|-1])
    ensures run[|run|-1].marks == Reach(g, AllRoots(starts))
  {
    var s := run[|run|-1];
    var from := AllRoots(starts);
    RunInvariant(g, starts, run);
    forall o, w | o in s.marks && w in Words(g, o)
      ensures Lands(g, w, s.marks)
    {
      IdleClaimsNothing(g, s, w);
    }
    forall w | w in from
      ensures Lands(g, w, s.marks)
    {
      IdleClaimsNothing(g, s, w);
    }
    ReachIsLeast(g, from, s.marks);
  }

  /** No marker's recursion goes deeper than 301. */
  predicate Shallow(s: State) {
    forall t, k | 0 <= t < |s.markers| && 0 <= k < |s.markers[t].stack| :: s.markers[t].stack[k].depth <= 301
  }

  /** At every moment of every run, only reachable objects are marked, marks are never taken back,
      and no recursion goes deeper than 301. */
  lemma AlwaysSafe(g: Image, starts: seq<Start>, run: seq<State>)
    requires IsRun(g, starts, run)
    ensures run[|run|-1].marks <= Reach(g, AllRoots(starts))
    ensures forall i | 0 <= i < |run| :: run[i].marks <= run[|run|-1].marks
    ensures Shallow(run[|run|-1])
  {
    RunInvariant(g, starts, run);
    var s := run[|run|-1];
    forall t, k | 0 <= t < |s.markers| && 0 <= k < |s.markers[t].stack|
      ensures s.markers[t].stack[k].depth <= 301
    {
      assert MarkerSound(g, s.markers[t], Reach(g, AllRoots(starts)));
    }
  }

  // What gets postponed.

  ghost predicate WordOfMarked(g: Image, marks: set<Obj>, w: Addr) {
    exists o :: o in marks && w in Words(g, o)
  }

  /** Every call but those for roots and restarts is for a word of an object marked before. */
  ghost predicate FrameScanned(g: Image, marks: set<Obj>, f: Frame) {
    match f
    case Visiting(addr, depth) => depth > 0 ==> WordOfMarked(g, marks, addr)
    case Marking(_, _, _) => true
    case Scanning(o, _, _) => o in marks
  }

  ghost predicate MarkerScanned(g: Image, marks: set<Obj>, m: Marker, queued: set<Addr>) {
    && (forall k | 0 <= k < |m.stack| :: FrameScanned(g, marks, m.stack[k]))
    && forall w | w in m.pending :: w in queued || WordOfMarked(g, marks, w)
  }

  ghost predicate AllScanned(g: Image, s: State, starts: seq<Start>) {
    |s.markers| == |starts| && forall t | 0 <= t < |starts| :: MarkerScanned(g, s.marks, s.markers[t], starts[t].queued)
  }

  lemma ScannedMonotone(g: Image, marks: set<Obj>, marks': set<Obj>, m: Marker, queued: set<Addr>)
    requires MarkerScanned(g, marks, m, queued) && marks <= marks'
    ensures MarkerScanned(g, marks', m, queued)
  {
    assert forall w | WordOfMarked(g, marks, w) :: WordOfMarked(g, marks', w);
    forall k | 0 <= k < |m.stack|
      ensures FrameScanned(g, marks', m.stack[k])
    {
      assert FrameScanned(g, marks, m.stack[k]);
    }
  }

  lemma StepKeepsScanned(g: Image, marks: set<Obj>, m: Marker, marks': set<Obj>, m': Marker, queued: set<Addr>)
    requires MarkerStep(g, marks, m, marks', m') && MarkerScanned(g, marks, m, queued)
    ensures MarkerScanned(g, marks', m', queued) && marks <= marks'
  {
    ScannedMonotone(g, marks, marks', m, queued);
    assert m.stack != [] ==> FrameScanned(g, marks, Top(m));
    if m.stack != [] && Top(m).Scanning? && Top(m).pos < |Words(g, Top(m).o)| {
      assert WordOfMarked(g, marks', Words(g, Top(m).o)[Top(m).pos]);
    }
    hide WordOfMarked;
  }

  lemma StepKeepsAllScanned(g: Image, starts: seq<Start>, s: State, s': State)
    requires Step(g, s, s') && AllScanned(g, s, starts)
    ensures AllScanned(g, s', starts)
  {
    hide MarkerStep, MarkerScanned;
    var t :| StepOf(g, s, s', t);
    StepKeepsScanned(g, s.marks, s.markers[t], s'.marks, s'.markers[t], starts[t].queued);
    forall u | 0 <= u < |starts|
      ensures MarkerScanned(g, s'.marks, s'.markers[u], starts[u].queued)
    {
      if u != t {
        assert s'.markers[u] == s.markers[u];
        ScannedMonotone(g, s.marks, s'.marks, s.markers[u], starts[u].queued);
      }
    }
  }

  lemma {:induction false} RunScanned(g: Image, starts: seq<Start>, run: seq<State>)
    requires IsRun(g, starts, run)
    ensures AllScanned(g, run[|run|-1], starts)
  {
    hide Step;
    if |run| > 1 {
      var before := run[..|run|-1];
      assert IsRun(g, starts, before);
      RunScanned(g, starts, before);
      hide Initial, AllScanned;
      StepKeepsAllScanned(g, starts, run[|run|-2], run[|run|-1]);
    }
  }

  /** In every run, each postponed address is one that was queued at the start or a word of a marked
      object: roots are never postponed, and neither are restarts, save for an address that is such
      a word. */
  lemma PostponedAreScannedWords(g: Image, starts: seq<Start>, run: seq<State>, t: nat, addr: Addr)
    requires IsRun(g, starts, run)
    requires t < |run[|run|-1].markers| && addr in run[|run|-1].markers[t].pending
    ensures t < |starts|
    ensures addr in starts[t].queued || WordOfMarked(g, run[|run|-1].marks, addr)
  {
    RunScanned(g, starts, run);
    assert MarkerScanned(g, run[|run|-1].marks, run[|run|-1].markers[t], starts[t].queued);
  }

  /** In every run, the step that postpones an address is a call for it deeper than the sparse limit,
      made for a word of an object marked before: one for a root word or for a restart, at depth 0,
      postpones nothing. */
  lemma OnlyDeepCallsPostpone(g: Image, starts: seq<Start>, run: seq<State>, t: nat, marks': set<Obj>, m': Marker,
                              addr: Addr)
    requires IsRun(g, starts, run) && t < |run[|run|-1].markers|
    requires MarkerStep(g, run[|run|-1].marks, run[|run|-1].markers[t], marks', m')
    requires addr in m'.pending && addr !in run[|run|-1].markers[t].pending
    ensures var m := run[|run|-1].markers[t];
      m.stack != [] && Top(m).Visiting? && Top(m).addr == addr && Top(m).depth > 100
    ensures WordOfMarked(g, run[|run|-1].marks, addr)
  {
    RunScanned(g, starts, run);
    var s := run[|run|-1];
    assert MarkerScanned(g, s.marks, s.markers[t], starts[t].queued);
    assert s.markers[t].stack != [] ==> FrameScanned(g, s.marks, Top(s.markers[t]));
  }

  // Termination: a natural number that every step of every marker decreases.

  ghost function FrameRank(g: Image, f: Frame): nat {
    match f
    case Visiting(_, depth) => if depth > SPARSE_DEPTH_LIMIT then 3 else 1
    case Marking(_, o, _) => 2 + 4 * |Words(g, o)|
    case Scanning(o, pos, _) => if pos < |Words(g, o)| then 1 + 4 * (|Words(g, o)| - pos) else 1
  }

  ghost function StackRank(g: Image, stack: seq<Frame>): nat {
    if stack == [] then 0 else StackRank(g, stack[..|stack|-1]) + FrameRank(g, stack[|stack|-1])
  }

  ghost function ObjectRank(g: Image, S: set<Obj>): nat {
    2 * |S| + 4 * WordCount(g, S)
  }

  ghost function Rank(g: Image, m: Marker): nat {
    2 * |m.roots| + 2 * |m.pending| + StackRank(g, m.stack) + ObjectRank(g, Nodes(g) - m.entered)
  }

  ghost function TotalRank(g: Image, ms: seq<Marker>): nat {
    if ms == [] then 0 else TotalRank(g, ms[..|ms|-1]) + Rank(g, ms[|ms|-1])
  }

  /** What a marker has gone on to mark is marked, except while it stands before that very step. */
  ghost predicate EnteredMarked(marks: set<Obj>, m: Marker) {
    forall o | o in m.entered :: o in marks || (m.stack != [] && Top(m).Marking? && Top(m).o == o)
  }

  lemma RankOfPush(g: Image, m: Marker, f: Frame)
    ensures Rank(g, Push(m, f)) == Rank(g, m) + FrameRank(g, f)
  {
    assert (m.stack + [f])[..|m.stack|] == m.stack;
  }

  lemma RankOfPop(g: Image, m: Marker)
    requires m.stack != []
    ensures Rank(g, m) == Rank(g, Pop(m)) + FrameRank(g, Top(m))
  {
  }

  lemma RankOfPending(g: Image, m: Marker, addr: Addr)
    ensures Rank(g, m.(pending := m.pending + {addr})) <= Rank(g, m) + 2
    ensures addr in m.pending ==> Rank(g, m.(pending := m.pending - {addr})) == Rank(g, m) - 2
  {
    assert addr in m.pending ==> m.pending + {addr} == m.pending;
  }

  lemma RankOfEntering(g: Image, m: Marker, o: Obj)
    requires o in Nodes(g) && o !in m.entered
    ensures Rank(g, m.(entered := m.entered + {o})) == Rank(g, m) - 2 - 4 * |Words(g, o)|
  {
    var S := Nodes(g) - m.entered;
    assert Nodes(g) - (m.entered + {o}) == S - {o};
    WordCountRemove(g, S, o);
  }

  lemma LookDecreasesRank(g: Image, marks: set<Obj>, m: Marker)
    requires m.stack != [] && Top(m).Visiting? && EnteredMarked(marks, m)
    ensures Rank(g, AfterLook(g, marks, m)) < Rank(g, m)
  {
    hide Rank;
    var Visiting(addr, depth) := Top(m);
    var t := Target(g, addr);
    RankOfPop(g, m);
    RankOfPending(g, Pop(m), addr);
    if t.Some? && t.value !in marks {
      TargetIsNode(g, addr);
      RankOfEntering(g, Pop(m), t.value);
      RankOfPush(g, Pop(m).(entered := m.entered + {t.value}), Marking(addr, t.value, depth));
    }
  }

  lemma StepDecreasesRank(g: Image, marks: set<Obj>, m: Marker, marks': set<Obj>, m': Marker)
    requires MarkerStep(g, marks, m, marks', m') && EnteredMarked(marks, m)
    ensures Rank(g, m') < Rank(g, m)
  {
    hide AfterLook, StackRank, ObjectRank;
    if m.stack == [] {
      if m.roots != [] {
        RankOfPush(g, m.(roots := m.roots[1..]), Visiting(m.roots[0], 0));
      } else {
        var addr :| addr in m.pending && m' == Push(m.(pending := m.pending - {addr}), Visiting(addr, 0));
        RankOfPending(g, m, addr);
        RankOfPush(g, m.(pending := m.pending - {addr}), Visiting(addr, 0));
      }
    } else {
      hide Rank;
      RankOfPop(g, m);
      match Top(m)
      case Visiting(addr, depth) =>
        LookDecreasesRank(g, marks, m);
      case Marking(addr, o, depth) =>
        RankOfPush(g, Pop(m), Scanning(o, 0, depth));
      case Scanning(o, pos, depth) =>
        if pos < |Words(g, o)| {
          RankOfPush(g, Pop(m), Scanning(o, pos + 1, depth));
          RankOfPush(g, Push(Pop(m), Scanning(o, pos + 1, depth)), Visiting(Words(g, o)[pos], depth + 1));
        }
    }
  }

  lemma StepKeepsEntered(g: Image, marks: set<Obj>, m: Marker, marks': set<Obj>, m': Marker)
    requires MarkerStep(g, marks, m, marks', m') && EnteredMarked(marks, m)
    ensures EnteredMarked(marks', m') && marks <= marks'
  {
    hide TooDeep;
    if m.stack != [] && Top(m).Visiting? {
      assert forall o | o in m.entered :: o in marks;
    }
  }

  lemma EnteredMonotone(marks: set<Obj>, marks': set<Obj>, m: Marker)
    requires marks <= marks'
    ensures EnteredMarked(marks, m) ==> EnteredMarked(marks', m)
  {
  }

  lemma {:induction false} TotalRankUpdate(g: Image, ms: seq<Marker>, t: nat, m': Marker)
    requires t < |ms|
    ensures TotalRank(g, ms[t := m']) + Rank(g, ms[t]) == TotalRank(g, ms) + Rank(g, m')
  {
    hide Rank;
    var n := |ms| - 1;
    if t == n {
      assert ms[t := m'][..n] == ms[..n];
    } else {
      TotalRankUpdate(g, ms[..n], t, m');
      assert ms[t := m'][..n] == ms[..n][t := m'];
    }
  }

  ghost predicate AllEnteredMarked(s: State) {
    forall t | 0 <= t < |s.markers| :: EnteredMarked(s.marks, s.markers[t])
  }

  lemma StepDecreases(g: Image, s: State, s': State)
    requires Step(g, s, s') && AllEnteredMarked(s)
    ensures AllEnteredMarked(s') && TotalRank(g, s'.markers) < TotalRank(g, s.markers)
  {
    hide MarkerStep, Rank, TotalRank, EnteredMarked;
    var t :| StepOf(g, s, s', t);
    StepKeepsEntered(g, s.marks, s.markers[t], s'.marks, s'.markers[t]);
    StepDecreasesRank(g, s.marks, s.markers[t], s'.marks, s'.markers[t]);
    TotalRankUpdate(g, s.markers, t, s'.markers[t]);
    forall u | 0 <= u < |s'.markers|
      ensures EnteredMarked(s'.marks, s'.markers[u])
    {
      EnteredMonotone(s.marks, s'.marks, s.markers[u]);
    }
  }

  /** The most steps that markers with these starts can take between them. */
  ghost function StepBound(g: Image, starts: seq<Start>): nat {
    if starts == [] then 0
    else
      var last := starts[|starts|-1];
      StepBound(g, starts[..|starts|-1]) + 2 * |last.words| + 2 * |last.queued| + ObjectRank(g, Nodes(g))
  }

  lemma {:induction false} InitialRank(g: Image, starts: seq<Start>, ms: seq<Marker>)
    requires |ms| == |starts|
    requires forall t | 0 <= t < |starts| :: ms[t] == Marker([], starts[t].queued, starts[t].words, {})
    ensures TotalRank(g, ms) == StepBound(g, starts)
  {
    hide ObjectRank;
    if starts != [] {
      var n := |starts| - 1;
      InitialRank(g, starts[..n], ms[..n]);
      assert Nodes(g) - {} == Nodes(g);
    }
  }

  /** Marking terminates: no interleaving takes more than StepBound steps. */
  lemma {:induction false} RunsAreBounded(g: Image, starts: seq<Start>, run: seq<State>)
    requires IsRun(g, starts, run)
    ensures AllEnteredMarked(run[|run|-1])
    ensures |run| - 1 + TotalRank(g, run[|run|-1].markers) <= StepBound(g, starts)
  {
    hide Step, TotalRank, StepBound;
    if |run| == 1 {
      InitialRank(g, starts, run[0].markers);
    } else {
      var before := run[..|run|-1];
      assert IsRun(g, starts, before);
      RunsAreBounded(g, starts, before);
      hide Initial;
      StepDecreases(g, run[|run|-2], run[|run|-1]);
    }
  }

  /** Whatever state the markers are in, one that is not idle can take a step. */
  lemma SomeMarkerSteps(g: Image, s: State)
    requires !Quiescent(s)
    ensures exists s' :: Step(g, s, s')
  {
    var t: nat :| t < |s.markers| && !Idle(s.markers[t]);
    var m := s.markers[t];
    var marks', m' :| MarkerStep(g, s.marks, m, marks', m') by { MarkerCanStep(g, s.marks, m); }
    hide MarkerStep;
    assert StepOf(g, s, State(marks', s.markers[t := m']), t);
    assert Step(g, s, State(marks', s.markers[t := m']));
  }

  lemma MarkerCanStep(g: Image, marks: set<Obj>, m: Marker)
    requires !Idle(m)
    ensures exists marks', m' :: MarkerStep(g, marks, m, marks', m')
  {
    if m.stack == [] {
      if m.roots != [] {
        assert MarkerStep(g, marks, m, marks, Push(m.(roots := m.roots[1..]), Visiting(m.roots[0], 0)));
      } else {
        var addr := Any(m.pending);
        assert MarkerStep(g, marks, m, marks, Push(m.(pending := m.pending - {addr}), Visiting(addr, 0)));
      }
    } else {
      match Top(m)
      case Visiting(_, _) =>
        assert MarkerStep(g, marks, m, marks, AfterLook(g, marks, m));
      case Marking(addr, o, depth) =>
        assert MarkerStep(g, marks, m, marks + {o}, Push(Pop(m), Scanning(o, 0, depth)));
      case Scanning(o, pos, depth) =>
        assert MarkerStep(g, marks, m, marks,
          if pos < |Words(g, o)|
          then Push(Push(Pop(m), Scanning(o, pos + 1, depth)), Visiting(Words(g, o)[pos], depth + 1))
          else Pop(m));
    }
  }

  /** Every run, however it began, can be carried on only finitely long and then has marked exactly
      what the roots reach. */
  lemma {:induction false} EveryRunFinishes(g: Image, starts: seq<Start>, run: seq<State>) returns (all: seq<State>)
    requires IsRun(g, starts, run)
    ensures IsRun(g, starts, all) && run <= all && |all| - 1 <= StepBound(g, starts)
    ensures all[|all|-1].marks == Reach(g, AllRoots(starts))
    decreases StepBound(g, starts) - |run|
  {
    hide Step, TotalRank, StepBound, Initial, AllEnteredMarked, Reach, AllRoots, Quiescent;
    RunsAreBounded(g, starts, run);
    var s := run[|run|-1];
    if Quiescent(s) {
      MarksExactlyReach(g, starts, run);
      all := run;
    } else {
      SomeMarkerSteps(g, s);
      var s' :| Step(g, s, s');
      assert IsRun(g, starts, run + [s']);
      RunsAreBounded(g, starts, run + [s']);
      all := EveryRunFinishes(g, starts, run + [s']);
    }
  }
}

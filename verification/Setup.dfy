/**
 Sharing out a collection's work among the gc threads (_u_setup_gc_threads).
 */
module Setup {
  import opened Heap
  import opened StackScan

  ghost predicate Sorted(s: seq<ThreadId>) {
    forall i, j :: 0 <= i < j < |s| ==> s[i] < s[j]
  }

  /** insert_unique_sorted: puts `id` in its place unless it is there already. */
  method InsertUniqueSorted(s: seq<ThreadId>, id: ThreadId) returns (r: seq<ThreadId>)
    requires Sorted(s)
    ensures Sorted(r)
    ensures forall x :: x in r <==> x in s || x == id
    ensures |r| == |s| + if id in s then 0 else 1
  {
    var i := 0;
    while i < |s| && s[i] < id
      invariant i <= |s| && forall k | 0 <= k < i :: s[k] < id
    {
      i := i + 1;
    }
    if i < |s| && s[i] == id {
      return s;
    }
    r := s[..i] + [id] + s[i..];
    forall x
      ensures x in r <==> x in s || x == id
    {
      assert x in s <==> x in s[..i] || x in s[i..];
    }
  }

  /** `id` is on watch list `j` and on no other. */
  ghost predicate OnlyOn(watch: seq<seq<ThreadId>>, id: ThreadId, j: nat) {
    && j < |watch| && id in watch[j]
    && forall k | 0 <= k < |watch| && k != j :: id !in watch[k]
  }

  /** After `rounds` full rounds and `cur` further steps. */
  ghost predicate Dealt(watch: seq<seq<ThreadId>>, ids: seq<ThreadId>, rounds: nat, cur: nat) {
    && cur < |watch|
    && (forall j | 0 <= j < |watch| :: Sorted(watch[j]) && |watch[j]| == rounds + if j < cur then 1 else 0)
    && (forall j, id | 0 <= j < |watch| && id in watch[j] :: id in ids)
    && (forall id | id in ids :: exists j: nat :: OnlyOn(watch, id, j))
  }

  /** Gives each registered thread to one gc thread in turn; `watch[j]` is what gc thread j gets. */
  method DealThreads(ids: seq<ThreadId>, numGcThreads: nat) returns (watch: seq<seq<ThreadId>>)
    requires numGcThreads > 0 && NoRepeats(ids)
    ensures |watch| == numGcThreads
    ensures forall id | id in ids :: exists j: nat :: OnlyOn(watch, id, j)
    ensures forall j, id | 0 <= j < numGcThreads && id in watch[j] :: id in ids
    ensures forall j | 0 <= j < numGcThreads :: Sorted(watch[j])
    ensures forall i, j | 0 <= i < numGcThreads && 0 <= j < numGcThreads :: |watch[i]| <= |watch[j]| + 1
  {
    hide Dealt, OnlyOn;
    watch := seq(numGcThreads, _ => []);
    var cur: nat := 0;
    ghost var rounds := 0;
    var n := 0;
    DealtNothing(numGcThreads);
    while n < |ids|
      invariant n <= |ids| && |watch| == numGcThreads && cur < numGcThreads
      invariant Dealt(watch, ids[..n], rounds, cur)
    {
      FreshId(ids, n);
      DealtMeans(watch, ids[..n], rounds, cur);
      var longer := InsertUniqueSorted(watch[cur], ids[n]);
      DealtStep(watch, ids[..n], rounds, cur, ids[n], longer);
      watch := watch[cur := longer];
      NextInTurn(cur, numGcThreads);
      rounds := if cur + 1 == numGcThreads then rounds + 1 else rounds;
      cur := (cur + 1) % numGcThreads;
      n := n + 1;
    }
    assert ids[..n] == ids;
    DealtMeans(watch, ids, rounds, cur);
  }

  lemma FreshId(ids: seq<ThreadId>, n: nat)
    requires NoRepeats(ids) && n < |ids|
    ensures ids[n] !in ids[..n] && ids[..n+1] == ids[..n] + [ids[n]]
  {
  }

  lemma NextInTurn(cur: nat, n: nat)
    requires cur < n
    ensures (cur + 1) % n == if cur + 1 == n then 0 else cur + 1
  {
  }

  lemma DealtNothing(n: nat)
    requires n > 0
    ensures Dealt(seq(n, _ => []), [], 0, 0)
  {
  }

  lemma DealtMeans(watch: seq<seq<ThreadId>>, ids: seq<ThreadId>, rounds: nat, cur: nat)
    requires Dealt(watch, ids, rounds, cur)
    ensures forall id | id in ids :: exists j: nat :: OnlyOn(watch, id, j)
    ensures forall j, id | 0 <= j < |watch| && id in watch[j] :: id in ids
    ensures forall j | 0 <= j < |watch| :: Sorted(watch[j])
    ensures forall i, j | 0 <= i < |watch| && 0 <= j < |watch| :: |watch[i]| <= |watch[j]| + 1
  {
  }

  lemma DealtStep(watch: seq<seq<ThreadId>>, ids: seq<ThreadId>, rounds: nat, cur: nat, id: ThreadId,
                  longer: seq<ThreadId>)
    requires Dealt(watch, ids, rounds, cur) && id !in ids
    requires Sorted(longer) && |longer| == |watch[cur]| + 1 && forall x :: x in longer <==> x in watch[cur] || x == id
    ensures var last := cur + 1 == |watch|;
            Dealt(watch[cur := longer], ids + [id], if last then rounds + 1 else rounds, if last then 0 else cur + 1)
  {
    var watch' := watch[cur := longer];
    assert OnlyOn(watch', id, cur);
    forall x | x in ids + [id]
      ensures exists j: nat :: OnlyOn(watch', x, j)
    {
      if x != id {
        var j: nat :| OnlyOn(watch, x, j);
        assert OnlyOn(watch', x, j);
      }
    }
  }

  /** What equipartition promises: consecutive pieces, one for each gc thread, that together are
      the whole sequence.  Where the cuts lie is left open. */
  ghost predicate Pieces<T>(whole: seq<T>, pieces: seq<seq<T>>, n: nat) {
    |pieces| == n && Concat(pieces) == whole
  }

  method Equipartition<T>(whole: seq<T>, n: nat) returns (pieces: seq<seq<T>>)
    requires n > 0
    ensures Pieces(whole, pieces, n)
  {
    pieces := [];
    var rest := whole;
    while |pieces| < n - 1
      invariant |pieces| <= n - 1 && Concat(pieces) + rest == whole
    {
      var cut: nat :| cut <= |rest|;
      assert (pieces + [rest[..cut]])[..|pieces|] == pieces;
      pieces, rest := pieces + [rest[..cut]], rest[cut..];
    }
    assert (pieces + [rest])[..|pieces|] == pieces;
    pieces := pieces + [rest];
  }
}

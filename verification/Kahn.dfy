/** Kahn's algorithm over dependency lists: the in-degree bookkeeping shared by the cycle check and
    the computation of execution batches, with both queue loops. */
module Kahn {
  import opened Cardinality
  import opened TaskGraph

  /** How many entries of a dependency list lie in live, repetitions counted. */
  function Count(s: seq<Id>, live: set<Id>): nat {
    if s == [] then 0
    else Count(s[..|s| - 1], live) + (if s[|s| - 1] in live then 1 else 0)
  }

  lemma {:induction false} CountZero(s: seq<Id>, live: set<Id>)
    ensures Count(s, live) == 0 <==> forall x :: x in s ==> x !in live
  {
    if s != [] {
      CountZero(s[..|s| - 1], live);
      assert s == s[..|s| - 1] + [s[|s| - 1]];
    }
  }

  /** How often x occurs in s. */
  function Occ(s: seq<Id>, x: Id): nat {
    if s == [] then 0
    else Occ(s[..|s| - 1], x) + (if s[|s| - 1] == x then 1 else 0)
  }

  lemma OccSnoc(s: seq<Id>, y: Id, x: Id)
    ensures Occ(s + [y], x) == Occ(s, x) + (if y == x then 1 else 0)
  {
    assert (s + [y])[..|s|] == s;
  }

  lemma {:induction false} OccHead(s: seq<Id>, x: Id)
    requires s != []
    ensures Occ(s, x) == (if s[0] == x then 1 else 0) + Occ(s[1..], x)
  {
    if |s| > 1 {
      OccHead(s[..|s| - 1], x);
      assert s[..|s| - 1][1..] == s[1..][..|s| - 2];
    }
  }

  lemma {:induction false} CountRemove(s: seq<Id>, live: set<Id>, n: Id)
    requires n in live
    ensures Count(s, live) == Count(s, live - {n}) + Occ(s, n)
  {
    if s != [] {
      CountRemove(s[..|s| - 1], live, n);
    }
  }

  lemma TakeStep(s: seq<Id>, k: nat, live: set<Id>)
    requires k < |s|
    ensures Count(s[..k + 1], live) == Count(s[..k], live) + (if s[k] in live then 1 else 0)
    ensures forall x :: Occ(s[..k + 1], x) == Occ(s[..k], x) + (if s[k] == x then 1 else 0)
  {
    assert s[..k + 1][..k] == s[..k];
  }

  lemma Nothing(live: set<Id>)
    ensures Count([], live) == 0
    ensures forall x :: Occ([], x) == 0
  {
  }

  predicate Distinct(s: seq<Id>) {
    forall i, j :: 0 <= i < j < |s| ==> s[i] != s[j]
  }

  ghost function Elements(s: seq<Id>): set<Id> {
    set x | x in s
  }

  lemma NoElements()
    ensures Elements([]) == {}
  {
  }

  lemma TakeElements(s: seq<Id>, k: nat)
    requires k < |s|
    ensures s[k] in Elements(s)
    ensures Elements(s[..k + 1]) == Elements(s[..k]) + {s[k]}
    ensures Distinct(s) ==> s[k] !in Elements(s[..k])
  {
    assert s[..k + 1] == s[..k] + [s[k]];
  }

  /** adj[n] lists v once for every entry n in the dependency list of v. */
  ghost predicate Indexed(g: Graph, live: set<Id>, adj: map<Id, seq<Id>>) {
    && adj.Keys == live <= g.Keys
    && (forall n, v :: n in live && v in adj[n] ==> v in live)
    && (forall n, v :: n in live && v in live ==> Occ(adj[n], v) == Occ(g[v], n))
  }

  /** inDegree counts the dependencies that are live and not done yet. */
  ghost predicate Counted(g: Graph, live: set<Id>, done: set<Id>, inDegree: map<Id, nat>) {
    && inDegree.Keys == live <= g.Keys
    && forall v :: v in live ==> inDegree[v] == Count(g[v], live - done)
  }

  lemma CountedZero(g: Graph, live: set<Id>, done: set<Id>, inDegree: map<Id, nat>, v: Id)
    requires Counted(g, live, done, inDegree) && v in live
    ensures inDegree[v] == 0 <==> forall d :: d in g[v] && d in live ==> d in done
  {
    CountZero(g[v], live - done);
  }

  /** The maps after the tasks in seen have been walked. */
  ghost predicate IndexedSoFar(g: Graph, live: set<Id>, seen: set<Id>,
                               inDegree: map<Id, nat>, adj: map<Id, seq<Id>>) {
    && inDegree.Keys == adj.Keys == live <= g.Keys
    && (forall n, v :: n in live && v in adj[n] ==> v in live)
    && (forall v :: v in live ==> inDegree[v] == if v in seen then Count(g[v], live) else 0)
    && (forall n, v :: n in live && v in live ==> Occ(adj[n], v) == if v in seen then Occ(g[v], n) else 0)
  }

  /** The in-degree and adjacency maps of the tasks listed in ids. */
  method BuildIndex(g: Graph, ids: seq<Id>) returns (inDegree: map<Id, nat>, adj: map<Id, seq<Id>>)
    requires Distinct(ids) && Elements(ids) <= g.Keys
    ensures Counted(g, Elements(ids), {}, inDegree)
    ensures Indexed(g, Elements(ids), adj)
  {
    ghost var live := Elements(ids);
    inDegree := map id | id in ids :: 0;
    adj := map id | id in ids :: [];
    assert forall id :: id in ids <==> id in live;
    ghost var seen: set<Id> := {};
    IndexedStart(g, live, inDegree, adj);
    hide Count, Occ, Elements, IndexedSoFar, Indexed, Counted;
    NoElements();
    assert ids[..0] == [];
    for i := 0 to |ids|
      invariant seen == Elements(ids[..i])
      invariant IndexedSoFar(g, live, seen, inDegree, adj)
    {
      TakeElements(ids, i);
      inDegree, adj := IndexTask(g, live, ids[i], seen, inDegree, adj);
      seen := seen + {ids[i]};
    }
    assert ids[..|ids|] == ids;
    IndexedDone(g, live, inDegree, adj);
  }

  lemma IndexedStart(g: Graph, live: set<Id>, inDegree: map<Id, nat>, adj: map<Id, seq<Id>>)
    requires inDegree.Keys == adj.Keys == live <= g.Keys
    requires forall v :: v in live ==> inDegree[v] == 0 && adj[v] == []
    ensures IndexedSoFar(g, live, {}, inDegree, adj)
  {
    Nothing(live);
  }

  lemma IndexedDone(g: Graph, live: set<Id>, inDegree: map<Id, nat>, adj: map<Id, seq<Id>>)
    requires IndexedSoFar(g, live, live, inDegree, adj)
    ensures Counted(g, live, {}, inDegree) && Indexed(g, live, adj)
  {
    assert live - {} == live;
  }

  /** The loop over the dependencies of one task. */
  method IndexTask(g: Graph, ghost live: set<Id>, tid: Id, ghost seen: set<Id>,
                   inDegree0: map<Id, nat>, adj0: map<Id, seq<Id>>)
      returns (inDegree: map<Id, nat>, adj: map<Id, seq<Id>>)
    requires tid in live - seen && IndexedSoFar(g, live, seen, inDegree0, adj0)
    ensures IndexedSoFar(g, live, seen + {tid}, inDegree, adj)
  {
    hide Count, Occ, AdjSoFar, IndexedSoFar;
    AdjStart(g, live, seen, tid, inDegree0, adj0);
    Nothing(live);
    var deps := g[tid];
    inDegree, adj := inDegree0, adj0;
    assert deps[..0] == [];
    for k := 0 to |deps|
      invariant inDegree == inDegree0[tid := Count(deps[..k], live)]
      invariant adj.Keys == live && AdjSoFar(live, tid, deps[..k], adj0, adj)
    {
      var dep := deps[k];
      TakeStep(deps, k, live);
      assert deps[..k + 1] == deps[..k] + [dep];
      AdjStep(live, tid, deps[..k], dep, adj0, adj);
      if dep in adj {
        adj := adj[dep := adj[dep] + [tid]];
        inDegree := inDegree[tid := inDegree[tid] + 1];
      }
    }
    assert deps[..|deps|] == deps;
    AdjDone(g, live, seen, tid, inDegree0, adj0, adj);
  }

  /** The adjacency lists after tid has been listed under each id in walked. */
  ghost predicate AdjSoFar(live: set<Id>, tid: Id, walked: seq<Id>, adj0: map<Id, seq<Id>>, adj: map<Id, seq<Id>>) {
    && adj.Keys == adj0.Keys == live
    && (forall n, v :: n in live && v in adj[n] ==> v == tid || v in adj0[n])
    && (forall n, v :: n in live && v != tid ==> Occ(adj[n], v) == Occ(adj0[n], v))
    && (forall n :: n in live ==> Occ(adj[n], tid) == Occ(walked, n))
  }

  lemma AdjStart(g: Graph, live: set<Id>, seen: set<Id>, tid: Id, inDegree: map<Id, nat>, adj: map<Id, seq<Id>>)
    requires tid in live - seen && IndexedSoFar(g, live, seen, inDegree, adj)
    ensures adj.Keys == inDegree.Keys == live <= g.Keys && inDegree[tid] == 0
    ensures AdjSoFar(live, tid, [], adj, adj)
  {
    hide Occ;
    Nothing(live);
  }

  lemma AdjStep(live: set<Id>, tid: Id, walked: seq<Id>, dep: Id, adj0: map<Id, seq<Id>>, adj: map<Id, seq<Id>>)
    requires adj.Keys == live && AdjSoFar(live, tid, walked, adj0, adj)
    ensures AdjSoFar(live, tid, walked + [dep], adj0, if dep in live then adj[dep := adj[dep] + [tid]] else adj)
  {
    hide Occ;
    forall n { OccSnoc(walked, dep, n); }
    if dep in live {
      forall v { OccSnoc(adj[dep], tid, v); }
    }
  }

  lemma AdjDone(g: Graph, live: set<Id>, seen: set<Id>, tid: Id,
                inDegree: map<Id, nat>, adj0: map<Id, seq<Id>>, adj: map<Id, seq<Id>>)
    requires tid in live - seen && IndexedSoFar(g, live, seen, inDegree, adj0)
    requires AdjSoFar(live, tid, g[tid], adj0, adj)
    ensures IndexedSoFar(g, live, seen + {tid}, inDegree[tid := Count(g[tid], live)], adj)
  {
    hide Occ, Count;
    var seen', inDegree' := seen + {tid}, inDegree[tid := Count(g[tid], live)];
    assert forall v :: v in seen' <==> v in seen || v == tid;
    forall n, v | n in live && v in adj[n]
      ensures v in live
    {
      assert v == tid || v in adj0[n];
    }
    forall v | v in live
      ensures inDegree'[v] == if v in seen' then Count(g[v], live) else 0
    {
      assert v != tid ==> inDegree'[v] == inDegree[v];
    }
    forall n, v | n in live && v in live
      ensures Occ(adj[n], v) == if v in seen' then Occ(g[v], n) else 0
    {
      assert v != tid ==> Occ(adj[n], v) == Occ(adj0[n], v);
    }
    hide AdjSoFar;
  }

  /** Between two decrements: what each task still waits for, with rest yet to be walked. */
  ghost predicate CountsDown(target: map<Id, nat>, rest: seq<Id>, inDegree: map<Id, nat>) {
    && inDegree.Keys == target.Keys
    && forall v :: v in target ==> inDegree[v] == target[v] + Occ(rest, v)
  }

  lemma CountsDownStep(target: map<Id, nat>, rest: seq<Id>, inDegree: map<Id, nat>)
    requires CountsDown(target, rest, inDegree) && rest != [] && rest[0] in target
    ensures inDegree[rest[0]] > 0
    ensures CountsDown(target, rest[1..], inDegree[rest[0] := inDegree[rest[0]] - 1])
  {
    hide Occ;
    forall v {
      OccHead(rest, v);
    }
  }

  /** ready lists, once each, the tasks that have come down to zero since from. */
  ghost predicate CameDown(from: map<Id, nat>, inDegree: map<Id, nat>, ready: seq<Id>) {
    && from.Keys == inDegree.Keys && Distinct(ready)
    && (forall v :: v in from ==> inDegree[v] <= from[v])
    && (forall v :: v in ready <==> v in from && from[v] > 0 && inDegree[v] == 0)
  }

  lemma CameDownStep(from: map<Id, nat>, inDegree: map<Id, nat>, ready: seq<Id>, n: Id)
    requires CameDown(from, inDegree, ready) && n in from && inDegree[n] > 0
    ensures CameDown(from, inDegree[n := inDegree[n] - 1], if inDegree[n] == 1 then ready + [n] else ready)
  {
  }

  /** Finishing node: one decrement for every entry of adj[node]; ready collects who reached zero. */
  method Release(g: Graph, ghost live: set<Id>, ghost done: set<Id>, node: Id,
                 adj: map<Id, seq<Id>>, inDegree0: map<Id, nat>)
      returns (inDegree: map<Id, nat>, ready: seq<Id>)
    requires Indexed(g, live, adj) && Counted(g, live, done, inDegree0)
    requires node in live - done && adj.Keys == inDegree0.Keys == live
    ensures Counted(g, live, done + {node}, inDegree)
    ensures CameDown(inDegree0, inDegree, ready)
  {
    hide Occ, Count, CountsDown, CameDown, Indexed, Counted;
    inDegree, ready := inDegree0, [];
    ghost var target := Waiting(g, live, done, node, adj, inDegree);
    var neighbors := adj[node];
    assert neighbors[0..] == neighbors;
    NoneCameDown(inDegree);
    for k := 0 to |neighbors|
      invariant inDegree.Keys == live
      invariant CountsDown(target, neighbors[k..], inDegree)
      invariant CameDown(inDegree0, inDegree, ready)
    {
      var neighbor := neighbors[k];
      assert neighbors[k..][0] == neighbor && neighbors[k..][1..] == neighbors[k + 1..];
      CountsDownStep(target, neighbors[k..], inDegree);
      CameDownStep(inDegree0, inDegree, ready, neighbor);
      inDegree := inDegree[neighbor := inDegree[neighbor] - 1];
      if inDegree[neighbor] == 0 {
        ready := ready + [neighbor];
      }
    }
    assert neighbors[|neighbors|..] == [];
    NothingLeft(g, live, done + {node}, target, inDegree);
  }

  /** What every task will wait for once node is done. */
  lemma Waiting(g: Graph, live: set<Id>, done: set<Id>, node: Id, adj: map<Id, seq<Id>>, inDegree: map<Id, nat>)
      returns (target: map<Id, nat>)
    requires Indexed(g, live, adj) && Counted(g, live, done, inDegree) && node in live - done
    ensures adj.Keys == target.Keys == inDegree.Keys == live <= g.Keys
    ensures forall v :: v in live ==> target[v] == Count(g[v], live - (done + {node}))
    ensures forall v :: v in adj[node] ==> v in live
    ensures CountsDown(target, adj[node], inDegree)
  {
    hide Occ, Count;
    target := map v | v in live :: Count(g[v], live - (done + {node}));
    assert live - done - {node} == live - (done + {node});
    forall v | v in live ensures inDegree[v] == target[v] + Occ(adj[node], v) {
      CountRemove(g[v], live - done, node);
    }
  }

  lemma NothingLeft(g: Graph, live: set<Id>, done: set<Id>, target: map<Id, nat>, inDegree: map<Id, nat>)
    requires target.Keys == live <= g.Keys && CountsDown(target, [], inDegree)
    requires forall v :: v in live ==> target[v] == Count(g[v], live - done)
    ensures Counted(g, live, done, inDegree)
  {
    hide Count;
  }

  lemma NoneCameDown(inDegree: map<Id, nat>)
    ensures CameDown(inDegree, inDegree, [])
  {
  }

  /** The queue holds, once each, the tasks whose dependencies are done and that are not. */
  ghost predicate QueueHolds(live: set<Id>, done: set<Id>, inDegree: map<Id, nat>, queue: seq<Id>) {
    && inDegree.Keys == live && done <= live
    && Distinct(queue)
    && (forall v :: v in queue <==> v in live - done && inDegree[v] == 0)
    && (forall v :: v in done ==> inDegree[v] == 0)
  }

  lemma QueueStep(live: set<Id>, done: set<Id>, before: map<Id, nat>, queue: seq<Id>,
                  after: map<Id, nat>, ready: seq<Id>)
    requires QueueHolds(live, done, before, queue) && queue != []
    requires CameDown(before, after, ready)
    ensures QueueHolds(live, done + {queue[0]}, after, queue[1..] + ready)
  {
    var rest := queue[1..];
    assert queue == [queue[0]] + rest;
    forall v ensures v in rest <==> v in queue && v != queue[0] {
      if v in rest {
        var i :| 0 <= i < |rest| && rest[i] == v;
        assert queue[i + 1] == v;
      }
    }
    DistinctConcat(rest, ready);
    assert forall v :: v in rest + ready <==> v in rest || v in ready;
  }

  lemma DistinctConcat(a: seq<Id>, b: seq<Id>)
    requires Distinct(a) && Distinct(b) && forall x :: x in a ==> x !in b
    ensures Distinct(a + b)
  {
    var c := a + b;
    forall i, j | 0 <= i < j < |c| ensures c[i] != c[j] {
      if i < |a| <= j {
        assert a[i] in a && b[j - |a|] in b;
      }
    }
  }

  lemma StuckRest(g: Graph, done: set<Id>, inDegree: map<Id, nat>)
    requires done < g.Keys && Counted(g, g.Keys, done, inDegree)
    requires forall v :: v in g.Keys - done ==> inDegree[v] > 0
    ensures HasCycle(g)
  {
    hide HasCycle;
    var u := g.Keys - done;
    if u == {} {
      forall x | x in g.Keys ensures x in done {
        assert x in u || x in done;
      }
    }
    forall t | t in u ensures WaitsIn(g, u, t) {
      CountedZero(g, g.Keys, done, inDegree, t);
      var d :| d in g[t] && d in g && d !in done;
      assert Edge(g, t, d);
    }
    StuckHasCycle(g, u);
  }

  /** The queue loop of the cycle check. It visits every task exactly when there is no cycle. */
  method VisitsAll(g: Graph, ids: seq<Id>) returns (all: bool, ghost rank: map<Id, nat>)
    requires Distinct(ids) && Elements(ids) == g.Keys
    ensures all <==> Acyclic(g)
    ensures all <==> !HasCycle(g)
    ensures all ==> Ranks(g, rank)
  {
    hide Count, Occ, HasCycle, Acyclic, Ranks;
    var inDegree, adj := BuildIndex(g, ids);
    var queue := ZeroDegrees(ids, inDegree);
    var visited := 0;
    ghost var done: set<Id> := {};
    rank := map[];
    while queue != []
      invariant Indexed(g, g.Keys, adj) && Counted(g, g.Keys, done, inDegree)
      invariant RanksWithin(g, done, rank) && visited == |done|
      invariant QueueHolds(g.Keys, done, inDegree, queue)
      decreases g.Keys - done
    {
      var node := queue[0];
      assert node in queue;
      CountedZero(g, g.Keys, done, inDegree, node);
      RankNext(g, done, rank, node);
      rank := rank[node := |done|];
      visited := visited + 1;
      ghost var before := inDegree;
      var ready;
      inDegree, ready := Release(g, g.Keys, done, node, adj, inDegree);
      QueueStep(g.Keys, done, before, queue, inDegree, ready);
      queue := queue[1..] + ready;
      done := done + {node};
    }
    all := visited == |ids|;
    AllOrStuck(g, ids, done, rank, inDegree);
  }

  /** With the queue empty, either all have been visited, and have their ranks, or the rest is stuck. */
  lemma AllOrStuck(g: Graph, ids: seq<Id>, done: set<Id>, rank: map<Id, nat>, inDegree: map<Id, nat>)
    requires Distinct(ids) && Elements(ids) == g.Keys
    requires Counted(g, g.Keys, done, inDegree) && RanksWithin(g, done, rank) && QueueHolds(g.Keys, done, inDegree, [])
    ensures |done| == |ids| <==> Acyclic(g)
    ensures |done| == |ids| <==> !HasCycle(g)
    ensures |done| == |ids| ==> Ranks(g, rank)
  {
    hide Count, Occ, HasCycle, Acyclic;
    DistinctSize(ids);
    AcyclicIffNoCycle(g);
    if done == g.Keys {
      RanksGiveAcyclic(g, rank);
    } else {
      ProperSubsetSize(done, g.Keys);
      StuckRest(g, done, inDegree);
    }
  }

  lemma RanksGiveAcyclic(g: Graph, rank: map<Id, nat>)
    requires RanksWithin(g, g.Keys, rank)
    ensures Ranks(g, rank) && Acyclic(g)
  {
  }

  lemma {:induction false} DistinctSize(s: seq<Id>)
    requires Distinct(s)
    ensures |Elements(s)| == |s|
  {
    if s != [] {
      var r, x := s[..|s| - 1], s[|s| - 1];
      DistinctSize(r);
      assert s == r + [x];
      assert x !in r;
      assert Elements(s) == Elements(r) + {x};
    } else {
      assert Elements(s) == {};
    }
  }

  /** The listed tasks without outstanding dependencies, in list order. */
  method ZeroDegrees(ids: seq<Id>, inDegree: map<Id, nat>) returns (zero: seq<Id>)
    requires Distinct(ids) && Elements(ids) == inDegree.Keys
    ensures Distinct(zero)
    ensures forall v :: v in zero <==> v in inDegree && inDegree[v] == 0
  {
    zero := [];
    for i := 0 to |ids|
      invariant Distinct(zero)
      invariant forall v :: v in zero <==> v in ids[..i] && inDegree[v] == 0
    {
      assert ids[..i + 1] == ids[..i] + [ids[i]];
      if inDegree[ids[i]] == 0 {
        zero := zero + [ids[i]];
      }
    }
    assert ids[..|ids|] == ids;
    forall v ensures v in zero <==> v in inDegree && inDegree[v] == 0 {
      assert v in ids <==> v in Elements(ids);
    }
  }

  // ---------------------------------------------------------------------------
  // Execution batches
  // ---------------------------------------------------------------------------

  /** Batch k lists, once each, the live tasks whose longest chain of live dependencies has length k;
      no batch is empty and no live task is missing. */
  ghost predicate AreBatches(g: Graph, live: set<Id>, batches: seq<seq<Id>>) {
    && (forall k :: 0 <= k < |batches| ==> Distinct(batches[k]) && batches[k] != [])
    && (forall k, t :: 0 <= k < |batches| ==> (t in batches[k] <==> t in live && LongestChain(g, live, t, k)))
    && (forall t :: t in live ==> exists k :: 0 <= k < |batches| && t in batches[k])
  }

  ghost predicate IsLevel(g: Graph, live: set<Id>, rank: map<Id, nat>, k: nat, batch: seq<Id>)
    requires Ranks(g, rank) && live <= g.Keys
  {
    Distinct(batch) && forall t :: t in batch <==> t in live && Depth(g, live, rank, t) == k
  }

  ghost function Shallower(g: Graph, live: set<Id>, rank: map<Id, nat>, k: nat): set<Id>
    requires Ranks(g, rank) && live <= g.Keys
  {
    set t | t in live && Depth(g, live, rank, t) < k
  }

  lemma ZeroIffShallow(g: Graph, live: set<Id>, rank: map<Id, nat>, k: nat, inDegree: map<Id, nat>, v: Id)
    requires Ranks(g, rank) && v in live && live <= g.Keys
    requires Counted(g, live, Shallower(g, live, rank, k), inDegree)
    ensures inDegree[v] == 0 <==> Depth(g, live, rank, v) <= k
  {
    hide Depth, Count;
    CountedZero(g, live, Shallower(g, live, rank, k), inDegree, v);
    DepthStep(g, live, rank, v);
  }

  lemma CameDownTwice(a: map<Id, nat>, b: map<Id, nat>, c: map<Id, nat>, r1: seq<Id>, r2: seq<Id>)
    requires CameDown(a, b, r1) && CameDown(b, c, r2)
    ensures CameDown(a, c, r1 + r2)
  {
    DistinctConcat(r1, r2);
  }

  /** Finishing a whole level. */
  method ReleaseLevel(g: Graph, ghost live: set<Id>, ghost rank: map<Id, nat>, ghost k: nat, current: seq<Id>,
                      adj: map<Id, seq<Id>>, inDegree0: map<Id, nat>)
      returns (inDegree: map<Id, nat>, nextLevel: seq<Id>)
    requires Ranks(g, rank) && Indexed(g, live, adj) && adj.Keys == inDegree0.Keys == live <= g.Keys
    requires Counted(g, live, Shallower(g, live, rank, k), inDegree0)
    requires IsLevel(g, live, rank, k, current)
    ensures inDegree.Keys == live && Counted(g, live, Shallower(g, live, rank, k + 1), inDegree)
    ensures IsLevel(g, live, rank, k + 1, nextLevel)
  {
    hide Indexed, Counted, CameDown, Depth, Elements;
    ghost var done := Shallower(g, live, rank, k);
    inDegree, nextLevel := inDegree0, [];
    NoneCameDown(inDegree);
    NoElements();
    assert current[..0] == [];
    assert done + {} == done;
    for i := 0 to |current|
      invariant inDegree.Keys == live
      invariant Counted(g, live, done + Elements(current[..i]), inDegree)
      invariant CameDown(inDegree0, inDegree, nextLevel)
    {
      TakeElements(current, i);
      assert current[i] in current;
      ghost var before := inDegree;
      var ready;
      inDegree, ready := Release(g, live, done + Elements(current[..i]), current[i], adj, inDegree);
      CountedKeys(g, live, done + Elements(current[..i]) + {current[i]}, inDegree);
      CameDownTwice(inDegree0, before, inDegree, nextLevel, ready);
      nextLevel := nextLevel + ready;
      assert done + Elements(current[..i]) + {current[i]} == done + Elements(current[..i + 1]);
    }
    assert current[..|current|] == current;
    LevelDone(g, live, rank, k, current);
    NextLevel(g, live, rank, k, inDegree0, inDegree, nextLevel);
  }

  lemma CountedKeys(g: Graph, live: set<Id>, done: set<Id>, inDegree: map<Id, nat>)
    requires Counted(g, live, done, inDegree)
    ensures inDegree.Keys == live
  {
  }

  lemma LevelDone(g: Graph, live: set<Id>, rank: map<Id, nat>, k: nat, current: seq<Id>)
    requires Ranks(g, rank) && live <= g.Keys && IsLevel(g, live, rank, k, current)
    ensures Shallower(g, live, rank, k) + Elements(current) == Shallower(g, live, rank, k + 1)
  {
    hide Depth;
  }

  lemma NextLevel(g: Graph, live: set<Id>, rank: map<Id, nat>, k: nat, from: map<Id, nat>, inDegree: map<Id, nat>,
                  nextLevel: seq<Id>)
    requires Ranks(g, rank) && CameDown(from, inDegree, nextLevel) && from.Keys == live <= g.Keys
    requires Counted(g, live, Shallower(g, live, rank, k), from)
    requires Counted(g, live, Shallower(g, live, rank, k + 1), inDegree)
    ensures IsLevel(g, live, rank, k + 1, nextLevel)
  {
    hide Depth, Counted;
    forall v | v in live
      ensures from[v] == 0 <==> Depth(g, live, rank, v) <= k
      ensures inDegree[v] == 0 <==> Depth(g, live, rank, v) <= k + 1
    {
      ZeroIffShallow(g, live, rank, k, from, v);
      ZeroIffShallow(g, live, rank, k + 1, inDegree, v);
    }
  }

  /** The level loop of get_execution_order over the listed tasks. */
  method Batches(g: Graph, ids: seq<Id>, ghost rank: map<Id, nat>) returns (batches: seq<seq<Id>>)
    requires Distinct(ids) && Elements(ids) <= g.Keys && Ranks(g, rank)
    ensures AreBatches(g, Elements(ids), batches)
  {
    hide Depth, Indexed, Counted, Elements, Shallower, IsLevel, AreBatches, Ranks, Count, Occ;
    ghost var live := Elements(ids);
    var inDegree, adj := BuildIndex(g, ids);
    ElementsKeys(g, live, inDegree, adj);
    batches := [];
    var current := ZeroDegrees(ids, inDegree);
    FirstLevel(g, live, rank, inDegree, current);
    while current != []
      invariant Indexed(g, live, adj) && adj.Keys == inDegree.Keys == live
      invariant Counted(g, live, Shallower(g, live, rank, |batches|), inDegree)
      invariant IsLevel(g, live, rank, |batches|, current)
      invariant forall k :: 0 <= k < |batches| ==> IsLevel(g, live, rank, k, batches[k]) && batches[k] != []
      decreases live - Shallower(g, live, rank, |batches|)
    {
      Progress(g, live, rank, |batches|, current);
      var batch := current;
      inDegree, current := ReleaseLevel(g, live, rank, |batches|, batch, adj, inDegree);
      batches := batches + [batch];
    }
    BatchesComplete(g, live, rank, batches, current);
  }

  lemma FirstLevel(g: Graph, live: set<Id>, rank: map<Id, nat>, inDegree: map<Id, nat>, zero: seq<Id>)
    requires Ranks(g, rank) && Counted(g, live, {}, inDegree) && Distinct(zero)
    requires forall v :: v in zero <==> v in live && inDegree[v] == 0
    ensures Counted(g, live, Shallower(g, live, rank, 0), inDegree)
    ensures IsLevel(g, live, rank, 0, zero)
  {
    hide Depth;
    assert Shallower(g, live, rank, 0) == {};
    forall v | v in live ensures inDegree[v] == 0 <==> Depth(g, live, rank, v) <= 0 {
      ZeroIffShallow(g, live, rank, 0, inDegree, v);
    }
  }

  lemma ElementsKeys(g: Graph, live: set<Id>, inDegree: map<Id, nat>, adj: map<Id, seq<Id>>)
    requires Counted(g, live, {}, inDegree) && Indexed(g, live, adj)
    ensures inDegree.Keys == adj.Keys == live <= g.Keys
  {
  }

  lemma Progress(g: Graph, live: set<Id>, rank: map<Id, nat>, k: nat, current: seq<Id>)
    requires Ranks(g, rank) && live <= g.Keys && IsLevel(g, live, rank, k, current) && current != []
    ensures live - Shallower(g, live, rank, k + 1) < live - Shallower(g, live, rank, k)
  {
    hide Depth;
    assert current[0] in current;
    assert current[0] in live - Shallower(g, live, rank, k);
    assert current[0] !in live - Shallower(g, live, rank, k + 1);
  }

  lemma NotDeeper(g: Graph, live: set<Id>, rank: map<Id, nat>, k: nat, last: seq<Id>, t: Id)
    requires Ranks(g, rank) && live <= g.Keys && IsLevel(g, live, rank, k, last) && last == [] && t in live
    ensures Depth(g, live, rank, t) < k
  {
    hide Depth;
    if Depth(g, live, rank, t) >= k {
      var u := DepthHits(g, live, rank, t, k);
    }
  }

  lemma BatchesComplete(g: Graph, live: set<Id>, rank: map<Id, nat>, batches: seq<seq<Id>>, last: seq<Id>)
    requires Ranks(g, rank) && live <= g.Keys && IsLevel(g, live, rank, |batches|, last) && last == []
    requires forall k :: 0 <= k < |batches| ==> IsLevel(g, live, rank, k, batches[k]) && batches[k] != []
    ensures AreBatches(g, live, batches)
  {
    hide Depth, LongestChain;
    forall k, t | 0 <= k < |batches| ensures t in batches[k] <==> t in live && LongestChain(g, live, t, k) {
      if t in live {
        DepthIsLongestChain(g, live, rank, t, k);
      }
    }
    forall t | t in live ensures exists k :: 0 <= k < |batches| && t in batches[k] {
      NotDeeper(g, live, rank, |batches|, last, t);
      assert t in batches[Depth(g, live, rank, t)];
    }
  }
}
/** Dependency graphs of workflow tasks: cycles, ranks, longest chains and what a run must end in. */
module TaskGraph {
  import opened Cardinality

  type Id = string

  /** The dependency list of every task; a list may repeat an id or name one outside the graph. */
  type Graph = map<Id, seq<Id>>

  predicate Edge(g: Graph, t: Id, d: Id) {
    t in g && d in g && d in g[t]
  }

  // ---------------------------------------------------------------------------
  // Cycles and ranks
  // ---------------------------------------------------------------------------

  /** Every task has a number above those of its in-graph dependencies. */
  ghost predicate Ranks(g: Graph, rank: map<Id, nat>) {
    && g.Keys <= rank.Keys
    && forall t, d :: Edge(g, t, d) ==> rank[d] < rank[t]
  }

  ghost predicate Acyclic(g: Graph) {
    exists rank :: Ranks(g, rank)
  }

  /** A nonempty walk along dependencies that stays in live. */
  ghost predicate IsChain(g: Graph, live: set<Id>, p: seq<Id>) {
    && |p| > 0
    && (forall i :: 0 <= i < |p| ==> p[i] in live)
    && (forall i :: 0 <= i < |p| - 1 ==> Edge(g, p[i], p[i + 1]))
  }

  ghost predicate HasCycle(g: Graph) {
    exists p :: IsChain(g, g.Keys, p) && |p| >= 2 && p[0] == p[|p| - 1]
  }

  ghost predicate WaitsIn(g: Graph, u: set<Id>, t: Id) {
    exists d :: d in u && Edge(g, t, d)
  }

  /** Tasks that all wait for one another. */
  ghost predicate Stuck(g: Graph, u: set<Id>) {
    && u != {} && u <= g.Keys
    && forall t {:trigger WaitsIn(g, u, t)} :: t in u ==> WaitsIn(g, u, t)
  }

  lemma {:induction false} RankFalls(g: Graph, rank: map<Id, nat>, p: seq<Id>)
    requires Ranks(g, rank) && IsChain(g, g.Keys, p)
    ensures |p| >= 2 ==> rank[p[|p| - 1]] < rank[p[0]]
  {
    if |p| >= 3 {
      var q := p[..|p| - 1];
      RankFalls(g, rank, q);
      assert Edge(g, p[|p| - 2], p[|p| - 1]);
      assert q[|q| - 1] == p[|p| - 2];
    } else if |p| == 2 {
      assert Edge(g, p[0], p[1]);
    }
  }

  /** Inside a stuck set one can walk for any number of steps. */
  lemma {:induction false} LongWalk(g: Graph, u: set<Id>, n: nat) returns (p: seq<Id>)
    requires Stuck(g, u)
    ensures |p| == n + 1 && IsChain(g, u, p)
  {
    if n == 0 {
      var t :| t in u;
      p := [t];
    } else {
      var q := LongWalk(g, u, n - 1);
      assert WaitsIn(g, u, q[|q| - 1]);
      var d :| d in u && Edge(g, q[|q| - 1], d);
      p := q + [d];
    }
  }

  /** A list longer than the set its elements come from repeats one of them. */
  lemma {:induction false} Pigeonhole(p: seq<Id>, u: set<Id>) returns (i: nat, j: nat)
    requires |p| > |u| && forall k :: 0 <= k < |p| ==> p[k] in u
    ensures i < j < |p| && p[i] == p[j]
  {
    var last := |p| - 1;
    if k :| 0 <= k < last && p[k] == p[last] {
      i, j := k, last;
    } else {
      var rest := u - {p[last]};
      assert |rest| == |u| - 1;
      i, j := Pigeonhole(p[..last], rest);
    }
  }

  lemma StuckInGraph(g: Graph, u: set<Id>)
    requires Stuck(g, u)
    ensures u <= g.Keys
  {
  }

  lemma StuckHasCycle(g: Graph, u: set<Id>)
    requires Stuck(g, u)
    ensures HasCycle(g)
  {
    hide Stuck;
    StuckInGraph(g, u);
    var p := LongWalk(g, u, |u|);
    var i, j := Pigeonhole(p, u);
    var c := p[i..j + 1];
    forall k | 0 <= k < |c| - 1 ensures Edge(g, c[k], c[k + 1]) {
      assert Edge(g, p[i + k], p[i + k + 1]);
    }
    assert IsChain(g, g.Keys, c) && c[0] == c[|c| - 1];
  }

  lemma CycleNotAcyclic(g: Graph)
    requires HasCycle(g)
    ensures !Acyclic(g)
  {
    var p :| IsChain(g, g.Keys, p) && |p| >= 2 && p[0] == p[|p| - 1];
    if rank :| Ranks(g, rank) {
      RankFalls(g, rank, p);
    }
  }

  /** Ranks for done, every dependency of which is done already. */
  ghost predicate RanksWithin(g: Graph, done: set<Id>, rank: map<Id, nat>) {
    && done <= g.Keys && rank.Keys == done
    && (forall t :: t in done ==> rank[t] < |done|)
    && (forall t, d :: t in done && Edge(g, t, d) ==> d in done && rank[d] < rank[t])
  }

  lemma RankNext(g: Graph, done: set<Id>, rank: map<Id, nat>, t: Id)
    requires RanksWithin(g, done, rank) && t in g && t !in done
    requires forall d :: Edge(g, t, d) ==> d in done
    ensures RanksWithin(g, done + {t}, rank[t := |done|])
  {
  }

  lemma {:induction false} RankOrStuck(g: Graph, done: set<Id>, rank: map<Id, nat>)
    requires RanksWithin(g, done, rank)
    ensures Acyclic(g) || exists u :: Stuck(g, u)
    decreases |g.Keys - done|
  {
    if done == g.Keys {
      assert Ranks(g, rank);
    } else if t :| t in g.Keys - done && forall d :: Edge(g, t, d) ==> d in done {
      RankNext(g, done, rank, t);
      assert g.Keys - (done + {t}) < g.Keys - done;
      ProperSubsetSize(g.Keys - (done + {t}), g.Keys - done);
      RankOrStuck(g, done + {t}, rank[t := |done|]);
    } else {
      var u := g.Keys - done;
      forall t | t in u ensures WaitsIn(g, u, t) {
        var d :| Edge(g, t, d) && d !in done;
        assert d in u;
      }
      assert Stuck(g, u);
    }
  }

  /** Having a rank function is the same as having no cycle. */
  lemma AcyclicIffNoCycle(g: Graph)
    ensures Acyclic(g) <==> !HasCycle(g)
  {
    if HasCycle(g) {
      CycleNotAcyclic(g);
    } else {
      RankOrStuck(g, {}, map[]);
      if u :| Stuck(g, u) {
        StuckHasCycle(g, u);
      }
    }
  }

  /** A new task that depends on tasks of the graph only, and that no task waits for, closes no cycle. */
  lemma NewTaskKeepsAcyclic(g: Graph, id: Id, deps: seq<Id>)
    requires Acyclic(g) && id !in g
    requires forall d :: d in deps ==> d in g
    requires forall t :: t in g ==> id !in g[t]
    ensures Acyclic(g[id := deps])
  {
    var rank :| Ranks(g, rank);
    var top := Above(g, rank);
    var g' := g[id := deps];
    assert Ranks(g', rank[id := top]) by {
      forall t, d | Edge(g', t, d) ensures rank[id := top][d] < rank[id := top][t] {
        if t != id {
          assert Edge(g, t, d);
        }
      }
    }
  }

  lemma Above(g: Graph, rank: map<Id, nat>) returns (top: nat)
    requires g.Keys <= rank.Keys
    ensures forall t :: t in g ==> rank[t] < top
  {
    top := 0;
    var rest := g.Keys;
    while rest != {}
      invariant rest <= g.Keys
      invariant forall t :: t in g && t !in rest ==> rank[t] < top
    {
      var t :| t in rest;
      rest := rest - {t};
      top := if rank[t] < top then top else rank[t] + 1;
    }
  }

  // ---------------------------------------------------------------------------
  // Longest chains
  // ---------------------------------------------------------------------------

  ghost predicate ChainFrom(g: Graph, live: set<Id>, t: Id, n: nat, p: seq<Id>) {
    IsChain(g, live, p) && p[0] == t && |p| == n + 1
  }

  /** n dependencies can be followed one after the other from t inside live, and no more than n. */
  ghost predicate LongestChain(g: Graph, live: set<Id>, t: Id, n: nat) {
    && (exists p :: ChainFrom(g, live, t, n, p))
    && (forall m: nat, p :: ChainFrom(g, live, t, m, p) ==> m <= n)
  }

  lemma LongestChainUnique(g: Graph, live: set<Id>, t: Id, m: nat, n: nat)
    requires LongestChain(g, live, t, m) && LongestChain(g, live, t, n)
    ensures m == n
  {
    var p :| ChainFrom(g, live, t, m, p);
    var q :| ChainFrom(g, live, t, n, q);
  }

  /** One more than the deepest live dependency; 0 without one. */
  ghost function Depth(g: Graph, live: set<Id>, rank: map<Id, nat>, t: Id): nat
    requires Ranks(g, rank) && live <= g.Keys && t in live
    decreases rank[t], |g[t]| + 1
  {
    DepthOver(g, live, rank, t, |g[t]|)
  }

  ghost function DepthOver(g: Graph, live: set<Id>, rank: map<Id, nat>, t: Id, k: nat): nat
    requires Ranks(g, rank) && live <= g.Keys && t in live && k <= |g[t]|
    decreases rank[t], k
  {
    if k == 0 then 0
    else
      var rest := DepthOver(g, live, rank, t, k - 1);
      var d := g[t][k - 1];
      if d in live then
        assert Edge(g, t, d);
        var below := Depth(g, live, rank, d);
        if rest <= below then below + 1 else rest
      else rest
  }

  lemma {:induction false} DepthOverBounds(g: Graph, live: set<Id>, rank: map<Id, nat>, t: Id, k: nat)
    requires Ranks(g, rank) && live <= g.Keys && t in live && k <= |g[t]|
    ensures forall i | 0 <= i < k && g[t][i] in live ::
              Depth(g, live, rank, g[t][i]) < DepthOver(g, live, rank, t, k)
    ensures DepthOver(g, live, rank, t, k) > 0 ==>
              exists i :: 0 <= i < k && g[t][i] in live
                && Depth(g, live, rank, g[t][i]) + 1 == DepthOver(g, live, rank, t, k)
  {
    if k > 0 {
      DepthOverBounds(g, live, rank, t, k - 1);
      assert g[t][k - 1] in live ==> Edge(g, t, g[t][k - 1]);
    }
  }

  /** Live dependencies are less deep, and a positive depth comes from one of them. */
  lemma DepthStep(g: Graph, live: set<Id>, rank: map<Id, nat>, t: Id)
    requires Ranks(g, rank) && live <= g.Keys && t in live
    ensures forall d :: d in live && d in g[t] ==> Depth(g, live, rank, d) < Depth(g, live, rank, t)
    ensures Depth(g, live, rank, t) > 0 ==>
              exists d :: d in live && d in g[t] && Depth(g, live, rank, d) + 1 == Depth(g, live, rank, t)
  {
    DepthOverBounds(g, live, rank, t, |g[t]|);
  }

  lemma {:induction false} DepthIsAttained(g: Graph, live: set<Id>, rank: map<Id, nat>, t: Id) returns (p: seq<Id>)
    requires Ranks(g, rank) && live <= g.Keys && t in live
    ensures ChainFrom(g, live, t, Depth(g, live, rank, t), p)
    decreases Depth(g, live, rank, t)
  {
    hide Depth, DepthOver;
    DepthStep(g, live, rank, t);
    if Depth(g, live, rank, t) == 0 {
      p := [t];
    } else {
      var d :| d in live && d in g[t] && Depth(g, live, rank, d) + 1 == Depth(g, live, rank, t);
      var q := DepthIsAttained(g, live, rank, d);
      p := [t] + q;
      assert Edge(g, t, d);
      forall i | 0 <= i < |p| - 1 ensures Edge(g, p[i], p[i + 1]) {
        if i > 0 {
          assert Edge(g, q[i - 1], q[i]);
        }
      }
    }
  }

  lemma {:induction false} DepthIsBound(g: Graph, live: set<Id>, rank: map<Id, nat>, p: seq<Id>)
    requires Ranks(g, rank) && live <= g.Keys && IsChain(g, live, p)
    ensures |p| <= Depth(g, live, rank, p[0]) + 1
  {
    hide Depth, DepthOver;
    if |p| > 1 {
      var q := p[1..];
      assert Edge(g, p[0], p[1]);
      forall i | 0 <= i < |q| - 1 ensures Edge(g, q[i], q[i + 1]) {
        assert Edge(g, p[i + 1], p[i + 2]);
      }
      DepthIsBound(g, live, rank, q);
      DepthStep(g, live, rank, p[0]);
    }
  }

  /** Depth, defined by recursion over dependencies, is the length of the longest chain. */
  lemma DepthIsLongestChain(g: Graph, live: set<Id>, rank: map<Id, nat>, t: Id, n: nat)
    requires Ranks(g, rank) && live <= g.Keys && t in live
    ensures LongestChain(g, live, t, n) <==> Depth(g, live, rank, t) == n
  {
    hide Depth, DepthOver;
    var d := Depth(g, live, rank, t);
    var p := DepthIsAttained(g, live, rank, t);
    forall m: nat, q | ChainFrom(g, live, t, m, q) ensures m <= d {
      DepthIsBound(g, live, rank, q);
    }
    if LongestChain(g, live, t, n) {
      assert d <= n;
    }
  }

  /** Below a deep task there is one of every smaller depth. */
  lemma {:induction false} DepthHits(g: Graph, live: set<Id>, rank: map<Id, nat>, t: Id, k: nat) returns (u: Id)
    requires Ranks(g, rank) && live <= g.Keys && t in live && k <= Depth(g, live, rank, t)
    ensures u in live && Depth(g, live, rank, u) == k
    decreases Depth(g, live, rank, t)
  {
    hide Depth, DepthOver;
    DepthStep(g, live, rank, t);
    if Depth(g, live, rank, t) == k {
      u := t;
    } else {
      var d :| d in live && d in g[t] && Depth(g, live, rank, d) + 1 == Depth(g, live, rank, t);
      u := DepthHits(g, live, rank, d, k);
    }
  }

  // ---------------------------------------------------------------------------
  // What a run ends in
  // ---------------------------------------------------------------------------

  datatype Status = Pending | Running | Completed | Failed | Cancelled

  /** Some of the 1 + maxRetries attempts is answered. */
  ghost predicate Succeeds(ok: (Id, nat) -> bool, t: Id, maxRetries: int) {
    exists a: nat :: a <= maxRetries && ok(t, a)
  }

  predicate DepsCompleted(g: Graph, st: map<Id, Status>, t: Id)
    requires t in g && st.Keys == g.Keys
  {
    forall d :: d in g[t] && d in g ==> st[d] == Completed
  }

  /** The law of a finished run: tasks that were not PENDING are left alone, and a PENDING task was
      executed exactly when all its in-graph dependencies ended COMPLETED; otherwise it is CANCELLED. */
  ghost predicate Outcome(g: Graph, start: map<Id, Status>, succeeds: set<Id>, end: map<Id, Status>) {
    && start.Keys == end.Keys == g.Keys
    && forall t :: t in g ==>
         if start[t] != Pending then end[t] == start[t]
         else if DepsCompleted(g, end, t) then end[t] == (if t in succeeds then Completed else Failed)
         else end[t] == Cancelled
  }

  lemma {:induction false} OutcomeUniqueAt(g: Graph, rank: map<Id, nat>, start: map<Id, Status>, succeeds: set<Id>,
                        e1: map<Id, Status>, e2: map<Id, Status>, t: Id)
    requires Ranks(g, rank) && t in g
    requires Outcome(g, start, succeeds, e1) && Outcome(g, start, succeeds, e2)
    ensures e1[t] == e2[t]
    decreases rank[t]
  {
    forall d | d in g[t] && d in g ensures e1[d] == e2[d] {
      assert Edge(g, t, d);
      OutcomeUniqueAt(g, rank, start, succeeds, e1, e2, d);
    }
  }

  /** On an acyclic graph the law leaves no freedom: the send outcomes decide every final status. */
  lemma OutcomeUnique(g: Graph, start: map<Id, Status>, succeeds: set<Id>, e1: map<Id, Status>, e2: map<Id, Status>)
    requires Acyclic(g)
    requires Outcome(g, start, succeeds, e1) && Outcome(g, start, succeeds, e2)
    ensures e1 == e2
  {
    var rank :| Ranks(g, rank);
    forall t | t in g ensures e1[t] == e2[t] {
      OutcomeUniqueAt(g, rank, start, succeeds, e1, e2, t);
    }
  }

  lemma {:induction false} AllAnswered(g: Graph, rank: map<Id, nat>, start: map<Id, Status>, succeeds: set<Id>,
                                       end: map<Id, Status>, t: Id)
    requires Ranks(g, rank) && Outcome(g, start, succeeds, end) && t in g
    requires forall u :: u in g ==> start[u] == Pending && u in succeeds
    ensures end[t] == Completed
    decreases rank[t]
  {
    forall d | d in g[t] && d in g ensures end[d] == Completed {
      assert Edge(g, t, d);
      AllAnswered(g, rank, start, succeeds, end, d);
    }
  }

  /** A task that ended FAILED, or that was not this run's to execute and is not COMPLETED. */
  predicate Blocker(start: map<Id, Status>, end: map<Id, Status>, t: Id)
    requires t in start && t in end
  {
    end[t] == Failed || (start[t] != Pending && start[t] != Completed)
  }

  /** A chain of tasks of this run that leads from t to a blocker. */
  ghost predicate BlockedBy(g: Graph, start: map<Id, Status>, end: map<Id, Status>, t: Id, p: seq<Id>)
    requires start.Keys == end.Keys == g.Keys
  {
    && IsChain(g, g.Keys, p) && |p| >= 2 && p[0] == t
    && (forall i :: 0 <= i < |p| - 1 ==> start[p[i]] == Pending)
    && Blocker(start, end, p[|p| - 1])
  }

  lemma {:induction false} BlockedIsCancelled(g: Graph, start: map<Id, Status>, succeeds: set<Id>, end: map<Id, Status>,
                           t: Id, p: seq<Id>)
    requires Outcome(g, start, succeeds, end) && BlockedBy(g, start, end, t, p)
    ensures end[t] == Cancelled
    decreases |p|
  {
    assert Edge(g, p[0], p[1]);
    if |p| > 2 {
      var q := p[1..];
      forall i | 0 <= i < |q| - 1 ensures Edge(g, q[i], q[i + 1]) {
        assert Edge(g, p[i + 1], p[i + 2]);
      }
      assert BlockedBy(g, start, end, p[1], q);
      BlockedIsCancelled(g, start, succeeds, end, p[1], q);
    }
  }

  lemma {:induction false} CancelledIsBlocked(g: Graph, rank: map<Id, nat>, start: map<Id, Status>, succeeds: set<Id>,
                           end: map<Id, Status>, t: Id) returns (p: seq<Id>)
    requires Ranks(g, rank) && Outcome(g, start, succeeds, end)
    requires t in g && start[t] == Pending && end[t] == Cancelled
    ensures BlockedBy(g, start, end, t, p)
    decreases rank[t]
  {
    var d :| d in g[t] && d in g && end[d] != Completed;
    assert Edge(g, t, d);
    if Blocker(start, end, d) {
      p := [t, d];
    } else {
      var q := CancelledIsBlocked(g, rank, start, succeeds, end, d);
      p := [t] + q;
      forall i | 0 <= i < |p| - 1 ensures Edge(g, p[i], p[i + 1]) && start[p[i]] == Pending {
        if i > 0 {
          assert Edge(g, q[i - 1], q[i]);
        }
      }
    }
  }

  /** A task of the run ends CANCELLED exactly when a chain of dependencies leads to a blocker. */
  lemma CancelledIffBlocked(g: Graph, start: map<Id, Status>, succeeds: set<Id>, end: map<Id, Status>, t: Id)
    requires Acyclic(g) && Outcome(g, start, succeeds, end) && t in g && start[t] == Pending
    ensures end[t] == Cancelled <==> exists p :: BlockedBy(g, start, end, t, p)
  {
    var rank :| Ranks(g, rank);
    if p :| BlockedBy(g, start, end, t, p) {
      BlockedIsCancelled(g, start, succeeds, end, t, p);
    }
    if end[t] == Cancelled {
      var p := CancelledIsBlocked(g, rank, start, succeeds, end, t);
    }
  }

  /** From an all-PENDING start: every task ends terminal, and CANCELLED means that a transitive
      dependency FAILED. */
  lemma FreshRun(g: Graph, start: map<Id, Status>, succeeds: set<Id>, end: map<Id, Status>, t: Id)
    requires Acyclic(g) && Outcome(g, start, succeeds, end) && t in g
    requires forall u :: u in g ==> start[u] == Pending
    ensures end[t] in {Completed, Failed, Cancelled}
    ensures end[t] == Cancelled
        <==> exists p :: IsChain(g, g.Keys, p) && |p| >= 2 && p[0] == t && end[p[|p| - 1]] == Failed
  {
    CancelledIffBlocked(g, start, succeeds, end, t);
    if p :| IsChain(g, g.Keys, p) && |p| >= 2 && p[0] == t && end[p[|p| - 1]] == Failed {
      assert BlockedBy(g, start, end, t, p);
    }
    if p :| BlockedBy(g, start, end, t, p) {
      assert end[p[|p| - 1]] == Failed;
    }
  }
}

/** Workflows of dependent tasks and the engine that runs them. */
module Workflows {
  import opened Wrappers
  import opened TaskGraph
  import opened Kahn
  import opened RunLaws

  datatype Error = UnknownDependency(dep: Id) | CyclicDependency
  class WorkflowTask {
    const id: Id
    const dependsOn: seq<Id>
    const maxRetries: int
    var status: Status
    var retryCount: int

    constructor (id: Id, dependsOn: seq<Id>, maxRetries: int)
      ensures this.id == id && this.dependsOn == dependsOn && this.maxRetries == maxRetries
      ensures status == Pending && retryCount == 0
    {
      this.id, this.dependsOn, this.maxRetries := id, dependsOn, maxRetries;
      status, retryCount := Pending, 0;
    }

    /** A task as it comes back from a checkpoint. */
    constructor Restore(id: Id, dependsOn: seq<Id>, maxRetries: int, status: Status, retryCount: int)
      ensures this.id == id && this.dependsOn == dependsOn && this.maxRetries == maxRetries
      ensures this.status == status && this.retryCount == retryCount
    {
      this.id, this.dependsOn, this.maxRetries := id, dependsOn, maxRetries;
      this.status, this.retryCount := status, retryCount;
    }
  }

  class Workflow {
    /** The dict of tasks, and its insertion order. */
    var tasks: map<Id, WorkflowTask>
    var order: seq<Id>

    ghost predicate Valid()
      reads this
    {
      && (forall id :: id in tasks ==> tasks[id].id == id)
      && Distinct(order) && Elements(order) == tasks.Keys
    }

    function GraphOf(): Graph
      reads this
    {
      map id | id in tasks :: tasks[id].dependsOn
    }

    ghost function MaxRetries(): map<Id, int>
      reads this
    {
      map id | id in tasks :: tasks[id].maxRetries
    }

    ghost function Statuses(): map<Id, Status>
      reads this, tasks.Values
    {
      map id | id in tasks :: tasks[id].status
    }

    ghost function Retries(): map<Id, int>
      reads this, tasks.Values
    {
      map id | id in tasks :: tasks[id].retryCount
    }

    constructor ()
      ensures Valid() && tasks == map[] && order == []
    {
      tasks, order := map[], [];
    }

    /** Adds a task under a fresh id. An unknown dependency changes nothing; a cycle is reported after the
        task has been inserted. */
    method AddTask(id: Id, dependsOn: seq<Id>, maxRetries: int) returns (r: Result<WorkflowTask, Error>)
      requires Valid() && id !in tasks
      modifies this
      ensures Valid()
      ensures (exists i :: 0 <= i < |dependsOn| && dependsOn[i] !in old(tasks)) ==>
                && r.Err? && r.error.UnknownDependency? && r.error.dep in dependsOn && r.error.dep !in old(tasks)
                && tasks == old(tasks) && order == old(order)
      ensures (forall i :: 0 <= i < |dependsOn| ==> dependsOn[i] in old(tasks)) ==>
                && id in tasks && fresh(tasks[id]) && tasks == old(tasks)[id := tasks[id]] && order == old(order) + [id]
                && GraphOf() == old(GraphOf())[id := dependsOn]
                && tasks[id].maxRetries == maxRetries && tasks[id].status == Pending && tasks[id].retryCount == 0
                && r == if Acyclic(GraphOf()) then Ok(tasks[id]) else Err(CyclicDependency)
    {
      hide Distinct, Elements, Acyclic, HasCycle, Ranks;
      for i := 0 to |dependsOn|
        invariant forall k :: 0 <= k < i ==> dependsOn[k] in tasks
      {
        if dependsOn[i] !in tasks {
          return Err(UnknownDependency(dependsOn[i]));
        }
      }
      var task := new WorkflowTask(id, dependsOn, maxRetries);
      tasks := tasks[id := task];
      AppendElement(order, id);
      order := order + [id];
      var ok, _ := CheckCycles();
      r := if ok then Ok(task) else Err(CyclicDependency);
    }

    /** Kahn's algorithm: ok exactly when the in-graph dependencies have no cycle. */
    method CheckCycles() returns (ok: bool, ghost rank: map<Id, nat>)
      requires Valid()
      ensures ok <==> !HasCycle(GraphOf())
      ensures ok <==> Acyclic(GraphOf())
      ensures ok ==> Ranks(GraphOf(), rank)
    {
      ok, rank := VisitsAll(GraphOf(), order);
    }

    /** The PENDING tasks whose in-graph dependencies are all COMPLETED, in insertion order. */
    method GetReadyTasks() returns (ready: seq<Id>)
      requires Valid()
      ensures forall t :: t in ready <==>
                && t in tasks && tasks[t].status == Pending
                && forall d :: d in tasks[t].dependsOn && d in tasks ==> tasks[d].status == Completed
      ensures InOrder(order, ready)
    {
      hide ReadyIn, DepsCompleted, Distinct, Elements;
      OrderInTasks();
      ReadyInNone(GraphOf(), Statuses());
      ready := [];
      assert order[..0] == [];
      for i := 0 to |order|
        invariant ready == ReadyIn(order[..i], GraphOf(), Statuses())
      {
        TakeElements(order, i);
        ReadyInMore(order, i, GraphOf(), Statuses());
        var task := tasks[order[i]];
        if task.status == Pending {
          var depsMet := AllDepsCompleted(order[i]);
          if depsMet {
            ready := ready + [order[i]];
          }
        }
      }
      assert order[..|order|] == order;
      ReadyExactly(order, GraphOf(), Statuses());
      ReadyInOrder(order, GraphOf(), Statuses());
      forall t | t in tasks
        ensures DepsCompleted(GraphOf(), Statuses(), t) <==>
                forall d :: d in tasks[t].dependsOn && d in tasks ==> tasks[d].status == Completed
      {
        DepsAre(t);
      }
    }

    lemma DepsAre(t: Id)
      requires Valid() && t in tasks
      ensures DepsCompleted(GraphOf(), Statuses(), t) <==>
              forall d :: d in tasks[t].dependsOn && d in tasks ==> tasks[d].status == Completed
    {
      assert GraphOf()[t] == tasks[t].dependsOn;
      assert forall d :: d in tasks ==> Statuses()[d] == tasks[d].status;
    }

    lemma OrderInTasks()
      requires Valid()
      ensures forall i :: 0 <= i < |order| ==> order[i] in tasks
      ensures forall t :: t in tasks ==> t in order
      ensures GraphOf().Keys == Statuses().Keys == tasks.Keys
    {
      assert forall t :: t in order <==> t in Elements(order);
    }

    method AllDepsCompleted(id: Id) returns (met: bool)
      requires Valid() && id in tasks
      ensures met <==> DepsCompleted(GraphOf(), Statuses(), id)
    {
      hide Distinct, Elements;
      var task := tasks[id];
      met := true;
      for k := 0 to |task.dependsOn|
        invariant met <==> forall j :: 0 <= j < k && task.dependsOn[j] in tasks ==>
                             tasks[task.dependsOn[j]].status == Completed
      {
        if task.dependsOn[k] in tasks && tasks[task.dependsOn[k]].status != Completed {
          met := false;
        }
      }
      if met {
        forall d | d in task.dependsOn && d in tasks ensures tasks[d].status == Completed {
          var j :| 0 <= j < |task.dependsOn| && task.dependsOn[j] == d;
        }
      } else {
        var j :| 0 <= j < |task.dependsOn| && task.dependsOn[j] in tasks
          && tasks[task.dependsOn[j]].status != Completed;
        assert task.dependsOn[j] in GraphOf()[id];
      }
    }

    /** A walk along dependencies through tasks that are PENDING or RUNNING. */
    ghost predicate WaitsAlong(p: seq<Id>)
      reads this, tasks.Values
    {
      && |p| > 0
      && (forall i :: 0 <= i < |p| ==>
            p[i] in tasks && (tasks[p[i]].status == Pending || tasks[p[i]].status == Running))
      && forall i :: 0 <= i < |p| - 1 ==> p[i + 1] in tasks[p[i]].dependsOn
    }

    lemma WaitsAlongIs(p: seq<Id>)
      requires Valid()
      ensures WaitsAlong(p) <==> IsChain(GraphOf(), Remaining(Statuses()), p)
    {
      assert forall t :: t in Remaining(Statuses()) <==>
        t in tasks && (tasks[t].status == Pending || tasks[t].status == Running);
      assert forall t :: t in tasks ==> GraphOf()[t] == tasks[t].dependsOn;
      if WaitsAlong(p) {
        assert forall i :: 0 <= i < |p| - 1 ==> Edge(GraphOf(), p[i], p[i + 1]);
      }
      if IsChain(GraphOf(), Remaining(Statuses()), p) {
        forall i | 0 <= i < |p| - 1
          ensures p[i + 1] in tasks[p[i]].dependsOn
        {
          assert Edge(GraphOf(), p[i], p[i + 1]);
        }
      }
    }

    lemma BatchesAre(batches: seq<seq<Id>>)
      requires Valid() && AreBatches(GraphOf(), Remaining(Statuses()), batches)
      ensures forall t :: (exists k :: 0 <= k < |batches| && t in batches[k]) <==>
                t in tasks && (tasks[t].status == Pending || tasks[t].status == Running)
      ensures forall k, t :: 0 <= k < |batches| && t in batches[k] ==>
                && (exists p :: WaitsAlong(p) && p[0] == t && |p| == k + 1)
                && (forall p :: WaitsAlong(p) && p[0] == t ==> |p| <= k + 1)
    {
      var live := Remaining(Statuses());
      forall p ensures WaitsAlong(p) <==> IsChain(GraphOf(), live, p) {
        WaitsAlongIs(p);
      }
      hide IsChain, LongestChain;
      forall t
        ensures (exists k :: 0 <= k < |batches| && t in batches[k]) <==> t in live
        ensures t in live <==> t in tasks && (tasks[t].status == Pending || tasks[t].status == Running)
      {
        if k :| 0 <= k < |batches| && t in batches[k] {
          assert t in live;
        }
      }
      forall k, t | 0 <= k < |batches| && t in batches[k]
        ensures exists p :: WaitsAlong(p) && p[0] == t && |p| == k + 1
        ensures forall p :: WaitsAlong(p) && p[0] == t ==> |p| <= k + 1
      {
        var p := LongestIs(GraphOf(), live, t, k);
        assert WaitsAlong(p);
        forall q | WaitsAlong(q) && q[0] == t ensures |q| <= k + 1 {
          NoneIsLonger(GraphOf(), live, t, k, q);
        }
      }
    }

    /** The execution batches: exactly the PENDING and RUNNING tasks, once each, none empty; a task stands in batch k
        when the longest walk along dependencies from it through such tasks takes k steps. */
    method GetExecutionOrder() returns (r: Result<seq<seq<Id>>, Error>)
      requires Valid()
      ensures r.Err? <==> HasCycle(GraphOf())
      ensures r.Ok? ==> AreBatches(GraphOf(), Remaining(Statuses()), r.value)
      ensures r.Ok? ==> forall t :: (exists k :: 0 <= k < |r.value| && t in r.value[k]) <==>
                t in tasks && (tasks[t].status == Pending || tasks[t].status == Running)
      ensures r.Ok? ==> forall k, t :: 0 <= k < |r.value| && t in r.value[k] ==>
                && (exists p :: WaitsAlong(p) && p[0] == t && |p| == k + 1)
                && (forall p :: WaitsAlong(p) && p[0] == t ==> |p| <= k + 1)
      ensures r.Ok? ==> forall k :: 0 <= k < |r.value| ==> r.value[k] != [] && Distinct(r.value[k])
    {
      hide HasCycle, Acyclic, Ranks, AreBatches, Elements, Distinct, WaitsAlong;
      var ok, rank := CheckCycles();
      if !ok {
        return Err(CyclicDependency);
      }
      var remaining := set t | t in tasks && (tasks[t].status == Pending || tasks[t].status == Running);
      assert remaining == Remaining(Statuses());
      var ids := Enumerate(remaining);
      var batches := Batches(GraphOf(), ids, rank);
      BatchesAre(batches);
      BatchesAreFull(GraphOf(), remaining, batches);
      return Ok(batches);
    }

    method IsComplete() returns (complete: bool)
      requires Valid()
      ensures complete <==> forall t :: t in Statuses() ==> Statuses()[t] in {Completed, Failed, Cancelled}
    {
      complete := true;
      for i := 0 to |order|
        invariant forall k :: 0 <= k < |order| ==> order[k] in tasks
        invariant complete <==> forall k :: 0 <= k < i ==> tasks[order[k]].status in {Completed, Failed, Cancelled}
      {
        if tasks[order[i]].status !in {Completed, Failed, Cancelled} {
          complete := false;
        }
      }
      if complete {
        forall t | t in tasks ensures tasks[t].status in {Completed, Failed, Cancelled} {
          assert t in Elements(order);
          var k :| 0 <= k < |order| && order[k] == t;
        }
      } else {
        var k :| 0 <= k < |order| && tasks[order[k]].status !in {Completed, Failed, Cancelled};
        assert order[k] in Statuses();
      }
    }

    /** Sets the status of a task; false stands for the KeyError of an unknown id. */
    method SetStatus(id: Id, status: Status) returns (found: bool)
      requires Valid()
      modifies if id in tasks then {tasks[id]} else {}
      ensures found == (id in tasks)
      ensures Retries() == old(Retries())
      ensures Statuses() == if found then old(Statuses())[id := status] else old(Statuses())
    {
      found := id in tasks;
      if found {
        tasks[id].status := status;
      }
    }

    method SetRetryCount(id: Id, retryCount: int)
      requires Valid() && id in tasks
      modifies tasks[id]
      ensures Statuses() == old(Statuses())
      ensures Retries() == old(Retries())[id := retryCount]
    {
      tasks[id].retryCount := retryCount;
    }
  }

  /** A set in some order: iteration over a set fixes none. */
  method Enumerate(s: set<Id>) returns (ids: seq<Id>)
    ensures Distinct(ids) && Elements(ids) == s
  {
    ids := [];
    var rest := s;
    while rest != {}
      invariant rest <= s && Elements(ids) == s - rest && Distinct(ids)
    {
      var x :| x in rest;
      AppendElement(ids, x);
      ids := ids + [x];
      rest := rest - {x};
    }
  }

  class WorkflowEngine {
    const workflow: Workflow

    /** What the last run sent and finished, and its waves. */
    ghost var log: seq<Event>
    ghost var waves: seq<set<Id>>

    constructor (workflow: Workflow)
      ensures this.workflow == workflow && log == [] && waves == []
    {
      this.workflow := workflow;
      log, waves := [], [];
    }

    ghost function Now(): State
      reads this`log, workflow, workflow.tasks.Values
    {
      State(workflow.Statuses(), workflow.Retries(), log)
    }

    ghost function PlanOf(ok: Answers): Plan
      reads workflow, workflow.tasks.Values
    {
      Plan(workflow.GraphOf(), workflow.MaxRetries(), ok, workflow.Statuses(), workflow.Retries())
    }

    ghost predicate Serves(p: Plan, ok: Answers)
      reads workflow
    {
      p.Valid() && p.g == workflow.GraphOf() && p.maxRetries == workflow.MaxRetries() && p.ok == ok
    }

    method Dispatch(id: Id, a: nat)
      requires workflow.Valid() && id in workflow.tasks
      modifies workflow.tasks[id], this`log
      ensures Now() == Send(old(Now()), id, a)
    {
      var _ := workflow.SetStatus(id, Running);
      log := log + [Sent(id, a)];
    }

    method Conclude(id: Id, status: Status)
      requires workflow.Valid() && id in workflow.tasks
      modifies workflow.tasks[id], this`log
      ensures Now() == Finish(old(Now()), id, status)
    {
      var _ := workflow.SetStatus(id, status);
      log := log + [Finished(id, status)];
    }

    method CountRetry(id: Id, a: nat)
      requires workflow.Valid() && id in workflow.tasks
      modifies workflow.tasks[id]
      ensures Now() == old(Now()).(retries := old(Now()).retries[id := a])
    {
      workflow.SetRetryCount(id, a);
    }

    /** One stretch of _execute_task between two suspensions; a is the attempt whose answer has arrived,
        -1 at the first entry. The answer ok(id, a) is the send function's to choose. */
    method Resume(id: Id, a: int, ok: Answers, ghost p: Plan) returns (finished: bool)
      requires workflow.Valid() && id in workflow.tasks && -1 <= a && Serves(p, ok)
      modifies workflow.tasks.Values, this`log
      ensures Resumed(p, id, a, old(Now()), Now(), finished)
    {
      hide Distinct, Elements, SendsOf, Failures;
      var maxRetries := workflow.tasks[id].maxRetries;
      if a == -1 {
        finished := 1 + maxRetries <= 0;
        if finished {
          Conclude(id, Failed);
        } else {
          Dispatch(id, 0);
        }
      } else if ok(id, a) {
        finished := true;
        Conclude(id, Completed);
      } else {
        CountRetry(id, a + 1);
        finished := a >= maxRetries;
        if finished {
          Conclude(id, Failed);
        } else {
          Dispatch(id, a + 1);
        }
      }
    }

    lemma ServedTasks(p: Plan, ok: Answers)
      requires workflow.Valid() && Serves(p, ok)
      ensures p.Valid() && p.g.Keys == workflow.tasks.Keys
    {
    }

    /** asyncio.gather over the ready tasks: their coroutines run interleaved in any order until all are
        finished. */
    method Gather(ready: seq<Id>, ok: Answers, ghost p: Plan, ghost x0: State) returns (ghost x: State)
      requires workflow.Valid() && Serves(p, ok) && x0 == Now()
      requires AllReady(p, x0, ready) && p.Valid() && p.Fits(x0) && p.Settled(x0)
      modifies workflow.tasks.Values, this`log
      ensures x == Now() && WaveDone(p, x0, x, ready)
    {
      hide *;
      ServedTasks(p, ok);
      var active := set t | t in ready;
      ghost var wave := active;
      x := x0;
      var attempt: map<Id, int> := map t | t in active :: -1;
      GatherStart(p, x0, ready, wave);
      ghost var todo := AttemptsAhead(p, wave);
      while active != {}
        invariant workflow.Valid() && Serves(p, ok) && x == Now()
        invariant Gathering(p, x0, wave, active, attempt, x, todo)
        decreases todo
      {
        var t :| t in active;
        GatheringTask(p, x0, wave, active, attempt, x, todo, t);
        var a := attempt[t];
        var finished := Resume(t, a, ok, p);
        ghost var y := Now();
        GatherStep(p, x0, wave, active, attempt, x, todo, t, y, finished);
        if finished {
          active := active - {t};
        } else {
          attempt := attempt[t := a + 1];
        }
        todo := todo - {(t, a)};
        x := y;
      }
      GatherEnd(p, x0, wave, attempt, x, todo, ready);
    }

    /** Runs the workflow. ok says which attempts are answered; everything else is the scheduler's. */
    method Run(ok: Answers) returns (r: Result<map<Id, Status>, Error>)
      requires workflow.Valid()
      modifies workflow.tasks.Values, this`log, this`waves
      ensures r.Err? <==> HasCycle(old(workflow.GraphOf()))
      ensures r.Err? ==> log == [] && workflow.Statuses() == old(workflow.Statuses())
      ensures r.Ok? ==>
                var p := old(PlanOf(ok));
                && r.value == workflow.Statuses()
                && Outcome(p.g, p.start, Successes(p), r.value)
                && SentAsDue(p, r.value, log)
                && AreWaves(p, r.value, waves)
                && RetriesAsDue(p, r.value, workflow.Retries())
    {
      hide *;
      ghost var p := PlanOf(ok);
      log, waves := [], [];
      var acyclic, rank := workflow.CheckCycles();
      if !acyclic {
        return Err(CyclicDependency);
      }
      ghost var x := Now();
      Starting(ok, p, rank);
      var complete := workflow.IsComplete();
      CompleteMeans(x, complete);
      while !complete
        invariant workflow.Valid() && Serves(p, ok) && x == Now()
        invariant BetweenWaves(p, rank, x, waves)
        invariant complete ==> NonePending(x.st)
        decreases PendingIn(x.st)
      {
        var ready := workflow.GetReadyTasks();
        ReadyMeans(ok, p, x, ready);
        StateParts(x);
        if ready == [] {
          CancelAllPending();
          break;
        }
        x := Wave(ready, ok, p, rank, x);
        complete := workflow.IsComplete();
        CompleteMeans(x, complete);
      }
      LastWave(p, rank, x, waves);
      if complete {
        StateParts(x);
        NothingToCancel(x.st);
      }
      r := Ok(map t | t in workflow.tasks :: workflow.tasks[t].status);
      ResultMeans(r.value);
    }

    lemma Starting(ok: Answers, p: Plan, rank: map<Id, nat>)
      requires workflow.Valid() && p == PlanOf(ok) && log == [] && Ranks(workflow.GraphOf(), rank)
      ensures Serves(p, ok) && BetweenWaves(p, rank, Now(), [])
    {
      RunStarts(p, rank, Now());
    }

    lemma CompleteMeans(x: State, complete: bool)
      requires workflow.Valid() && x == Now()
      requires complete ==>
        forall t :: t in workflow.Statuses() ==> workflow.Statuses()[t] in {Completed, Failed, Cancelled}
      ensures complete ==> NonePending(x.st)
    {
    }

    lemma ReadyMeans(ok: Answers, p: Plan, x: State, ready: seq<Id>)
      requires workflow.Valid() && Serves(p, ok) && x == Now()
      requires forall t :: t in ready <==>
                 && t in workflow.tasks && workflow.tasks[t].status == Pending
                 && forall d :: d in workflow.tasks[t].dependsOn && d in workflow.tasks ==>
                      workflow.tasks[d].status == Completed
      ensures ReadyList(p, x, ready)
    {
      hide DepsCompleted, Distinct, Elements;
      forall t | t in workflow.tasks
        ensures DepsCompleted(workflow.GraphOf(), workflow.Statuses(), t) <==>
                forall d :: d in workflow.tasks[t].dependsOn && d in workflow.tasks ==>
                  workflow.tasks[d].status == Completed
      {
        workflow.DepsAre(t);
      }
    }

    lemma StateParts(x: State)
      requires x == Now()
      ensures x.log == log && x.st == workflow.Statuses() && x.retries == workflow.Retries()
    {
    }

    lemma ResultMeans(results: map<Id, Status>)
      requires results == map t | t in workflow.tasks :: workflow.tasks[t].status
      ensures results == workflow.Statuses()
    {
    }

    method Wave(ready: seq<Id>, ok: Answers, ghost p: Plan, ghost rank: map<Id, nat>, ghost x: State)
        returns (ghost y: State)
      requires workflow.Valid() && Serves(p, ok) && x == Now() && BetweenWaves(p, rank, x, waves)
      requires ready != [] && ReadyList(p, x, ready)
      modifies workflow.tasks.Values, this`log, this`waves
      ensures y == Now() && BetweenWaves(p, rank, y, waves)
      ensures PendingIn(y.st) < PendingIn(x.st)
    {
      hide *;
      ListedAreReady(p, x, ready);
      SettledBetween(p, rank, x, waves);
      y := Gather(ready, ok, p, x);
      OneMoreWave(p, rank, x, y, waves, ready);
      waves := waves + [set t | t in ready];
    }

    /** Cancels what is blocked by failed dependencies. */
    method CancelAllPending()
      requires workflow.Valid()
      modifies workflow.tasks.Values
      ensures workflow.Statuses() == CancelPending(old(workflow.Statuses()))
      ensures workflow.Retries() == old(workflow.Retries())
    {
      hide Distinct, Elements;
      ghost var st, now := workflow.Statuses(), workflow.Statuses();
      ghost var done: set<Id> := {};
      NoElements();
      assert workflow.order[..0] == [];
      for i := 0 to |workflow.order|
        invariant workflow.Valid() && now == workflow.Statuses()
        invariant done == Elements(workflow.order[..i])
        invariant now.Keys == st.Keys && workflow.Retries() == old(workflow.Retries())
        invariant forall t :: t in st ==> now[t] == if t in done && st[t] == Pending then Cancelled else st[t]
      {
        TakeElements(workflow.order, i);
        var id := workflow.order[i];
        if workflow.tasks[id].status == Pending {
          var _ := workflow.SetStatus(id, Cancelled);
        }
        now := workflow.Statuses();
        done := done + {id};
      }
      assert workflow.order[..|workflow.order|] == workflow.order;
    }
  }

  ghost predicate NonePending(st: map<Id, Status>) {
    forall t :: t in st ==> st[t] != Pending
  }

  lemma NothingToCancel(st: map<Id, Status>)
    requires NonePending(st)
    ensures CancelPending(st) == st
  {
  }

  ghost function PendingIn(st: map<Id, Status>): set<Id> {
    set t | t in st && st[t] == Pending
  }

  lemma PendingShrinks(x: map<Id, Status>, y: map<Id, Status>, t: Id)
    requires x.Keys == y.Keys && t in x && x[t] == Pending && y[t] != Pending
    requires forall u :: u in x && y[u] == Pending ==> x[u] == Pending
    ensures PendingIn(y) < PendingIn(x)
  {
    assert t in PendingIn(x) && t !in PendingIn(y);
  }

  /** All attempts, the first entry counted as -1, that a wave can still come to. */
  ghost function AttemptsAhead(p: Plan, wave: set<Id>): set<(Id, int)>
    requires p.Valid() && wave <= p.g.Keys
  {
    set t, a | t in wave && -1 <= a <= LastAttempt(p, t) :: (t, a)
  }

  ghost function LastAttempt(p: Plan, t: Id): int
    requires p.Valid() && t in p.g
  {
    if p.maxRetries[t] < -1 then -1 else p.maxRetries[t]
  }

  /** Every active task has its attempts from the current one on ahead of it. */
  ghost predicate Ahead(p: Plan, active: set<Id>, attempt: map<Id, int>, todo: set<(Id, int)>)
    requires p.Valid() && active <= p.g.Keys && active <= attempt.Keys
  {
    && (forall t :: t in active ==> attempt[t] >= -1)
    && (forall t, a :: t in active && attempt[t] <= a && (a == attempt[t] || a <= p.maxRetries[t]) ==> (t, a) in todo)
  }

  lemma AllAhead(p: Plan, wave: set<Id>)
    requires p.Valid() && wave <= p.g.Keys
    ensures Ahead(p, wave, map t | t in wave :: -1, AttemptsAhead(p, wave))
  {
  }

  lemma AheadStep(p: Plan, active: set<Id>, attempt: map<Id, int>, todo: set<(Id, int)>, t: Id)
    requires p.Valid() && active <= p.g.Keys && active <= attempt.Keys
    requires Ahead(p, active, attempt, todo) && t in active
    ensures attempt[t] >= -1 && (t, attempt[t]) in todo
    ensures Ahead(p, active - {t}, attempt, todo - {(t, attempt[t])})
    ensures attempt[t] + 1 <= p.maxRetries[t] ==>
              Ahead(p, active, attempt[t := attempt[t] + 1], todo - {(t, attempt[t])})
  {
  }

  /** The loop invariant of a wave, with the attempts that are still ahead. */
  ghost predicate Gathering(p: Plan, x0: State, wave: set<Id>, active: set<Id>, attempt: map<Id, int>, x: State,
                            todo: set<(Id, int)>) {
    && p.Valid() && p.Fits(x0) && p.Fits(x)
    && active <= p.g.Keys && active <= attempt.Keys
    && p.InWave(x0, wave, active, attempt, x)
    && Ahead(p, active, attempt, todo)
  }

  lemma GatherStart(p: Plan, x0: State, ready: seq<Id>, wave: set<Id>)
    requires AllReady(p, x0, ready) && p.Valid() && p.Fits(x0) && p.Settled(x0)
    requires wave == set t | t in ready
    ensures wave <= p.g.Keys
    ensures Gathering(p, x0, wave, wave, map t | t in wave :: -1, x0, AttemptsAhead(p, wave))
  {
    hide Plan.Settled, Plan.InWave, DepsCompleted;
    WaveStart(p, x0, wave);
    AllAhead(p, wave);
  }

  lemma GatheringTask(p: Plan, x0: State, wave: set<Id>, active: set<Id>, attempt: map<Id, int>, x: State,
                      todo: set<(Id, int)>, t: Id)
    requires Gathering(p, x0, wave, active, attempt, x, todo) && t in active
    ensures p.Valid() && p.Fits(x) && t in p.g && t in attempt && attempt[t] >= -1 && (t, attempt[t]) in todo
  {
    hide Plan.InWave;
  }

  lemma GatherStep(p: Plan, x0: State, wave: set<Id>, active: set<Id>, attempt: map<Id, int>, x: State,
                   todo: set<(Id, int)>, t: Id, y: State, finished: bool)
    requires Gathering(p, x0, wave, active, attempt, x, todo)
    requires t in active && p.Valid() && p.Fits(x) && t in p.g && t in attempt && attempt[t] >= -1
    requires Resumed(p, t, attempt[t], x, y, finished)
    ensures finished ==> Gathering(p, x0, wave, active - {t}, attempt, y, todo - {(t, attempt[t])})
    ensures !finished ==>
              Gathering(p, x0, wave, active, attempt[t := attempt[t] + 1], y, todo - {(t, attempt[t])})
  {
    hide Plan.InWave, Resumed, Ahead;
    WaveStep(p, x0, wave, active, attempt, x, t, y, finished);
    AheadStep(p, active, attempt, todo, t);
    if !finished {
      ActiveAttempt(p, x0, wave, active, attempt[t := attempt[t] + 1], y, t);
    }
  }

  lemma GatherEnd(p: Plan, x0: State, wave: set<Id>, attempt: map<Id, int>, x: State,
                  todo: set<(Id, int)>, ready: seq<Id>)
    requires Gathering(p, x0, wave, {}, attempt, x, todo) && wave == set t | t in ready
    ensures WaveDone(p, x0, x, ready)
  {
    WaveInGraph(p, x0, wave, attempt, x);
    hide Plan.InWave, Plan.Settled;
    WaveEnd(p, x0, wave, attempt, x);
  }

  lemma WaveInGraph(p: Plan, x0: State, wave: set<Id>, attempt: map<Id, int>, x: State)
    requires p.Valid() && p.Fits(x0) && p.Fits(x) && p.InWave(x0, wave, {}, attempt, x)
    ensures wave <= p.g.Keys
  {
  }

  lemma ActiveAttempt(p: Plan, x0: State, wave: set<Id>, active: set<Id>, pc: map<Id, int>, x: State, t: Id)
    requires p.Valid() && p.Fits(x0) && p.Fits(x) && p.InWave(x0, wave, active, pc, x) && t in active
    ensures t in p.g && t in pc && (pc[t] < 0 || pc[t] <= p.maxRetries[t])
  {
  }

  /** What holds between two waves. */
  ghost predicate BetweenWaves(p: Plan, rank: map<Id, nat>, x: State, waves: seq<set<Id>>) {
    && p.Valid() && Ranks(p.g, rank)
    && p.Fits(x) && p.Settled(x)
    && WavesByDepth(p, rank, x.st, waves)
    && forall k :: 0 <= k < |waves| ==> waves[k] != {}
  }

  lemma ListedAreReady(p: Plan, x: State, ready: seq<Id>)
    requires ReadyList(p, x, ready)
    ensures AllReady(p, x, ready)
  {
  }

  lemma SettledBetween(p: Plan, rank: map<Id, nat>, x: State, waves: seq<set<Id>>)
    requires BetweenWaves(p, rank, x, waves)
    ensures p.Valid() && p.Fits(x) && p.Settled(x)
  {
  }

  /** ready lists tasks that may be executed in state x. */
  ghost predicate AllReady(p: Plan, x: State, ready: seq<Id>) {
    && p.Valid() && p.Fits(x)
    && forall t :: t in ready ==> t in p.g && x.st[t] == Pending && DepsCompleted(p.g, x.st, t)
  }

  /** ready lists every such task. */
  ghost predicate ReadyList(p: Plan, x: State, ready: seq<Id>) {
    && AllReady(p, x, ready)
    && forall t :: t in p.g && x.st[t] == Pending && DepsCompleted(p.g, x.st, t) ==> t in ready
  }

  /** From x to y exactly the listed tasks have been executed. */
  ghost predicate WaveDone(p: Plan, x: State, y: State, ready: seq<Id>) {
    && p.Valid() && p.Fits(x) && p.Fits(y) && p.Settled(y)
    && (forall t :: t in p.g && t !in ready ==> y.st[t] == x.st[t])
    && (forall t :: t in ready ==> t in p.g && (y.st[t] == Completed || y.st[t] == Failed))
  }

  lemma OneMoreWave(p: Plan, rank: map<Id, nat>, x: State, y: State, waves: seq<set<Id>>, ready: seq<Id>)
    requires BetweenWaves(p, rank, x, waves) && ready != []
    requires ReadyList(p, x, ready) && WaveDone(p, x, y, ready)
    ensures BetweenWaves(p, rank, y, waves + [set t | t in ready])
    ensures PendingIn(y.st) < PendingIn(x.st)
  {
    hide Plan.Settled, WavesByDepth, DepsCompleted;
    var wave := set t | t in ready;
    assert ready[0] in wave;
    WavesGrow(p, rank, x, y, waves, wave);
    PendingShrinks(x.st, y.st, ready[0]);
  }

  lemma LastWave(p: Plan, rank: map<Id, nat>, x: State, waves: seq<set<Id>>)
    requires BetweenWaves(p, rank, x, waves)
    requires ReadyList(p, x, []) || NonePending(x.st)
    ensures Outcome(p.g, p.start, Successes(p), CancelPending(x.st))
    ensures SentAsDue(p, CancelPending(x.st), x.log)
    ensures AreWaves(p, CancelPending(x.st), waves)
    ensures RetriesAsDue(p, CancelPending(x.st), x.retries)
  {
    hide Plan.Settled, WavesByDepth, DepsCompleted;
    RetriesEnd(p, x);
    RunEnds(p, x);
    SendsEnd(p, x);
    WavesEnd(p, rank, x.st, waves);
  }

  lemma RunStarts(p: Plan, rank: map<Id, nat>, x: State)
    requires p.Valid() && Ranks(p.g, rank) && x == State(p.start, p.retries, [])
    ensures BetweenWaves(p, rank, x, [])
  {
  }

  lemma BatchesAreFull(g: Graph, live: set<Id>, batches: seq<seq<Id>>)
    requires AreBatches(g, live, batches)
    ensures forall k :: 0 <= k < |batches| ==> batches[k] != [] && Distinct(batches[k])
  {
  }

  lemma LongestIs(g: Graph, live: set<Id>, t: Id, n: nat) returns (p: seq<Id>)
    requires LongestChain(g, live, t, n)
    ensures IsChain(g, live, p) && |p| == n + 1 && p[0] == t
  {
    p :| ChainFrom(g, live, t, n, p);
  }

  lemma NoneIsLonger(g: Graph, live: set<Id>, t: Id, n: nat, p: seq<Id>)
    requires LongestChain(g, live, t, n) && IsChain(g, live, p) && p[0] == t
    ensures |p| <= n + 1
  {
    assert ChainFrom(g, live, t, |p| - 1, p);
  }

  predicate ComesBefore(s: seq<Id>, a: Id, b: Id) {
    exists p, q :: 0 <= p < q < |s| && s[p] == a && s[q] == b
  }

  lemma ComesBeforeStill(s: seq<Id>, x: Id, a: Id, b: Id)
    requires ComesBefore(s, a, b)
    ensures ComesBefore(s + [x], a, b)
  {
    var p, q :| 0 <= p < q < |s| && s[p] == a && s[q] == b;
    assert (s + [x])[p] == a && (s + [x])[q] == b;
  }

  /** The ready tasks among ids. */
  function ReadyIn(ids: seq<Id>, g: Graph, st: map<Id, Status>): seq<Id>
    requires st.Keys == g.Keys && forall i :: 0 <= i < |ids| ==> ids[i] in g
  {
    if ids == [] then []
    else
      var rest, t := ReadyIn(ids[..|ids| - 1], g, st), ids[|ids| - 1];
      if st[t] == Pending && DepsCompleted(g, st, t) then rest + [t] else rest
  }

  lemma ReadyInNone(g: Graph, st: map<Id, Status>)
    requires st.Keys == g.Keys
    ensures ReadyIn([], g, st) == []
  {
  }

  lemma ReadyInMore(ids: seq<Id>, i: nat, g: Graph, st: map<Id, Status>)
    requires st.Keys == g.Keys && i < |ids| && forall k :: 0 <= k < |ids| ==> ids[k] in g
    ensures ReadyIn(ids[..i + 1], g, st) ==
            ReadyIn(ids[..i], g, st) + if st[ids[i]] == Pending && DepsCompleted(g, st, ids[i]) then [ids[i]] else []
  {
    hide DepsCompleted;
    assert ids[..i + 1][..i] == ids[..i];
  }

  lemma {:induction false} ReadyExactly(ids: seq<Id>, g: Graph, st: map<Id, Status>)
    requires st.Keys == g.Keys && forall i :: 0 <= i < |ids| ==> ids[i] in g
    ensures forall t :: t in ReadyIn(ids, g, st) <==> t in ids && st[t] == Pending && DepsCompleted(g, st, t)
    ensures Distinct(ids) ==> Distinct(ReadyIn(ids, g, st))
  {
    hide DepsCompleted;
    if ids != [] {
      var rest, t := ids[..|ids| - 1], ids[|ids| - 1];
      assert ids == rest + [t];
      ReadyExactly(rest, g, st);
    }
  }

  /** The ready tasks come in the order of ids. */
  lemma {:induction false} ReadyInOrder(ids: seq<Id>, g: Graph, st: map<Id, Status>)
    requires st.Keys == g.Keys && forall i :: 0 <= i < |ids| ==> ids[i] in g
    ensures InOrder(ids, ReadyIn(ids, g, st))
  {
    hide DepsCompleted, ComesBefore;
    if ids != [] {
      var rest, t := ids[..|ids| - 1], ids[|ids| - 1];
      var front, ready := ReadyIn(rest, g, st), ReadyIn(ids, g, st);
      assert ids == rest + [t];
      ReadyInOrder(rest, g, st);
      ReadyExactly(rest, g, st);
      forall i, j | 0 <= i < j < |ready|
        ensures ComesBefore(ids, ready[i], ready[j])
      {
        if j < |front| {
          ComesBeforeStill(rest, t, ready[i], ready[j]);
        } else {
          assert ready[i] in front;
          ComesBeforeLast(rest, t, ready[i]);
        }
      }
    }
  }

  predicate InOrder(s: seq<Id>, part: seq<Id>) {
    forall i, j :: 0 <= i < j < |part| ==> ComesBefore(s, part[i], part[j])
  }

  lemma ComesBeforeLast(s: seq<Id>, x: Id, a: Id)
    requires a in s
    ensures ComesBefore(s + [x], a, x)
  {
    var p :| 0 <= p < |s| && s[p] == a;
    assert (s + [x])[p] == a && (s + [x])[|s|] == x;
  }

  lemma AppendElement(s: seq<Id>, x: Id)
    ensures Elements(s + [x]) == Elements(s) + {x}
    ensures Distinct(s) && x !in Elements(s) ==> Distinct(s + [x])
  {
  }
}

/** What the workflow engine may do, on values: the log of one run, the attempts of one task, and the
    invariants that a wave of concurrently executed tasks keeps. */
module RunLaws {
  import opened TaskGraph
  import opened Kahn

  /** What a run does to the outside world and to task statuses, in order. */
  datatype Event =
    | Sent(t: Id, attempt: nat)
    | Finished(t: Id, status: Status)

  type Answers = (Id, nat) -> bool

  /** How many attempts fail before the first answered one, or before the attempts run out. */
  function Failures(ok: Answers, t: Id, maxRetries: int, a: nat := 0): (n: nat)
    ensures n >= a
    ensures forall b: nat :: a <= b < n ==> !ok(t, b)
    ensures n <= maxRetries ==> ok(t, n)
    ensures n > maxRetries ==> n == a || n == maxRetries + 1
    decreases maxRetries + 1 - a
  {
    if a > maxRetries || ok(t, a) then a else Failures(ok, t, maxRetries, a + 1)
  }

  function Sends(ok: Answers, t: Id, maxRetries: int): nat {
    var n := Failures(ok, t, maxRetries);
    if n <= maxRetries then n + 1 else n
  }

  /** At most 1 + maxRetries messages, and none when that is not positive. */
  lemma SendsBound(ok: Answers, t: Id, maxRetries: int)
    ensures Sends(ok, t, maxRetries) <= if maxRetries < 0 then 0 else 1 + maxRetries
    ensures Succeeds(ok, t, maxRetries) <==> Failures(ok, t, maxRetries) <= maxRetries
  {
  }

  lemma {:induction false} FailuresAt(ok: Answers, t: Id, maxRetries: int, n: nat, a: nat)
    requires a <= n && forall b: nat :: b < n ==> !ok(t, b)
    requires (n <= maxRetries && ok(t, n)) || n == maxRetries + 1
    ensures Failures(ok, t, maxRetries, a) == n
    decreases n - a
  {
    if a < n {
      FailuresAt(ok, t, maxRetries, n, a + 1);
    }
  }

  function Upto(n: nat): (s: seq<nat>)
    ensures |s| == n
  {
    if n == 0 then [] else Upto(n - 1) + [n - 1]
  }

  /** The attempts at t that were sent, in order. */
  function SendsOf(log: seq<Event>, t: Id): seq<nat> {
    if log == [] then []
    else
      var rest, e := SendsOf(log[..|log| - 1], t), log[|log| - 1];
      if e.Sent? && e.t == t then rest + [e.attempt] else rest
  }

  lemma SendsSnoc(log: seq<Event>, e: Event, t: Id)
    ensures SendsOf(log + [e], t) == if e.Sent? && e.t == t then SendsOf(log, t) + [e.attempt] else SendsOf(log, t)
  {
    assert (log + [e])[..|log|] == log;
  }

  /** All in-graph dependencies of t were COMPLETED at the start or have been reported COMPLETED. */
  ghost predicate DepsReported(g: Graph, start: map<Id, Status>, log: seq<Event>, t: Id)
    requires start.Keys == g.Keys
  {
    t in g && forall d :: d in g[t] && d in g ==> start[d] == Completed || Finished(d, Completed) in log
  }

  /** Nothing is sent for a task before all its in-graph dependencies are COMPLETED. */
  ghost predicate SafeSends(g: Graph, start: map<Id, Status>, log: seq<Event>)
    requires start.Keys == g.Keys
  {
    forall i :: 0 <= i < |log| && log[i].Sent? ==> DepsReported(g, start, log[..i], log[i].t)
  }

  lemma SafeSendsSnoc(g: Graph, start: map<Id, Status>, log: seq<Event>, e: Event)
    requires start.Keys == g.Keys && SafeSends(g, start, log)
    requires e.Sent? ==> DepsReported(g, start, log, e.t)
    ensures SafeSends(g, start, log + [e])
  {
    hide DepsReported;
    var l := log + [e];
    forall i | 0 <= i < |l| && l[i].Sent? ensures DepsReported(g, start, l[..i], l[i].t) {
      if i < |log| {
        assert l[..i] == log[..i];
      } else {
        assert l[..i] == log;
      }
    }
  }

  /** Exactly the tasks that this run completed or failed are reported, with their status. */
  ghost predicate Reported(start: map<Id, Status>, st: map<Id, Status>, log: seq<Event>)
    requires start.Keys == st.Keys
  {
    forall d, s :: Finished(d, s) in log
              <==> d in st && start[d] == Pending && st[d] == s && (s == Completed || s == Failed)
  }

  /** The mutable part of a workflow together with the log. */
  datatype State = State(st: map<Id, Status>, retries: map<Id, int>, log: seq<Event>)

  /** What one run is about: the graph, the retry limits, the answers and the state it began with. */
  datatype Plan = Plan(g: Graph, maxRetries: map<Id, int>, ok: Answers, start: map<Id, Status>, retries: map<Id, int>) {
    ghost predicate Valid() {
      g.Keys == maxRetries.Keys == start.Keys == retries.Keys
    }

    ghost predicate Fits(x: State) {
      x.st.Keys == x.retries.Keys == g.Keys
    }

    /** t has not been touched by this run. */
    ghost predicate Untouched(x: State, t: Id)
      requires Valid() && Fits(x) && t in g
    {
      x.st[t] == start[t] && x.retries[t] == retries[t] && SendsOf(x.log, t) == []
    }

    /** t has been executed: as many messages as its answers demanded, and the status they imply. */
    ghost predicate Executed(x: State, t: Id)
      requires Valid() && Fits(x) && t in g
    {
      var n := Failures(ok, t, maxRetries[t]);
      && x.st[t] == (if n <= maxRetries[t] then Completed else Failed)
      && SendsOf(x.log, t) == Upto(Sends(ok, t, maxRetries[t]))
      && x.retries[t] == (if n > 0 then n else retries[t])
    }

    /** t is at attempt a (its coroutine has not started when a is -1). */
    ghost predicate Underway(x: State, t: Id, a: int)
      requires Valid() && Fits(x) && t in g
    {
      if a < 0 then Untouched(x, t)
      else
        && a <= maxRetries[t] && x.st[t] == Running
        && (forall b: nat :: b < a ==> !ok(t, b))
        && SendsOf(x.log, t) == Upto(a + 1)
        && x.retries[t] == (if a > 0 then a else retries[t])
    }

    /** Log and statuses agree, and nothing was sent too early. */
    ghost predicate Sound(x: State)
      requires Valid() && Fits(x)
    {
      SafeSends(g, start, x.log) && Reported(start, x.st, x.log)
    }

    /** Between two waves: a task of the run is untouched, or executed with its dependencies COMPLETED. */
    ghost predicate Settled(x: State)
      requires Valid() && Fits(x)
    {
      && Sound(x)
      && (forall t :: t in g && start[t] != Pending ==> Untouched(x, t))
      && (forall t :: t in g && start[t] == Pending && x.st[t] != Pending ==>
            Executed(x, t) && DepsCompleted(g, x.st, t))
      && (forall t :: t in g && x.st[t] == Pending ==> Untouched(x, t))
    }

    /** Inside a wave that began in x0: tasks outside it are as in x0, tasks of it are underway while
        active and executed afterwards. */
    ghost predicate InWave(x0: State, wave: set<Id>, active: set<Id>, pc: map<Id, int>, x: State)
      requires Valid() && Fits(x0) && Fits(x)
    {
      && Settled(x0) && Sound(x)
      && active <= wave <= g.Keys && active <= pc.Keys
      && (forall t :: t in wave ==> start[t] == Pending && x0.st[t] == Pending && DepsCompleted(g, x0.st, t))
      && (forall t :: t in g && t !in wave ==> x.st[t] == x0.st[t] && x.retries[t] == x0.retries[t]
                                               && SendsOf(x.log, t) == SendsOf(x0.log, t))
      && (forall t :: t in wave - active ==> Executed(x, t))
      && (forall t :: t in active ==> Underway(x, t, pc[t]))
    }
  }

  /** One uninterrupted stretch of the coroutine of t, from its resumption at attempt a. */
  ghost predicate Resumed(p: Plan, t: Id, a: int, x: State, y: State, finished: bool)
    requires p.Valid() && p.Fits(x) && t in p.g && -1 <= a
  {
    var m := p.maxRetries[t];
    if a == -1 then
      if 1 + m <= 0 then finished && y == Finish(x, t, Failed)
      else !finished && y == Send(x, t, 0)
    else if p.ok(t, a) then finished && y == Finish(x, t, Completed)
    else
      var x' := x.(retries := x.retries[t := a + 1]);
      if a < m then !finished && y == Send(x', t, a + 1)
      else finished && y == Finish(x', t, Failed)
  }

  function Finish(x: State, t: Id, s: Status): State {
    x.(st := x.st[t := s], log := x.log + [Finished(t, s)])
  }

  function Send(x: State, t: Id, a: nat): State {
    x.(st := x.st[t := Running], log := x.log + [Sent(t, a)])
  }

  lemma SoundSend(p: Plan, x: State, t: Id, a: nat)
    requires p.Valid() && p.Fits(x) && p.Sound(x) && t in p.g && p.start[t] == Pending
    requires x.st[t] == Pending || x.st[t] == Running
    requires DepsReported(p.g, p.start, x.log, t)
    ensures p.Sound(Send(x, t, a))
  {
    SafeSendsSnoc(p.g, p.start, x.log, Sent(t, a));
    hide DepsReported, SafeSends;
  }

  lemma SoundFinish(p: Plan, x: State, t: Id, s: Status)
    requires p.Valid() && p.Fits(x) && p.Sound(x) && t in p.g && p.start[t] == Pending
    requires x.st[t] == Pending || x.st[t] == Running
    requires s == Completed || s == Failed
    ensures p.Sound(Finish(x, t, s))
  {
    SafeSendsSnoc(p.g, p.start, x.log, Finished(t, s));
    hide DepsReported, SafeSends;
    assert Finished(t, s) in x.log + [Finished(t, s)];
  }

  // ---------------------------------------------------------------------------
  // A wave: any interleaving of its coroutines
  // ---------------------------------------------------------------------------

  lemma WaveStart(p: Plan, x: State, wave: set<Id>)
    requires p.Valid() && p.Fits(x) && p.Settled(x)
    requires forall t :: t in wave ==> t in p.g && x.st[t] == Pending && DepsCompleted(p.g, x.st, t)
    ensures p.InWave(x, wave, wave, map t | t in wave :: -1, x)
  {
  }

  lemma DepsAreReported(p: Plan, x0: State, wave: set<Id>, active: set<Id>, pc: map<Id, int>, x: State, t: Id)
    requires p.Valid() && p.Fits(x0) && p.Fits(x) && p.InWave(x0, wave, active, pc, x) && t in wave
    ensures DepsReported(p.g, p.start, x.log, t)
  {
    forall d | d in p.g[t] && d in p.g
      ensures p.start[d] == Completed || Finished(d, Completed) in x.log
    {
      assert x0.st[d] == Completed && d !in wave;
    }
  }

  lemma SentTask(p: Plan, t: Id, a: int, x: State)
    requires p.Valid() && p.Fits(x) && t in p.g && -1 <= a < p.maxRetries[t] && p.Underway(x, t, a)
    requires a >= 0 ==> !p.ok(t, a)
    ensures p.Underway(Send(if a < 0 then x else x.(retries := x.retries[t := a + 1]), t, a + 1), t, a + 1)
  {
    SendsSnoc(x.log, Sent(t, a + 1), t);
    assert Upto(a + 2) == Upto(a + 1) + [a + 1];
    assert a < 0 ==> Upto(a + 1) == [];
  }

  lemma AnsweredTask(p: Plan, t: Id, a: nat, x: State)
    requires p.Valid() && p.Fits(x) && t in p.g && p.Underway(x, t, a) && p.ok(t, a)
    ensures p.Executed(Finish(x, t, Completed), t)
  {
    SendsSnoc(x.log, Finished(t, Completed), t);
    FailuresAt(p.ok, t, p.maxRetries[t], a, 0);
  }

  lemma ExhaustedTask(p: Plan, t: Id, x: State)
    requires p.Valid() && p.Fits(x) && t in p.g
    requires 0 <= p.maxRetries[t] && p.Underway(x, t, p.maxRetries[t]) && !p.ok(t, p.maxRetries[t])
    ensures p.Executed(Finish(x.(retries := x.retries[t := p.maxRetries[t] + 1]), t, Failed), t)
  {
    SendsSnoc(x.log, Finished(t, Failed), t);
    FailuresAt(p.ok, t, p.maxRetries[t], p.maxRetries[t] + 1, 0);
  }

  lemma NoAttempts(p: Plan, t: Id, x: State)
    requires p.Valid() && p.Fits(x) && t in p.g && p.maxRetries[t] < 0 && p.Underway(x, t, -1)
    ensures p.Executed(Finish(x, t, Failed), t)
  {
    SendsSnoc(x.log, Finished(t, Failed), t);
  }

  /** What a resumed coroutine does to its own task. */
  lemma ResumedTask(p: Plan, t: Id, a: int, x: State, y: State, finished: bool)
    requires p.Valid() && p.Fits(x) && t in p.g && -1 <= a && p.start[t] == Pending
    requires p.Underway(x, t, a) && Resumed(p, t, a, x, y, finished)
    ensures p.Fits(y)
    ensures finished ==> p.Executed(y, t)
    ensures !finished ==> p.Underway(y, t, a + 1)
  {
    hide Plan.Executed;
    var m := p.maxRetries[t];
    if a >= 0 && p.ok(t, a) {
      AnsweredTask(p, t, a, x);
    } else if a < m {
      SentTask(p, t, a, x);
    } else if a == -1 {
      NoAttempts(p, t, x);
    } else {
      ExhaustedTask(p, t, x);
    }
  }

  /** Other tasks do not notice. */
  lemma ResumedOthers(p: Plan, t: Id, a: int, x: State, y: State, finished: bool, u: Id)
    requires p.Valid() && p.Fits(x) && t in p.g && -1 <= a && Resumed(p, t, a, x, y, finished)
    requires u in p.g && u != t
    ensures p.Fits(y)
    ensures y.st[u] == x.st[u] && y.retries[u] == x.retries[u] && SendsOf(y.log, u) == SendsOf(x.log, u)
  {
    hide SendsOf, Send, Finish;
    if a == -1 {
      if 1 + p.maxRetries[t] <= 0 {
        FinishLeaves(p, x, t, Failed, u);
      } else {
        SendLeaves(p, x, t, 0, u);
      }
    } else if p.ok(t, a) {
      FinishLeaves(p, x, t, Completed, u);
    } else {
      var x' := x.(retries := x.retries[t := a + 1]);
      if a < p.maxRetries[t] {
        SendLeaves(p, x', t, a + 1, u);
      } else {
        FinishLeaves(p, x', t, Failed, u);
      }
    }
  }

  lemma SendLeaves(p: Plan, x: State, t: Id, a: nat, u: Id)
    requires p.Valid() && p.Fits(x) && t in p.g && u in p.g && u != t
    ensures var y := Send(x, t, a);
      p.Fits(y) && y.st[u] == x.st[u] && y.retries[u] == x.retries[u] && SendsOf(y.log, u) == SendsOf(x.log, u)
  {
    hide SendsOf;
    SendsSnoc(x.log, Sent(t, a), u);
  }

  lemma FinishLeaves(p: Plan, x: State, t: Id, s: Status, u: Id)
    requires p.Valid() && p.Fits(x) && t in p.g && u in p.g && u != t
    ensures var y := Finish(x, t, s);
      p.Fits(y) && y.st[u] == x.st[u] && y.retries[u] == x.retries[u] && SendsOf(y.log, u) == SendsOf(x.log, u)
  {
    hide SendsOf;
    SendsSnoc(x.log, Finished(t, s), u);
  }

  lemma ResumedSound(p: Plan, t: Id, a: int, x: State, y: State, finished: bool)
    requires p.Valid() && p.Fits(x) && p.Sound(x) && t in p.g && -1 <= a && p.start[t] == Pending
    requires p.Underway(x, t, a) && Resumed(p, t, a, x, y, finished)
    requires DepsReported(p.g, p.start, x.log, t)
    ensures p.Fits(y) && p.Sound(y)
  {
    UnderwayStatus(p, x, t, a);
    hide DepsReported, Plan.Sound, Plan.Underway;
    if a == -1 {
      if 1 + p.maxRetries[t] <= 0 {
        SoundFinish(p, x, t, Failed);
      } else {
        SoundSend(p, x, t, 0);
      }
    } else if p.ok(t, a) {
      SoundFinish(p, x, t, Completed);
    } else {
      var x' := x.(retries := x.retries[t := a + 1]);
      SoundWithRetries(p, x, x');
      if a < p.maxRetries[t] {
        SoundSend(p, x', t, a + 1);
      } else {
        SoundFinish(p, x', t, Failed);
      }
    }
  }

  lemma UnderwayStatus(p: Plan, x: State, t: Id, a: int)
    requires p.Valid() && p.Fits(x) && t in p.g && p.start[t] == Pending && p.Underway(x, t, a)
    ensures x.st[t] == Pending || x.st[t] == Running
  {
  }

  lemma SoundWithRetries(p: Plan, x: State, y: State)
    requires p.Valid() && p.Fits(x) && p.Sound(x) && p.Fits(y) && y.st == x.st && y.log == x.log
    ensures p.Sound(y)
  {
  }

  lemma SameTask(p: Plan, x: State, y: State, u: Id)
    requires p.Valid() && p.Fits(x) && p.Fits(y) && u in p.g
    requires y.st[u] == x.st[u] && y.retries[u] == x.retries[u] && SendsOf(y.log, u) == SendsOf(x.log, u)
    ensures p.Executed(y, u) == p.Executed(x, u) && p.Untouched(y, u) == p.Untouched(x, u)
    ensures forall a :: p.Underway(y, u, a) == p.Underway(x, u, a)
  {
  }

  lemma ActiveTask(p: Plan, x0: State, wave: set<Id>, active: set<Id>, pc: map<Id, int>, x: State, t: Id)
    requires p.Valid() && p.Fits(x0) && p.Fits(x) && p.InWave(x0, wave, active, pc, x) && t in active
    ensures t in wave && t in p.g && t in pc && p.start[t] == Pending
    ensures p.Sound(x) && p.Underway(x, t, pc[t]) && active <= pc.Keys
  {
  }

  /** Whichever coroutine runs next, the wave stays within its law. */
  lemma WaveStep(p: Plan, x0: State, wave: set<Id>, active: set<Id>, pc: map<Id, int>, x: State,
                 t: Id, y: State, finished: bool)
    requires p.Valid() && p.Fits(x0) && p.Fits(x) && p.InWave(x0, wave, active, pc, x)
    requires t in active && t in p.g && t in pc && -1 <= pc[t] && Resumed(p, t, pc[t], x, y, finished)
    ensures p.Fits(y)
    ensures p.InWave(x0, wave, if finished then active - {t} else active,
                     if finished then pc else pc[t := pc[t] + 1], y)
  {
    hide Plan.Executed, Plan.Underway, Plan.Untouched, Plan.Sound, Plan.Settled, Plan.InWave;
    hide DepsReported, SendsOf, Resumed;
    ActiveTask(p, x0, wave, active, pc, x, t);
    DepsAreReported(p, x0, wave, active, pc, x, t);
    ResumedTask(p, t, pc[t], x, y, finished);
    ResumedSound(p, t, pc[t], x, y, finished);
    forall u | u in p.g && u != t
      ensures y.st[u] == x.st[u] && y.retries[u] == x.retries[u] && SendsOf(y.log, u) == SendsOf(x.log, u)
    {
      ResumedOthers(p, t, pc[t], x, y, finished, u);
    }
    StepKeepsWave(p, x0, wave, active, pc, x, t, y, if finished then active - {t} else active,
                  if finished then pc else pc[t := pc[t] + 1]);
  }

  lemma StepKeepsWave(p: Plan, x0: State, wave: set<Id>, active: set<Id>, pc: map<Id, int>, x: State,
                      t: Id, y: State, active': set<Id>, pc': map<Id, int>)
    requires p.Valid() && p.Fits(x0) && p.Fits(x) && p.InWave(x0, wave, active, pc, x)
    requires t in active && p.Fits(y) && p.Sound(y)
    requires active' <= active <= active' + {t} && active' <= pc'.Keys
    requires if t in active' then p.Underway(y, t, pc'[t]) else p.Executed(y, t)
    requires forall u :: u in active' && u != t ==> pc'[u] == pc[u]
    requires forall u :: u in p.g && u != t ==>
               y.st[u] == x.st[u] && y.retries[u] == x.retries[u] && SendsOf(y.log, u) == SendsOf(x.log, u)
    ensures p.InWave(x0, wave, active', pc', y)
  {
    hide SendsOf, Plan.Executed, Plan.Underway, Plan.Untouched, Plan.Sound, Plan.Settled, DepsCompleted;
    forall u | u in active'
      ensures p.Underway(y, u, pc'[u])
    {
      if u != t {
        SameTask(p, x, y, u);
        assert p.Underway(x, u, pc[u]);
      }
    }
    forall u | u in wave - active'
      ensures p.Executed(y, u)
    {
      if u != t {
        SameTask(p, x, y, u);
        assert p.Executed(x, u);
      }
    }
  }

  /** When no coroutine is left, the run is settled again and exactly the wave has been executed. */
  lemma WaveEnd(p: Plan, x0: State, wave: set<Id>, pc: map<Id, int>, x: State)
    requires p.Valid() && p.Fits(x0) && p.Fits(x) && p.InWave(x0, wave, {}, pc, x)
    ensures p.Settled(x)
    ensures forall t :: t in p.g && t !in wave ==> x.st[t] == x0.st[t]
    ensures forall t :: t in wave ==> x.st[t] == Completed || x.st[t] == Failed
  {
    forall t | t in p.g && t !in wave
      ensures x.st[t] == x0.st[t]
      ensures p.Executed(x, t) == p.Executed(x0, t) && p.Untouched(x, t) == p.Untouched(x0, t)
    {
      SameTask(p, x0, x, t);
    }
    forall t | t in wave ensures p.Executed(x, t) && (x.st[t] == Completed || x.st[t] == Failed) {
    }
    WaveSettles(p, x0, wave, x);
  }

  lemma WaveSettles(p: Plan, x0: State, wave: set<Id>, x: State)
    requires p.Valid() && p.Fits(x0) && p.Fits(x) && p.Settled(x0) && p.Sound(x) && wave <= p.g.Keys
    requires forall t :: t in wave ==> p.start[t] == Pending && x0.st[t] == Pending && DepsCompleted(p.g, x0.st, t)
    requires forall t :: t in wave ==> p.Executed(x, t) && (x.st[t] == Completed || x.st[t] == Failed)
    requires forall t :: t in p.g && t !in wave ==>
               x.st[t] == x0.st[t] && p.Executed(x, t) == p.Executed(x0, t) && p.Untouched(x, t) == p.Untouched(x0, t)
    ensures p.Settled(x)
  {
    hide Plan.Executed, Plan.Untouched, Plan.Sound;
    forall t | t in p.g && p.start[t] == Pending && x.st[t] != Pending ensures DepsCompleted(p.g, x.st, t) {
      assert DepsCompleted(p.g, x0.st, t);
      forall d | d in p.g[t] && d in p.g ensures x.st[d] == Completed {
        assert x0.st[d] == Completed;
      }
    }
  }

  // ---------------------------------------------------------------------------
  // Waves and chains
  // ---------------------------------------------------------------------------

  /** The tasks that a run still has to deal with: the nodes of the execution batches. */
  function Remaining(st: map<Id, Status>): set<Id> {
    set t | t in st && (st[t] == Pending || st[t] == Running)
  }

  ghost predicate WasExecuted(start: map<Id, Status>, st: map<Id, Status>, t: Id) {
    t in start && t in st && start[t] == Pending && (st[t] == Completed || st[t] == Failed)
  }

  /** Wave k has executed exactly the executed tasks of depth k, and an untouched task of a depth
      already passed waits for a dependency that is not COMPLETED. */
  ghost predicate WavesByDepth(p: Plan, rank: map<Id, nat>, st: map<Id, Status>, waves: seq<set<Id>>)
    requires p.Valid() && Ranks(p.g, rank) && st.Keys == p.g.Keys
  {
    var live := Remaining(p.start);
    && (forall k, t :: 0 <= k < |waves| ==>
          (t in waves[k] <==> WasExecuted(p.start, st, t) && Depth(p.g, live, rank, t) == k))
    && (forall t :: WasExecuted(p.start, st, t) ==> Depth(p.g, live, rank, t) < |waves|)
    && (forall t :: t in p.g && st[t] == Pending && p.start[t] == Pending && Depth(p.g, live, rank, t) < |waves| ==>
          !DepsCompleted(p.g, st, t))
  }

  /** A ready task lies exactly as deep as there have been waves. */
  lemma ReadyDepth(p: Plan, rank: map<Id, nat>, x: State, waves: seq<set<Id>>, t: Id)
    requires p.Valid() && Ranks(p.g, rank) && p.Fits(x) && p.Settled(x)
    requires WavesByDepth(p, rank, x.st, waves)
    requires t in p.g && x.st[t] == Pending && DepsCompleted(p.g, x.st, t)
    ensures p.start[t] == Pending && Depth(p.g, Remaining(p.start), rank, t) == |waves|
  {
    hide Depth, Failures, SendsOf, Upto, SafeSends, Reported;
    var live := Remaining(p.start);
    DepthStep(p.g, live, rank, t);
    var n := Depth(p.g, live, rank, t);
    forall d | d in live && d in p.g[t] ensures Depth(p.g, live, rank, d) < |waves| {
      assert x.st[d] == Completed && WasExecuted(p.start, x.st, d);
    }
  }

  /** One more wave of all ready tasks keeps the correspondence between waves and depths. */
  lemma WavesGrow(p: Plan, rank: map<Id, nat>, x: State, y: State, waves: seq<set<Id>>, wave: set<Id>)
    requires p.Valid() && Ranks(p.g, rank) && p.Fits(x) && p.Fits(y) && p.Settled(x)
    requires WavesByDepth(p, rank, x.st, waves)
    requires forall t :: t in wave <==> t in p.g && x.st[t] == Pending && DepsCompleted(p.g, x.st, t)
    requires forall t :: t in p.g && t !in wave ==> y.st[t] == x.st[t]
    requires forall t :: t in wave ==> y.st[t] == Completed || y.st[t] == Failed
    ensures WavesByDepth(p, rank, y.st, waves + [wave])
  {
    hide Depth, Plan.Settled, Plan.Untouched, DepsCompleted;
    var live, all := Remaining(p.start), waves + [wave];
    forall t | t in wave ensures p.start[t] == Pending && Depth(p.g, live, rank, t) == |waves| {
      ReadyDepth(p, rank, x, waves, t);
    }
    forall t
      ensures WasExecuted(p.start, y.st, t) <==> WasExecuted(p.start, x.st, t) || t in wave
    {
    }
    forall k, t | 0 <= k < |all|
      ensures t in all[k] <==> WasExecuted(p.start, y.st, t) && Depth(p.g, live, rank, t) == k
    {
      WaveMember(p, rank, x.st, y.st, waves, wave, t, k);
    }
    forall t | t in p.g && y.st[t] == Pending && p.start[t] == Pending && Depth(p.g, live, rank, t) < |waves| + 1
      ensures !DepsCompleted(p.g, y.st, t)
    {
      StillWaiting(p, rank, x.st, y.st, |waves|, wave, t);
    }
  }

  lemma WaveMember(p: Plan, rank: map<Id, nat>, x: map<Id, Status>, y: map<Id, Status>, waves: seq<set<Id>>,
                   wave: set<Id>, t: Id, k: nat)
    requires p.Valid() && Ranks(p.g, rank) && x.Keys == y.Keys == p.g.Keys && k <= |waves|
    requires WavesByDepth(p, rank, x, waves)
    requires WasExecuted(p.start, y, t) <==> WasExecuted(p.start, x, t) || t in wave
    requires t in wave ==> t in p.g && p.start[t] == Pending && x[t] == Pending
                           && Depth(p.g, Remaining(p.start), rank, t) == |waves|
    ensures t in (waves + [wave])[k] <==>
            WasExecuted(p.start, y, t) && Depth(p.g, Remaining(p.start), rank, t) == k
  {
    hide Depth, DepsCompleted;
    if k < |waves| {
      assert (waves + [wave])[k] == waves[k];
    }
  }

  lemma StillWaiting(p: Plan, rank: map<Id, nat>, x: map<Id, Status>, y: map<Id, Status>, k: nat, wave: set<Id>, t: Id)
    requires p.Valid() && Ranks(p.g, rank) && x.Keys == y.Keys == p.g.Keys && t in p.g && p.start[t] == Pending
    requires !DepsCompleted(p.g, x, t) && Depth(p.g, Remaining(p.start), rank, t) <= k
    requires forall d :: d in p.g && d !in wave ==> y[d] == x[d]
    requires forall d :: d in wave ==> d in Remaining(p.start) && Depth(p.g, Remaining(p.start), rank, d) == k
    ensures !DepsCompleted(p.g, y, t)
  {
    hide Depth;
    DepthStep(p.g, Remaining(p.start), rank, t);
  }

  // ---------------------------------------------------------------------------
  // The whole run
  // ---------------------------------------------------------------------------

  /** Cancelling what is still PENDING. */
  function CancelPending(st: map<Id, Status>): map<Id, Status> {
    map t | t in st :: if st[t] == Pending then Cancelled else st[t]
  }

  /** The tasks with an answered attempt. */
  ghost function Successes(p: Plan): set<Id>
    requires p.Valid()
  {
    set t | t in p.g && Succeeds(p.ok, t, p.maxRetries[t])
  }

  /** A settled state without a ready task, its PENDING tasks cancelled, obeys the law of finished runs. */
  lemma RunEnds(p: Plan, x: State)
    requires p.Valid() && p.Fits(x) && p.Settled(x)
    requires forall t :: t in p.g && x.st[t] == Pending ==> !DepsCompleted(p.g, x.st, t)
    ensures Outcome(p.g, p.start, Successes(p), CancelPending(x.st))
  {
    var succeeds := Successes(p);
    var end := CancelPending(x.st);
    forall t | t in p.g && p.start[t] == Pending
      ensures if DepsCompleted(p.g, end, t) then end[t] == (if t in succeeds then Completed else Failed)
              else end[t] == Cancelled
    {
      assert DepsCompleted(p.g, end, t) == DepsCompleted(p.g, x.st, t);
      SendsBound(p.ok, t, p.maxRetries[t]);
    }
  }

  /** Exactly the executed tasks were sent: attempts 0, 1, ... up to the first answered one, or all
      1 + maxRetries; nothing was sent before its dependencies were COMPLETED. */
  ghost predicate SentAsDue(p: Plan, end: map<Id, Status>, log: seq<Event>)
    requires p.Valid()
  {
    && SafeSends(p.g, p.start, log)
    && (forall d :: Finished(d, Completed) in log ==> d in end && end[d] == Completed)
    && forall t :: t in p.g ==>
         SendsOf(log, t) == if WasExecuted(p.start, end, t) then Upto(Sends(p.ok, t, p.maxRetries[t])) else []
  }

  lemma SendsEnd(p: Plan, x: State)
    requires p.Valid() && p.Fits(x) && p.Settled(x)
    ensures SentAsDue(p, CancelPending(x.st), x.log)
  {
    var end := CancelPending(x.st);
    hide Failures, Upto, SendsOf, SafeSends, DepsCompleted, Sends;
    forall t | t in p.g
      ensures SendsOf(x.log, t) == if WasExecuted(p.start, end, t) then Upto(Sends(p.ok, t, p.maxRetries[t])) else []
    {
      SendsAtEnd(p, x, t);
    }
    hide WasExecuted;
  }

  lemma SendsAtEnd(p: Plan, x: State, t: Id)
    requires p.Valid() && p.Fits(x) && p.Settled(x) && t in p.g
    ensures SendsOf(x.log, t) ==
            if WasExecuted(p.start, CancelPending(x.st), t) then Upto(Sends(p.ok, t, p.maxRetries[t])) else []
  {
    hide Failures, Upto, SendsOf, SafeSends, DepsCompleted, Sends;
    if p.start[t] == Pending && x.st[t] != Pending {
      assert p.Executed(x, t);
    } else {
      assert p.Untouched(x, t);
    }
  }

  /** A task's retry count is the number of its attempts that failed, if any did. */
  ghost predicate RetriesAsDue(p: Plan, end: map<Id, Status>, retries: map<Id, int>)
    requires p.Valid()
  {
    && retries.Keys == p.g.Keys
    && forall t :: t in p.g ==>
         var n := Failures(p.ok, t, p.maxRetries[t]);
         retries[t] == if WasExecuted(p.start, end, t) && n > 0 then n else p.retries[t]
  }

  lemma RetriesEnd(p: Plan, x: State)
    requires p.Valid() && p.Fits(x) && p.Settled(x)
    ensures RetriesAsDue(p, CancelPending(x.st), x.retries)
  {
    hide Failures, SendsOf, SafeSends, DepsCompleted, Sends, Reported;
    forall t | t in p.g
      ensures var n := Failures(p.ok, t, p.maxRetries[t]);
        x.retries[t] == if WasExecuted(p.start, CancelPending(x.st), t) && n > 0 then n else p.retries[t]
    {
      if p.start[t] == Pending && x.st[t] != Pending {
        assert p.Executed(x, t);
      } else {
        assert p.Untouched(x, t);
      }
    }
  }

  lemma {:induction false} UptoHolds(n: nat)
    ensures forall i :: 0 <= i < n ==> Upto(n)[i] == i
  {
    if n > 0 {
      UptoHolds(n - 1);
    }
  }

  /** SendsOf lists the attempts at t in the order of the log. */
  lemma {:induction false} SendsAreLogged(log: seq<Event>, t: Id)
    ensures forall a: nat :: Sent(t, a) in log <==> a in SendsOf(log, t)
    ensures Ascends(SendsOf(log, t)) ==> AttemptsAscend(log, t)
  {
    if log != [] {
      var front, e := log[..|log| - 1], log[|log| - 1];
      SendsAreLogged(front, t);
      assert log == front + [e];
      var s := SendsOf(front, t);
      if Ascends(SendsOf(log, t)) {
        AscendsFront(s, if e.Sent? then e.attempt else 0);
        forall i, j | 0 <= i < j < |log| && AttemptAt(log, i, t) && AttemptAt(log, j, t)
          ensures log[i].attempt < log[j].attempt
        {
          assert log[i] == front[i];
          if j < |front| {
            assert log[j] == front[j] && AttemptAt(front, i, t) && AttemptAt(front, j, t);
          } else {
            assert Sent(t, log[i].attempt) in front;
            var k :| 0 <= k < |s| && s[k] == log[i].attempt;
            assert SendsOf(log, t)[k] < SendsOf(log, t)[|s|];
          }
        }
      }
    }
  }

  predicate Ascends(s: seq<nat>) {
    forall i, j :: 0 <= i < j < |s| ==> s[i] < s[j]
  }

  lemma AscendsFront(s: seq<nat>, x: nat)
    ensures Ascends(s + [x]) ==> Ascends(s)
  {
    assert forall i :: 0 <= i < |s| ==> (s + [x])[i] == s[i];
  }

  predicate AttemptAt(log: seq<Event>, i: nat, t: Id) {
    i < |log| && log[i].Sent? && log[i].t == t
  }

  predicate AttemptsAscend(log: seq<Event>, t: Id) {
    forall i, j :: 0 <= i < j < |log| && AttemptAt(log, i, t) && AttemptAt(log, j, t) ==>
      log[i].attempt < log[j].attempt
  }

  /** Said of the log itself: an attempt at t is sent exactly when the run executed t and all attempts before it,
      within the limit, went unanswered; attempts are sent in order, each once; and what is counted is how many
      failed. */
  lemma SentExactly(p: Plan, end: map<Id, Status>, log: seq<Event>, retries: map<Id, int>, t: Id)
    requires p.Valid() && SentAsDue(p, end, log) && RetriesAsDue(p, end, retries) && t in p.g && t in end
    ensures forall a: nat :: Sent(t, a) in log <==>
              && p.start[t] == Pending && (end[t] == Completed || end[t] == Failed)
              && a <= p.maxRetries[t] && forall b: nat :: b < a ==> !p.ok(t, b)
    ensures AttemptsAscend(log, t)
    ensures p.start[t] == Pending && (end[t] == Completed || end[t] == Failed) ==>
              forall n: nat :: (0 < n <= p.maxRetries[t] + 1 && (forall b: nat :: b < n ==> !p.ok(t, b))
                                && (n == p.maxRetries[t] + 1 || p.ok(t, n))) ==> retries[t] == n
  {
    SendsAreLogged(log, t);
    hide SendsOf;
    var m := p.maxRetries[t];
    var sends := Sends(p.ok, t, m);
    UptoHolds(sends);
    hide Upto;
    assert Ascends(SendsOf(log, t));
    if WasExecuted(p.start, end, t) {
      forall a: nat
        ensures a in Upto(sends) <==> a <= m && forall b: nat :: b < a ==> !p.ok(t, b)
      {
        assert a < sends ==> Upto(sends)[a] == a;
      }
      forall n: nat | 0 < n <= m + 1 && (forall b: nat :: b < n ==> !p.ok(t, b)) && (n == m + 1 || p.ok(t, n))
        ensures retries[t] == n
      {
        FailuresAt(p.ok, t, m, n, 0);
      }
    }
  }

  /** Waves of a finished run: wave k is the set of executed tasks whose longest chain of remaining
      dependencies has length k; none is empty. */
  ghost predicate AreWaves(p: Plan, end: map<Id, Status>, waves: seq<set<Id>>)
    requires p.Valid()
  {
    && (forall k :: 0 <= k < |waves| ==> waves[k] != {})
    && (forall k, t :: 0 <= k < |waves| ==>
          (t in waves[k] <==> WasExecuted(p.start, end, t) && LongestChain(p.g, Remaining(p.start), t, k)))
    && (forall t :: WasExecuted(p.start, end, t) ==> exists k :: 0 <= k < |waves| && t in waves[k])
  }

  lemma WavesEnd(p: Plan, rank: map<Id, nat>, st: map<Id, Status>, waves: seq<set<Id>>)
    requires p.Valid() && Ranks(p.g, rank) && st.Keys == p.g.Keys && WavesByDepth(p, rank, st, waves)
    requires forall k :: 0 <= k < |waves| ==> waves[k] != {}
    ensures AreWaves(p, CancelPending(st), waves)
  {
    hide Depth, LongestChain;
    var live := Remaining(p.start);
    var end := CancelPending(st);
    forall t | t in p.g ensures WasExecuted(p.start, st, t) == WasExecuted(p.start, end, t) {
    }
    forall k, t | 0 <= k < |waves|
      ensures t in waves[k] <==> WasExecuted(p.start, end, t) && LongestChain(p.g, live, t, k)
    {
      if WasExecuted(p.start, st, t) {
        DepthIsLongestChain(p.g, live, rank, t, k);
      }
    }
    forall t | WasExecuted(p.start, end, t) ensures exists k :: 0 <= k < |waves| && t in waves[k] {
      assert t in waves[Depth(p.g, live, rank, t)];
    }
  }

  /** From an all-PENDING start with every send answered, the waves are the execution batches. */
  lemma WavesAreBatches(p: Plan, end: map<Id, Status>, waves: seq<set<Id>>, batches: seq<seq<Id>>)
    requires p.Valid() && Acyclic(p.g) && Outcome(p.g, p.start, Successes(p), end)
    requires forall t :: t in p.g ==> p.start[t] == Pending && Succeeds(p.ok, t, p.maxRetries[t])
    requires AreWaves(p, end, waves) && AreBatches(p.g, Remaining(p.start), batches)
    ensures |waves| == |batches|
    ensures forall k :: 0 <= k < |waves| ==> waves[k] == Elements(batches[k])
  {
    hide LongestChain;
    var rank :| Ranks(p.g, rank);
    forall t | t in p.g ensures WasExecuted(p.start, end, t) {
      AllAnswered(p.g, rank, p.start, Successes(p), end, t);
    }
    forall k, t | 0 <= k < |waves| && 0 <= k < |batches| ensures t in waves[k] <==> t in batches[k] {
      assert t in waves[k] <==> WasExecuted(p.start, end, t) && LongestChain(p.g, Remaining(p.start), t, k);
      assert t in batches[k] <==> t in Remaining(p.start) && LongestChain(p.g, Remaining(p.start), t, k);
      assert t in Remaining(p.start) <==> t in p.g;
      assert WasExecuted(p.start, end, t) ==> t in p.g;
      assert t in p.g ==> WasExecuted(p.start, end, t);
    }
    if |waves| < |batches| {
      var t := batches[|waves|][0];
      assert t in batches[|waves|];
      assert t in Remaining(p.start) && t in p.g;
      assert WasExecuted(p.start, end, t);
      var k :| 0 <= k < |waves| && t in waves[k];
      LongestChainUnique(p.g, Remaining(p.start), t, k, |waves|);
    } else if |waves| > |batches| {
      var t :| t in waves[|batches|];
      assert WasExecuted(p.start, end, t) && t in Remaining(p.start);
      var k :| 0 <= k < |batches| && t in batches[k];
      LongestChainUnique(p.g, Remaining(p.start), t, k, |batches|);
    }
  }
}

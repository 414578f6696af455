/** One subscription of the event bus, on values: its buffer, its floating capacity and what has become
    of every event it accepted. */
module Subscriptions {
  datatype Event = Event(kind: string, source: string, sessionId: string, data: string)

  datatype Filter = Filter(eventTypes: seq<string>, sourceDids: seq<string>, sessionIds: seq<string>) {
    predicate Matches(e: Event) {
      && (eventTypes == [] || e.kind in eventTypes)
      && (sourceDids == [] || e.source in sourceDids)
      && (sessionIds == [] || e.sessionId in sessionIds)
    }
  }

  /** received and dropped count what the code counts; handed, lost and accepted keep the events. */
  datatype Sub = Sub(
    buffer: seq<Event>, closed: bool, waiting: bool, capacity: real, received: nat, dropped: nat,
    handed: seq<Event>, lost: seq<Event>, accepted: seq<Event>)

  function Fresh(maxBuffer: real): Sub {
    Sub([], false, false, maxBuffer, 0, 0, [], [], [])
  }

  function Min(a: real, b: real): real {
    if a < b then a else b
  }

  function Max(a: real, b: real): real {
    if a < b then b else a
  }

  /** _deliver: hand over to a waiting consumer, or buffer, dropping the oldest under backpressure. */
  function Deliver(maxBuffer: real, s: Sub, e: Event): Sub {
    if s.closed then s
    else if s.waiting then
      s.(waiting := false, capacity := Min(maxBuffer, s.capacity + 1.0), received := s.received + 1,
         handed := s.handed + [e], accepted := s.accepted + [e])
    else if |s.buffer| >= s.capacity.Floor then
      s.(capacity := Max(1.0, s.capacity * 0.5), dropped := s.dropped + 1,
         buffer := (if s.buffer == [] then [] else s.buffer[1..]) + [e],
         lost := s.lost + s.buffer[..if s.buffer == [] then 0 else 1], accepted := s.accepted + [e])
    else
      s.(capacity := Min(maxBuffer, s.capacity + 1.0), buffer := s.buffer + [e], accepted := s.accepted + [e])
  }

  /** get: take the oldest buffered event, or wait for the next. */
  function Get(s: Sub): Sub {
    if s.closed then s
    else if s.buffer != [] then
      s.(buffer := s.buffer[1..], received := s.received + 1, handed := s.handed + [s.buffer[0]])
    else s.(waiting := true)
  }

  function Close(s: Sub): Sub {
    s.(closed := true, waiting := false)
  }

  /** c is an interleaving of a and b that keeps the order of both. */
  ghost predicate Interleaves(a: seq<Event>, b: seq<Event>, c: seq<Event>)
    decreases |c|
  {
    if c == [] then a == [] && b == []
    else
      var front, last := c[..|c| - 1], c[|c| - 1];
      || (a != [] && a[|a| - 1] == last && Interleaves(a[..|a| - 1], b, front))
      || (b != [] && b[|b| - 1] == last && Interleaves(a, b[..|b| - 1], front))
  }

  lemma InterleaveMore(a: seq<Event>, b: seq<Event>, c: seq<Event>, e: Event)
    requires Interleaves(a, b, c)
    ensures Interleaves(a + [e], b, c + [e]) && Interleaves(a, b + [e], c + [e])
  {
    assert (c + [e])[..|c|] == c && (a + [e])[..|a|] == a && (b + [e])[..|b|] == b;
  }

  /** Nothing is lost silently and nothing is reordered. */
  ghost predicate Accounted(s: Sub) {
    && |s.handed| == s.received && |s.lost| == s.dropped
    && s.received + s.dropped + |s.buffer| == |s.accepted|
    && s.buffer == s.accepted[|s.accepted| - |s.buffer|..]
    && Interleaves(s.handed, s.lost, s.accepted[..|s.accepted| - |s.buffer|])
  }

  predicate Bounded(maxBuffer: real, s: Sub) {
    && 1.0 <= s.capacity <= maxBuffer
    && |s.buffer| <= maxBuffer.Floor
    && (s.waiting ==> s.buffer == [])
  }

  lemma FreshIsGood(maxBuffer: real)
    requires maxBuffer >= 1.0
    ensures Accounted(Fresh(maxBuffer)) && Bounded(maxBuffer, Fresh(maxBuffer))
  {
  }

  lemma FloorMonotone(a: real, b: real)
    requires a <= b
    ensures a.Floor <= b.Floor
  {
  }

  lemma DeliverBounded(maxBuffer: real, s: Sub, e: Event)
    requires maxBuffer >= 1.0 && Bounded(maxBuffer, s)
    ensures Bounded(maxBuffer, Deliver(maxBuffer, s, e))
  {
    FloorMonotone(1.0, s.capacity);
    FloorMonotone(s.capacity, maxBuffer);
  }

  /** Moving the oldest buffered event out of the buffer. */
  lemma Shift(s: Sub)
    requires Accounted(s) && s.buffer != []
    ensures var n := |s.accepted| - |s.buffer|;
      && s.accepted[..n + 1] == s.accepted[..n] + [s.buffer[0]]
      && s.accepted[n + 1..] == s.buffer[1..]
      && Interleaves(s.handed + [s.buffer[0]], s.lost, s.accepted[..n + 1])
      && Interleaves(s.handed, s.lost + [s.buffer[0]], s.accepted[..n + 1])
  {
    var n := |s.accepted| - |s.buffer|;
    assert s.accepted[n] == s.buffer[0];
    InterleaveMore(s.handed, s.lost, s.accepted[..n], s.buffer[0]);
  }

  lemma AppendAccepted(s: Sub, e: Event, n: nat)
    requires n <= |s.accepted|
    ensures (s.accepted + [e])[..n] == s.accepted[..n]
    ensures (s.accepted + [e])[n..] == s.accepted[n..] + [e]
  {
  }

  lemma {:induction false} HandOverAccounted(s: Sub, e: Event, capacity: real)
    requires Accounted(s) && s.buffer == []
    ensures Accounted(s.(waiting := false, capacity := capacity, received := s.received + 1,
                         handed := s.handed + [e], accepted := s.accepted + [e]))
  {
    hide Interleaves;
    var more := s.accepted + [e];
    assert s.accepted[..|s.accepted|] == s.accepted && more[..|more|] == more && more[|more|..] == [];
    InterleaveMore(s.handed, s.lost, s.accepted, e);
  }

  lemma BufferAccounted(s: Sub, e: Event, capacity: real)
    requires Accounted(s)
    ensures Accounted(s.(capacity := capacity, buffer := s.buffer + [e], accepted := s.accepted + [e]))
  {
    hide Interleaves;
    AppendAccepted(s, e, |s.accepted| - |s.buffer|);
  }

  lemma DropAccounted(s: Sub)
    requires Accounted(s) && s.buffer != []
    ensures Accounted(s.(dropped := s.dropped + 1, buffer := s.buffer[1..], lost := s.lost + s.buffer[..1]))
  {
    hide Interleaves;
    Shift(s);
    assert s.buffer[..1] == [s.buffer[0]];
  }

  lemma DeliverAccounted(maxBuffer: real, s: Sub, e: Event)
    requires maxBuffer >= 1.0 && Accounted(s) && Bounded(maxBuffer, s)
    ensures Accounted(Deliver(maxBuffer, s, e))
  {
    hide Accounted;
    FloorMonotone(1.0, s.capacity);
    if s.closed {
    } else if s.waiting {
      HandOverAccounted(s, e, Min(maxBuffer, s.capacity + 1.0));
    } else if |s.buffer| >= s.capacity.Floor {
      DropAccounted(s);
      var t := s.(dropped := s.dropped + 1, buffer := s.buffer[1..], lost := s.lost + s.buffer[..1]);
      BufferAccounted(t, e, Max(1.0, s.capacity * 0.5));
    } else {
      BufferAccounted(s, e, Min(maxBuffer, s.capacity + 1.0));
    }
  }

  lemma GetGood(maxBuffer: real, s: Sub)
    requires Accounted(s) && Bounded(maxBuffer, s)
    ensures Accounted(Get(s)) && Bounded(maxBuffer, Get(s)) && Get(s).accepted == s.accepted
  {
    hide Interleaves;
    if !s.closed && s.buffer != [] {
      Shift(s);
    }
  }

  // ---------------------------------------------------------------------------
  // Runs
  // ---------------------------------------------------------------------------

  datatype Op = Offer(e: Event) | Take | Shut

  function Apply(maxBuffer: real, s: Sub, op: Op): Sub {
    match op
    case Offer(e) => Deliver(maxBuffer, s, e)
    case Take => Get(s)
    case Shut => Close(s)
  }

  function Run(maxBuffer: real, ops: seq<Op>): Sub {
    if ops == [] then Fresh(maxBuffer) else Apply(maxBuffer, Run(maxBuffer, ops[..|ops| - 1]), ops[|ops| - 1])
  }

  /** The events offered in front of the first close. */
  function Offered(ops: seq<Op>): seq<Event> {
    if ops == [] then []
    else
      var front := ops[..|ops| - 1];
      if ops[|ops| - 1].Offer? && Shut !in front then Offered(front) + [ops[|ops| - 1].e] else Offered(front)
  }

  /** In every run: the accepted stream is everything offered before the close, and each accepted event
      was handed over, dropped, or is buffered, in order. */
  lemma {:induction false} EveryRun(maxBuffer: real, ops: seq<Op>)
    requires maxBuffer >= 1.0
    ensures var s := Run(maxBuffer, ops);
      Accounted(s) && Bounded(maxBuffer, s) && s.accepted == Offered(ops) && s.closed == (Shut in ops)
  {
    hide Accounted, Bounded, Deliver, Get;
    if ops == [] {
      FreshIsGood(maxBuffer);
    } else {
      var front, op := ops[..|ops| - 1], ops[|ops| - 1];
      assert ops == front + [op];
      EveryRun(maxBuffer, front);
      var s := Run(maxBuffer, front);
      match op {
        case Offer(e) =>
          DeliverAccounted(maxBuffer, s, e);
          DeliverBounded(maxBuffer, s, e);
          DeliverAccepts(maxBuffer, s, e);
        case Take =>
          GetGood(maxBuffer, s);
          GetKeepsOpen(s);
        case Shut => CloseGood(maxBuffer, s);
      }
    }
  }

  lemma DeliverAccepts(maxBuffer: real, s: Sub, e: Event)
    ensures Deliver(maxBuffer, s, e).closed == s.closed
    ensures Deliver(maxBuffer, s, e).accepted == if s.closed then s.accepted else s.accepted + [e]
  {
  }

  lemma GetKeepsOpen(s: Sub)
    ensures Get(s).closed == s.closed
  {
  }

  lemma CloseGood(maxBuffer: real, s: Sub)
    requires Accounted(s) && Bounded(maxBuffer, s)
    ensures Accounted(Close(s)) && Bounded(maxBuffer, Close(s)) && Close(s).accepted == s.accepted
  {
  }

  /** A buffer limit below one breaks the accounts with the first event: it counts a drop though nothing
      was dropped. The limit decides this exactly. */
  lemma AccountsNeedRoomForOne(maxBuffer: real, e: Event)
    ensures var s := Deliver(maxBuffer, Fresh(maxBuffer), e);
      s.received + s.dropped + |s.buffer| == |s.accepted| <==> maxBuffer >= 1.0
  {
    if maxBuffer >= 1.0 {
      FloorMonotone(1.0, maxBuffer);
    } else {
      FloorMonotone(maxBuffer, 1.0);
    }
  }

  /** Halving the capacity does not shrink the buffer: a delivery to an open subscription without a waiter leaves
      it above the effective limit exactly when the buffer was full and is longer than half the capacity. */
  lemma DeliveryExceedsLimitIff(maxBuffer: real, s: Sub, e: Event)
    requires maxBuffer >= 1.0 && Bounded(maxBuffer, s) && !s.closed && !s.waiting
    ensures var t := Deliver(maxBuffer, s, e);
      |t.buffer| > t.capacity.Floor <==>
      |s.buffer| >= s.capacity.Floor && |s.buffer| > Max(1.0, s.capacity * 0.5).Floor
  {
    FloorMonotone(1.0, s.capacity);
    if |s.buffer| < s.capacity.Floor {
      FloorMonotone(s.capacity, Min(maxBuffer, s.capacity + 1.0));
    }
  }

  /** Five events in a row do it with room for four: four stay buffered under an effective limit of two. */
  lemma BufferMayExceedLimit(e: Event)
    ensures var s := Run(4.0, [Offer(e), Offer(e), Offer(e), Offer(e), Offer(e)]);
      |s.buffer| == 4 && s.capacity.Floor == 2
  {
    var o := Offer(e);
    var r0 := Run(4.0, []);
    assert [o][..0] == [] && [o, o][..1] == [o] && [o, o, o][..2] == [o, o];
    assert [o, o, o, o][..3] == [o, o, o] && [o, o, o, o, o][..4] == [o, o, o, o];
    assert Run(4.0, [o]) == Apply(4.0, r0, o) && Run(4.0, [o, o]) == Apply(4.0, Run(4.0, [o]), o);
    assert Run(4.0, [o, o, o]) == Apply(4.0, Run(4.0, [o, o]), o);
    assert Run(4.0, [o, o, o, o]) == Apply(4.0, Run(4.0, [o, o, o]), o);
  }

  // ---------------------------------------------------------------------------
  // After a close
  // ---------------------------------------------------------------------------

  /** A closed subscription changes no more: what it holds is neither handed over nor counted as dropped. */
  lemma ClosedIsFixed(maxBuffer: real, s: Sub, op: Op)
    requires s.closed && !s.waiting
    ensures Apply(maxBuffer, s, op) == s
  {
  }

  lemma {:induction false} ClosedDoesNotWait(maxBuffer: real, ops: seq<Op>)
    ensures Run(maxBuffer, ops).closed ==> !Run(maxBuffer, ops).waiting
  {
    if ops != [] {
      ClosedDoesNotWait(maxBuffer, ops[..|ops| - 1]);
    }
  }

  lemma {:induction false} FixedSinceClose(maxBuffer: real, ops: seq<Op>, more: seq<Op>)
    ensures Run(maxBuffer, ops + [Shut] + more) == Run(maxBuffer, ops + [Shut])
    decreases |more|
  {
    hide Apply;
    var shut := ops + [Shut];
    if more == [] {
      assert shut + more == shut;
    } else {
      var front, last := more[..|more| - 1], more[|more| - 1];
      var all := shut + more;
      assert all[..|all| - 1] == shut + front && all[|all| - 1] == last;
      FixedSinceClose(maxBuffer, ops, front);
      ClosedDoesNotWait(maxBuffer, shut);
      ShutCloses(maxBuffer, ops);
      ClosedIsFixed(maxBuffer, Run(maxBuffer, shut), last);
    }
  }

  lemma ShutCloses(maxBuffer: real, ops: seq<Op>)
    ensures Run(maxBuffer, ops + [Shut]) == Close(Run(maxBuffer, ops))
  {
    assert (ops + [Shut])[..|ops|] == ops;
  }

  /** Everything accepted ends up received or dropped exactly when the buffer was empty at the close: what was
      buffered then is never handed over and never counted. */
  lemma SettledIffEmptyAtClose(maxBuffer: real, ops: seq<Op>, more: seq<Op>)
    requires maxBuffer >= 1.0
    ensures var before, after := Run(maxBuffer, ops), Run(maxBuffer, ops + [Shut] + more);
      && after.handed == before.handed && after.lost == before.lost && after.buffer == before.buffer
      && (after.received + after.dropped == |after.accepted| <==> before.buffer == [])
  {
    hide Run, Accounted;
    FixedSinceClose(maxBuffer, ops, more);
    ShutCloses(maxBuffer, ops);
    EveryRun(maxBuffer, ops + [Shut]);
    AccountsAddUp(Run(maxBuffer, ops + [Shut]));
  }

  lemma AccountsAddUp(s: Sub)
    requires Accounted(s)
    ensures s.received + s.dropped + |s.buffer| == |s.accepted|
  {
  }
}

/** The event bus and its subscriptions as the objects the program keeps. */
module EventBuses {
  import opened Wrappers
  import opened Subscriptions

  datatype Reply = Got(event: Event) | Waiting | Ended

  /** The events a filter lets through, in order. */
  function Matching(f: Filter, events: seq<Event>): seq<Event> {
    if events == [] then []
    else
      var front := Matching(f, events[..|events| - 1]);
      if f.Matches(events[|events| - 1]) then front + [events[|events| - 1]] else front
  }

  lemma MatchingMore(f: Filter, events: seq<Event>, e: Event)
    ensures Matching(f, events + [e]) == if f.Matches(e) then Matching(f, events) + [e] else Matching(f, events)
  {
    assert (events + [e])[..|events|] == events;
  }

  /** Where the last size events begin. */
  function WindowStart(size: int, n: nat): nat {
    if size <= 0 then n else if n <= size then 0 else n - size
  }

  /** The subscriptions registered under another id. */
  function Without(subs: seq<Subscription>, id: nat): seq<Subscription> {
    if subs == [] then [] else (if subs[0].id == id then [] else [subs[0]]) + Without(subs[1..], id)
  }

  predicate Distinct(subs: seq<Subscription>) {
    forall i, j :: 0 <= i < j < |subs| ==> subs[i] != subs[j]
  }

  lemma {:induction false} WithoutDrops(subs: seq<Subscription>, id: nat)
    ensures var rest := Without(subs, id);
      && (forall k :: 0 <= k < |rest| ==> rest[k] in subs && rest[k].id != id)
      && (forall k :: 0 <= k < |subs| && subs[k].id != id ==> subs[k] in rest)
      && (Distinct(subs) ==> Distinct(rest))
      && |rest| <= |subs| && (|subs| > 0 && subs[0].id == id ==> |rest| < |subs|)
  {
    if subs != [] {
      WithoutDrops(subs[1..], id);
      assert subs == [subs[0]] + subs[1..];
    }
  }

  lemma DistinctMore(subs: seq<Subscription>, s: Subscription)
    requires Distinct(subs) && s !in subs
    ensures Distinct(subs + [s])
  {
  }

  /** How many of the subscriptions an event reaches. */
  ghost function Reached(subs: seq<Subscription>, e: Event): nat
  {
    if subs == [] then 0
    else Reached(subs[..|subs| - 1], e) + if subs[|subs| - 1].filter.Matches(e) then 1 else 0
  }

  /** What a filter lets through: an empty list asks for nothing, any other must name the event's value. */
  predicate LetsThrough(f: Filter, e: Event) {
    && (|f.eventTypes| > 0 ==> exists i :: 0 <= i < |f.eventTypes| && f.eventTypes[i] == e.kind)
    && (|f.sourceDids| > 0 ==> exists i :: 0 <= i < |f.sourceDids| && f.sourceDids[i] == e.source)
    && (|f.sessionIds| > 0 ==> exists i :: 0 <= i < |f.sessionIds| && f.sessionIds[i] == e.sessionId)
  }

  lemma LetsThroughIs(f: Filter, e: Event)
    ensures f.Matches(e) <==> LetsThrough(f, e)
  {
  }

  lemma {:induction false} ReachedIs(subs: seq<Subscription>, e: Event)
    ensures Reached(subs, e) == |set i | 0 <= i < |subs| && LetsThrough(subs[i].filter, e)|
  {
    hide LetsThrough, Filter.Matches;
    if subs != [] {
      var n := |subs| - 1;
      var front := subs[..n];
      ReachedIs(front, e);
      LetsThroughIs(subs[n].filter, e);
      var few := set i | 0 <= i < |front| && LetsThrough(front[i].filter, e);
      var all := set i | 0 <= i < |subs| && LetsThrough(subs[i].filter, e);
      assert all == few + if LetsThrough(subs[n].filter, e) then {n} else {};
    }
  }

  class Subscription {
    const id: nat
    const filter: Filter
    const bus: EventBus
    const maxBuffer: real
    var buffer: seq<Event>
    var closed: bool
    var waiting: bool
    var capacity: real
    var eventsReceived: nat
    var eventsDropped: nat
    // What became of the accepted events, and which stretch of the bus's stream this subscription covers.
    ghost var handed: seq<Event>
    ghost var lost: seq<Event>
    ghost var accepted: seq<Event>
    ghost const from: nat
    ghost var until: nat

    ghost function State(): Sub
      reads this
    {
      Sub(buffer, closed, waiting, capacity, eventsReceived, eventsDropped, handed, lost, accepted)
    }

    /** With room for one event, everything accepted is accounted for and the bounds hold. */
    ghost predicate Good()
      reads this
    {
      && (closed ==> !waiting)
      && (maxBuffer >= 1.0 ==> Accounted(State()) && Bounded(maxBuffer, State()))
    }

    /** The accepted events are the matching part of one unbroken stretch of what was published. */
    ghost predicate Covers(published: seq<Event>)
      reads this
    {
      var end := if closed then until else |published|;
      from <= end <= |published| && accepted == Matching(filter, published[from..end])
    }

    /** What publishing an event makes of a subscription. */
    ghost function After(e: Event, registered: bool, before: Sub): Sub {
      if registered && filter.Matches(e) then Subscriptions.Deliver(maxBuffer, before, e) else before
    }

    ghost predicate Took(e: Event, before: Sub, untilBefore: nat)
      reads this
    {
      State() == After(e, true, before) && until == untilBefore && Good()
    }

    constructor (id: nat, filter: Filter, bus: EventBus, maxBuffer: real, ghost from: nat)
      ensures this.id == id && this.filter == filter && this.bus == bus && this.maxBuffer == maxBuffer
      ensures this.from == from && State() == Fresh(maxBuffer) && Good()
      ensures buffer == [] && capacity == maxBuffer && !closed && !waiting && eventsReceived == eventsDropped == 0
    {
      this.id, this.filter, this.bus, this.maxBuffer, this.from := id, filter, bus, maxBuffer, from;
      buffer, closed, waiting, capacity, eventsReceived, eventsDropped := [], false, false, maxBuffer, 0, 0;
      handed, lost, accepted := [], [], [];
      new;
      if maxBuffer >= 1.0 {
        FreshIsGood(maxBuffer);
      }
    }

    method Deliver(e: Event) returns (taken: bool)
      requires Good()
      modifies this
      ensures State() == Subscriptions.Deliver(maxBuffer, old(State()), e) && until == old(until)
      ensures taken == !old(closed) && Good()
      ensures !taken ==> unchanged(this)
      ensures taken && old(waiting) ==>
                && !waiting && handed == old(handed) + [e] && eventsReceived == old(eventsReceived) + 1
                && buffer == old(buffer) && eventsDropped == old(eventsDropped)
      ensures taken && !old(waiting) && |old(buffer)| < old(capacity).Floor ==>
                buffer == old(buffer) + [e] && handed == old(handed) && eventsDropped == old(eventsDropped)
      ensures taken && (old(waiting) || |old(buffer)| < old(capacity).Floor) ==>
                capacity == if old(capacity) + 1.0 <= maxBuffer then old(capacity) + 1.0 else maxBuffer
      ensures taken && !old(waiting) && |old(buffer)| >= old(capacity).Floor ==>
                && buffer == (if old(buffer) == [] then [] else old(buffer)[1..]) + [e]
                && eventsDropped == old(eventsDropped) + 1 && handed == old(handed)
                && capacity == if old(capacity) / 2.0 >= 1.0 then old(capacity) / 2.0 else 1.0
      ensures closed == old(closed) && accepted == old(accepted) + if taken then [e] else []
    {
      ghost var before := State();
      if closed {
        return false;
      }
      accepted := accepted + [e];
      if waiting {
        waiting := false;
        capacity := Min(maxBuffer, capacity + 1.0);
        eventsReceived := eventsReceived + 1;
        handed := handed + [e];
      } else {
        if |buffer| >= capacity.Floor {
          capacity := Max(1.0, capacity * 0.5);
          if |buffer| > 0 {
            lost := lost + buffer[..1];
            buffer := buffer[1..];
          }
          eventsDropped := eventsDropped + 1;
        } else {
          capacity := Min(maxBuffer, capacity + 1.0);
        }
        buffer := buffer + [e];
      }
      assert State() == Subscriptions.Deliver(maxBuffer, before, e);
      DeliverIsGood(maxBuffer, before, e);
      return true;
    }

    /** The replay loop of Subscribe: offer the events of a window, oldest first. */
    method Replay(window: seq<Event>)
      requires Good() && !closed && accepted == []
      modifies this
      ensures Good() && !closed && accepted == Matching(filter, window)
    {
      hide Accounted, Bounded, Subscriptions.Deliver, Filter.Matches;
      var i := 0;
      while i < |window|
        invariant 0 <= i <= |window| && Good() && !closed
        invariant accepted == Matching(filter, window[..i])
      {
        MatchingMore(filter, window[..i], window[i]);
        assert window[..i + 1] == window[..i] + [window[i]];
        if filter.Matches(window[i]) {
          var _ := Deliver(window[i]);
        }
        i := i + 1;
      }
      assert window[..i] == window;
    }

    method Get() returns (r: Reply)
      requires bus.Valid() && this in bus.all
      modifies this
      ensures State() == Subscriptions.Get(old(State()))
      ensures r == if old(closed) then Ended else if old(buffer) != [] then Got(old(buffer)[0]) else Waiting
      ensures r.Got? ==>
                buffer == old(buffer)[1..] && eventsReceived == old(eventsReceived) + 1 && waiting == old(waiting)
      ensures r.Waiting? ==> waiting && buffer == old(buffer) && eventsReceived == old(eventsReceived)
      ensures r.Ended? ==> State() == old(State())
      ensures bus.Valid()
    {
      ghost var before := State();
      if maxBuffer >= 1.0 {
        GetGood(maxBuffer, before);
      }
      if closed {
        return Ended;
      }
      if |buffer| > 0 {
        eventsReceived := eventsReceived + 1;
        r := Got(buffer[0]);
        handed := handed + [buffer[0]];
        buffer := buffer[1..];
      } else {
        waiting := true;
        r := Waiting;
      }
      assert State() == Subscriptions.Get(before);
      assert Good() && Covers(bus.published);
    }

    method Close()
      requires bus.Valid() && this in bus.all
      modifies this, bus`subscriptions
      ensures State() == Subscriptions.Close(old(State())) && bus.Valid()
      ensures closed && !waiting && buffer == old(buffer) && accepted == old(accepted)
      ensures bus.subscriptions == if old(closed) then old(bus.subscriptions) else Without(old(bus.subscriptions), id)
    {
      hide Accounted, Bounded, Matching, Without, Distinct;
      assert forall s :: s in bus.all && s.id == id ==> s == this;
      ghost var before := State();
      if maxBuffer >= 1.0 {
        CloseGood(maxBuffer, before);
      }
      if !closed {
        closed := true;
        until := |bus.published|;
        waiting := false;
        WithoutDrops(bus.subscriptions, id);
        bus.Unsubscribe(id);
      }
      assert State() == Subscriptions.Close(before);
      assert Good() && Covers(bus.published);
      assert forall s :: s in bus.subscriptions ==> s in bus.all && !s.closed;
    }
  }

  lemma DeliverIsGood(maxBuffer: real, s: Sub, e: Event)
    ensures maxBuffer >= 1.0 && Accounted(s) && Bounded(maxBuffer, s)
      ==> Accounted(Subscriptions.Deliver(maxBuffer, s, e))
          && Bounded(maxBuffer, Subscriptions.Deliver(maxBuffer, s, e))
  {
    if maxBuffer >= 1.0 && Accounted(s) && Bounded(maxBuffer, s) {
      DeliverAccounted(maxBuffer, s, e);
      DeliverBounded(maxBuffer, s, e);
    }
  }

  /** One more published event extends the stretch of an open subscription and leaves a closed one's alone. */
  lemma StretchGrows(f: Filter, published: seq<Event>, e: Event, from: nat, end: nat)
    requires from <= end <= |published|
    ensures (published + [e])[from..end] == published[from..end]
    ensures Matching(f, (published + [e])[from..]) ==
            if f.Matches(e) then Matching(f, published[from..]) + [e] else Matching(f, published[from..])
  {
    assert (published + [e])[from..] == published[from..] + [e];
    MatchingMore(f, published[from..], e);
  }

  lemma TookCovers(s: Subscription, published: seq<Event>, e: Event, before: Sub, untilBefore: nat)
    requires s.from <= (if before.closed then untilBefore else |published|) <= |published|
    requires before.accepted ==
             Matching(s.filter, published[s.from..if before.closed then untilBefore else |published|])
    requires s.State() == s.After(e, !before.closed, before) && s.until == untilBefore
    ensures s.Covers(published + [e])
  {
    hide Accounted, Bounded, Matching, Filter.Matches;
    StretchGrows(s.filter, published, e, s.from, if before.closed then untilBefore else |published|);
    assert published[s.from..|published|] == published[s.from..];
    assert (published + [e])[s.from..|published + [e]|] == (published + [e])[s.from..];
  }

  lemma AfterKeepsOpen(s: Subscription, e: Event, before: Sub)
    ensures s.After(e, true, before).closed == before.closed == s.After(e, false, before).closed
  {
    DeliverAccepts(s.maxBuffer, before, e);
  }

  /** What publishing makes of a subscription, said of its filter's lists: registered ones take what they let
      through. */
  lemma AfterAccepts(s: Subscription, e: Event, registered: bool, before: Sub)
    requires registered ==> !before.closed
    ensures s.After(e, registered, before).accepted ==
            before.accepted + if registered && LetsThrough(s.filter, e) then [e] else []
    ensures !(registered && LetsThrough(s.filter, e)) ==> s.After(e, registered, before) == before
  {
    LetsThroughIs(s.filter, e);
    DeliverAccepts(s.maxBuffer, before, e);
    assert before.accepted + [] == before.accepted;
  }

  lemma CoversMeans(s: Subscription, published: seq<Event>, e: Event)
    requires s.Covers(published)
    ensures s.from <= (if s.closed then s.until else |published|) <= |published|
    ensures s.accepted == Matching(s.filter, published[s.from..if s.closed then s.until else |published|])
    ensures s.After(e, false, s.State()) == s.State()
  {
  }

  lemma CoversFrom(s: Subscription, published: seq<Event>)
    requires !s.closed && s.from <= |published| && s.accepted == Matching(s.filter, published[s.from..])
    ensures s.Covers(published)
  {
    assert published[s.from..] == published[s.from..|published|];
  }

  /** Appending to the replay window and dropping its first event when it is over full gives the next window. */
  lemma WindowMoves(published: seq<Event>, e: Event, size: int)
    ensures var window := published[WindowStart(size, |published|)..] + [e];
      (if |window| > size then window[1..] else window)
      == (published + [e])[WindowStart(size, |published + [e]|)..]
  {
    var start := WindowStart(size, |published|);
    var more := published + [e];
    assert published[start..] + [e] == more[start..];
    assert |more[start..]| > 0 && more[start..][1..] == more[start + 1..];
  }

  class EventBus {
    const maxBuffer: real
    const replaySize: int
    // The map from ids to subscriptions, as its values in insertion order: each is stored under its own id.
    var subscriptions: seq<Subscription>
    var replayBuffer: seq<Event>
    var eventCount: nat
    var counter: nat
    // Everything published, and every subscription ever made.
    ghost var published: seq<Event>
    ghost var all: set<Subscription>

    ghost predicate Valid()
      reads this, all
    {
      && Distinct(subscriptions)
      && (forall s :: s in all ==> s.bus == this && s.id <= counter && s.Good() && s.Covers(published))
      && (forall s, t :: s in all && t in all && s.id == t.id ==> s == t)
      && (forall s :: s in subscriptions ==> s in all && !s.closed)
      && (forall s :: s in all && !s.closed ==> s in subscriptions)
      && replayBuffer == published[WindowStart(replaySize, |published|)..] && eventCount == |published|
    }

    constructor (maxBuffer: real, replaySize: int)
      ensures Valid() && published == [] && all == {}
      ensures this.maxBuffer == maxBuffer && this.replaySize == replaySize
    {
      hide Accounted, Bounded, Matching;
      this.maxBuffer, this.replaySize := maxBuffer, replaySize;
      subscriptions, replayBuffer, eventCount, counter := [], [], 0, 0;
      published, all := [], {};
    }

    /** With replay the new subscription's stretch starts replaySize events back; without, at the next event. */
    method Subscribe(filter: Filter, bufferSize: Option<real>, replay: bool) returns (sub: Subscription)
      requires Valid()
      modifies this`counter, this`subscriptions, this`all
      ensures Valid() && fresh(sub) && all == old(all) + {sub} && subscriptions == old(subscriptions) + [sub]
      ensures sub.filter == filter && sub.maxBuffer == if bufferSize.Some? then bufferSize.value else maxBuffer
      ensures sub.from == if replay then WindowStart(replaySize, |published|) else |published|
      ensures !sub.closed && sub.accepted == if replay then Matching(filter, replayBuffer) else []
      ensures replayBuffer == published[|published| - |replayBuffer|..]
      ensures |replayBuffer| ==
              if replaySize <= 0 then 0 else if |published| <= replaySize then |published| else replaySize
    {
      hide Accounted, Bounded, Subscriptions.Deliver, Filter.Matches, Distinct;
      hide Subscription.Good, Subscription.Covers;
      counter := counter + 1;
      ghost var from := if replay then WindowStart(replaySize, |published|) else |published|;
      sub := new Subscription(counter, filter, this, if bufferSize.Some? then bufferSize.value else maxBuffer, from);
      if replay {
        sub.Replay(replayBuffer);
      }
      CoversFrom(sub, published);
      DistinctMore(subscriptions, sub);
      subscriptions := subscriptions + [sub];
      all := all + {sub};
    }

    /** The loop of Publish. */
    method Offer(e: Event) returns (delivered: nat)
      requires Distinct(subscriptions)
      requires forall j :: 0 <= j < |subscriptions| ==> !subscriptions[j].closed && subscriptions[j].Good()
      modifies subscriptions
      ensures delivered == Reached(subscriptions, e)
      ensures forall s :: s in subscriptions ==> s.Took(e, old(s.State()), old(s.until))
    {
      hide Accounted, Bounded, Subscriptions.Deliver, Filter.Matches;
      delivered := 0;
      var i := 0;
      while i < |subscriptions|
        invariant 0 <= i <= |subscriptions| && delivered == Reached(subscriptions[..i], e)
        invariant forall j :: i <= j < |subscriptions| ==> unchanged(subscriptions[j])
        invariant forall j :: 0 <= j < i ==>
          subscriptions[j].Took(e, old(subscriptions[j].State()), old(subscriptions[j].until))
      {
        var sub := subscriptions[i];
        if !sub.closed && sub.filter.Matches(e) {
          var taken := sub.Deliver(e);
          if taken { delivered := delivered + 1; }
        }
        assert subscriptions[..i + 1] == subscriptions[..i] + [sub];
        i := i + 1;
      }
      assert subscriptions[..i] == subscriptions;
    }

    /** Every open subscription whose filter matches takes the event, and nothing else changes. */
    method Publish(e: Event) returns (delivered: nat)
      requires Valid()
      modifies this`eventCount, this`replayBuffer, this`published, subscriptions
      ensures Valid() && published == old(published) + [e]
      ensures delivered == Reached(subscriptions, e)
      ensures forall s :: s in all ==> s.State() == s.After(e, s in subscriptions, old(s.State()))
    {
      hide Accounted, Bounded, Matching, Distinct, WindowStart, Filter.Matches, Reached;
      hide Subscription.Good, Subscription.Covers, Subscription.After;
      WindowMoves(published, e, replaySize);
      forall s | s in all
        ensures s.from <= (if s.closed then s.until else |published|) <= |published|
        ensures s.accepted == Matching(s.filter, published[s.from..if s.closed then s.until else |published|])
        ensures s.After(e, false, s.State()) == s.State()
      {
        CoversMeans(s, published, e);
      }
      eventCount := eventCount + 1;
      published := published + [e];
      replayBuffer := replayBuffer + [e];
      if |replayBuffer| > replaySize {
        replayBuffer := replayBuffer[1..];
      }
      delivered := Offer(e);
      forall s | s in all
        ensures s.Good() && s.Covers(published) && s.closed == old(s.closed)
      {
        AfterKeepsOpen(s, e, old(s.State()));
        TookCovers(s, old(published), e, old(s.State()), old(s.until));
      }
    }

    method Unsubscribe(id: nat)
      modifies this`subscriptions
      ensures subscriptions == Without(old(subscriptions), id)
    {
      subscriptions := Without(subscriptions, id);
    }

    method CloseAll()
      requires Valid()
      modifies this`subscriptions, subscriptions
      ensures Valid() && subscriptions == [] && forall s :: s in all ==> s.closed
      ensures forall s :: s in all ==> s.State() == old(s.State()).(closed := true, waiting := false)
    {
      while |subscriptions| > 0
        invariant Valid()
        invariant forall s :: s in subscriptions ==> s in old(subscriptions)
        invariant forall s :: s in all ==>
          s.State() == old(s.State()) || s.State() == Subscriptions.Close(old(s.State()))
        decreases |subscriptions|
      {
        var sub := subscriptions[0];
        assert sub in all && sub.bus == this;
        WithoutDrops(subscriptions, sub.id);
        sub.Close();
      }
    }
  }
}

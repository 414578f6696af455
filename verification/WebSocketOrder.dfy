/** What is taken, and in which order, over whole runs of a WebSocket connection. */
module WebSocketOrder {
  import opened WebSocketFrames
  import opened WebSocketEndpoints
  import opened WebSocketSessions

  /** What the handler of one chunk took. */
  function Of(taken: seq<Taken>, chunk: nat): seq<bytes> {
    if taken == [] then []
    else
      var front, last := Of(taken[..|taken| - 1], chunk), taken[|taken| - 1];
      if last.chunk == chunk then front + [last.text] else front
  }

  function Texts(taken: seq<Taken>): (texts: seq<bytes>)
    ensures |texts| == |taken| && forall i :: 0 <= i < |taken| ==> texts[i] == taken[i].text
  {
    seq(|taken|, i requires 0 <= i < |taken| => taken[i].text)
  }

  lemma OfMore(taken: seq<Taken>, t: Taken, chunk: nat)
    ensures Of(taken + [t], chunk) == if t.chunk == chunk then Of(taken, chunk) + [t.text] else Of(taken, chunk)
  {
    assert (taken + [t])[..|taken|] == taken;
  }

  lemma {:induction false} OfTagged(taken: seq<Taken>, chunk: nat, news: seq<bytes>, other: nat)
    ensures Of(taken + Tag(chunk, news), other) ==
            if other == chunk then Of(taken, other) + news else Of(taken, other)
    decreases |news|
  {
    hide Of;
    if news == [] {
      assert taken + Tag(chunk, news) == taken && Of(taken, other) + [] == Of(taken, other);
    } else {
      var front, last := news[..|news| - 1], news[|news| - 1];
      OfTagged(taken, chunk, front, other);
      assert Tag(chunk, news) == Tag(chunk, front) + [Taken(chunk, last)];
      hide Tag;
      assert taken + Tag(chunk, news) == (taken + Tag(chunk, front)) + [Taken(chunk, last)];
      OfMore(taken + Tag(chunk, front), Taken(chunk, last), other);
      assert Of(taken, other) + news == (Of(taken, other) + front) + [last];
    }
  }

  // ---------------------------------------------------------------------------
  // Within a chunk
  // ---------------------------------------------------------------------------

  /** The handler of a chunk has taken what counts of its texts in order and without gaps, and what it has still
      to go through comes behind that. */
  ghost predicate InStep(w: World, c: Connection, j: nat)
    requires j < |c.arrived| == |c.waiting|
  {
    Of(c.session.taken, j) + Due(w, c.waiting[j]) <= Due(w, c.arrived[j])
  }

  ghost predicate Kept(w: World, c: Connection) {
    && |c.arrived| == |c.waiting|
    && (forall t :: t in c.session.taken ==> t.chunk < |c.arrived|)
    && (forall j :: 0 <= j < |c.arrived| ==> InStep(w, c, j))
  }

  lemma {:induction false} OfNone(taken: seq<Taken>, chunk: nat)
    requires forall t :: t in taken ==> t.chunk < chunk
    ensures Of(taken, chunk) == []
  {
    if taken != [] {
      OfNone(taken[..|taken| - 1], chunk);
      assert taken[|taken| - 1] in taken;
    }
  }

  lemma PrefixTwice(a: seq<bytes>, b: seq<bytes>, news: seq<bytes>, left: seq<bytes>, all: seq<bytes>)
    requires news + left <= b && a + b <= all
    ensures (a + news) + left <= all
  {
    assert (a + news) + left == a + (news + left);
  }

  lemma TaggedIn(taken: seq<Taken>, chunk: nat, news: seq<bytes>, n: nat)
    requires chunk < n && forall t :: t in taken ==> t.chunk < n
    ensures forall t :: t in taken + Tag(chunk, news) ==> t.chunk < n
  {
  }

  lemma ChunkKeeps(w: World, c: Connection, data: bytes)
    requires Kept(w, c)
    ensures Kept(w, Next(w, c, Chunk(data)))
  {
    hide Parse, ServerTexts, Go, Due, Of, Tag;
    if c.session.open {
      var n, texts := |c.arrived|, ServerTexts(c.rxBuf + data);
      var r := Go(w, n, c.session, texts);
      var d := Next(w, c, Chunk(data));
      GoTakes(w, n, c.session, texts);
      TaggedIn(c.session.taken, n, r.news, n + 1);
      forall j | 0 <= j < n + 1
        ensures InStep(w, d, j)
      {
        OfTagged(c.session.taken, n, r.news, j);
        if j == n {
          OfNone(c.session.taken, n);
          assert [] + r.news == r.news;
        } else {
          assert InStep(w, c, j);
        }
      }
    }
  }

  lemma WakeKeeps(w: World, c: Connection, h: nat)
    requires Kept(w, c)
    ensures Kept(w, Next(w, c, Wake(h)))
  {
    hide Go, Due, Of, Tag;
    if h < |c.waiting| {
      var r := Go(w, h, c.session, c.waiting[h]);
      var d := Next(w, c, Wake(h));
      GoTakes(w, h, c.session, c.waiting[h]);
      TaggedIn(c.session.taken, h, r.news, |c.arrived|);
      forall j | 0 <= j < |c.arrived|
        ensures InStep(w, d, j)
      {
        OfTagged(c.session.taken, h, r.news, j);
        assert InStep(w, c, j);
        if j == h {
          PrefixTwice(Of(c.session.taken, j), Due(w, c.waiting[j]), r.news, Due(w, r.left), Due(w, c.arrived[j]));
        }
      }
    }
  }

  /** In every run: each handler takes its chunk's texts in order and without gaps, whatever the others do. */
  lemma {:induction false} WithinChunks(w: World, tokenRequired: bool, events: seq<Event>)
    ensures Kept(w, Run(w, tokenRequired, events))
  {
    hide Kept, Next;
    if events == [] {
      FreshKept(w, tokenRequired);
    } else {
      var front, last := events[..|events| - 1], events[|events| - 1];
      WithinChunks(w, tokenRequired, front);
      match last {
        case Chunk(data) => ChunkKeeps(w, Run(w, tokenRequired, front), data);
        case Wake(h) => WakeKeeps(w, Run(w, tokenRequired, front), h);
      }
    }
  }

  lemma FreshKept(w: World, tokenRequired: bool)
    ensures Kept(w, Fresh(tokenRequired))
  {
  }

  // ---------------------------------------------------------------------------
  // The parser's side
  // ---------------------------------------------------------------------------

  function Flatten(texts: seq<seq<bytes>>): seq<bytes> {
    if texts == [] then [] else Flatten(texts[..|texts| - 1]) + texts[|texts| - 1]
  }

  /** Until the stream closes, the chunks' texts are those of the stream, however it was cut. */
  ghost predicate FollowsStream(c: Connection) {
    !Parse(c.received).closed ==>
      Flatten(c.arrived) == Parse(c.received).texts && c.rxBuf == Parse(c.received).rest
  }

  lemma {:induction false} TextsFollowStream(w: World, tokenRequired: bool, events: seq<Event>)
    ensures FollowsStream(Run(w, tokenRequired, events))
  {
    hide Parse, Go, ServerTexts;
    if events == [] {
      NothingParsed();
    } else {
      var front, last := events[..|events| - 1], events[|events| - 1];
      TextsFollowStream(w, tokenRequired, front);
      var c := Run(w, tokenRequired, front);
      if last.Chunk? && c.session.open {
        ChunkFollows(c, last.data);
        var texts := ServerTexts(c.rxBuf + last.data);
        assert (c.arrived + [texts])[..|c.arrived|] == c.arrived;
      }
    }
  }

  lemma NothingParsed()
    ensures Parse([]) == Parsed([], [], false)
  {
  }

  lemma ChunkFollows(c: Connection, data: bytes)
    requires FollowsStream(c)
    ensures var whole := Parse(c.received + data);
      !whole.closed ==>
        Flatten(c.arrived) + ServerTexts(c.rxBuf + data) == whole.texts && Parse(c.rxBuf + data).rest == whole.rest
  {
    hide Parse, Flatten;
    ParseAppend(c.received, data);
    var later := Parse(c.rxBuf + data);
    assert later.texts + [] == later.texts;
  }

  // ---------------------------------------------------------------------------
  // Across chunks
  // ---------------------------------------------------------------------------

  predicate Sorted(taken: seq<Taken>) {
    forall i, j :: 0 <= i < j < |taken| ==> taken[i].chunk <= taken[j].chunk
  }

  /** Every handler has gone through its texts. */
  predicate Finished(c: Connection) {
    forall j :: 0 <= j < |c.waiting| ==> c.waiting[j] == []
  }

  /** The handler that an event lets run. */
  function Runner(c: Connection, e: Event): nat {
    if e.Chunk? then |c.arrived| else e.handler
  }

  predicate Takes(w: World, c: Connection, e: Event) {
    |Next(w, c, e).session.taken| > |c.session.taken|
  }

  /** If the event lets a handler take anything, no earlier one has anything left to take. */
  predicate NoneBefore(w: World, c: Connection, e: Event) {
    Takes(w, c, e) ==> forall i :: 0 <= i < Runner(c, e) && i < |c.waiting| ==> Due(w, c.waiting[i]) == []
  }

  predicate Orderly(w: World, tokenRequired: bool, events: seq<Event>) {
    events != [] ==>
      var front := events[..|events| - 1];
      && Orderly(w, tokenRequired, front)
      && NoneBefore(w, Run(w, tokenRequired, front), events[|events| - 1])
  }

  /** Something has been taken in front of what an earlier handler took or has still to take. */
  ghost predicate Overtaken(w: World, c: Connection) {
    || !Sorted(c.session.taken)
    || exists t, i :: t in c.session.taken && 0 <= i < t.chunk && i < |c.waiting| && Due(w, c.waiting[i]) != []
  }

  /** Handlers are known by their chunks, and none waits in front of authentication. */
  ghost predicate Steady(c: Connection) {
    && |c.arrived| == |c.waiting|
    && (forall t :: t in c.session.taken ==> t.chunk < |c.arrived|)
    && (!c.session.authenticated ==> Finished(c))
  }

  /** An event: one handler takes some of what counts for it, and something if there is anything. */
  ghost predicate Advances(w: World, c: Connection, h: nat, news: seq<bytes>, d: Connection) {
    && |c.arrived| == |c.waiting| && |d.arrived| == |d.waiting| && h < |d.waiting|
    && d.session.taken == c.session.taken + Tag(h, news)
    && (|d.waiting| == |c.waiting| || (|d.waiting| == |c.waiting| + 1 && h == |c.waiting|))
    && (forall i :: 0 <= i < |c.waiting| && i != h ==> d.waiting[i] == c.waiting[i])
    && (h < |c.waiting| ==>
          news + Due(w, d.waiting[h]) <= Due(w, c.waiting[h]) && (Due(w, c.waiting[h]) != [] ==> news != []))
  }

  /** The event does nothing: a chunk for a closed socket, or the wake of a handler that is not there. */
  predicate Void(c: Connection, e: Event) {
    if e.Chunk? then !c.session.open else e.handler >= |c.waiting|
  }

  lemma ChunkAdvances(w: World, c: Connection, data: bytes) returns (news: seq<bytes>)
    requires Steady(c) && c.session.open
    ensures var d := Next(w, c, Chunk(data)); Steady(d) && Advances(w, c, |c.arrived|, news, d)
  {
    hide Parse, ServerTexts, Go, Due, Tag;
    var n, texts := |c.arrived|, ServerTexts(c.rxBuf + data);
    news := Go(w, n, c.session, texts).news;
    GoTakes(w, n, c.session, texts);
    TaggedIn(c.session.taken, n, news, n + 1);
  }

  lemma WakeAdvances(w: World, c: Connection, h: nat) returns (news: seq<bytes>)
    requires Steady(c) && h < |c.waiting|
    ensures var d := Next(w, c, Wake(h)); Steady(d) && Advances(w, c, h, news, d)
  {
    hide Go, Due, Tag;
    NothingDue(w);
    var r := Go(w, h, c.session, c.waiting[h]);
    news := r.news;
    GoTakes(w, h, c.session, c.waiting[h]);
    TaggedIn(c.session.taken, h, news, |c.arrived|);
  }

  lemma EventAdvances(w: World, c: Connection, e: Event) returns (news: seq<bytes>)
    requires Steady(c) && !Void(c, e)
    ensures Steady(Next(w, c, e)) && Advances(w, c, Runner(c, e), news, Next(w, c, e))
    ensures Takes(w, c, e) <==> news != []
  {
    hide Steady, Due, Next;
    match e {
      case Chunk(data) => news := ChunkAdvances(w, c, data);
      case Wake(h) => news := WakeAdvances(w, c, h);
    }
  }

  lemma SortedPrefix(taken: seq<Taken>, more: seq<Taken>)
    ensures Sorted(taken + more) ==> Sorted(taken)
  {
    var all := taken + more;
    assert forall i :: 0 <= i < |taken| ==> all[i] == taken[i];
  }

  /** What has been overtaken stays so. */
  lemma OvertakenStays(w: World, c: Connection, h: nat, news: seq<bytes>, d: Connection)
    requires Advances(w, c, h, news, d) && Overtaken(w, c)
    ensures Overtaken(w, d)
  {
    hide Due;
    SortedPrefix(c.session.taken, Tag(h, news));
    if Sorted(c.session.taken) {
      var t, i :| t in c.session.taken && 0 <= i < t.chunk && i < |c.waiting| && Due(w, c.waiting[i]) != [];
      assert t in d.session.taken;
      if i == h {
        var k :| 0 <= k < |c.session.taken| && c.session.taken[k] == t;
        assert d.session.taken[k] == t && d.session.taken[|c.session.taken|] == Taken(h, news[0]);
      }
    }
  }

  lemma TakingOvertakes(w: World, c: Connection, h: nat, news: seq<bytes>, d: Connection, i: nat)
    requires Advances(w, c, h, news, d) && news != []
    requires i < h && i < |c.waiting| && Due(w, c.waiting[i]) != []
    ensures Overtaken(w, d)
  {
    hide Due;
    assert d.session.taken[|c.session.taken|] == Taken(h, news[0]);
    assert Taken(h, news[0]) in d.session.taken;
  }

  lemma NothingOvertaken(w: World, c: Connection, h: nat, news: seq<bytes>, d: Connection)
    requires Advances(w, c, h, news, d) && !Overtaken(w, c)
    requires forall t :: t in c.session.taken ==> t.chunk < |c.arrived|
    requires news != [] ==> forall i :: 0 <= i < h && i < |c.waiting| ==> Due(w, c.waiting[i]) == []
    ensures !Overtaken(w, d)
  {
    hide Due;
    var old_, all := c.session.taken, d.session.taken;
    forall t, i | t in all && 0 <= i < t.chunk && i < |d.waiting|
      ensures Due(w, d.waiting[i]) == []
    {
      if t in old_ {
        NotOvertaken(w, c, t, i);
        assert i == h ==> |news + Due(w, d.waiting[h])| == 0;
      } else {
        assert t in Tag(h, news);
      }
    }
    forall k, l | 0 <= k < l < |all|
      ensures all[k].chunk <= all[l].chunk
    {
      if l >= |old_| && k < |old_| {
        assert all[k] == old_[k] && all[k] in old_ && all[l].chunk == h;
        NotOvertaken(w, c, old_[k], h);
        assert |news + Due(w, d.waiting[h])| > 0;
      }
    }
  }

  lemma NotOvertaken(w: World, c: Connection, t: Taken, i: nat)
    requires !Overtaken(w, c) && t in c.session.taken
    ensures i < t.chunk && i < |c.waiting| ==> Due(w, c.waiting[i]) == []
  {
  }

  lemma OvertakenIff(w: World, c: Connection, h: nat, news: seq<bytes>, d: Connection)
    requires Steady(c) && Advances(w, c, h, news, d)
    ensures Overtaken(w, d) <==>
            || Overtaken(w, c)
            || (news != [] && exists i :: 0 <= i < h && i < |c.waiting| && Due(w, c.waiting[i]) != [])
  {
    hide Overtaken, Advances, Due;
    if Overtaken(w, c) {
      OvertakenStays(w, c, h, news, d);
    } else if news != [] && exists i :: 0 <= i < h && i < |c.waiting| && Due(w, c.waiting[i]) != [] {
      var i: nat :| i < h && i < |c.waiting| && Due(w, c.waiting[i]) != [];
      TakingOvertakes(w, c, h, news, d, i);
    } else {
      NothingOvertaken(w, c, h, news, d);
    }
  }

  lemma OneEvent(w: World, c: Connection, e: Event)
    requires Steady(c)
    ensures Steady(Next(w, c, e))
    ensures Overtaken(w, Next(w, c, e)) <==> Overtaken(w, c) || !NoneBefore(w, c, e)
  {
    if !Void(c, e) {
      hide Overtaken, Due, Next, Steady, Takes;
      var news := EventAdvances(w, c, e);
      OvertakenIff(w, c, Runner(c, e), news, Next(w, c, e));
    }
  }

  lemma {:induction false} OrderlyIffNotOvertaken(w: World, tokenRequired: bool, events: seq<Event>)
    ensures Steady(Run(w, tokenRequired, events))
    ensures Orderly(w, tokenRequired, events) <==> !Overtaken(w, Run(w, tokenRequired, events))
  {
    hide Overtaken, NoneBefore, Next, Steady;
    if events == [] {
      FreshIsSteady(w, tokenRequired);
    } else {
      var front, last := events[..|events| - 1], events[|events| - 1];
      OrderlyIffNotOvertaken(w, tokenRequired, front);
      OneEvent(w, Run(w, tokenRequired, front), last);
    }
  }

  lemma FreshIsSteady(w: World, tokenRequired: bool)
    ensures Steady(Fresh(tokenRequired)) && !Overtaken(w, Fresh(tokenRequired))
  {
  }

  /** On every connection, once all handlers are through: the texts were taken in the order of their chunks exactly
      when no handler ever took one while an earlier handler had one left in front of its first close. */
  lemma InOrderIff(w: World, tokenRequired: bool, events: seq<Event>)
    requires Finished(Run(w, tokenRequired, events))
    ensures Sorted(Run(w, tokenRequired, events).session.taken) <==> Orderly(w, tokenRequired, events)
  {
    var c := Run(w, tokenRequired, events);
    OrderlyIffNotOvertaken(w, tokenRequired, events);
    hide Sorted, Run;
    forall j | 0 <= j < |c.waiting|
      ensures Due(w, c.waiting[j]) == []
    {
      NothingDue(w);
    }
  }
}

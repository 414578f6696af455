/** When a server takes texts behind a close. */
module WebSocketClose {
  import opened WebSocketFrames
  import opened WebSocketEndpoints
  import opened WebSocketSessions
  import opened WebSocketOrder
  import opened WebSocketSerial

  /** A text has been taken from a chunk behind one that holds a close. */
  ghost predicate TakenBehind(c: Connection) {
    exists t, i :: t in c.session.taken && 0 <= i < t.chunk && i < |c.arrived| && CLOSE_TEXT in c.arrived[i]
  }

  /** No chunk's handler takes anything on arrival once a close has arrived in an earlier chunk. */
  predicate SilentBehindClose(w: World, tokenRequired: bool, events: seq<Event>) {
    events != [] ==>
      var front, last := events[..|events| - 1], events[|events| - 1];
      var c := Run(w, tokenRequired, front);
      && SilentBehindClose(w, tokenRequired, front)
      && (last.Chunk? && CloseIn(c.arrived) ==> !Takes(w, c, last))
  }

  /** A handler that waits has taken something. */
  ghost predicate Begun(c: Connection) {
    && |c.arrived| == |c.waiting|
    && forall h :: 0 <= h < |c.waiting| && c.waiting[h] != [] ==> exists t :: t in c.session.taken && t.chunk == h
  }

  lemma Tagged(taken: seq<Taken>, h: nat, news: seq<bytes>)
    ensures forall t :: t in taken ==> t in taken + Tag(h, news)
    ensures forall t :: t in taken + Tag(h, news) ==> t in taken || t.chunk == h
    ensures news != [] ==> exists t :: t in taken + Tag(h, news) && t.chunk == h
  {
    if news != [] {
      assert Taken(h, news[0]) == Tag(h, news)[0];
      assert Taken(h, news[0]) in taken + Tag(h, news);
    }
  }

  lemma ChunkBehind(w: World, c: Connection, data: bytes)
    requires Steady(c) && c.session.open && Begun(c)
    ensures var d := Next(w, c, Chunk(data));
      Begun(d) && (TakenBehind(d) <==> TakenBehind(c) || (CloseIn(c.arrived) && Takes(w, c, Chunk(data))))
  {
    hide Parse, ServerTexts, Go, Tag;
    var n, texts := |c.arrived|, ServerTexts(c.rxBuf + data);
    var r, d := Go(w, n, c.session, texts), Next(w, c, Chunk(data));
    GoTakes(w, n, c.session, texts);
    Tagged(c.session.taken, n, r.news);
    assert Takes(w, c, Chunk(data)) <==> r.news != [];
    if TakenBehind(c) {
      var t, i :| t in c.session.taken && 0 <= i < t.chunk && i < |c.arrived| && CLOSE_TEXT in c.arrived[i];
      assert t in d.session.taken && d.arrived[i] == c.arrived[i];
    }
    if CloseIn(c.arrived) && r.news != [] {
      var i :| 0 <= i < |c.arrived| && CLOSE_TEXT in c.arrived[i];
      var t :| t in d.session.taken && t.chunk == n;
      assert d.arrived[i] == c.arrived[i];
    }
    if TakenBehind(d) {
      var t, i :| t in d.session.taken && 0 <= i < t.chunk && i < |d.arrived| && CLOSE_TEXT in d.arrived[i];
      assert i < n && d.arrived[i] == c.arrived[i];
    }
  }

  /** A handler that goes on has taken something before, so it adds nothing behind a close that was not there. */
  lemma WakeBehind(w: World, c: Connection, h: nat)
    requires Steady(c) && h < |c.waiting| && Begun(c)
    ensures var d := Next(w, c, Wake(h)); Begun(d) && (TakenBehind(d) <==> TakenBehind(c))
  {
    hide Go, Tag;
    NothingDue(w);
    var r, d := Go(w, h, c.session, c.waiting[h]), Next(w, c, Wake(h));
    GoTakes(w, h, c.session, c.waiting[h]);
    Tagged(c.session.taken, h, r.news);
    if TakenBehind(c) {
      var t, i :| t in c.session.taken && 0 <= i < t.chunk && i < |c.arrived| && CLOSE_TEXT in c.arrived[i];
      assert t in d.session.taken;
    }
    if TakenBehind(d) {
      var t, i :| t in d.session.taken && 0 <= i < t.chunk && i < |d.arrived| && CLOSE_TEXT in d.arrived[i];
      if t !in c.session.taken {
        assert c.waiting[h] != [];
        var u :| u in c.session.taken && u.chunk == h;
        assert u in c.session.taken && i < u.chunk;
      }
    }
  }

  /** On every connection: a text is taken from a chunk behind one with a close exactly when some chunk's handler takes
      something on arrival after the close has arrived. */
  lemma {:induction false} TakenBehindCloseIff(w: World, tokenRequired: bool, events: seq<Event>)
    ensures Steady(Run(w, tokenRequired, events)) && Begun(Run(w, tokenRequired, events))
    ensures TakenBehind(Run(w, tokenRequired, events)) <==> !SilentBehindClose(w, tokenRequired, events)
  {
    hide TakenBehind, Takes, Next, Steady, Begun, CloseIn;
    OrderlyIffNotOvertaken(w, tokenRequired, events);
    if events == [] {
      NothingBehind(tokenRequired);
    } else {
      var front, last := events[..|events| - 1], events[|events| - 1];
      var c := Run(w, tokenRequired, front);
      TakenBehindCloseIff(w, tokenRequired, front);
      if Void(c, last) {
        VoidTakesNothing(w, c, last);
      } else {
        match last {
          case Chunk(data) => ChunkBehind(w, c, data);
          case Wake(h) => WakeBehind(w, c, h);
        }
      }
    }
  }

  lemma NothingBehind(tokenRequired: bool)
    ensures Begun(Fresh(tokenRequired)) && !TakenBehind(Fresh(tokenRequired))
  {
  }

  lemma VoidTakesNothing(w: World, c: Connection, e: Event)
    requires Void(c, e)
    ensures Next(w, c, e) == c && !Takes(w, c, e)
  {
  }

  // ---------------------------------------------------------------------------
  // Such a close is one that still waits
  // ---------------------------------------------------------------------------

  /** Only a close ends the handler: there is no null, and no token that is still asked for. */
  predicate OnlyCloseEnds(w: World, tokenRequired: bool, texts: seq<bytes>) {
    forall x :: x in texts ==> w.kind(x) != NullJson && (tokenRequired ==> w.kind(x) != ValidAuth)
  }

  lemma {:induction false} GoLeavesTheClose(w: World, chunk: nat, s: Session, texts: seq<bytes>)
    requires s.authenticated || (forall x :: x in texts ==> w.kind(x) != ValidAuth)
    requires forall x :: x in texts ==> w.kind(x) != NullJson
    ensures var r := Go(w, chunk, s, texts);
      && (forall x :: x in r.left ==> x in texts) && (r.s.open ==> s.open)
      && (r.s.open && CLOSE_TEXT in texts ==> CLOSE_TEXT in r.left)
    decreases |texts|
  {
    if texts != [] {
      var t, rest := HandleText(w, chunk, s, texts[0]), texts[1..];
      assert texts == [texts[0]] + rest;
      hide HandleText;
      TurnLeavesTheClose(w, chunk, s, texts[0]);
      if !t.ends && !t.waits {
        GoLeavesTheClose(w, chunk, t.s, rest);
      }
    }
  }

  lemma TurnLeavesTheClose(w: World, chunk: nat, s: Session, text: bytes)
    requires (s.authenticated || w.kind(text) != ValidAuth) && w.kind(text) != NullJson
    ensures var t := HandleText(w, chunk, s, text);
      (t.s.open ==> s.open) && (t.ends || text == CLOSE_TEXT ==> !t.s.open) && t.s.authenticated == s.authenticated
  {
  }

  /** While the socket is open, a close has been handled by no handler: it waits, unless a null or the token ended its
      handler in front of it. */
  ghost predicate CloseWaits(w: World, tokenRequired: bool, c: Connection) {
    && |c.arrived| == |c.waiting| && (c.session.authenticated || tokenRequired)
    && forall i :: 0 <= i < |c.arrived| && OnlyCloseEnds(w, tokenRequired, c.arrived[i]) ==>
      && (forall x :: x in c.waiting[i] ==> x in c.arrived[i])
      && (c.session.open && CLOSE_TEXT in c.arrived[i] ==> CLOSE_TEXT in c.waiting[i])
  }

  lemma {:induction false} NothingOpens(w: World, chunk: nat, s: Session, texts: seq<bytes>)
    ensures var r := Go(w, chunk, s, texts); (r.s.open ==> s.open) && (s.authenticated ==> r.s.authenticated)
    decreases |texts|
  {
    if texts != [] {
      var t := HandleText(w, chunk, s, texts[0]);
      if !t.ends && !t.waits {
        NothingOpens(w, chunk, t.s, texts[1..]);
      }
    }
  }

  lemma ChunkKeepsClose(w: World, tokenRequired: bool, c: Connection, data: bytes)
    requires CloseWaits(w, tokenRequired, c)
    ensures CloseWaits(w, tokenRequired, Next(w, c, Chunk(data)))
  {
    hide Parse, ServerTexts, Go;
    if c.session.open {
      var n, texts := |c.arrived|, ServerTexts(c.rxBuf + data);
      NothingOpens(w, n, c.session, texts);
      if OnlyCloseEnds(w, tokenRequired, texts) {
        GoLeavesTheClose(w, n, c.session, texts);
      }
    }
  }

  lemma WakeKeepsClose(w: World, tokenRequired: bool, c: Connection, h: nat)
    requires CloseWaits(w, tokenRequired, c)
    ensures CloseWaits(w, tokenRequired, Next(w, c, Wake(h)))
  {
    hide Go;
    if h < |c.waiting| {
      NothingOpens(w, h, c.session, c.waiting[h]);
      if OnlyCloseEnds(w, tokenRequired, c.arrived[h]) {
        GoLeavesTheClose(w, h, c.session, c.waiting[h]);
      }
    }
  }

  /** In every run: a close that has arrived while the socket is open is still waiting in its handler, unless a null
      or the token ended that handler in front of it. */
  lemma {:induction false} CloseStillWaits(w: World, tokenRequired: bool, events: seq<Event>)
    ensures CloseWaits(w, tokenRequired, Run(w, tokenRequired, events))
  {
    hide CloseWaits, Next;
    if events == [] {
      FreshWaits(w, tokenRequired);
    } else {
      var front, last := events[..|events| - 1], events[|events| - 1];
      var c := Run(w, tokenRequired, front);
      CloseStillWaits(w, tokenRequired, front);
      match last {
        case Chunk(data) => ChunkKeepsClose(w, tokenRequired, c, data);
        case Wake(h) => WakeKeepsClose(w, tokenRequired, c, h);
      }
    }
  }

  lemma FreshWaits(w: World, tokenRequired: bool)
    ensures CloseWaits(w, tokenRequired, Fresh(tokenRequired))
  {
  }

  /** So where only closes end handlers, heeding the closes that wait is keeping silent behind those that arrived. */
  lemma {:induction false} HeedsIff(w: World, tokenRequired: bool, events: seq<Event>)
    requires forall x :: x in Run(w, tokenRequired, events).arrived ==> OnlyCloseEnds(w, tokenRequired, x)
    ensures Heeds(w, tokenRequired, events) <==> SilentBehindClose(w, tokenRequired, events)
  {
    hide CloseWaits, OnlyCloseEnds, Takes;
    if events != [] {
      var front, last := events[..|events| - 1], events[|events| - 1];
      var c := Run(w, tokenRequired, front);
      ArrivedStays(w, c, last);
      hide Next, Run;
      HeedsIff(w, tokenRequired, front);
      CloseStillWaits(w, tokenRequired, front);
      if Void(c, last) {
        VoidTakesNothing(w, c, last);
      } else if last.Chunk? {
        SameCloses(w, tokenRequired, c);
      }
    }
  }

  lemma ArrivedStays(w: World, c: Connection, e: Event)
    ensures forall x :: x in c.arrived ==> x in Next(w, c, e).arrived
  {
  }

  lemma SameCloses(w: World, tokenRequired: bool, c: Connection)
    requires CloseWaits(w, tokenRequired, c) && c.session.open
    requires forall x :: x in c.arrived ==> OnlyCloseEnds(w, tokenRequired, x)
    ensures CloseIn(c.waiting) <==> CloseIn(c.arrived)
  {
    hide OnlyCloseEnds;
    if CloseIn(c.arrived) {
      var i :| 0 <= i < |c.arrived| && CLOSE_TEXT in c.arrived[i];
      assert c.arrived[i] in c.arrived;
      assert CLOSE_TEXT in c.waiting[i];
    }
    if CloseIn(c.waiting) {
      var i :| 0 <= i < |c.waiting| && CLOSE_TEXT in c.waiting[i];
      assert c.arrived[i] in c.arrived;
      assert CLOSE_TEXT in c.arrived[i];
    }
  }
}

/** When the interleaving of a connection's handlers cannot be seen: the run against the same chunks handled one after
    the other. */
module WebSocketSerial {
  import opened WebSocketFrames
  import opened WebSocketEndpoints
  import opened WebSocketSessions
  import opened WebSocketOrder

  // ---------------------------------------------------------------------------
  // One chunk after the other
  // ---------------------------------------------------------------------------

  /** A chunk's texts handled to the end, with no other handler in between. */
  function Together(w: World, chunk: nat, s: Session, texts: seq<bytes>): Session
    decreases |texts|
  {
    if texts == [] then s
    else
      var t := HandleText(w, chunk, s, texts[0]);
      if t.ends then t.s else Together(w, chunk, t.s, texts[1..])
  }

  /** A server that awaits nothing: each chunk handled to the end before the next, until the socket closes. */
  function Serially(w: World, tokenRequired: bool, chunks: seq<seq<bytes>>): Session {
    if chunks == [] then Session(!tokenRequired, true, [])
    else
      var n := |chunks| - 1;
      var s := Serially(w, tokenRequired, chunks[..n]);
      if s.open then Together(w, n, s, chunks[n]) else s
  }

  lemma SeriallyMore(w: World, tokenRequired: bool, chunks: seq<seq<bytes>>, texts: seq<bytes>)
    ensures var s := Serially(w, tokenRequired, chunks);
      Serially(w, tokenRequired, chunks + [texts]) == if s.open then Together(w, |chunks|, s, texts) else s
  {
    assert (chunks + [texts])[..|chunks|] == chunks;
  }

  lemma {:induction false} TogetherTakes(w: World, chunk: nat, s: Session, texts: seq<bytes>) returns (news: seq<bytes>)
    ensures var t := Together(w, chunk, s, texts);
      t.taken == s.taken + Tag(chunk, news) && (s.authenticated ==> t.authenticated)
    decreases |texts|
  {
    hide HandleText, Tag;
    assert Tag(chunk, []) == [];
    if texts == [] {
      news := [];
    } else {
      OneTurn(w, chunk, s, texts[0]);
      var t := HandleText(w, chunk, s, texts[0]);
      var first := if |t.s.taken| > |s.taken| then [texts[0]] else [];
      news := first;
      if !t.ends {
        var later := TogetherTakes(w, chunk, t.s, texts[1..]);
        news := first + later;
        TagConcat(chunk, first, later);
      }
    }
  }

  lemma TagConcat(chunk: nat, a: seq<bytes>, b: seq<bytes>)
    ensures Tag(chunk, a) + Tag(chunk, b) == Tag(chunk, a + b)
  {
  }

  lemma {:induction false} SeriallySorted(w: World, tokenRequired: bool, chunks: seq<seq<bytes>>)
    ensures var taken := Serially(w, tokenRequired, chunks).taken;
      Sorted(taken) && forall t :: t in taken ==> t.chunk < |chunks|
  {
    hide Together;
    if chunks != [] {
      var n := |chunks| - 1;
      var s := Serially(w, tokenRequired, chunks[..n]);
      SeriallySorted(w, tokenRequired, chunks[..n]);
      if s.open {
        var news := TogetherTakes(w, n, s, chunks[n]);
        assert forall i :: 0 <= i < |s.taken| ==> s.taken[i] in s.taken;
      }
    }
  }

  // ---------------------------------------------------------------------------
  // What a handler still does
  // ---------------------------------------------------------------------------

  function ShutIf(closes: bool, s: Session): Session {
    if closes then s.(open := false) else s
  }

  /** Handling to the end is going on from where the handler waits. */
  lemma {:induction false} GoTogether(w: World, chunk: nat, s: Session, texts: seq<bytes>)
    ensures var r := Go(w, chunk, s, texts); Together(w, chunk, r.s, r.left) == Together(w, chunk, s, texts)
    decreases |texts|
  {
    hide HandleText;
    if texts != [] {
      var t := HandleText(w, chunk, s, texts[0]);
      if !t.ends && !t.waits {
        GoTogether(w, chunk, t.s, texts[1..]);
      }
    }
  }

  lemma GoNothing(w: World, chunk: nat, s: Session)
    ensures Go(w, chunk, s, []) == Stretch(s, [], [])
  {
  }

  /** No handler looks at the socket. */
  lemma {:induction false} TogetherShut(w: World, chunk: nat, s: Session, texts: seq<bytes>)
    ensures Together(w, chunk, s.(open := false), texts) == Together(w, chunk, s, texts).(open := false)
    decreases |texts|
  {
    if texts != [] {
      var t := HandleText(w, chunk, s, texts[0]);
      var u := HandleText(w, chunk, s.(open := false), texts[0]);
      assert u == t.(s := t.s.(open := false));
      hide HandleText;
      if !t.ends {
        TogetherShut(w, chunk, t.s, texts[1..]);
      }
    }
  }

  /** Where nothing counts, all that can happen is a close. */
  lemma {:induction false} TogetherIdle(w: World, chunk: nat, s: Session, texts: seq<bytes>)
    requires s.authenticated && Due(w, texts) == []
    ensures Together(w, chunk, s, texts) == ShutIf(CLOSE_TEXT in texts, s)
    decreases |texts|
  {
    if texts != [] && texts[0] != CLOSE_TEXT {
      TogetherIdle(w, chunk, s, texts[1..]);
      assert texts == [texts[0]] + texts[1..];
    }
  }

  // ---------------------------------------------------------------------------
  // Letting all handlers run to their ends
  // ---------------------------------------------------------------------------

  function Complete(w: World, s: Session, waiting: seq<seq<bytes>>): Session {
    if waiting == [] then s
    else var n := |waiting| - 1; Together(w, n, Complete(w, s, waiting[..n]), waiting[n])
  }

  predicate AllIdle(w: World, waiting: seq<seq<bytes>>) {
    forall i :: 0 <= i < |waiting| ==> Due(w, waiting[i]) == []
  }

  predicate CloseIn(chunks: seq<seq<bytes>>) {
    exists i :: 0 <= i < |chunks| && CLOSE_TEXT in chunks[i]
  }

  lemma CloseInMore(chunks: seq<seq<bytes>>, texts: seq<bytes>)
    ensures CloseIn(chunks + [texts]) <==> CloseIn(chunks) || CLOSE_TEXT in texts
  {
    var all := chunks + [texts];
    if CloseIn(chunks) {
      var i :| 0 <= i < |chunks| && CLOSE_TEXT in chunks[i];
      assert CLOSE_TEXT in all[i];
    }
    if CLOSE_TEXT in texts {
      assert CLOSE_TEXT in all[|chunks|];
    }
  }

  lemma CompleteMore(w: World, s: Session, waiting: seq<seq<bytes>>, texts: seq<bytes>)
    ensures Complete(w, s, waiting + [texts]) == Together(w, |waiting|, Complete(w, s, waiting), texts)
  {
    assert (waiting + [texts])[..|waiting|] == waiting;
  }

  lemma {:induction false} CompleteIdle(w: World, s: Session, waiting: seq<seq<bytes>>)
    requires s.authenticated && AllIdle(w, waiting)
    ensures Complete(w, s, waiting) == ShutIf(CloseIn(waiting), s)
  {
    hide Together, CloseIn, Due;
    if waiting == [] {
      NoClose();
    } else {
      var n := |waiting| - 1;
      CompleteIdle(w, s, waiting[..n]);
      TogetherIdle(w, n, Complete(w, s, waiting[..n]), waiting[n]);
      CloseInMore(waiting[..n], waiting[n]);
      assert waiting == waiting[..n] + [waiting[n]];
    }
  }

  lemma NoClose()
    ensures !CloseIn([])
  {
  }

  lemma {:induction false} CompleteShut(w: World, s: Session, waiting: seq<seq<bytes>>)
    ensures Complete(w, s.(open := false), waiting) == Complete(w, s, waiting).(open := false)
    ensures s.authenticated ==> Complete(w, s, waiting).authenticated
  {
    hide Together;
    if waiting != [] {
      var n := |waiting| - 1;
      CompleteShut(w, s, waiting[..n]);
      TogetherShut(w, n, Complete(w, s, waiting[..n]), waiting[n]);
      var _ := TogetherTakes(w, n, Complete(w, s, waiting[..n]), waiting[n]);
    }
  }

  lemma {:induction false} CompleteNothing(w: World, s: Session, waiting: seq<seq<bytes>>)
    requires forall i :: 0 <= i < |waiting| ==> waiting[i] == []
    ensures Complete(w, s, waiting) == s
  {
    if waiting != [] {
      CompleteNothing(w, s, waiting[..|waiting| - 1]);
    }
  }

  /** One handler and the session exchanged for others that come to the same there come to the same in the end. */
  lemma {:induction false} CompleteExchange(w: World, s: Session, t: Session, waiting: seq<seq<bytes>>, h: nat,
                                            left: seq<bytes>)
    requires h < |waiting|
    requires Together(w, h, Complete(w, t, waiting[..h]), left)
          == Together(w, h, Complete(w, s, waiting[..h]), waiting[h])
    ensures Complete(w, t, waiting[h := left]) == Complete(w, s, waiting)
  {
    hide Together;
    var n, changed := |waiting| - 1, waiting[h := left];
    if h == n {
      assert changed[..n] == waiting[..n];
    } else {
      assert changed[..n] == waiting[..n][h := left] && waiting[..n][..h] == waiting[..h];
      CompleteExchange(w, s, t, waiting[..n], h, left);
    }
  }

  // ---------------------------------------------------------------------------
  // Runs that cannot be told from serial ones
  // ---------------------------------------------------------------------------

  /** No chunk's handler takes anything on arrival while a close waits in an earlier handler. */
  predicate Heeds(w: World, tokenRequired: bool, events: seq<Event>) {
    events != [] ==>
      var front, last := events[..|events| - 1], events[|events| - 1];
      var c := Run(w, tokenRequired, front);
      && Heeds(w, tokenRequired, front)
      && (last.Chunk? && CloseIn(c.waiting) ==> !Takes(w, c, last))
  }

  /** Letting all handlers run to their ends now gives the serial session. */
  ghost predicate Serial(w: World, tokenRequired: bool, c: Connection) {
    Complete(w, c.session, c.waiting) == Serially(w, tokenRequired, c.arrived)
  }

  /** The serial server has closed, and the run has taken more. */
  ghost predicate Exceeds(w: World, tokenRequired: bool, c: Connection) {
    var s := Serially(w, tokenRequired, c.arrived);
    !s.open && |s.taken| < |c.session.taken|
  }

  lemma IdleStretch(w: World, chunk: nat, s: Session, texts: seq<bytes>)
    requires s.authenticated && Go(w, chunk, s, texts).news == []
    ensures var r := Go(w, chunk, s, texts);
      Due(w, texts) == [] && r.left == [] && r.s == ShutIf(CLOSE_TEXT in texts, s)
  {
    hide Go, Due;
    GoTakes(w, chunk, s, texts);
    GoTogether(w, chunk, s, texts);
    TogetherIdle(w, chunk, s, texts);
  }

  lemma CompleteShutIf(w: World, closes: bool, s: Session, waiting: seq<seq<bytes>>)
    ensures Complete(w, ShutIf(closes, s), waiting) == ShutIf(closes, Complete(w, s, waiting))
  {
    CompleteShut(w, s, waiting);
  }

  lemma ChunkStaysSerial(w: World, tokenRequired: bool, c: Connection, data: bytes)
    requires Steady(c) && c.session.open && Serial(w, tokenRequired, c) && NoneBefore(w, c, Chunk(data))
    requires CloseIn(c.waiting) ==> !Takes(w, c, Chunk(data))
    ensures Serial(w, tokenRequired, Next(w, c, Chunk(data)))
  {
    hide Parse, ServerTexts, Go, Together, Complete, Serially, Due, CloseIn;
    var n, texts := |c.arrived|, ServerTexts(c.rxBuf + data);
    var r, end := Go(w, n, c.session, texts), Complete(w, c.session, c.waiting);
    SeriallyMore(w, tokenRequired, c.arrived, texts);
    CompleteMore(w, r.s, c.waiting, r.left);
    GoTogether(w, n, c.session, texts);
    GoTakes(w, n, c.session, texts);
    if !c.session.authenticated {
      CompleteNothing(w, c.session, c.waiting);
      CompleteNothing(w, r.s, c.waiting);
    } else if r.news != [] {
      CompleteIdle(w, c.session, c.waiting);
      CompleteIdle(w, r.s, c.waiting);
    } else {
      IdleStretch(w, n, c.session, texts);
      CompleteShut(w, c.session, c.waiting);
      CompleteShutIf(w, CLOSE_TEXT in texts, c.session, c.waiting);
      TogetherIdle(w, n, end, texts);
      TogetherNothing(w, n, Complete(w, r.s, c.waiting));
    }
  }

  lemma TogetherNothing(w: World, chunk: nat, s: Session)
    ensures Together(w, chunk, s, []) == s
  {
  }

  lemma WakeStaysSerial(w: World, tokenRequired: bool, c: Connection, h: nat)
    requires Steady(c) && h < |c.waiting| && Serial(w, tokenRequired, c) && NoneBefore(w, c, Wake(h))
    ensures Serial(w, tokenRequired, Next(w, c, Wake(h)))
  {
    hide Go, Together, Complete, Serially, Due, CloseIn;
    var texts, before := c.waiting[h], c.waiting[..h];
    var r := Go(w, h, c.session, texts);
    GoTogether(w, h, c.session, texts);
    GoTakes(w, h, c.session, texts);
    if !c.session.authenticated {
      CompleteNothing(w, c.session, before);
      CompleteNothing(w, r.s, before);
    } else if r.news != [] {
      CompleteIdle(w, c.session, before);
      CompleteIdle(w, r.s, before);
      TogetherShut(w, h, c.session, texts);
      TogetherShut(w, h, r.s, r.left);
    } else {
      IdleStretch(w, h, c.session, texts);
      CompleteShut(w, c.session, before);
      CompleteShutIf(w, CLOSE_TEXT in texts, c.session, before);
      TogetherIdle(w, h, Complete(w, c.session, before), texts);
      TogetherNothing(w, h, Complete(w, r.s, before));
    }
    CompleteExchange(w, c.session, r.s, c.waiting, h, r.left);
  }

  /** A message taken on arrival behind a waiting close is one that the serial server never takes. */
  lemma TakingPastACloseExceeds(w: World, tokenRequired: bool, c: Connection, data: bytes)
    requires Steady(c) && c.session.open && Serial(w, tokenRequired, c) && NoneBefore(w, c, Chunk(data))
    requires CloseIn(c.waiting) && Takes(w, c, Chunk(data))
    ensures Exceeds(w, tokenRequired, Next(w, c, Chunk(data)))
  {
    hide Parse, ServerTexts, Go, Complete, Serially, Due, CloseIn;
    var n, texts := |c.arrived|, ServerTexts(c.rxBuf + data);
    GoTakes(w, n, c.session, texts);
    CompleteIdle(w, c.session, c.waiting);
    SeriallyMore(w, tokenRequired, c.arrived, texts);
  }

  lemma ExceedsStays(w: World, tokenRequired: bool, c: Connection, e: Event)
    requires Steady(c) && Exceeds(w, tokenRequired, c)
    ensures Exceeds(w, tokenRequired, Next(w, c, e))
  {
    if !Void(c, e) {
      var _ := EventAdvances(w, c, e);
      hide Serially, Parse, Go, ServerTexts;
      if e.Chunk? {
        SeriallyMore(w, tokenRequired, c.arrived, ServerTexts(c.rxBuf + e.data));
      }
    }
  }

  lemma {:induction false} SerialOrExceeds(w: World, tokenRequired: bool, events: seq<Event>)
    requires Orderly(w, tokenRequired, events)
    ensures var c := Run(w, tokenRequired, events);
      if Heeds(w, tokenRequired, events) then Serial(w, tokenRequired, c) else Exceeds(w, tokenRequired, c)
  {
    hide Serial, Exceeds, Takes, NoneBefore, Next, CloseIn;
    if events == [] {
      FreshIsSerial(w, tokenRequired);
    } else {
      var front, last := events[..|events| - 1], events[|events| - 1];
      var c := Run(w, tokenRequired, front);
      SerialOrExceeds(w, tokenRequired, front);
      OrderlyIffNotOvertaken(w, tokenRequired, front);
      EventKeepsSerial(w, tokenRequired, c, last);
    }
  }

  lemma EventKeepsSerial(w: World, tokenRequired: bool, c: Connection, e: Event)
    requires Steady(c) && NoneBefore(w, c, e)
    ensures Exceeds(w, tokenRequired, c) ==> Exceeds(w, tokenRequired, Next(w, c, e))
    ensures Serial(w, tokenRequired, c) ==>
      var d := Next(w, c, e);
      if e.Chunk? && CloseIn(c.waiting) && Takes(w, c, e) then Exceeds(w, tokenRequired, d)
      else Serial(w, tokenRequired, d)
  {
    if Void(c, e) {
    } else {
      hide Serial, Exceeds, Takes, NoneBefore, Next, CloseIn, Steady;
      if Exceeds(w, tokenRequired, c) {
        ExceedsStays(w, tokenRequired, c, e);
      }
      if Serial(w, tokenRequired, c) {
        match e {
          case Wake(h) => WakeStaysSerial(w, tokenRequired, c, h);
          case Chunk(data) =>
            if CloseIn(c.waiting) && Takes(w, c, e) {
              TakingPastACloseExceeds(w, tokenRequired, c, data);
            } else {
              ChunkStaysSerial(w, tokenRequired, c, data);
            }
        }
      }
    }
  }

  lemma FreshIsSerial(w: World, tokenRequired: bool)
    ensures Serial(w, tokenRequired, Fresh(tokenRequired))
  {
  }

  /** On every connection, once all handlers are through: the run leaves what handling the same chunks one after the
      other would leave, exactly when no handler took anything while an earlier one had something left to take, and
      no chunk's handler took anything on arrival while a close waited in an earlier one. */
  lemma SerialIff(w: World, tokenRequired: bool, events: seq<Event>)
    requires Finished(Run(w, tokenRequired, events))
    ensures var c := Run(w, tokenRequired, events);
      c.session == Serially(w, tokenRequired, c.arrived) <==>
        Orderly(w, tokenRequired, events) && Heeds(w, tokenRequired, events)
  {
    var c := Run(w, tokenRequired, events);
    SeriallySorted(w, tokenRequired, c.arrived);
    InOrderIff(w, tokenRequired, events);
    CompleteNothing(w, c.session, c.waiting);
    hide Run, Orderly, Heeds, Serially;
    if Orderly(w, tokenRequired, events) {
      SerialOrExceeds(w, tokenRequired, events);
    }
  }
}

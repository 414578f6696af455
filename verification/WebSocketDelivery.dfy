/** What the grouping of texts into chunks changes, and which of a client's payloads the server takes. */
module WebSocketDelivery {
  import opened WebSocketFrames
  import opened WebSocketEndpoints
  import opened WebSocketSessions
  import opened WebSocketOrder
  import opened WebSocketSerial
  import opened WebSocketClose

  // ---------------------------------------------------------------------------
  // One chunk, or a chunk for each text
  // ---------------------------------------------------------------------------

  /** The same texts, each in a chunk of its own, one after the other. */
  function Apart(w: World, s: Session, texts: seq<bytes>): Session
    decreases |texts|
  {
    if texts == [] || !s.open then s else Apart(w, HandleText(w, 0, s, texts[0]).s, texts[1..])
  }

  /** The texts behind the one that ends the handler and leaves the socket open: an accepted token, or null. */
  function Behind(w: World, s: Session, texts: seq<bytes>): seq<bytes>
    decreases |texts|
  {
    if texts == [] then []
    else
      var t := HandleText(w, 0, s, texts[0]);
      if !t.ends then Behind(w, t.s, texts[1..]) else if t.s.open then texts[1..] else []
  }

  /** The text does nothing to an open session: it is no JSON, or null in front of authentication. */
  predicate Inert(w: World, s: Session, text: bytes) {
    text != CLOSE_TEXT && (w.kind(text) == NotJson || (!s.authenticated && w.kind(text) == NullJson))
  }

  predicate AllInert(w: World, s: Session, texts: seq<bytes>) {
    forall i :: 0 <= i < |texts| ==> Inert(w, s, texts[i])
  }

  /** How far a session has come: nothing undoes a text that was not inert. */
  ghost predicate Beyond(s: Session, t: Session) {
    |t.taken| >= |s.taken| && (s.authenticated ==> t.authenticated)
    && (!s.open ==> !t.open)
  }

  lemma InertIff(w: World, s: Session, text: bytes)
    requires s.open
    ensures var t := HandleText(w, 0, s, text).s;
      Beyond(s, t) && (t == s <==> Inert(w, s, text))
      && (t != s ==> |t.taken| > |s.taken| || (t.authenticated && !s.authenticated) || !t.open)
  {
  }

  lemma {:induction false} ApartGoesOn(w: World, s: Session, texts: seq<bytes>)
    ensures Beyond(s, Apart(w, s, texts))
    decreases |texts|
  {
    hide HandleText, Inert;
    if texts != [] && s.open {
      InertIff(w, s, texts[0]);
      ApartGoesOn(w, HandleText(w, 0, s, texts[0]).s, texts[1..]);
    }
  }

  lemma {:induction false} OnlyInertChangesNothing(w: World, s: Session, texts: seq<bytes>)
    requires s.open
    ensures Apart(w, s, texts) == s <==> AllInert(w, s, texts)
    decreases |texts|
  {
    hide HandleText, Inert;
    if texts != [] {
      InertIff(w, s, texts[0]);
      var t := HandleText(w, 0, s, texts[0]).s;
      ApartGoesOn(w, t, texts[1..]);
      if t == s {
        OnlyInertChangesNothing(w, s, texts[1..]);
        assert forall i :: 0 <= i < |texts| - 1 ==> texts[1..][i] == texts[i + 1];
      }
    }
  }

  lemma ClosedStays(w: World, s: Session, texts: seq<bytes>)
    ensures !s.open ==> Apart(w, s, texts) == s
  {
  }

  lemma EndsOrStaysOpen(w: World, s: Session, text: bytes)
    requires s.open
    ensures var t := HandleText(w, 0, s, text); t.ends || t.s.open
  {
  }

  /** Texts in one chunk are handled like the same texts apart exactly when every text behind an accepted token
      or a raising null in that chunk is inert. */
  lemma {:induction false} TogetherOrApartIff(w: World, s: Session, texts: seq<bytes>)
    requires s.open
    ensures Together(w, 0, s, texts) == Apart(w, s, texts) <==>
            AllInert(w, Together(w, 0, s, texts), Behind(w, s, texts))
    decreases |texts|
  {
    hide HandleText, AllInert;
    if texts == [] {
      NothingInert(w, s);
    } else {
      var t := HandleText(w, 0, s, texts[0]);
      EndsOrStaysOpen(w, s, texts[0]);
      if !t.ends {
        TogetherOrApartIff(w, t.s, texts[1..]);
      } else if t.s.open {
        OnlyInertChangesNothing(w, t.s, texts[1..]);
      } else {
        ClosedStays(w, t.s, texts[1..]);
        NothingInert(w, t.s);
      }
    }
  }

  lemma NothingInert(w: World, s: Session)
    ensures AllInert(w, s, [])
  {
  }

  lemma OneText(w: World, s: Session, a: bytes, rest: seq<bytes>)
    ensures Together(w, 0, s, [a] + rest) ==
            var t := HandleText(w, 0, s, a); if t.ends then t.s else Together(w, 0, t.s, rest)
    ensures Apart(w, s, [a] + rest) == if !s.open then s else Apart(w, HandleText(w, 0, s, a).s, rest)
    ensures Together(w, 0, s, []) == s == Apart(w, s, [])
  {
    hide HandleText;
    var texts := [a] + rest;
    assert texts[0] == a && texts[1..] == rest;
  }

  lemma TwoTexts(w: World, s: Session, a: bytes, b: bytes)
    ensures Together(w, 0, s, [a, b]) ==
            var t := HandleText(w, 0, s, a); if t.ends then t.s else HandleText(w, 0, t.s, b).s
    ensures Apart(w, s, [a, b]) ==
            if !s.open then s
            else var t := HandleText(w, 0, s, a).s; if !t.open then t else HandleText(w, 0, t, b).s
  {
    hide HandleText, Together, Apart;
    assert [a] + [b] == [a, b] && [b] + [] == [b];
    var t := HandleText(w, 0, s, a).s;
    OneText(w, s, a, [b]);
    OneText(w, t, b, []);
    OneText(w, HandleText(w, 0, t, b).s, b, []);
  }

  /** A message in the chunk of the auth frame is never taken. */
  lemma MessageBehindAuthIsLost(w: World, auth: bytes, message: bytes)
    requires auth != CLOSE_TEXT && message != CLOSE_TEXT
    requires w.kind(auth) == ValidAuth && w.kind(message) == OtherJson
    ensures var s := Session(false, true, []);
      Together(w, 0, s, [auth, message]).taken == [] && Apart(w, s, [auth, message]).taken == [Taken(0, message)]
  {
    TwoTexts(w, Session(false, true, []), auth, message);
  }

  /** Nor is a message behind a null that the rate limit lets through. */
  lemma MessageBehindNullIsLost(w: World, null_: bytes, message: bytes)
    requires null_ != CLOSE_TEXT && message != CLOSE_TEXT
    requires w.kind(null_) == NullJson && w.kind(message) == OtherJson && w.fate(0) != Limited
    ensures var s := Session(true, true, []);
      && Together(w, 0, s, [null_, message]).taken == [Taken(0, null_)]
      && Apart(w, s, [null_, message]).taken == [Taken(0, null_), Taken(0, message)]
  {
    TwoTexts(w, Session(true, true, []), null_, message);
  }

  // ---------------------------------------------------------------------------
  // Out of order
  // ---------------------------------------------------------------------------

  lemma TwoThenOne(w: World, a: bytes, b: bytes, s: Session)
    requires a != CLOSE_TEXT && w.kind(a) == OtherJson && s.authenticated && w.fate(|s.taken|) == Awaited
    ensures Go(w, 0, s, [a, b]) == Stretch(s.(taken := s.taken + [Taken(0, a)]), [b], [a])
  {
    assert [a, b][0] == a && [a, b][1..] == [b];
  }

  lemma LastOne(w: World, chunk: nat, b: bytes, s: Session)
    requires b != CLOSE_TEXT && w.kind(b) == OtherJson && s.authenticated
    ensures Go(w, chunk, s, [b]) == Stretch(s.(taken := s.taken + [Taken(chunk, b)]), [], [b])
  {
    var t := HandleText(w, chunk, s, b);
    assert [b][0] == b && [b][1..] == [];
    assert [b] + [] == [b];
  }

  /** Two messages in one chunk and one in the next can be taken in the order first, third, second: a handler gives
      way while its dispatch is awaited. */
  lemma LaterChunkCanOvertake(w: World, x: bytes, y: bytes, a: bytes, b: bytes, c: bytes)
    requires ServerTexts(x) == [a, b] && Parse(x).rest == [] && ServerTexts(y) == [c]
    requires a != CLOSE_TEXT && b != CLOSE_TEXT && c != CLOSE_TEXT
    requires w.kind(a) == OtherJson && w.kind(b) == OtherJson && w.kind(c) == OtherJson
    requires w.fate(0) == Awaited
    ensures Run(w, false, [Chunk(x), Chunk(y), Wake(0)]).session.taken == [Taken(0, a), Taken(1, c), Taken(0, b)]
  {
    hide HandleText;
    var s := Session(true, true, []);
    var s1 := s.(taken := [Taken(0, a)]);
    var s2 := s.(taken := [Taken(0, a), Taken(1, c)]);
    assert s.taken + [Taken(0, a)] == s1.taken && s1.taken + [Taken(1, c)] == s2.taken;
    assert s2.taken + [Taken(0, b)] == [Taken(0, a), Taken(1, c), Taken(0, b)];
    TwoThenOne(w, a, b, s);
    LastOne(w, 1, c, s1);
    LastOne(w, 0, b, s2);
    TwoChunksAndAWake(w, x, y, [a, b], [b], [c], s1, s2);
  }

  /** The run of two chunks, the first of which leaves something, and a wake of its handler. */
  lemma TwoChunksAndAWake(w: World, x: bytes, y: bytes, texts: seq<bytes>, left: seq<bytes>, more: seq<bytes>,
                          s1: Session, s2: Session)
    requires ServerTexts(x) == texts && Parse(x).rest == [] && ServerTexts(y) == more
    requires Go(w, 0, Session(true, true, []), texts).s == s1 && s1.open
    requires Go(w, 0, Session(true, true, []), texts).left == left
    requires Go(w, 1, s1, more).s == s2 && Go(w, 1, s1, more).left == []
    ensures var d := Run(w, false, [Chunk(x), Chunk(y), Wake(0)]);
      d.session == Go(w, 0, s2, left).s && d.arrived == [texts, more]
  {
    hide Parse, ServerTexts, Go, HandleText;
    assert [] + x == x && [] + y == y;
    RunMore(w, false, [], Chunk(x));
    RunMore(w, false, [Chunk(x)], Chunk(y));
    RunMore(w, false, [Chunk(x), Chunk(y)], Wake(0));
    assert [] + [Chunk(x)] == [Chunk(x)] && [Chunk(x)] + [Chunk(y)] == [Chunk(x), Chunk(y)];
    assert [Chunk(x), Chunk(y)] + [Wake(0)] == [Chunk(x), Chunk(y), Wake(0)];
    var c1 := Run(w, false, [Chunk(x)]);
    assert c1.session == s1 && c1.rxBuf == [] && c1.waiting == [left] && |c1.arrived| == 1;
    var c2 := Run(w, false, [Chunk(x), Chunk(y)]);
    assert c2.session == s2 && c2.waiting == [left, []];
  }

  /** And a message is taken behind a close that stands in an earlier chunk, but behind an awaited dispatch; handling
      one chunk after the other would not take it. */
  lemma TakenBehindClose(w: World, x: bytes, y: bytes, a: bytes, c: bytes)
    requires ServerTexts(x) == [a, CLOSE_TEXT] && Parse(x).rest == [] && ServerTexts(y) == [c]
    requires a != CLOSE_TEXT && c != CLOSE_TEXT && w.kind(a) == OtherJson && w.kind(c) == OtherJson
    requires w.fate(0) == Awaited
    ensures var d := Run(w, false, [Chunk(x), Chunk(y), Wake(0)]);
      && !d.session.open && d.session.taken == [Taken(0, a), Taken(1, c)] && TakenBehind(d)
      && Serially(w, false, d.arrived).taken == [Taken(0, a)]
  {
    hide HandleText;
    var s := Session(true, true, []);
    var s1 := s.(taken := [Taken(0, a)]);
    var s2 := s.(taken := [Taken(0, a), Taken(1, c)]);
    assert s.taken + [Taken(0, a)] == s1.taken && s1.taken + [Taken(1, c)] == s2.taken;
    TwoThenOne(w, a, CLOSE_TEXT, s);
    LastOne(w, 1, c, s1);
    CloseAlone(w, s2);
    TwoChunksAndAWake(w, x, y, [a, CLOSE_TEXT], [CLOSE_TEXT], [c], s1, s2);
    var d := Run(w, false, [Chunk(x), Chunk(y), Wake(0)]);
    hide Run, Go, Together, Parse, ServerTexts;
    assert Taken(1, c) in d.session.taken && CLOSE_TEXT in d.arrived[0];
    SerialClose(w, a, [c]);
  }

  /** Handled one after the other, the chunk behind the close is never looked at. */
  lemma SerialClose(w: World, a: bytes, more: seq<bytes>)
    requires a != CLOSE_TEXT && w.kind(a) == OtherJson
    ensures Serially(w, false, [[a, CLOSE_TEXT], more]).taken == [Taken(0, a)]
  {
    var s := Session(true, true, []);
    TwoTexts(w, s, a, CLOSE_TEXT);
    SeriallyMore(w, false, [], [a, CLOSE_TEXT]);
    SeriallyMore(w, false, [[a, CLOSE_TEXT]], more);
    assert [] + [[a, CLOSE_TEXT]] == [[a, CLOSE_TEXT]];
    assert [[a, CLOSE_TEXT]] + [more] == [[a, CLOSE_TEXT], more];
    assert s.taken + [Taken(0, a)] == [Taken(0, a)];
  }

  lemma CloseAlone(w: World, s: Session)
    ensures Go(w, 0, s, [CLOSE_TEXT]).s == s.(open := false)
  {
    assert [CLOSE_TEXT][0] == CLOSE_TEXT;
  }

  // ---------------------------------------------------------------------------
  // Client to server
  // ---------------------------------------------------------------------------

  /** Nothing stands in the way of the texts: JSON, no sentinel, and a null only as the last or behind the
      rate limit; n is how many texts got there before. */
  predicate Passable(w: World, n: nat, texts: seq<bytes>) {
    forall i :: 0 <= i < |texts| ==>
      && texts[i] != CLOSE_TEXT && w.kind(texts[i]) != NotJson
      && (w.kind(texts[i]) == NullJson && i < |texts| - 1 ==> w.fate(n + i) == Limited)
  }

  lemma PassableStep(w: World, n: nat, texts: seq<bytes>)
    requires texts != []
    ensures Passable(w, n, texts) <==>
            && texts[0] != CLOSE_TEXT && w.kind(texts[0]) != NotJson
            && (w.kind(texts[0]) == NullJson && |texts| > 1 ==> w.fate(n) == Limited)
            && Passable(w, n + 1, texts[1..])
  {
    var rest := texts[1..];
    assert forall i :: 0 <= i < |rest| ==> rest[i] == texts[i + 1];
    if texts[0] != CLOSE_TEXT && w.kind(texts[0]) != NotJson && Passable(w, n + 1, rest)
      && (w.kind(texts[0]) == NullJson && |texts| > 1 ==> w.fate(n) == Limited) {
      forall i | 0 <= i < |texts|
        ensures texts[i] != CLOSE_TEXT && w.kind(texts[i]) != NotJson
        ensures w.kind(texts[i]) == NullJson && i < |texts| - 1 ==> w.fate(n + i) == Limited
      {
        if i > 0 {
          assert rest[i - 1] == texts[i] && n + 1 + (i - 1) == n + i;
        }
      }
    }
    if Passable(w, n, texts) {
      forall i | 0 <= i < |rest|
        ensures rest[i] != CLOSE_TEXT && w.kind(rest[i]) != NotJson
        ensures w.kind(rest[i]) == NullJson && i < |rest| - 1 ==> w.fate(n + 1 + i) == Limited
      {
        assert texts[i + 1] == rest[i] && n + (i + 1) == n + 1 + i;
      }
    }
  }

  lemma {:induction false} AtMostAll(w: World, s: Session, texts: seq<bytes>)
    requires s.authenticated
    ensures |s.taken| <= |Together(w, 0, s, texts).taken| <= |s.taken| + |texts|
    ensures s.taken <= Together(w, 0, s, texts).taken
    decreases |texts|
  {
    if texts != [] {
      var t := HandleText(w, 0, s, texts[0]);
      if !t.ends {
        AtMostAll(w, t.s, texts[1..]);
      }
    }
  }

  /** An authenticated handler takes all its texts exactly when nothing stands in their way. */
  lemma {:induction false} TakesAllIff(w: World, s: Session, texts: seq<bytes>)
    requires s.authenticated
    ensures Texts(Together(w, 0, s, texts).taken) == Texts(s.taken) + texts <==> Passable(w, |s.taken|, texts)
    decreases |texts|
  {
    hide Passable;
    var all := Together(w, 0, s, texts).taken;
    AtMostAll(w, s, texts);
    if texts == [] {
      NothingPasses(w, |s.taken|);
      assert Texts(s.taken) + [] == Texts(s.taken);
    } else {
      PassableStep(w, |s.taken|, texts);
      var t := HandleText(w, 0, s, texts[0]);
      var rest := texts[1..];
      if |t.s.taken| > |s.taken| {
        assert Texts(t.s.taken) == Texts(s.taken) + [texts[0]];
        assert Texts(t.s.taken) + rest == Texts(s.taken) + texts;
      }
      if t.ends {
        if rest == [] {
          NothingPasses(w, |s.taken| + 1);
        }
      } else {
        AtMostAll(w, t.s, rest);
        TakesAllIff(w, t.s, rest);
      }
    }
  }

  lemma NothingPasses(w: World, n: nat)
    ensures Passable(w, n, [])
  {
  }

  /** A client's stream handled as one chunk, on a connection without a token: the payloads are taken exactly when
      none exceeds the limit and nothing else stands in their way. */
  lemma ClientIsTakenIff(w: World, payloads: seq<bytes>, masks: seq<bytes>)
    requires |masks| == |payloads|
    requires forall i :: 0 <= i < |payloads| ==> |payloads[i]| < 0x1_0000_0000 && |masks[i]| == 4
    ensures var sent := ServerTexts(ClientStream(payloads, masks));
      Texts(Together(w, 0, Session(true, true, []), sent).taken) == payloads <==>
            (forall i :: 0 <= i < |payloads| ==> |payloads[i]| <= MAX_WS_PAYLOAD) && Passable(w, 0, payloads)
  {
    hide Parse, ClientStream, Together, Passable;
    var s, stream := Session(true, true, []), ClientStream(payloads, masks);
    ClientRoundTrip(payloads, masks);
    assert Texts(s.taken) == [] && [] + payloads == payloads;
    if !Parse(stream).closed {
      TakesAllIff(w, s, payloads);
      assert payloads + [] == payloads;
    } else {
      ClosedTakesFewer(w, s, WithinLimit(payloads));
      ShorterWithinLimit(payloads);
    }
  }

  lemma {:induction false} ShorterWithinLimit(payloads: seq<bytes>)
    requires exists i :: 0 <= i < |payloads| && |payloads[i]| > MAX_WS_PAYLOAD
    ensures |WithinLimit(payloads)| < |payloads|
  {
    if |payloads[0]| <= MAX_WS_PAYLOAD {
      var i :| 0 <= i < |payloads| && |payloads[i]| > MAX_WS_PAYLOAD;
      assert payloads[1..][i - 1] == payloads[i];
      ShorterWithinLimit(payloads[1..]);
    }
  }

  /** The sentinel at the end of the texts is not taken. */
  lemma {:induction false} ClosedTakesFewer(w: World, s: Session, texts: seq<bytes>)
    requires s.authenticated
    ensures |Together(w, 0, s, texts + [CLOSE_TEXT]).taken| <= |s.taken| + |texts|
    decreases |texts|
  {
    var all := texts + [CLOSE_TEXT];
    if texts == [] {
      assert all[0] == CLOSE_TEXT;
    } else {
      assert all[0] == texts[0] && all[1..] == texts[1..] + [CLOSE_TEXT];
      var t := HandleText(w, 0, s, texts[0]);
      if !t.ends {
        ClosedTakesFewer(w, t.s, texts[1..]);
      }
    }
  }

  // ---------------------------------------------------------------------------
  // Senders that wait
  // ---------------------------------------------------------------------------

  /** A sender that waits for every reply before its next chunk: each chunk finds all handlers through. */
  predicate Quiet(w: World, tokenRequired: bool, events: seq<Event>) {
    events != [] ==>
      var front := events[..|events| - 1];
      && Quiet(w, tokenRequired, front)
      && (events[|events| - 1].Chunk? ==> Finished(Run(w, tokenRequired, front)))
  }

  ghost predicate OnlyLastWaits(c: Connection) {
    forall j :: 0 <= j < |c.waiting| - 1 ==> c.waiting[j] == []
  }

  lemma {:induction false} QuietIsOrderly(w: World, tokenRequired: bool, events: seq<Event>)
    requires Quiet(w, tokenRequired, events)
    ensures Orderly(w, tokenRequired, events) && Heeds(w, tokenRequired, events)
    ensures OnlyLastWaits(Run(w, tokenRequired, events))
  {
    hide Go, Parse, ServerTexts;
    if events != [] {
      var front, last := events[..|events| - 1], events[|events| - 1];
      var c := Run(w, tokenRequired, front);
      QuietIsOrderly(w, tokenRequired, front);
      NothingDue(w);
      if last.Wake? && last.handler < |c.waiting| - 1 {
        GoNothing(w, last.handler, c.session);
      }
    }
  }

  /** Such a sender cannot tell the server from one that awaits nothing. */
  lemma QuietIsSerial(w: World, tokenRequired: bool, events: seq<Event>)
    requires Quiet(w, tokenRequired, events) && Finished(Run(w, tokenRequired, events))
    ensures var c := Run(w, tokenRequired, events); c.session == Serially(w, tokenRequired, c.arrived)
  {
    QuietIsOrderly(w, tokenRequired, events);
    SerialIff(w, tokenRequired, events);
  }
}

/** What an orderly run takes of the stream, with and without a token to present. */
module WebSocketStream {
  import opened WebSocketFrames
  import opened WebSocketEndpoints
  import opened WebSocketSessions
  import opened WebSocketOrder
  import opened WebSocketSerial

  // ---------------------------------------------------------------------------
  // The chunks that find the token accepted
  // ---------------------------------------------------------------------------

  /** What has become of the token: still asked for, accepted, or refused for good. */
  datatype Gate = Asked | Accepted | Barred

  /** The first text of the chunk that is a close or JSON decides. */
  function Knock(w: World, texts: seq<bytes>): Gate {
    if texts == [] then Asked
    else if texts[0] == CLOSE_TEXT then Barred
    else match w.kind(texts[0])
      case NotJson => Knock(w, texts[1..])
      case NullJson => Asked
      case ValidAuth => Accepted
      case OtherJson => Barred
  }

  function GateOf(w: World, tokenRequired: bool, chunks: seq<seq<bytes>>): Gate {
    if chunks == [] then (if tokenRequired then Asked else Accepted)
    else
      var g := GateOf(w, tokenRequired, chunks[..|chunks| - 1]);
      if g == Asked then Knock(w, chunks[|chunks| - 1]) else g
  }

  /** The chunks behind the one that presents the token; all of them if none is asked for. */
  function Heard(w: World, tokenRequired: bool, chunks: seq<seq<bytes>>): seq<seq<bytes>> {
    if chunks == [] then []
    else
      var front := chunks[..|chunks| - 1];
      Heard(w, tokenRequired, front) +
      if GateOf(w, tokenRequired, front) == Accepted then [chunks[|chunks| - 1]] else []
  }

  predicate AllSmooth(w: World, chunks: seq<seq<bytes>>) {
    forall j :: 0 <= j < |chunks| ==> Smooth(w, chunks[j])
  }

  lemma {:induction false} NothingHeard(w: World, tokenRequired: bool, chunks: seq<seq<bytes>>)
    ensures GateOf(w, tokenRequired, chunks) != Accepted ==> Heard(w, tokenRequired, chunks) == []
  {
    if chunks != [] {
      NothingHeard(w, tokenRequired, chunks[..|chunks| - 1]);
    }
  }

  lemma {:induction false} NoneAsked(w: World, chunks: seq<seq<bytes>>)
    ensures GateOf(w, false, chunks) == Accepted && Heard(w, false, chunks) == chunks
  {
    if chunks != [] {
      NoneAsked(w, chunks[..|chunks| - 1]);
      assert chunks == chunks[..|chunks| - 1] + [chunks[|chunks| - 1]];
    }
  }

  // ---------------------------------------------------------------------------
  // Sessions agree with the gate
  // ---------------------------------------------------------------------------

  predicate AtGate(g: Gate, s: Session) {
    match g
    case Asked => s == Session(false, true, [])
    case Accepted => s.authenticated
    case Barred => s == Session(false, false, [])
  }

  lemma {:induction false} GoKnocks(w: World, chunk: nat, texts: seq<bytes>)
    ensures var s := Session(false, true, []);
      var r := Go(w, chunk, s, texts);
      AtGate(Knock(w, texts), r.s) && (Knock(w, texts) == Accepted ==> r.s == Session(true, true, [])) && r.left == []
    decreases |texts|
  {
    if texts != [] && w.kind(texts[0]) == NotJson {
      GoKnocks(w, chunk, texts[1..]);
    }
  }

  lemma TogetherKnocks(w: World, chunk: nat, texts: seq<bytes>)
    ensures var s := Together(w, chunk, Session(false, true, []), texts);
      AtGate(Knock(w, texts), s) && (Knock(w, texts) == Accepted ==> s == Session(true, true, []))
  {
    GoKnocks(w, chunk, texts);
    GoTogether(w, chunk, Session(false, true, []), texts);
  }

  lemma GateMore(w: World, tokenRequired: bool, chunks: seq<seq<bytes>>, texts: seq<bytes>)
    ensures var g := GateOf(w, tokenRequired, chunks);
      && GateOf(w, tokenRequired, chunks + [texts]) == (if g == Asked then Knock(w, texts) else g)
      && Heard(w, tokenRequired, chunks + [texts])
         == Heard(w, tokenRequired, chunks) + if g == Accepted then [texts] else []
  {
    assert (chunks + [texts])[..|chunks|] == chunks;
  }

  lemma AllSmoothParts(w: World, a: seq<seq<bytes>>, b: seq<seq<bytes>>)
    ensures AllSmooth(w, a + b) <==> AllSmooth(w, a) && AllSmooth(w, b)
  {
    hide Smooth;
    var all := a + b;
    if AllSmooth(w, all) {
      assert forall i :: 0 <= i < |a| ==> all[i] == a[i];
      assert forall i :: 0 <= i < |b| ==> all[|a| + i] == b[i];
    }
  }

  lemma OneSmooth(w: World, texts: seq<bytes>)
    ensures AllSmooth(w, [texts]) <==> Smooth(w, texts)
  {
    assert [texts][0] == texts;
  }

  lemma NoneSmooth(w: World)
    ensures AllSmooth(w, [])
  {
  }

  /** The gate of a run, and that a smooth one leaves nothing but smooth texts to its handlers. */
  ghost predicate Guarded(w: World, tokenRequired: bool, c: Connection) {
    && AtGate(GateOf(w, tokenRequired, c.arrived), c.session)
    && (AllSmooth(w, Heard(w, tokenRequired, c.arrived)) ==> AllSmooth(w, c.waiting))
  }

  lemma ChunkGuarded(w: World, tokenRequired: bool, c: Connection, data: bytes)
    requires Steady(c) && Guarded(w, tokenRequired, c) && c.session.open
    ensures Guarded(w, tokenRequired, Next(w, c, Chunk(data)))
  {
    hide Parse, ServerTexts, Go, Knock, GateOf, Heard, Smooth, AllSmooth;
    var n, texts := |c.arrived|, ServerTexts(c.rxBuf + data);
    var g, r := GateOf(w, tokenRequired, c.arrived), Go(w, n, c.session, texts);
    GateMore(w, tokenRequired, c.arrived, texts);
    GoTakes(w, n, c.session, texts);
    AllSmoothParts(w, Heard(w, tokenRequired, c.arrived), if g == Accepted then [texts] else []);
    AllSmoothParts(w, c.waiting, [r.left]);
    OneSmooth(w, texts);
    OneSmooth(w, r.left);
    SmoothNothing(w);
    NoneSmooth(w);
    if g == Asked {
      GoKnocks(w, n, texts);
    }
  }

  lemma SmoothNothing(w: World)
    ensures Smooth(w, [])
  {
  }

  lemma WakeGuarded(w: World, tokenRequired: bool, c: Connection, h: nat)
    requires Steady(c) && Guarded(w, tokenRequired, c) && h < |c.waiting|
    ensures Guarded(w, tokenRequired, Next(w, c, Wake(h)))
  {
    hide Go, Knock, GateOf, Heard, Smooth;
    GoTakes(w, h, c.session, c.waiting[h]);
    SmoothNothing(w);
    if !c.session.authenticated {
      GoNothing(w, h, c.session);
    }
  }

  lemma {:induction false} RunGuarded(w: World, tokenRequired: bool, events: seq<Event>)
    ensures Guarded(w, tokenRequired, Run(w, tokenRequired, events))
  {
    hide Guarded, Next, Steady;
    if events == [] {
      FreshGuarded(w, tokenRequired);
    } else {
      var front, last := events[..|events| - 1], events[|events| - 1];
      var c := Run(w, tokenRequired, front);
      RunGuarded(w, tokenRequired, front);
      OrderlyIffNotOvertaken(w, tokenRequired, front);
      NextGuarded(w, tokenRequired, c, last);
    }
  }

  lemma NextGuarded(w: World, tokenRequired: bool, c: Connection, e: Event)
    requires Steady(c) && Guarded(w, tokenRequired, c)
    ensures Guarded(w, tokenRequired, Next(w, c, e))
  {
    if !Void(c, e) {
      hide Guarded, Next, Steady;
      match e {
        case Chunk(data) => ChunkGuarded(w, tokenRequired, c, data);
        case Wake(h) => WakeGuarded(w, tokenRequired, c, h);
      }
    }
  }

  lemma FreshGuarded(w: World, tokenRequired: bool)
    ensures Guarded(w, tokenRequired, Fresh(tokenRequired))
  {
  }

  // ---------------------------------------------------------------------------
  // What the serial server takes
  // ---------------------------------------------------------------------------

  lemma SmoothTurn(w: World, chunk: nat, s: Session, text: bytes)
    requires s.authenticated && text != CLOSE_TEXT && w.kind(text) != NullJson
    ensures var t := HandleText(w, chunk, s, text);
      && !t.ends && t.s.authenticated && t.s.open == s.open
      && Texts(t.s.taken) == Texts(s.taken) + if w.kind(text) != NotJson then [text] else []
  {
    assert Texts(s.taken + [Taken(chunk, text)]) == Texts(s.taken) + [text];
  }

  lemma {:induction false} SmoothTogether(w: World, chunk: nat, s: Session, texts: seq<bytes>)
    requires s.authenticated && Smooth(w, texts)
    ensures var t := Together(w, chunk, s, texts);
      t.authenticated && t.open == s.open && Texts(t.taken) == Texts(s.taken) + Due(w, texts)
    decreases |texts|
  {
    hide HandleText, Smooth, Due, Texts;
    if texts == [] {
      NothingDue(w);
    } else {
      var text, rest := texts[0], texts[1..];
      assert texts == [text] + rest;
      DueCons(w, text, rest);
      SmoothTurn(w, chunk, s, text);
      SmoothTogether(w, chunk, HandleText(w, chunk, s, text).s, rest);
      var first := if w.kind(text) != NotJson then [text] else [];
      assert (Texts(s.taken) + first) + Due(w, rest) == Texts(s.taken) + (first + Due(w, rest));
    }
  }

  lemma {:induction false} DueConcat(w: World, a: seq<bytes>, b: seq<bytes>)
    requires CLOSE_TEXT !in a
    ensures Due(w, a + b) == Due(w, a) + Due(w, b)
    decreases |a|
  {
    if a == [] {
      assert a + b == b && [] + Due(w, b) == Due(w, b);
    } else {
      DueConcat(w, a[1..], b);
      assert (a + b)[0] == a[0] && (a + b)[1..] == a[1..] + b;
    }
  }

  lemma SmoothHasNoClose(w: World, texts: seq<bytes>)
    ensures Smooth(w, texts) ==> CLOSE_TEXT !in texts
  {
  }

  lemma {:induction false} FlattenHasNoClose(w: World, chunks: seq<seq<bytes>>)
    requires AllSmooth(w, chunks)
    ensures CLOSE_TEXT !in Flatten(chunks)
  {
    hide Smooth;
    if chunks != [] {
      FlattenHasNoClose(w, chunks[..|chunks| - 1]);
      SmoothHasNoClose(w, chunks[|chunks| - 1]);
    }
  }

  lemma FlattenMore(chunks: seq<seq<bytes>>, texts: seq<bytes>)
    ensures Flatten(chunks + [texts]) == Flatten(chunks) + texts
  {
    assert (chunks + [texts])[..|chunks|] == chunks;
  }

  lemma {:induction false} SeriallyHears(w: World, tokenRequired: bool, chunks: seq<seq<bytes>>)
    requires AllSmooth(w, Heard(w, tokenRequired, chunks))
    ensures var g, s := GateOf(w, tokenRequired, chunks), Serially(w, tokenRequired, chunks);
      && AtGate(g, s) && (g == Accepted ==> s.open)
      && Texts(s.taken) == Due(w, Flatten(Heard(w, tokenRequired, chunks)))
  {
    hide Together, Knock, Smooth, AllSmooth, Due;
    NothingDue(w);
    if chunks != [] {
      var n := |chunks| - 1;
      var front, texts := chunks[..n], chunks[n];
      var heard, g := Heard(w, tokenRequired, front), GateOf(w, tokenRequired, front);
      AllSmoothParts(w, heard, if g == Accepted then [texts] else []);
      SeriallyHears(w, tokenRequired, front);
      NothingHeard(w, tokenRequired, front);
      hide Serially, Flatten;
      assert chunks == front + [texts];
      SeriallyMore(w, tokenRequired, front, texts);
      GateMore(w, tokenRequired, front, texts);
      assert heard + [] == heard;
      match g {
        case Asked => TogetherKnocks(w, n, texts);
        case Accepted =>
          OneSmooth(w, texts);
          SmoothTogether(w, n, Serially(w, tokenRequired, front), texts);
          FlattenMore(heard, texts);
          FlattenHasNoClose(w, heard);
          DueConcat(w, Flatten(heard), texts);
        case Barred =>
      }
    }
  }

  // ---------------------------------------------------------------------------
  // In order, the stream is what is taken
  // ---------------------------------------------------------------------------

  lemma HeardGrows(w: World, tokenRequired: bool, c: Connection, e: Event)
    requires AllSmooth(w, Heard(w, tokenRequired, Next(w, c, e).arrived))
    ensures AllSmooth(w, Heard(w, tokenRequired, c.arrived))
  {
    hide Parse, ServerTexts, Go, GateOf, Heard, AllSmooth;
    if !Void(c, e) && e.Chunk? {
      var texts := ServerTexts(c.rxBuf + e.data);
      GateMore(w, tokenRequired, c.arrived, texts);
      AllSmoothParts(w, Heard(w, tokenRequired, c.arrived),
                     if GateOf(w, tokenRequired, c.arrived) == Accepted then [texts] else []);
    }
  }

  lemma SmoothWaits(w: World, chunks: seq<seq<bytes>>)
    requires AllSmooth(w, chunks)
    ensures !CloseIn(chunks)
  {
    forall i | 0 <= i < |chunks|
      ensures CLOSE_TEXT !in chunks[i]
    {
      SmoothHasNoClose(w, chunks[i]);
    }
  }

  lemma {:induction false} SmoothHeeds(w: World, tokenRequired: bool, events: seq<Event>)
    requires AllSmooth(w, Heard(w, tokenRequired, Run(w, tokenRequired, events).arrived))
    ensures Heeds(w, tokenRequired, events)
  {
    hide AllSmooth, Heard, Next, CloseIn, Takes;
    if events != [] {
      var front, last := events[..|events| - 1], events[|events| - 1];
      var c := Run(w, tokenRequired, front);
      HeardGrows(w, tokenRequired, c, last);
      SmoothHeeds(w, tokenRequired, front);
      RunGuarded(w, tokenRequired, front);
      SmoothWaits(w, c.waiting);
    }
  }

  /** Over heard chunks that end no handler early, an orderly run takes exactly what counts of the stream behind the
      chunk that presents the token, in the order of the stream, however it was cut. */
  lemma OrderlyFollowsStream(w: World, tokenRequired: bool, events: seq<Event>)
    requires var c := Run(w, tokenRequired, events);
      AllSmooth(w, Heard(w, tokenRequired, c.arrived)) && Finished(c)
    requires Orderly(w, tokenRequired, events)
    ensures var c := Run(w, tokenRequired, events);
      Texts(c.session.taken) == Due(w, Flatten(Heard(w, tokenRequired, c.arrived)))
  {
    SmoothHeeds(w, tokenRequired, events);
    SerialIff(w, tokenRequired, events);
    SeriallyHears(w, tokenRequired, Run(w, tokenRequired, events).arrived);
  }

  /** A stream whose texts end no handler has not closed. */
  lemma {:induction false} SmoothStreamIsOpen(w: World, tokenRequired: bool, events: seq<Event>)
    requires AllSmooth(w, Run(w, tokenRequired, events).arrived)
    ensures !Parse(Run(w, tokenRequired, events).received).closed
  {
    hide Parse, Go, AllSmooth;
    if events == [] {
      NothingParsed();
    } else {
      var front, last := events[..|events| - 1], events[|events| - 1];
      var c := Run(w, tokenRequired, front);
      if last.Chunk? && c.session.open {
        var texts := ServerTexts(c.rxBuf + last.data);
        AllSmoothParts(w, c.arrived, [texts]);
        OneSmooth(w, texts);
        SmoothIsOpen(w, c.rxBuf + last.data);
        TextsFollowStream(w, tokenRequired, front);
        ParseAppend(c.received, last.data);
      }
      SmoothStreamIsOpen(w, tokenRequired, front);
    }
  }

  lemma SmoothIsOpen(w: World, buf: bytes)
    requires Smooth(w, ServerTexts(buf))
    ensures !Parse(buf).closed
  {
    hide Parse;
    var texts := Parse(buf).texts + [CLOSE_TEXT];
    assert texts[|Parse(buf).texts|] == CLOSE_TEXT;
  }

  /** Without a token to present, that is what counts of the whole stream. */
  lemma WholeStreamIsTaken(w: World, events: seq<Event>)
    requires var c := Run(w, false, events); AllSmooth(w, c.arrived) && Finished(c)
    requires Orderly(w, false, events)
    ensures var c := Run(w, false, events);
      !Parse(c.received).closed && Texts(c.session.taken) == Due(w, Parse(c.received).texts)
  {
    NoneAsked(w, Run(w, false, events).arrived);
    OrderlyFollowsStream(w, false, events);
    SmoothStreamIsOpen(w, false, events);
    TextsFollowStream(w, false, events);
  }

  // ---------------------------------------------------------------------------
  // Client to server
  // ---------------------------------------------------------------------------

  /** Texts that are JSON, and neither null nor the sentinel. */
  predicate AllOrdinary(w: World, texts: seq<bytes>) {
    forall i :: 0 <= i < |texts| ==>
      texts[i] != CLOSE_TEXT && w.kind(texts[i]) != NullJson && w.kind(texts[i]) != NotJson
  }

  lemma {:induction false} AllCount(w: World, texts: seq<bytes>)
    requires AllOrdinary(w, texts)
    ensures Due(w, texts) == texts
  {
    if texts != [] {
      AllCount(w, texts[1..]);
    }
  }

  lemma {:induction false} FlattenedSmooth(w: World, chunks: seq<seq<bytes>>)
    requires Smooth(w, Flatten(chunks))
    ensures AllSmooth(w, chunks)
  {
    if chunks != [] {
      var front, last := chunks[..|chunks| - 1], chunks[|chunks| - 1];
      var a, all := Flatten(front), Flatten(chunks);
      assert forall i :: 0 <= i < |a| ==> all[i] == a[i];
      assert forall i :: 0 <= i < |last| ==> all[|a| + i] == last[i];
      FlattenedSmooth(w, front);
    }
  }

  /** Cut into any chunks, a client's JSON payloads within the limit are taken in their order, once all handlers are
      through and if no handler overtook another. */
  lemma ClientIsTakenInOrder(w: World, events: seq<Event>, payloads: seq<bytes>, masks: seq<bytes>)
    requires |masks| == |payloads|
    requires forall i :: 0 <= i < |payloads| ==> |payloads[i]| <= MAX_WS_PAYLOAD && |masks[i]| == 4
    requires AllOrdinary(w, payloads)
    requires var c := Run(w, false, events); c.received == ClientStream(payloads, masks) && Finished(c)
    requires Orderly(w, false, events)
    ensures Texts(Run(w, false, events).session.taken) == payloads
  {
    ClientRoundTrip(payloads, masks);
    TextsFollowStream(w, false, events);
    hide Parse, ClientStream, Finished, Orderly, Run, Due;
    FlattenedSmooth(w, Run(w, false, events).arrived);
    WholeStreamIsTaken(w, events);
    AllCount(w, payloads);
  }

  /** The first chunk with a text. */
  function Opening(chunks: seq<seq<bytes>>): seq<bytes> {
    if chunks == [] then []
    else
      var first := Opening(chunks[..|chunks| - 1]);
      if first == [] then chunks[|chunks| - 1] else first
  }

  lemma KnocksWithToken(w: World, texts: seq<bytes>)
    requires texts != [] ==> texts[0] != CLOSE_TEXT && w.kind(texts[0]) == ValidAuth
    ensures Knock(w, texts) == if texts == [] then Asked else Accepted
  {
  }

  /** With the token in front, what is heard is all behind the chunk it came in. */
  lemma {:induction false} HeardBehindToken(w: World, chunks: seq<seq<bytes>>)
    requires var all := Flatten(chunks); all != [] ==> all[0] != CLOSE_TEXT && w.kind(all[0]) == ValidAuth
    ensures var all, k := Flatten(chunks), |Opening(chunks)|;
      && GateOf(w, true, chunks) == (if all == [] then Asked else Accepted)
      && k <= |all| && (all == [] <==> k == 0) && Flatten(Heard(w, true, chunks)) == all[k..]
  {
    hide Knock;
    if chunks != [] {
      var front, last := chunks[..|chunks| - 1], chunks[|chunks| - 1];
      var all, heard := Flatten(chunks), Heard(w, true, front);
      assert Flatten(front) != [] ==> all[0] == Flatten(front)[0];
      HeardBehindToken(w, front);
      if Flatten(front) == [] {
        assert all == last;
        KnocksWithToken(w, last);
        NothingHeard(w, true, front);
      } else {
        FlattenMore(heard, last);
      }
    }
  }

  /** A client that presents its token first: all payloads are taken in their order but those that came in the chunk
      of the token, so all of them exactly when that chunk held nothing else. */
  lemma ClientIsTakenBehindToken(w: World, events: seq<Event>, auth: bytes, payloads: seq<bytes>, masks: seq<bytes>)
    requires |masks| == |payloads| + 1
    requires var sent := [auth] + payloads;
      forall i :: 0 <= i < |sent| ==> |sent[i]| <= MAX_WS_PAYLOAD && |masks[i]| == 4
    requires auth != CLOSE_TEXT && w.kind(auth) == ValidAuth && AllOrdinary(w, payloads)
    requires var c := Run(w, true, events); c.received == ClientStream([auth] + payloads, masks) && Finished(c)
    requires Orderly(w, true, events)
    ensures var c := Run(w, true, events);
      var k := |Opening(c.arrived)|;
      && 1 <= k <= |payloads| + 1
      && Texts(c.session.taken) == payloads[k - 1..]
      && (Texts(c.session.taken) == payloads <==> k == 1)
  {
    var c, sent := Run(w, true, events), [auth] + payloads;
    ClientRoundTrip(sent, masks);
    TextsFollowStream(w, true, events);
    assert Flatten(c.arrived) == sent;
    hide Parse, ClientStream, Finished, Orderly, Run, Due, Opening, Heard, Flatten, AllSmooth, AllOrdinary, Texts;
    OrdinaryBehindToken(w, c.arrived, auth, payloads);
    OrderlyFollowsStream(w, true, events);
  }

  lemma OrdinaryBehindToken(w: World, chunks: seq<seq<bytes>>, auth: bytes, payloads: seq<bytes>)
    requires auth != CLOSE_TEXT && w.kind(auth) == ValidAuth && AllOrdinary(w, payloads)
    requires Flatten(chunks) == [auth] + payloads
    ensures var heard, k := Heard(w, true, chunks), |Opening(chunks)|;
      && 1 <= k <= |payloads| + 1 && AllSmooth(w, heard) && Due(w, Flatten(heard)) == payloads[k - 1..]
      && (payloads[k - 1..] == payloads <==> k == 1)
  {
    hide Opening, Heard, GateOf, Flatten, AllSmooth, Due;
    HeardBehindToken(w, chunks);
    var k := |Opening(chunks)|;
    var rest := payloads[k - 1..];
    assert ([auth] + payloads)[k..] == rest;
    assert AllOrdinary(w, rest) && Smooth(w, rest);
    FlattenedSmooth(w, Heard(w, true, chunks));
    AllCount(w, rest);
  }
}

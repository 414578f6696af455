/** The server's end of a WebSocket connection: what becomes of the texts of each chunk when the handlers of
    several chunks run interleaved, each giving way at its awaits. */
module WebSocketSessions {
  import opened Wrappers
  import opened WebSocketFrames
  import opened WebSocketEndpoints

  /** What JSON.parse and the token comparison say about a text. */
  datatype Kind = NotJson | NullJson | ValidAuth | OtherJson

  /** What becomes of a text behind authentication: stopped by the rate limit, refused without an await, or
      handed to the server and awaited. */
  datatype Fate = Limited | Refused | Awaited

  /** fate(n) is that of the n-th text to get there. */
  datatype World = World(kind: bytes -> Kind, fate: nat -> Fate)

  /** A text that got past authentication, and the number of the chunk whose handler took it there. */
  datatype Taken = Taken(chunk: nat, text: bytes)

  datatype Session = Session(authenticated: bool, open: bool, taken: seq<Taken>)

  /** One turn of a handler's loop: whether the handler ends with it, or waits. */
  datatype Turn = Turn(s: Session, ends: bool, waits: bool)

  /** null raises at the first member access, which ends the handler. */
  function HandleText(w: World, chunk: nat, s: Session, text: bytes): Turn {
    if text == CLOSE_TEXT then Turn(s.(open := false), true, false)
    else if w.kind(text) == NotJson then Turn(s, false, false)
    else if !s.authenticated then
      if w.kind(text) == NullJson then Turn(s, true, false)
      else if w.kind(text) == ValidAuth then Turn(s.(authenticated := true), true, false)
      else Turn(s.(open := false), true, false)
    else
      var fate := w.fate(|s.taken|);
      var t := s.(taken := s.taken + [Taken(chunk, text)]);
      Turn(t, w.kind(text) == NullJson && fate != Limited, w.kind(text) != NullJson && fate == Awaited)
  }

  /** A handler's run up to its next wait: the session behind it, the texts left, the texts it took. */
  datatype Stretch = Stretch(s: Session, left: seq<bytes>, news: seq<bytes>)

  function Go(w: World, chunk: nat, s: Session, texts: seq<bytes>): Stretch
    decreases |texts|
  {
    if texts == [] then Stretch(s, [], [])
    else
      var t := HandleText(w, chunk, s, texts[0]);
      var news := if |t.s.taken| > |s.taken| then [texts[0]] else [];
      if t.ends then Stretch(t.s, [], news)
      else if t.waits then Stretch(t.s, texts[1..], news)
      else
        var later := Go(w, chunk, t.s, texts[1..]);
        later.(news := news + later.news)
  }

  // ---------------------------------------------------------------------------
  // Connections
  // ---------------------------------------------------------------------------

  /** arrived and waiting hold, for each chunk's handler, its texts and those it has still to go through. */
  datatype Connection = Connection(
    rxBuf: bytes, received: bytes, session: Session, arrived: seq<seq<bytes>>, waiting: seq<seq<bytes>>)

  datatype Event = Chunk(data: bytes) | Wake(handler: nat)

  /** A chunk is delivered while the socket is open, and its handler runs at once up to its first wait. Waking
      a handler lets it run on, whatever has become of the socket. */
  function Next(w: World, c: Connection, e: Event): Connection {
    match e
    case Chunk(data) =>
      if !c.session.open then c
      else
        var texts := ServerTexts(c.rxBuf + data);
        var r := Go(w, |c.arrived|, c.session, texts);
        Connection(Parse(c.rxBuf + data).rest, c.received + data, r.s, c.arrived + [texts], c.waiting + [r.left])
    case Wake(i) =>
      if i >= |c.waiting| then c
      else
        var r := Go(w, i, c.session, c.waiting[i]);
        c.(session := r.s, waiting := c.waiting[i := r.left])
  }

  function Fresh(tokenRequired: bool): Connection {
    Connection([], [], Session(!tokenRequired, true, []), [], [])
  }

  function Run(w: World, tokenRequired: bool, events: seq<Event>): Connection {
    if events == [] then Fresh(tokenRequired)
    else Next(w, Run(w, tokenRequired, events[..|events| - 1]), events[|events| - 1])
  }

  lemma RunMore(w: World, tokenRequired: bool, events: seq<Event>, e: Event)
    ensures Run(w, tokenRequired, events + [e]) == Next(w, Run(w, tokenRequired, events), e)
  {
    assert (events + [e])[..|events|] == events;
  }

  // ---------------------------------------------------------------------------
  // What one stretch takes
  // ---------------------------------------------------------------------------

  /** The texts that count: JSON, in front of the first close. */
  function Due(w: World, texts: seq<bytes>): seq<bytes> {
    if texts == [] || texts[0] == CLOSE_TEXT then []
    else if w.kind(texts[0]) != NotJson then [texts[0]] + Due(w, texts[1..])
    else Due(w, texts[1..])
  }

  /** None of the texts makes a handler end early: no close and no null. */
  predicate Smooth(w: World, texts: seq<bytes>) {
    forall i :: 0 <= i < |texts| ==> texts[i] != CLOSE_TEXT && w.kind(texts[i]) != NullJson
  }

  function Tag(chunk: nat, texts: seq<bytes>): (t: seq<Taken>)
    ensures |t| == |texts| && forall i :: 0 <= i < |t| ==> t[i] == Taken(chunk, texts[i])
  {
    seq(|texts|, i requires 0 <= i < |texts| => Taken(chunk, texts[i]))
  }

  lemma OneTurn(w: World, chunk: nat, s: Session, text: bytes)
    ensures var t := HandleText(w, chunk, s, text);
      && t.s.taken == s.taken + (if |t.s.taken| > |s.taken| then Tag(chunk, [text]) else [])
      && (|t.s.taken| > |s.taken| ==> text != CLOSE_TEXT && w.kind(text) != NotJson)
      && (s.authenticated ==> t.s.authenticated)
      && (!s.authenticated ==> t.s.taken == s.taken && !t.waits && (t.ends || (t.s == s && w.kind(text) == NotJson)))
      && (!t.ends ==> text != CLOSE_TEXT) && (t.waits ==> |t.s.taken| > |s.taken|)
      && (s.authenticated && text != CLOSE_TEXT ==>
            t.s.open == s.open && (|t.s.taken| > |s.taken| <==> w.kind(text) != NotJson)
            && (w.kind(text) != NullJson ==> !t.ends))
  {
    assert Tag(chunk, [text]) == [Taken(chunk, text)];
  }

  /** A stretch takes what counts in order and without gaps, for its own handler, and something if there is anything;
      if nothing ends it early, what it took and what it left are all that counts. */
  lemma {:induction false} GoTakes(w: World, chunk: nat, s: Session, texts: seq<bytes>)
    ensures var r := Go(w, chunk, s, texts);
      && r.s.taken == s.taken + Tag(chunk, r.news)
      && r.news + Due(w, r.left) <= Due(w, texts)
      && (r.left != [] ==> r.news != [])
      && (!s.authenticated ==> r.news == [])
      && (s.authenticated && Due(w, texts) != [] ==> r.news != [])
      && (s.authenticated ==> r.s.authenticated)
      && (s.authenticated && Smooth(w, texts) ==>
            r.s.open == s.open && r.news + Due(w, r.left) == Due(w, texts) && Smooth(w, r.left))
    decreases |texts|
  {
    hide HandleText, Due, Tag;
    NothingDue(w);
    if texts == [] {
      assert Tag(chunk, []) == [];
    } else {
      var text, rest := texts[0], texts[1..];
      OneTurn(w, chunk, s, text);
      DueCons(w, text, rest);
      assert texts == [text] + rest;
      var t := HandleText(w, chunk, s, text);
      var news := if |t.s.taken| > |s.taken| then [text] else [];
      if !t.ends && !t.waits {
        GoTakes(w, chunk, t.s, rest);
        var later := Go(w, chunk, t.s, rest);
        JoinNews(w, chunk, s.taken, news, later);
        PrefixBehind(news, later.news + Due(w, later.left), Due(w, rest));
        assert [] + Due(w, rest) == Due(w, rest);
      } else {
        assert Tag(chunk, []) == [];
        assert news + [] == news;
      }
    }
  }

  lemma PrefixBehind(news: seq<bytes>, a: seq<bytes>, b: seq<bytes>)
    requires a <= b
    ensures news + a <= news + b
  {
  }

  lemma NothingDue(w: World)
    ensures Due(w, []) == []
  {
  }

  lemma DueCons(w: World, text: bytes, rest: seq<bytes>)
    ensures Due(w, [text] + rest) ==
            if text == CLOSE_TEXT then [] else (if w.kind(text) != NotJson then [text] else []) + Due(w, rest)
    ensures Smooth(w, [text] + rest) <==> text != CLOSE_TEXT && w.kind(text) != NullJson && Smooth(w, rest)
  {
    var all := [text] + rest;
    assert all[0] == text && all[1..] == rest;
    assert forall i :: 0 <= i < |rest| ==> all[i + 1] == rest[i];
    assert [] + Due(w, rest) == Due(w, rest);
  }

  /** The news of a turn in front of those of the rest of the stretch. */
  lemma JoinNews(w: World, chunk: nat, before: seq<Taken>, news: seq<bytes>, later: Stretch)
    requires later.s.taken == (before + Tag(chunk, news)) + Tag(chunk, later.news)
    ensures later.s.taken == before + Tag(chunk, news + later.news)
    ensures (news + later.news) + Due(w, later.left) == news + (later.news + Due(w, later.left))
  {
    assert Tag(chunk, news) + Tag(chunk, later.news) == Tag(chunk, news + later.news);
  }

  // ---------------------------------------------------------------------------
  // Where a stretch stops
  // ---------------------------------------------------------------------------

  /** Behind authentication: the n-th text to get there is handed to the server, and its answer awaited. */
  predicate Pauses(w: World, n: nat, text: bytes) {
    text != CLOSE_TEXT && w.kind(text) in {ValidAuth, OtherJson} && w.fate(n) == Awaited
  }

  /** It ends the handler: a close, or a null that the rate limit lets through. */
  predicate Ends(w: World, n: nat, text: bytes) {
    text == CLOSE_TEXT || (w.kind(text) == NullJson && w.fate(n) != Limited)
  }

  /** The handler, n texts having got there before, goes through k of the texts without stopping. */
  predicate GoesThrough(w: World, n: nat, texts: seq<bytes>, k: nat) {
    k <= |texts| && forall i :: 0 <= i < k ==>
      var m := n + |Due(w, texts[..i])|;
      !Pauses(w, m, texts[i]) && !Ends(w, m, texts[i])
  }

  lemma GoesThroughCons(w: World, n: nat, text: bytes, rest: seq<bytes>, k: nat)
    requires !Pauses(w, n, text) && !Ends(w, n, text)
    requires GoesThrough(w, n + (if w.kind(text) != NotJson then 1 else 0), rest, k)
    ensures GoesThrough(w, n, [text] + rest, k + 1)
  {
    hide Due, Pauses;
    NothingDue(w);
    var all := [text] + rest;
    forall i | 0 <= i < k + 1
      ensures var m := n + |Due(w, all[..i])|; !Pauses(w, m, all[i]) && !Ends(w, m, all[i])
    {
      if i > 0 {
        assert all[..i] == [text] + rest[..i - 1] && all[i] == rest[i - 1];
        DueCons(w, text, rest[..i - 1]);
      } else {
        assert all[..i] == [];
      }
    }
  }

  /** What a stretch from s comes to that stops at text k, or goes through all of them. */
  predicate StopsAt(w: World, s: Session, texts: seq<bytes>, k: nat, r: Stretch)
    requires k <= |texts|
  {
    var n := |s.taken| + |Due(w, texts[..k])|;
    if k == |texts| then r.left == [] && r.news == Due(w, texts) && r.s.open == s.open
    else
      && (Pauses(w, n, texts[k]) || Ends(w, n, texts[k]))
      && r.left == (if Pauses(w, n, texts[k]) then texts[k + 1..] else [])
      && r.news == Due(w, texts[..k + 1]) && r.s.open == (s.open && texts[k] != CLOSE_TEXT)
  }

  lemma StopsAtOnce(w: World, chunk: nat, s: Session, text: bytes, rest: seq<bytes>)
    requires s.authenticated && (Pauses(w, |s.taken|, text) || Ends(w, |s.taken|, text))
    ensures StopsAt(w, s, [text] + rest, 0, Go(w, chunk, s, [text] + rest))
  {
    var texts := [text] + rest;
    NothingDue(w);
    DueCons(w, text, []);
    TurnIs(w, chunk, s, text);
    hide HandleText, Due, Pauses, Ends;
    assert texts[0] == text && texts[1..] == rest && texts[..0] == [] && texts[..1] == [text] + [];
  }

  /** What a text in front adds when it does not stop the stretch. */
  lemma GoFurther(w: World, chunk: nat, s: Session, text: bytes, rest: seq<bytes>)
    requires s.authenticated && !Pauses(w, |s.taken|, text) && !Ends(w, |s.taken|, text)
    ensures var t, first := HandleText(w, chunk, s, text).s, if w.kind(text) != NotJson then [text] else [];
      var later := Go(w, chunk, t, rest);
      && Go(w, chunk, s, [text] + rest) == later.(news := first + later.news)
      && |t.taken| == |s.taken| + |first| && t.open == s.open
      && forall k :: 0 <= k <= |rest| ==> Due(w, ([text] + rest)[..k + 1]) == first + Due(w, rest[..k])
  {
    var texts := [text] + rest;
    TurnIs(w, chunk, s, text);
    hide HandleText, Pauses, Due;
    assert texts[0] == text && texts[1..] == rest;
    forall k | 0 <= k <= |rest|
      ensures Due(w, texts[..k + 1]) == (if w.kind(text) != NotJson then [text] else []) + Due(w, rest[..k])
    {
      assert texts[..k + 1] == [text] + rest[..k];
      DueCons(w, text, rest[..k]);
    }
  }

  lemma StopsLater(w: World, chunk: nat, s: Session, text: bytes, rest: seq<bytes>, k: nat)
    requires s.authenticated && !Pauses(w, |s.taken|, text) && !Ends(w, |s.taken|, text) && k <= |rest|
    requires var t := HandleText(w, chunk, s, text).s; StopsAt(w, t, rest, k, Go(w, chunk, t, rest))
    ensures StopsAt(w, s, [text] + rest, k + 1, Go(w, chunk, s, [text] + rest))
  {
    GoFurther(w, chunk, s, text, rest);
    hide HandleText, Go, Due, Pauses, Ends;
    var texts := [text] + rest;
    if k < |rest| {
      assert texts[k + 1] == rest[k] && texts[k + 2..] == rest[k + 1..];
    } else {
      assert texts[..k + 1] == texts && rest[..k] == rest;
    }
  }

  /** A stretch behind authentication goes through the texts up to the first that pauses or ends it, takes what counts
      on the way, and leaves what stands behind a pause; a close shuts the socket, and nothing else does. */
  lemma {:induction false} GoStops(w: World, chunk: nat, s: Session, texts: seq<bytes>) returns (k: nat)
    requires s.authenticated
    ensures GoesThrough(w, |s.taken|, texts, k) && StopsAt(w, s, texts, k, Go(w, chunk, s, texts))
    decreases |texts|
  {
    NothingDue(w);
    k := 0;
    if texts != [] {
      var text, rest := texts[0], texts[1..];
      assert texts == [text] + rest;
      if Pauses(w, |s.taken|, text) || Ends(w, |s.taken|, text) {
        StopsAtOnce(w, chunk, s, text, rest);
      } else {
        TurnIs(w, chunk, s, text);
        hide HandleText, Go, StopsAt, GoesThrough, Pauses;
        var m := GoStops(w, chunk, HandleText(w, chunk, s, text).s, rest);
        GoesThroughLength(w, chunk, s, text, rest, m);
        StopsLater(w, chunk, s, text, rest, m);
        GoesThroughCons(w, |s.taken|, text, rest, m);
        k := m + 1;
      }
    }
  }

  lemma GoesThroughLength(w: World, chunk: nat, s: Session, text: bytes, rest: seq<bytes>, k: nat)
    requires GoesThrough(w, |HandleText(w, chunk, s, text).s.taken|, rest, k)
    ensures k <= |rest|
  {
  }

  lemma TurnIs(w: World, chunk: nat, s: Session, text: bytes)
    requires s.authenticated
    ensures var t, n := HandleText(w, chunk, s, text), |s.taken|;
      && t.waits == Pauses(w, n, text) && t.ends == Ends(w, n, text)
      && t.s.open == (s.open && text != CLOSE_TEXT) && t.s.authenticated
      && |t.s.taken| == n + if text != CLOSE_TEXT && w.kind(text) != NotJson then 1 else 0
  {
  }
}

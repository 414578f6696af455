/** The server's end of a connection as the object the program keeps: the receive buffer, the flags, and the
    handlers that wait for a dispatch. */
module WebSocketServer {
  import opened WebSocketFrames
  import opened WebSocketEndpoints
  import opened WebSocketSessions
  import opened WebSocketOrder

  class ServerConnection {
    const world: World
    const tokenRequired: bool
    var rxBuf: bytes
    var authenticated: bool
    var open: bool
    // The texts each chunk's handler has still to go through.
    var waiting: seq<seq<bytes>>
    // What got past authentication so far.
    var taken: seq<Taken>
    ghost var arrived: seq<seq<bytes>>
    ghost var received: bytes
    ghost var events: seq<Event>

    ghost function Now(): Session
      reads this
    {
      Session(authenticated, open, taken)
    }

    ghost function State(): Connection
      reads this
    {
      Connection(rxBuf, received, Now(), arrived, waiting)
    }

    ghost predicate Valid()
      reads this
    {
      State() == Run(world, tokenRequired, events) && |arrived| == |waiting|
    }

    constructor (world: World, tokenRequired: bool)
      ensures Valid() && events == []
      ensures this.world == world && this.tokenRequired == tokenRequired
    {
      this.world, this.tokenRequired := world, tokenRequired;
      rxBuf, authenticated, open, waiting, taken := [], !tokenRequired, true, [], [];
      arrived, received, events := [], [], [];
    }

    /** A chunk arrives. Until the stream closes, the texts handed to handlers and the buffer are those of the
        whole stream; every handler has taken its own texts in order and without gaps. */
    method OnData(chunk: bytes)
      requires Valid()
      modifies this
      ensures Valid() && events == old(events) + [Chunk(chunk)]
      ensures FollowsStream(State()) && Kept(world, State())
      ensures !old(open) ==> State() == old(State())
    {
      hide Parse, ServerTexts, Go, Run, FollowsStream, Kept;
      RunMore(world, tokenRequired, events, Chunk(chunk));
      TextsFollowStream(world, tokenRequired, events + [Chunk(chunk)]);
      WithinChunks(world, tokenRequired, events + [Chunk(chunk)]);
      events := events + [Chunk(chunk)];
      if !open {
        return;
      }
      received := received + chunk;
      var frames, remaining := ParseWsFrames(rxBuf + chunk);
      rxBuf := remaining;
      var left := HandleFrames(|waiting|, frames);
      arrived, waiting := arrived + [frames], waiting + [left];
    }

    /** The dispatch that handler h waits for is answered, and it goes on. */
    method Resume(h: nat)
      requires Valid() && h < |waiting|
      modifies this`authenticated, this`open, this`waiting, this`taken, this`events
      ensures Valid() && events == old(events) + [Wake(h)]
      ensures FollowsStream(State()) && Kept(world, State())
    {
      hide Parse, ServerTexts, Go, Run, FollowsStream, Kept;
      RunMore(world, tokenRequired, events, Wake(h));
      TextsFollowStream(world, tokenRequired, events + [Wake(h)]);
      WithinChunks(world, tokenRequired, events + [Wake(h)]);
      events := events + [Wake(h)];
      var left := HandleFrames(h, waiting[h]);
      waiting := waiting[h := left];
    }

    /** The loop over the texts of a chunk, from where handler h stands up to its next wait. */
    method HandleFrames(h: nat, frames: seq<bytes>) returns (left: seq<bytes>)
      modifies this`authenticated, this`open, this`taken
      ensures var r := Go(world, h, old(Now()), frames); Now() == r.s && left == r.left
    {
      assert frames[0..] == frames;
      for i := 0 to |frames|
        invariant SameEnd(Go(world, h, old(Now()), frames), Go(world, h, Now(), frames[i..]))
      {
        var text := frames[i];
        assert frames[i..][0] == text && frames[i..][1..] == frames[i + 1..];
        if text == CLOSE_TEXT {
          open := false;
          return [];
        }
        if world.kind(text) == NotJson {
          continue;
        }
        if !authenticated {
          if world.kind(text) == ValidAuth {
            authenticated := true;
          } else if world.kind(text) != NullJson {
            open := false;
          }
          return [];
        }
        var fate := world.fate(|taken|);
        taken := taken + [Taken(h, text)];
        if fate == Limited {
          continue;
        }
        if world.kind(text) == NullJson {
          return [];
        }
        if fate == Awaited {
          return frames[i + 1..];
        }
      }
      return [];
    }
  }

  predicate SameEnd(a: Stretch, b: Stretch) {
    a.s == b.s && a.left == b.left
  }
}

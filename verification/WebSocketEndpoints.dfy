/** The two ends of a WebSocket connection: frame writers and both incremental parsers. */
module WebSocketEndpoints {
  import opened Wrappers
  import opened WebSocketFrames

  /** The sentinel string "\x00CLOSE" that the server's parser uses for a close. */
  const CLOSE_TEXT: bytes := [0x00, 0x43, 0x4C, 0x4F, 0x53, 0x45]

  /** The strings the server's parser returns: a close shows as the sentinel at the end. */
  function ServerTexts(buf: bytes): seq<bytes> {
    var p := Parse(buf);
    p.texts + if p.closed then [CLOSE_TEXT] else []
  }

  /** What a close shows as: a zero character and the word CLOSE. */
  lemma CloseTextIs(buf: bytes)
    ensures |CLOSE_TEXT| == 6 && CLOSE_TEXT[0] == 0
    ensures forall i :: 1 <= i < 6 ==> CLOSE_TEXT[i] as int == "CLOSE"[i - 1] as int
    ensures ServerTexts(buf) == if Parse(buf).closed then Parse(buf).texts + [CLOSE_TEXT] else Parse(buf).texts
  {
    hide Parse;
    assert Parse(buf).texts + [] == Parse(buf).texts;
  }

  // ---------------------------------------------------------------------------
  // Independence of chunking
  // ---------------------------------------------------------------------------

  function Concat(chunks: seq<bytes>): bytes {
    if chunks == [] then [] else chunks[0] + Concat(chunks[1..])
  }

  /** Parsing chunk by chunk, keeping the remainder, until a close. */
  function Feed(rxBuf: bytes, chunks: seq<bytes>): Parsed
    decreases |chunks|
  {
    if chunks == [] then Parsed([], rxBuf, false)
    else
      var p := Parse(rxBuf + chunks[0]);
      if p.closed then p
      else
        var later := Feed(p.rest, chunks[1..]);
        later.(texts := p.texts + later.texts)
  }

  /** No complete frame is left in a remainder. */
  lemma {:induction false} RestIsUnfinished(buf: bytes)
    requires !Parse(buf).closed
    ensures FirstFrame(Parse(buf).rest) == Incomplete
    decreases |buf|
  {
    var s := FirstFrame(buf);
    if s.Frame? {
      RestIsUnfinished(buf[s.size..]);
    }
  }

  /** However a stream is cut into chunks, the frames are those of the whole stream; and when there is no
      close, so is the remainder. */
  lemma {:induction false} ChunkingDoesNotMatter(rxBuf: bytes, chunks: seq<bytes>)
    requires FirstFrame(rxBuf) == Incomplete
    ensures var whole := Parse(rxBuf + Concat(chunks));
      && Feed(rxBuf, chunks).texts == whole.texts && Feed(rxBuf, chunks).closed == whole.closed
      && (!whole.closed ==> Feed(rxBuf, chunks).rest == whole.rest)
    decreases |chunks|
  {
    hide FirstFrame;
    if chunks == [] {
      assert rxBuf + [] == rxBuf;
    } else {
      var a, b := rxBuf + chunks[0], Concat(chunks[1..]);
      assert rxBuf + Concat(chunks) == a + b;
      ParseAppend(a, b);
      if !Parse(a).closed {
        RestIsUnfinished(a);
        ChunkingDoesNotMatter(Parse(a).rest, chunks[1..]);
      }
    }
  }

  /** Two ways of cutting the same stream. */
  lemma SameStreamSameFrames(c1: seq<bytes>, c2: seq<bytes>)
    requires Concat(c1) == Concat(c2)
    ensures Feed([], c1).texts == Feed([], c2).texts && Feed([], c1).closed == Feed([], c2).closed
    ensures !Feed([], c1).closed ==> Feed([], c1).rest == Feed([], c2).rest
  {
    hide Parse, Feed;
    ChunkingDoesNotMatter([], c1);
    ChunkingDoesNotMatter([], c2);
  }

  /** What a client sends is what the server's handler is given, however it travels, exactly when no
      payload exceeds the limit. */
  lemma ClientReachesServer(payloads: seq<bytes>, masks: seq<bytes>, chunks: seq<bytes>)
    requires |masks| == |payloads|
    requires forall i :: 0 <= i < |payloads| ==> |payloads[i]| < 0x1_0000_0000 && |masks[i]| == 4
    requires Concat(chunks) == ClientStream(payloads, masks)
    ensures ServerTexts(Concat(chunks)) == payloads
       <==> forall i :: 0 <= i < |payloads| ==> |payloads[i]| <= MAX_WS_PAYLOAD
    ensures ServerTexts(Concat(chunks)) == payloads ==> Feed([], chunks) == Parsed(payloads, [], false)
  {
    hide Parse, Feed, ClientStream;
    ClientRoundTrip(payloads, masks);
    ChunkingDoesNotMatter([], chunks);
    var whole := Concat(chunks);
    assert [] + whole == whole;
    if Parse(whole).closed {
      ShortTexts(payloads);
      assert ServerTexts(whole)[|Parse(whole).texts|] == CLOSE_TEXT;
    }
  }

  /** The texts in front of an oversized payload, closed by the sentinel, are not the payloads. */
  lemma {:induction false} ShortTexts(payloads: seq<bytes>)
    requires exists i :: 0 <= i < |payloads| && |payloads[i]| > MAX_WS_PAYLOAD
    ensures WithinLimit(payloads) + [CLOSE_TEXT] != payloads
  {
    if |payloads[0]| <= MAX_WS_PAYLOAD {
      var i :| 0 <= i < |payloads| && |payloads[i]| > MAX_WS_PAYLOAD;
      assert payloads[1..][i - 1] == payloads[i];
      ShortTexts(payloads[1..]);
      var texts := WithinLimit(payloads) + [CLOSE_TEXT];
      assert texts[1..] == WithinLimit(payloads[1..]) + [CLOSE_TEXT];
    }
  }

  // ---------------------------------------------------------------------------
  // Writers
  // ---------------------------------------------------------------------------

  method WriteUInt16BE(buf: array<byte>, n: nat, i: nat)
    requires n < 0x1_0000 && i + 2 <= buf.Length
    modifies buf
    ensures buf[..] == old(buf[..i]) + UInt16BE(n) + old(buf[i + 2..])
  {
    buf[i], buf[i + 1] := n / 0x100, n % 0x100;
  }

  method WriteUInt32BE(buf: array<byte>, n: nat, i: nat)
    requires n < 0x1_0000_0000 && i + 4 <= buf.Length
    modifies buf
    ensures buf[..] == old(buf[..i]) + UInt32BE(n) + old(buf[i + 4..])
  {
    hide UInt16BE;
    WriteUInt16BE(buf, n / 0x1_0000, i);
    WriteUInt16BE(buf, n % 0x1_0000, i + 2);
  }

  /** The server's frame writer. A length that does not fit its header field raises, and nothing is written. */
  method WsSendText(payload: bytes) returns (written: Option<bytes>)
    ensures written == if |payload| < 0x1_0000_0000 then Some(ServerFrame(payload)) else None
  {
    hide UInt16BE, UInt32BE;
    var len := |payload|;
    if len >= 0x1_0000_0000 {
      return None;
    }
    var header: array<byte>;
    if len < 126 {
      header := new byte[2](_ => 0);
      header[0] := 0x81;
      header[1] := len;
    } else if len < 65536 {
      header := new byte[4](_ => 0);
      header[0] := 0x81;
      header[1] := 126;
      WriteUInt16BE(header, len, 2);
    } else {
      header := new byte[10](_ => 0);
      header[0] := 0x81;
      header[1] := 127;
      WriteUInt32BE(header, 0, 2);
      WriteUInt32BE(header, len, 6);
    }
    assert header[..] == Header(len, 0);
    written := Some(header[..] + payload);
  }

  /** XOR with the repeated mask, in place. */
  method MaskInPlace(payload: array<byte>, mask: bytes)
    requires |mask| == 4
    modifies payload
    ensures payload[..] == Masked(old(payload[..]), mask)
  {
    hide XorByte;
    for i := 0 to payload.Length
      invariant payload[i..] == old(payload[i..])
      invariant forall k :: 0 <= k < i ==> payload[k] == XorByte(old(payload[k]), mask[k % 4])
    {
      assert payload[i] == payload[i..][0];
      payload[i] := XorByte(payload[i], mask[i % 4]);
    }
  }

  method CopyOf(payload: bytes) returns (copy: array<byte>)
    ensures fresh(copy) && copy[..] == payload
  {
    copy := new byte[|payload|](i requires 0 <= i < |payload| => payload[i]);
  }

  /** The client's frame writer; mask stands for four random bytes. */
  method SendRaw(payload: bytes, mask: bytes) returns (written: Option<bytes>)
    requires |mask| == 4
    ensures written == if |payload| < 0x1_0000_0000 then Some(ClientFrame(payload, mask)) else None
  {
    hide Masked, Header;
    var masked := CopyOf(payload);
    MaskInPlace(masked, mask);
    if |payload| >= 0x1_0000_0000 {
      return None;
    }
    var header := MaskedHeader(|payload|, mask);
    written := Some(header[..] + masked[..]);
  }

  method MaskedHeader(len: nat, mask: bytes) returns (header: array<byte>)
    requires len < 0x1_0000_0000 && |mask| == 4
    ensures fresh(header) && header[..] == Header(len, 0x80) + mask
  {
    hide UInt16BE, UInt32BE;
    if len < 126 {
      header := new byte[6](_ => 0);
      header[0] := 0x81;
      header[1] := 0x80 + len;
      CopyInto(header, mask, 2);
    } else if len < 65536 {
      header := new byte[8](_ => 0);
      header[0] := 0x81;
      header[1] := 0x80 + 126;
      WriteUInt16BE(header, len, 2);
      CopyInto(header, mask, 4);
    } else {
      header := new byte[14](_ => 0);
      header[0] := 0x81;
      header[1] := 0x80 + 127;
      WriteUInt32BE(header, 0, 2);
      WriteUInt32BE(header, len, 6);
      CopyInto(header, mask, 10);
    }
  }

  method CopyInto(target: array<byte>, source: bytes, at: nat)
    requires at + |source| <= target.Length
    modifies target
    ensures target[..] == old(target[..at]) + source + old(target[at + |source|..])
  {
    forall k | 0 <= k < |source| {
      target[at + k] := source[k];
    }
  }

  // ---------------------------------------------------------------------------
  // Parsers
  // ---------------------------------------------------------------------------

  /** Reading inside a tail is reading at an offset. */
  lemma TailReads(buf: bytes, offset: nat)
    requires offset <= |buf|
    ensures forall i: nat :: offset + i + 2 <= |buf| ==> ReadUInt16BE(buf[offset..], i) == ReadUInt16BE(buf, offset + i)
    ensures forall i: nat :: offset + i + 4 <= |buf| ==> ReadUInt32BE(buf[offset..], i) == ReadUInt32BE(buf, offset + i)
  {
  }

  lemma TailSlice(buf: bytes, offset: nat, i: nat, j: nat)
    requires offset <= |buf| && i <= j && offset + j <= |buf|
    ensures buf[offset..][i..j] == buf[offset + i..offset + j]
    ensures buf[offset..][j..] == buf[offset + j..]
  {
  }

  /** The body of the frame at offset, its parts taken from the whole buffer. */
  lemma BodyAt(buf: bytes, offset: nat, hdrEnd: nat, len: nat)
    requires offset + 2 <= hdrEnd <= |buf| && len <= MAX_WS_PAYLOAD
    ensures var start := hdrEnd + if buf[offset + 1] >= 128 then 4 else 0;
      FrameBody(buf[offset..], hdrEnd - offset, len) ==
        if |buf| < start + len then Incomplete
        else Unpack(buf[offset], buf[hdrEnd..start], buf[start..start + len], start + len - offset)
  {
    hide Unpack;
    var tail := buf[offset..];
    var start := hdrEnd + if buf[offset + 1] >= 128 then 4 else 0;
    assert tail[0] == buf[offset] && tail[1] == buf[offset + 1];
    if |buf| >= start + len {
      TailSlice(buf, offset, hdrEnd - offset, start - offset);
      TailSlice(buf, offset, start - offset, start + len - offset);
    }
  }

  lemma UnpackIs(b0: byte, mask: bytes, raw: bytes, payload: bytes, size: nat)
    requires if |mask| == 4 then payload == Masked(raw, mask) else payload == raw
    ensures Unpack(b0, mask, raw, size) == Frame(b0 % 16, payload, size)
  {
  }

  /** One turn of a parser: the bytes before offset have given texts. */
  ghost predicate ParsedUpTo(buf: bytes, offset: nat, texts: seq<bytes>) {
    offset <= |buf| && Parse(buf) == Parse(buf[offset..]).(texts := texts + Parse(buf[offset..]).texts)
  }

  lemma ParserStarts(buf: bytes)
    ensures ParsedUpTo(buf, 0, [])
  {
    assert buf[0..] == buf && [] + Parse(buf).texts == Parse(buf).texts;
  }

  lemma ParserWaits(buf: bytes, offset: nat, texts: seq<bytes>)
    requires ParsedUpTo(buf, offset, texts) && FirstFrame(buf[offset..]) == Incomplete
    ensures texts == ServerTexts(buf) && buf[offset..] == Parse(buf).rest
    ensures texts == Parse(buf).texts && !Parse(buf).closed
  {
    hide FirstFrame;
  }

  lemma ParserRejects(buf: bytes, offset: nat, texts: seq<bytes>)
    requires ParsedUpTo(buf, offset, texts) && FirstFrame(buf[offset..]) == Reject
    ensures texts + [CLOSE_TEXT] == ServerTexts(buf) && buf[offset..] == Parse(buf).rest
    ensures texts == Parse(buf).texts && Parse(buf).closed
  {
    hide FirstFrame;
  }

  lemma ParserSteps(buf: bytes, offset: nat, texts: seq<bytes>, opcode: byte, payload: bytes, size: nat)
    requires ParsedUpTo(buf, offset, texts) && offset + size <= |buf|
    requires FirstFrame(buf[offset..]) == Frame(opcode, payload, size)
    ensures opcode == CLOSE ==>
              && texts + [CLOSE_TEXT] == ServerTexts(buf) && buf[offset + size..] == Parse(buf).rest
              && texts == Parse(buf).texts && Parse(buf).closed
    ensures opcode != CLOSE ==>
              ParsedUpTo(buf, offset + size, if opcode == TEXT || opcode == BINARY then texts + [payload] else texts)
  {
    hide FirstFrame, Parse;
    ParseStep(buf[offset..]);
    assert buf[offset..][size..] == buf[offset + size..];
    var later := Parse(buf[offset + size..]).texts;
    assert texts + ([payload] + later) == (texts + [payload]) + later;
    assert texts + [] == texts;
  }

  /** The server's parser: all complete frames of a buffer, and the remainder. */
  method ParseWsFrames(buf: bytes) returns (texts: seq<bytes>, remainder: bytes)
    ensures texts == ServerTexts(buf) && remainder == Parse(buf).rest
  {
    hide Parse, ServerTexts, ParsedUpTo, ReadUInt16BE, ReadUInt32BE, Masked, Unpack;
    texts := [];
    var offset := 0;
    ParserStarts(buf);
    while offset + 2 <= |buf|
      invariant 0 <= offset <= |buf| && ParsedUpTo(buf, offset, texts)
    {
      ghost var tail := buf[offset..];
      TailReads(buf, offset);
      var b0, b1 := buf[offset], buf[offset + 1];
      assert tail[0] == b0 && tail[1] == b1;
      var opcode, masked, payloadLen := b0 % 16, b1 >= 128, b1 % 128 as nat;
      var hdrEnd := offset + 2;
      if payloadLen == 126 {
        if |buf| < hdrEnd + 2 {
          break;
        }
        payloadLen := ReadUInt16BE(buf, hdrEnd);
        hdrEnd := hdrEnd + 2;
      } else if payloadLen == 127 {
        if |buf| < hdrEnd + 8 {
          break;
        }
        var high := ReadUInt32BE(buf, hdrEnd);
        if high != 0 {
          ParserRejects(buf, offset, texts);
          return texts + [CLOSE_TEXT], buf[offset..];
        }
        payloadLen := ReadUInt32BE(buf, hdrEnd + 4);
        hdrEnd := hdrEnd + 8;
      }
      assert FirstFrame(tail) == FrameBody(tail, hdrEnd - offset, payloadLen);
      if payloadLen > MAX_WS_PAYLOAD {
        ParserRejects(buf, offset, texts);
        return texts + [CLOSE_TEXT], buf[offset..];
      }
      var maskLen := if masked then 4 else 0;
      var frameEnd := hdrEnd + maskLen + payloadLen;
      if |buf| < frameEnd {
        break;
      }
      BodyAt(buf, offset, hdrEnd, payloadLen);
      var payload := buf[hdrEnd + maskLen..frameEnd];
      if masked {
        payload := Unmask(payload, buf[hdrEnd..hdrEnd + 4]);
      }
      UnpackIs(b0, buf[hdrEnd..hdrEnd + maskLen], buf[hdrEnd + maskLen..frameEnd], payload, frameEnd - offset);
      ParserSteps(buf, offset, texts, opcode, payload, frameEnd - offset);
      offset := frameEnd;
      if opcode == 0x1 || opcode == 0x2 {
        texts := texts + [payload];
      } else if opcode == 0x8 {
        return texts + [CLOSE_TEXT], buf[offset..];
      }
    }
    ParserWaits(buf, offset, texts);
    remainder := buf[offset..];
  }

  method Unmask(payload: bytes, mask: bytes) returns (plain: bytes)
    requires |mask| == 4
    ensures plain == Masked(payload, mask)
  {
    var copy := CopyOf(payload);
    MaskInPlace(copy, mask);
    plain := copy[..];
  }

  // ---------------------------------------------------------------------------
  // The client's end of a connection
  // ---------------------------------------------------------------------------

  class ClientSocket {
    var buffer: bytes
    var closed: bool

    /** The texts passed on, and all bytes that have arrived. */
    var handled: seq<bytes>
    ghost var received: bytes

    /** Whatever the chunks were, the texts passed on are those of the whole stream. */
    ghost predicate Valid()
      reads this
    {
      && handled == Parse(received).texts && closed == Parse(received).closed
      && (!closed ==> buffer == Parse(received).rest)
    }

    constructor ()
      ensures Valid() && received == [] && !closed
    {
      buffer, closed, handled, received := [], false, [], [];
    }

    /** A chunk arrives; a closed socket delivers none. */
    method OnData(chunk: bytes)
      requires Valid() && !closed
      modifies this
      ensures Valid() && received == old(received) + chunk
      ensures old(handled) <= handled
    {
      hide Parse;
      ParseAppend(received, chunk);
      buffer := buffer + chunk;
      received := received + chunk;
      ParseFrames();
    }

    method ParseFrames()
      requires !closed
      modifies this`buffer, this`closed, this`handled
      ensures handled == old(handled) + Parse(old(buffer)).texts && closed == Parse(old(buffer)).closed
      ensures !closed ==> buffer == Parse(old(buffer)).rest
    {
      hide Parse, ServerTexts, ParsedUpTo, FirstFrame;
      ghost var whole, at, texts, before := buffer, 0, [], handled;
      ParserStarts(whole);
      assert before + [] == before && whole[0..] == whole;
      while |buffer| >= 2
        invariant 0 <= at <= |whole| && buffer == whole[at..] && ParsedUpTo(whole, at, texts)
        invariant handled == before + texts && !closed
        decreases |buffer|
      {
        var frame := ReadFrame(buffer);
        if frame == Incomplete {
          ParserWaits(whole, at, texts);
          return;
        }
        if frame == Reject {
          ParserRejects(whole, at, texts);
          closed := true;
          return;
        }
        ParserSteps(whole, at, texts, frame.opcode, frame.payload, frame.size);
        assert buffer[frame.size..] == whole[at + frame.size..];
        buffer := buffer[frame.size..];
        at := at + frame.size;
        if frame.opcode == TEXT || frame.opcode == BINARY {
          handled := handled + [frame.payload];
          assert handled == before + (texts + [frame.payload]);
          texts := texts + [frame.payload];
        } else if frame.opcode == CLOSE {
          closed := true;
          return;
        }
      }
      TooShort(buffer);
      ParserWaits(whole, at, texts);
    }
  }

  lemma TooShort(buf: bytes)
    requires |buf| < 2
    ensures FirstFrame(buf) == Incomplete
  {
  }

  /** The header and body of the first frame of the client's buffer. */
  method ReadFrame(buffer: bytes) returns (frame: Step)
    requires |buffer| >= 2
    ensures frame == FirstFrame(buffer)
    ensures frame.Frame? ==> 2 <= frame.size <= |buffer|
  {
    hide ReadUInt16BE, ReadUInt32BE, Masked, Unpack;
    assert buffer[0..] == buffer;
    var b0, b1 := buffer[0], buffer[1];
    var opcode, masked, payloadLen := b0 % 16, b1 >= 128, b1 % 128 as nat;
    var offset := 2;
    if payloadLen == 126 {
      if |buffer| < 4 {
        return Incomplete;
      }
      payloadLen := ReadUInt16BE(buffer, 2);
      offset := 4;
    } else if payloadLen == 127 {
      if |buffer| < 10 {
        return Incomplete;
      }
      var high := ReadUInt32BE(buffer, 2);
      if high != 0 {
        return Reject;
      }
      payloadLen := ReadUInt32BE(buffer, 6);
      offset := 10;
    }
    if payloadLen > MAX_WS_PAYLOAD {
      return Reject;
    }
    var maskLen := if masked then 4 else 0;
    var totalLen := offset + maskLen + payloadLen;
    BodyAt(buffer, 0, offset, payloadLen);
    if |buffer| < totalLen {
      return Incomplete;
    }
    var payload := buffer[offset + maskLen..totalLen];
    if masked {
      payload := Unmask(payload, buffer[offset..offset + 4]);
    }
    UnpackIs(b0, buffer[offset..offset + maskLen], buffer[offset + maskLen..totalLen], payload, totalLen);
    return Frame(opcode, payload, totalLen);
  }
}

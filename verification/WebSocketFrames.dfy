/** WebSocket frames (sections 5.2 and 5.3 of RFC 6455): what the two encoders write and what the
    parsers of server and client read.

    Bytes are numbers below 256; the bit operations of the code are written on them as arithmetic:
    b & 0x7f is b % 128, b & 0x80 is nonzero from 128 on, b & 0x0f is b % 16, 0x80 | n is 128 + n. */
module WebSocketFrames {
  import Radix

  type byte = x: nat | x < 256
  type bytes = seq<byte>

  const MAX_WS_PAYLOAD: nat := 1 * 1024 * 1024

  const TEXT: byte := 0x1
  const BINARY: byte := 0x2
  const CLOSE: byte := 0x8

  // ---------------------------------------------------------------------------
  // Big-endian lengths
  // ---------------------------------------------------------------------------

  function ReadUInt16BE(buf: bytes, i: nat): nat
    requires i + 2 <= |buf|
  {
    buf[i] as nat * 0x100 + buf[i + 1] as nat
  }

  function ReadUInt32BE(buf: bytes, i: nat): nat
    requires i + 4 <= |buf|
  {
    ReadUInt16BE(buf, i) * 0x1_0000 + ReadUInt16BE(buf, i + 2)
  }

  function UInt16BE(n: nat): (b: bytes)
    requires n < 0x1_0000
    ensures |b| == 2
  {
    [n / 0x100, n % 0x100]
  }

  function UInt32BE(n: nat): (b: bytes)
    requires n < 0x1_0000_0000
    ensures |b| == 4
  {
    UInt16BE(n / 0x1_0000) + UInt16BE(n % 0x1_0000)
  }

  lemma ReadWrite16(n: nat, buf: bytes, i: nat)
    requires n < 0x1_0000 && i + 2 <= |buf| && buf[i..i + 2] == UInt16BE(n)
    ensures ReadUInt16BE(buf, i) == n
  {
    assert buf[i] == buf[i..i + 2][0] && buf[i + 1] == buf[i..i + 2][1];
  }

  lemma ReadWrite32(n: nat, buf: bytes, i: nat)
    requires n < 0x1_0000_0000 && i + 4 <= |buf| && buf[i..i + 4] == UInt32BE(n)
    ensures ReadUInt32BE(buf, i) == n
  {
    assert buf[i..i + 2] == buf[i..i + 4][..2];
    assert buf[i + 2..i + 4] == buf[i..i + 4][2..];
    ReadWrite16(n / 0x1_0000, buf, i);
    ReadWrite16(n % 0x1_0000, buf, i + 2);
  }

  // ---------------------------------------------------------------------------
  // Masking
  // ---------------------------------------------------------------------------

  /** Exclusive or of the lowest bits of two numbers. */
  function Xor(a: nat, b: nat, bits: nat): nat {
    if bits == 0 then 0
    else (if a % 2 == b % 2 then 0 else 1) + 2 * Xor(a / 2, b / 2, bits - 1)
  }

  function Pow2(bits: nat): (p: nat)
    ensures p > 0
  {
    if bits == 0 then 1 else 2 * Pow2(bits - 1)
  }

  lemma {:induction false} XorBound(a: nat, b: nat, bits: nat)
    ensures Xor(a, b, bits) < Pow2(bits)
  {
    if bits > 0 {
      XorBound(a / 2, b / 2, bits - 1);
    }
  }

  lemma {:induction false} XorTwice(a: nat, b: nat, bits: nat)
    requires a < Pow2(bits)
    ensures Xor(Xor(a, b, bits), b, bits) == a
  {
    if bits > 0 {
      XorTwice(a / 2, b / 2, bits - 1);
      LowBit(if a % 2 == b % 2 then 0 else 1, Xor(a / 2, b / 2, bits - 1));
      LowBit(a % 2, a / 2);
    }
  }

  lemma LowBit(p: nat, x: nat)
    requires p < 2
    ensures (p + 2 * x) / 2 == x && (p + 2 * x) % 2 == p
  {
  }

  /** One bit at a time: the sum of the lowest bits, without carry, in front of the rest. */
  lemma XorHalves(a: nat, b: nat, bits: nat)
    requires bits > 0
    ensures Xor(a, b, bits) == (a + b) % 2 + 2 * Xor(a / 2, b / 2, bits - 1)
    ensures Xor(a, b, bits) / 2 == Xor(a / 2, b / 2, bits - 1) && Xor(a, b, bits) % 2 == (a + b) % 2
  {
    BitSum(a, b);
    LowBit((a + b) % 2, Xor(a / 2, b / 2, bits - 1));
  }

  /** Every bit of the result is the sum of the two bits, without carry. */
  lemma {:induction false} XorBits(a: nat, b: nat, bits: nat, i: nat)
    requires i < bits
    ensures (Xor(a, b, bits) / Pow2(i)) % 2 == (a / Pow2(i) + b / Pow2(i)) % 2
  {
    XorHalves(a, b, bits);
    hide Xor;
    if i > 0 {
      XorBits(a / 2, b / 2, bits - 1, i - 1);
      Halve(a, i);
      Halve(b, i);
      Halve(Xor(a, b, bits), i);
    }
  }

  lemma BitSum(a: nat, b: nat)
    ensures (a + b) % 2 == if a % 2 == b % 2 then 0 else 1
  {
  }

  lemma Halve(n: nat, i: nat)
    requires i > 0
    ensures n / Pow2(i) == n / 2 / Pow2(i - 1)
  {
    var p := Pow2(i - 1);
    var q, r := n / 2 / p, (n / 2) % p;
    assert n / 2 == q * p + r;
    assert n == q * (2 * p) + (2 * r + n % 2);
    Radix.DivModUnique(n, q, 2 * r + n % 2, 2 * p);
  }

  /** A zero byte in the mask changes nothing. */
  lemma {:induction false} XorZero(a: nat, bits: nat)
    ensures a < Pow2(bits) ==> Xor(a, 0, bits) == a
  {
    if bits > 0 {
      XorZero(a / 2, bits - 1);
    }
  }

  function XorByte(a: byte, b: byte): byte {
    XorBound(a, b, 8);
    Xor(a, b, 8)
  }

  lemma XorByteTwice(a: byte, b: byte)
    ensures XorByte(XorByte(a, b), b) == a
  {
    assert Pow2(8) == 256;
    XorTwice(a, b, 8);
  }

  function Masked(payload: bytes, mask: bytes): (r: bytes)
    requires |mask| == 4
    ensures |r| == |payload|
    ensures forall i :: 0 <= i < |r| ==> r[i] == XorByte(payload[i], mask[i % 4])
  {
    seq(|payload|, i requires 0 <= i < |payload| => XorByte(payload[i], mask[i % 4]))
  }

  lemma MaskTwice(payload: bytes, mask: bytes)
    requires |mask| == 4
    ensures Masked(Masked(payload, mask), mask) == payload
  {
    hide XorByte;
    forall i | 0 <= i < |payload| ensures Masked(Masked(payload, mask), mask)[i] == payload[i] {
      XorByteTwice(payload[i], mask[i % 4]);
    }
  }

  // ---------------------------------------------------------------------------
  // Encoding
  // ---------------------------------------------------------------------------

  /** The three length encodings; maskBit is 0x80 for masked frames and 0 otherwise. */
  function Header(len: nat, maskBit: nat): bytes
    requires len < 0x1_0000_0000 && (maskBit == 0 || maskBit == 0x80)
  {
    if len < 126 then [0x81, maskBit + len]
    else if len < 65536 then [0x81, maskBit + 126] + UInt16BE(len)
    else [0x81, maskBit + 127] + UInt32BE(0) + UInt32BE(len)
  }

  /** What the server writes: an unmasked text frame. */
  function ServerFrame(payload: bytes): bytes
    requires |payload| < 0x1_0000_0000
  {
    Header(|payload|, 0) + payload
  }

  /** What the client writes: a text frame masked with its four mask bytes. */
  function ClientFrame(payload: bytes, mask: bytes): bytes
    requires |payload| < 0x1_0000_0000 && |mask| == 4
  {
    Header(|payload|, 0x80) + mask + Masked(payload, mask)
  }

  // ---------------------------------------------------------------------------
  // Parsing
  // ---------------------------------------------------------------------------

  /** The first frame of a buffer: not all there yet, unacceptable, or complete with its size. */
  datatype Step =
    | Incomplete
    | Reject
    | Frame(opcode: byte, payload: bytes, size: nat)

  function FirstFrame(buf: bytes): (s: Step)
    ensures s.Frame? ==> 2 <= s.size <= |buf|
  {
    if |buf| < 2 then Incomplete
    else
      var len7 := buf[1] % 128;
      if len7 == 126 then
        if |buf| < 4 then Incomplete else FrameBody(buf, 4, ReadUInt16BE(buf, 2))
      else if len7 == 127 then
        if |buf| < 10 then Incomplete
        else if ReadUInt32BE(buf, 2) != 0 then Reject
        else FrameBody(buf, 10, ReadUInt32BE(buf, 6))
      else FrameBody(buf, 2, len7)
  }

  function FrameBody(buf: bytes, header: nat, len: nat): (s: Step)
    requires 2 <= header <= |buf|
    ensures s.Frame? ==> header <= s.size <= |buf|
  {
    if len > MAX_WS_PAYLOAD then Reject
    else
      var start := header + if buf[1] >= 128 then 4 else 0;
      if |buf| < start + len then Incomplete
      else Unpack(buf[0], buf[header..start], buf[start..start + len], start + len)
  }

  /** A complete frame: unmasked when it brought a mask. */
  function Unpack(b0: byte, mask: bytes, raw: bytes, size: nat): (s: Step)
    ensures s.Frame? && s.size == size
  {
    Frame(b0 % 16, if |mask| == 4 then Masked(raw, mask) else raw, size)
  }

  /** The texts of a buffer, what is left of it, and whether the peer closed or must be closed. */
  datatype Parsed = Parsed(texts: seq<bytes>, rest: bytes, closed: bool)

  function Parse(buf: bytes): Parsed
    decreases |buf|
  {
    match FirstFrame(buf)
    case Incomplete => Parsed([], buf, false)
    case Reject => Parsed([], buf, true)
    case Frame(opcode, payload, size) =>
      if opcode == CLOSE then Parsed([], buf[size..], true)
      else
        var later := Parse(buf[size..]);
        if opcode == TEXT || opcode == BINARY then later.(texts := [payload] + later.texts) else later
  }

  lemma ParseStep(buf: bytes)
    ensures var s := FirstFrame(buf);
      Parse(buf) ==
      if s.Incomplete? then Parsed([], buf, false)
      else if s.Reject? then Parsed([], buf, true)
      else if s.opcode == CLOSE then Parsed([], buf[s.size..], true)
      else if s.opcode == TEXT || s.opcode == BINARY
      then Parse(buf[s.size..]).(texts := [s.payload] + Parse(buf[s.size..]).texts)
      else Parse(buf[s.size..])
  {
    hide FirstFrame;
  }

  // ---------------------------------------------------------------------------
  // More bytes never change a frame that has been recognised
  // ---------------------------------------------------------------------------

  lemma ReadStable(a: bytes, b: bytes, i: nat)
    ensures i + 2 <= |a| ==> ReadUInt16BE(a + b, i) == ReadUInt16BE(a, i)
    ensures i + 4 <= |a| ==> ReadUInt32BE(a + b, i) == ReadUInt32BE(a, i)
  {
  }

  lemma SliceStable(a: bytes, b: bytes, i: nat, j: nat)
    requires i <= j <= |a|
    ensures (a + b)[i..j] == a[i..j]
  {
  }

  lemma FrameBodyStable(a: bytes, b: bytes, header: nat, len: nat)
    requires 2 <= header <= |a| && !FrameBody(a, header, len).Incomplete?
    ensures FrameBody(a + b, header, len) == FrameBody(a, header, len)
  {
    hide Unpack;
    assert (a + b)[0] == a[0] && (a + b)[1] == a[1];
    if len <= MAX_WS_PAYLOAD {
      var start := header + if a[1] >= 128 then 4 else 0;
      SliceStable(a, b, header, start);
      SliceStable(a, b, start, start + len);
    }
  }

  lemma FirstFrameStable(a: bytes, b: bytes)
    requires !FirstFrame(a).Incomplete?
    ensures FirstFrame(a + b) == FirstFrame(a)
  {
    hide FrameBody, ReadUInt16BE, ReadUInt32BE;
    var len7 := a[1] % 128;
    assert (a + b)[1] == a[1];
    ReadStable(a, b, 2);
    ReadStable(a, b, 6);
    if len7 == 126 {
      FrameBodyStable(a, b, 4, ReadUInt16BE(a, 2));
    } else if len7 == 127 {
      if ReadUInt32BE(a, 2) == 0 {
        FrameBodyStable(a, b, 10, ReadUInt32BE(a, 6));
      }
    } else {
      FrameBodyStable(a, b, 2, len7);
    }
  }

  /** Splitting a stream anywhere: the frames of the front, then the frames of its remainder and the rest. */
  lemma {:induction false} ParseAppend(a: bytes, b: bytes)
    ensures Parse(a).closed ==> Parse(a + b).texts == Parse(a).texts && Parse(a + b).closed
    ensures !Parse(a).closed ==>
              var later := Parse(Parse(a).rest + b);
              Parse(a + b) == later.(texts := Parse(a).texts + later.texts)
    decreases |a|
  {
    hide FirstFrame, Parse;
    var s := FirstFrame(a);
    ParseStep(a);
    if s.Incomplete? {
      assert [] + Parse(a + b).texts == Parse(a + b).texts;
    } else {
      FirstFrameStable(a, b);
      ParseStep(a + b);
      if s.Frame? {
        var tail := a[s.size..];
        assert (a + b)[s.size..] == tail + b;
        if s.opcode != CLOSE {
          ParseAppend(tail, b);
          var later := Parse(Parse(tail).rest + b).texts;
          assert [s.payload] + (Parse(tail).texts + later) == ([s.payload] + Parse(tail).texts) + later;
        }
      }
    }
  }

  // ---------------------------------------------------------------------------
  // Encoded frames are parsed back
  // ---------------------------------------------------------------------------

  /** Reading back any header, in front of anything. */
  lemma HeaderIsRead(len: nat, maskBit: nat, rest: bytes)
    requires len < 0x1_0000_0000 && (maskBit == 0 || maskBit == 0x80)
    ensures var buf := Header(len, maskBit) + rest;
      && |buf| >= 2 && buf[0] % 16 == TEXT && (buf[1] >= 128 <==> maskBit == 0x80)
      && FirstFrame(buf) == FrameBody(buf, |Header(len, maskBit)|, len)
  {
    hide FrameBody, ReadUInt16BE, ReadUInt32BE, UInt16BE, UInt32BE;
    var h := Header(len, maskBit);
    var buf := h + rest;
    assert buf[0] == 0x81 && buf[1] == h[1];
    if len < 126 {
    } else if len < 65536 {
      Inside([h[0], h[1]], UInt16BE(len), [], rest);
      ReadWrite16(len, buf, 2);
    } else {
      Inside([h[0], h[1]], UInt32BE(0), UInt32BE(len), rest);
      ReadWrite32(0, buf, 2);
      ReadWrite32(len, buf, 6);
    }
  }

  lemma Inside(a: bytes, b: bytes, c: bytes, rest: bytes)
    ensures var buf := a + b + c + rest;
      && buf == a + b + rest[..0] + c + rest
      && buf[|a|..|a| + |b|] == b && buf[|a| + |b|..|a| + |b| + |c|] == c
    ensures a + b + [] == a + b
  {
  }

  lemma ServerFrameParses(payload: bytes, rest: bytes)
    requires |payload| < 0x1_0000_0000
    ensures |payload| <= MAX_WS_PAYLOAD ==>
              FirstFrame(ServerFrame(payload) + rest) == Frame(TEXT, payload, |ServerFrame(payload)|)
    ensures |payload| > MAX_WS_PAYLOAD ==> FirstFrame(ServerFrame(payload) + rest) == Reject
  {
    var h := Header(|payload|, 0);
    var buf := ServerFrame(payload) + rest;
    assert buf == h + (payload + rest);
    HeaderIsRead(|payload|, 0, payload + rest);
    assert buf[|h|..|h| + |payload|] == payload;
  }

  lemma ClientFrameParses(payload: bytes, mask: bytes, rest: bytes)
    requires |payload| < 0x1_0000_0000 && |mask| == 4
    ensures |payload| <= MAX_WS_PAYLOAD ==>
              FirstFrame(ClientFrame(payload, mask) + rest) == Frame(TEXT, payload, |ClientFrame(payload, mask)|)
    ensures |payload| > MAX_WS_PAYLOAD ==> FirstFrame(ClientFrame(payload, mask) + rest) == Reject
  {
    var h := Header(|payload|, 0x80);
    var buf := ClientFrame(payload, mask) + rest;
    var masked := Masked(payload, mask);
    assert buf == h + (mask + masked + rest);
    HeaderIsRead(|payload|, 0x80, mask + masked + rest);
    hide Masked, Header, FirstFrame;
    MaskTwice(payload, mask);
    Pieces(h, mask, masked, rest);
  }

  lemma Pieces(h: bytes, mask: bytes, masked: bytes, rest: bytes)
    ensures var buf := h + (mask + masked + rest);
      buf[|h|..|h| + |mask|] == mask && buf[|h| + |mask|..|h| + |mask| + |masked|] == masked
  {
  }

  function ServerStream(payloads: seq<bytes>): bytes
    requires forall i :: 0 <= i < |payloads| ==> |payloads[i]| < 0x1_0000_0000
  {
    if payloads == [] then [] else ServerFrame(payloads[0]) + ServerStream(payloads[1..])
  }

  function ClientStream(payloads: seq<bytes>, masks: seq<bytes>): bytes
    requires |masks| == |payloads|
    requires forall i :: 0 <= i < |payloads| ==> |payloads[i]| < 0x1_0000_0000 && |masks[i]| == 4
  {
    if payloads == [] then [] else ClientFrame(payloads[0], masks[0]) + ClientStream(payloads[1..], masks[1..])
  }

  /** The payloads in front of the first one above the limit. */
  function WithinLimit(payloads: seq<bytes>): seq<bytes> {
    if payloads == [] || |payloads[0]| > MAX_WS_PAYLOAD then []
    else [payloads[0]] + WithinLimit(payloads[1..])
  }

  /** Reading what the server wrote: every payload up to the first oversized one, which closes. */
  lemma {:induction false} ServerRoundTrip(payloads: seq<bytes>)
    requires forall i :: 0 <= i < |payloads| ==> |payloads[i]| < 0x1_0000_0000
    ensures Parse(ServerStream(payloads)).texts == WithinLimit(payloads)
    ensures Parse(ServerStream(payloads)).closed <==> exists i :: 0 <= i < |payloads| && |payloads[i]| > MAX_WS_PAYLOAD
    ensures !Parse(ServerStream(payloads)).closed ==>
              WithinLimit(payloads) == payloads && Parse(ServerStream(payloads)).rest == []
  {
    if payloads != [] {
      hide FirstFrame, Header, ServerFrame, ClientFrame;
      var f, s := ServerFrame(payloads[0]), ServerStream(payloads[1..]);
      ServerFrameParses(payloads[0], s);
      assert (f + s)[|f|..] == s;
      ServerRoundTrip(payloads[1..]);
      assert forall i :: 0 <= i < |payloads| - 1 ==> payloads[1..][i] == payloads[i + 1];
    }
  }

  /** Reading what the client wrote, whatever the masks. */
  lemma {:induction false} ClientRoundTrip(payloads: seq<bytes>, masks: seq<bytes>)
    requires |masks| == |payloads|
    requires forall i :: 0 <= i < |payloads| ==> |payloads[i]| < 0x1_0000_0000 && |masks[i]| == 4
    ensures Parse(ClientStream(payloads, masks)).texts == WithinLimit(payloads)
    ensures Parse(ClientStream(payloads, masks)).closed <==>
            exists i :: 0 <= i < |payloads| && |payloads[i]| > MAX_WS_PAYLOAD
    ensures !Parse(ClientStream(payloads, masks)).closed ==>
              WithinLimit(payloads) == payloads && Parse(ClientStream(payloads, masks)).rest == []
  {
    if payloads != [] {
      hide FirstFrame, Header, ServerFrame, ClientFrame, Parse;
      var f, s := ClientFrame(payloads[0], masks[0]), ClientStream(payloads[1..], masks[1..]);
      ClientFrameParses(payloads[0], masks[0], s);
      ParseStep(f + s);
      assert (f + s)[|f|..] == s;
      ClientRoundTrip(payloads[1..], masks[1..]);
      assert forall i :: 0 <= i < |payloads| - 1 ==> payloads[1..][i] == payloads[i + 1];
    }
  }
}

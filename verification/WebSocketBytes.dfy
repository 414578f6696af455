/** WebSocket frames byte by byte: what is written and read, in numbers. */
module WebSocketBytes {
  import opened WebSocketFrames

  // ---------------------------------------------------------------------------
  // Writing
  // ---------------------------------------------------------------------------

  /** The header in numbers: 0x81 is a final text frame, and the length stands in the second byte, or behind 126 in
      two bytes, or behind 127 in eight. */
  lemma HeaderIs(len: nat, maskBit: nat)
    requires len < 0x1_0000_0000 && (maskBit == 0 || maskBit == 128)
    ensures Header(len, maskBit) ==
            if len < 126 then [129, maskBit + len]
            else if len < 65536 then [129, maskBit + 126, len / 256, len % 256]
            else [129, maskBit + 127, 0, 0, 0, 0, len / 65536 / 256, len / 65536 % 256,
                  len % 65536 / 256, len % 65536 % 256]
  {
  }

  /** A client's frame: header, mask, and every payload byte XORed with the mask byte of its turn. */
  lemma ClientFrameIs(payload: bytes, mask: bytes)
    requires |payload| < 0x1_0000_0000 && |mask| == 4
    ensures var f, h := ClientFrame(payload, mask), |Header(|payload|, 128)|;
      && |f| == h + 4 + |payload| && f[..h] == Header(|payload|, 128) && f[h..h + 4] == mask
      && forall i :: 0 <= i < |payload| ==> f[h + 4 + i] == Xor(payload[i], mask[i % 4], 8)
  {
    hide Header;
  }

  // ---------------------------------------------------------------------------
  // Reading
  // ---------------------------------------------------------------------------

  /** Where the length of the first frame ends. */
  function LengthEnd(b1: byte): nat {
    if b1 % 128 == 126 then 4 else if b1 % 128 == 127 then 10 else 2
  }

  /** The length, in 7, 16 or 64 bits. */
  function LengthOf(buf: bytes): nat
    requires |buf| >= 2 && LengthEnd(buf[1]) <= |buf|
  {
    if buf[1] % 128 == 126 then 256 * buf[2] as nat + buf[3]
    else if buf[1] % 128 == 127
    then 72057594037927936 * buf[2] as nat + 281474976710656 * buf[3] as nat + 1099511627776 * buf[4] as nat
         + 4294967296 * buf[5] as nat + 16777216 * buf[6] as nat + 65536 * buf[7] as nat + 256 * buf[8] as nat + buf[9]
    else buf[1] % 128
  }

  lemma WideLength(buf: bytes)
    requires |buf| >= 10 && buf[1] % 128 == 127
    ensures LengthOf(buf) == 4294967296 * ReadUInt32BE(buf, 2) + ReadUInt32BE(buf, 6)
    ensures ReadUInt32BE(buf, 2) != 0 ==> LengthOf(buf) > 1048576
  {
  }

  /** The first frame is its body behind the length, unless the length does not fit 32 bits. */
  lemma LengthIsRead(buf: bytes)
    requires |buf| >= 2
    ensures |buf| < LengthEnd(buf[1]) ==> FirstFrame(buf) == Incomplete
    ensures |buf| >= LengthEnd(buf[1]) ==>
              || FirstFrame(buf) == FrameBody(buf, LengthEnd(buf[1]), LengthOf(buf))
              || (FirstFrame(buf) == Reject && LengthOf(buf) > 1048576)
  {
    hide FrameBody;
    if |buf| >= 10 && buf[1] % 128 == 127 {
      WideLength(buf);
      hide LengthOf, ReadUInt32BE;
    }
  }

  lemma BodyIs(buf: bytes, h: nat, n: nat)
    requires 2 <= h <= |buf|
    ensures FrameBody(buf, h, n) == Incomplete <==> n <= 1048576 && |buf| < h + (if buf[1] >= 128 then 4 else 0) + n
    ensures FrameBody(buf, h, n) == Reject <==> n > 1048576
    ensures var f := FrameBody(buf, h, n);
      f.Frame? ==> f.opcode == buf[0] % 16 && |f.payload| == n && PayloadAt(buf, h, f)
  {
    hide XorByte;
  }

  /** The frame's payload stands behind its header: plain, or behind its mask. */
  predicate PayloadAt(buf: bytes, h: nat, f: Step)
    requires |buf| >= 2 && f.Frame?
  {
    var n := |f.payload|;
    if buf[1] < 128 then h + n == f.size <= |buf| && f.payload == buf[h..h + n]
    else
      && h + 4 + n == f.size <= |buf|
      && forall i :: 0 <= i < n ==> f.payload[i] == XorByte(buf[h + 4 + i], buf[h + i % 4])
  }

  /** What the first frame is, in numbers: refused above 1048576 bytes, by whatever form of the length; else complete
      once its header, its mask and its payload are there. */
  lemma FirstFrameIs(buf: bytes)
    ensures FirstFrame(buf) == Incomplete <==>
            || |buf| < 2 || |buf| < LengthEnd(buf[1])
            || (LengthOf(buf) <= 1048576
                && |buf| < LengthEnd(buf[1]) + (if buf[1] >= 128 then 4 else 0) + LengthOf(buf))
    ensures FirstFrame(buf) == Reject <==>
            |buf| >= 2 && |buf| >= LengthEnd(buf[1]) && LengthOf(buf) > 1048576
    ensures var f := FirstFrame(buf);
      f.Frame? ==>
        f.opcode == buf[0] % 16 && |f.payload| == LengthOf(buf) && PayloadAt(buf, LengthEnd(buf[1]), f)
  {
    if |buf| >= 2 {
      hide FirstFrame, FrameBody, LengthOf, PayloadAt;
      LengthIsRead(buf);
      if |buf| >= LengthEnd(buf[1]) {
        BodyIs(buf, LengthEnd(buf[1]), LengthOf(buf));
      }
    }
  }

  /** Text and binary frames are passed on, a close frame ends the parse, any other is skipped. */
  lemma ParseIs(buf: bytes)
    ensures var f := FirstFrame(buf);
      && (f == Incomplete ==> Parse(buf) == Parsed([], buf, false))
      && (f == Reject ==> Parse(buf) == Parsed([], buf, true))
      && (f.Frame? && f.opcode == 8 ==> Parse(buf) == Parsed([], buf[f.size..], true))
      && (f.Frame? && f.opcode in {1, 2} ==>
            Parse(buf) == Parse(buf[f.size..]).(texts := [f.payload] + Parse(buf[f.size..]).texts))
      && (f.Frame? && f.opcode !in {1, 2, 8} ==> Parse(buf) == Parse(buf[f.size..]))
  {
    hide FirstFrame, Parse;
    ParseStep(buf);
  }

  // ---------------------------------------------------------------------------
  // The examples of the standard
  // ---------------------------------------------------------------------------

  const HELLO: bytes := [0x48, 0x65, 0x6c, 0x6c, 0x6f]
  const MASK: bytes := [0x37, 0xfa, 0x21, 0x3d]

  lemma OneMoreBit(a: nat, b: nat, bits: nat, rest: nat, x: nat)
    requires bits > 0 && Xor(a / 2, b / 2, bits - 1) == rest && x == (a + b) % 2 + 2 * rest
    ensures Xor(a, b, bits) == x
  {
    XorHalves(a, b, bits);
  }

  lemma HighNibbles()
    ensures Xor(4, 3, 4) == 7 && Xor(6, 15, 4) == 9 && Xor(6, 2, 4) == 4 && Xor(6, 3, 4) == 5
  {
    assert Xor(4, 3, 4) == 7;
    assert Xor(6, 15, 4) == 9;
    assert Xor(6, 2, 4) == 4;
    assert Xor(6, 3, 4) == 5;
  }

  lemma LetterH()
    ensures XorByte(0x48, 0x37) == 0x7f
  {
    HighNibbles();
    hide Xor;
    OneMoreBit(0x09, 0x06, 5, 0x07, 0x0f);
    OneMoreBit(0x12, 0x0d, 6, 0x0f, 0x1f);
    OneMoreBit(0x24, 0x1b, 7, 0x1f, 0x3f);
    OneMoreBit(0x48, 0x37, 8, 0x3f, 0x7f);
  }

  lemma LetterE()
    ensures XorByte(0x65, 0xfa) == 0x9f
  {
    HighNibbles();
    hide Xor;
    OneMoreBit(0x0c, 0x1f, 5, 0x09, 0x13);
    OneMoreBit(0x19, 0x3e, 6, 0x13, 0x27);
    OneMoreBit(0x32, 0x7d, 7, 0x27, 0x4f);
    OneMoreBit(0x65, 0xfa, 8, 0x4f, 0x9f);
  }

  lemma FirstL()
    ensures XorByte(0x6c, 0x21) == 0x4d
  {
    HighNibbles();
    hide Xor;
    OneMoreBit(0x0d, 0x04, 5, 0x04, 0x09);
    OneMoreBit(0x1b, 0x08, 6, 0x09, 0x13);
    OneMoreBit(0x36, 0x10, 7, 0x13, 0x26);
    OneMoreBit(0x6c, 0x21, 8, 0x26, 0x4d);
  }

  lemma SecondL()
    ensures XorByte(0x6c, 0x3d) == 0x51
  {
    HighNibbles();
    hide Xor;
    OneMoreBit(0x0d, 0x07, 5, 0x05, 0x0a);
    OneMoreBit(0x1b, 0x0f, 6, 0x0a, 0x14);
    OneMoreBit(0x36, 0x1e, 7, 0x14, 0x28);
    OneMoreBit(0x6c, 0x3d, 8, 0x28, 0x51);
  }

  lemma LetterO()
    ensures XorByte(0x6f, 0x37) == 0x58
  {
    HighNibbles();
    hide Xor;
    OneMoreBit(0x0d, 0x06, 5, 0x05, 0x0b);
    OneMoreBit(0x1b, 0x0d, 6, 0x0b, 0x16);
    OneMoreBit(0x37, 0x1b, 7, 0x16, 0x2c);
    OneMoreBit(0x6f, 0x37, 8, 0x2c, 0x58);
  }

  lemma HelloFrames()
    ensures ServerFrame(HELLO) == [0x81, 0x05, 0x48, 0x65, 0x6c, 0x6c, 0x6f]
    ensures ClientFrame(HELLO, MASK) == [0x81, 0x85, 0x37, 0xfa, 0x21, 0x3d, 0x7f, 0x9f, 0x4d, 0x51, 0x58]
  {
    LetterH();
    LetterE();
    FirstL();
    SecondL();
    LetterO();
    hide XorByte;
    assert Masked(HELLO, MASK) == [0x7f, 0x9f, 0x4d, 0x51, 0x58];
    assert Header(5, 0x80) + MASK == [0x81, 0x85, 0x37, 0xfa, 0x21, 0x3d];
  }

  lemma OneFrame(f: bytes, payload: bytes)
    requires FirstFrame(f) == Frame(TEXT, payload, |f|)
    ensures Parse(f) == Parsed([payload], [], false)
  {
    hide FirstFrame, Parse;
    ParseStep(f);
    ParseStep([]);
    FirstFrameIs([]);
    assert f[|f|..] == [];
    assert [payload] + [] == [payload];
  }

  /** "Hello" in the unmasked and in the masked frame of section 5.7 of RFC 6455, written and read. */
  lemma HelloOfTheStandard()
    ensures ServerFrame(HELLO) == [0x81, 0x05, 0x48, 0x65, 0x6c, 0x6c, 0x6f]
    ensures ClientFrame(HELLO, MASK) == [0x81, 0x85, 0x37, 0xfa, 0x21, 0x3d, 0x7f, 0x9f, 0x4d, 0x51, 0x58]
    ensures Parse([0x81, 0x05, 0x48, 0x65, 0x6c, 0x6c, 0x6f]) == Parsed([HELLO], [], false)
    ensures Parse([0x81, 0x85, 0x37, 0xfa, 0x21, 0x3d, 0x7f, 0x9f, 0x4d, 0x51, 0x58]) == Parsed([HELLO], [], false)
  {
    HelloFrames();
    hide ServerFrame, ClientFrame, FirstFrame, Parse;
    ServerFrameParses(HELLO, []);
    ClientFrameParses(HELLO, MASK, []);
    var s, c := ServerFrame(HELLO), ClientFrame(HELLO, MASK);
    assert s + [] == s && c + [] == c;
    OneFrame(s, HELLO);
    OneFrame(c, HELLO);
  }
}

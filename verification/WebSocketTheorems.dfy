/**
 Properties of the WebSocket parser and builder: the parse does not depend on how the
 bytes arrive, the parser's memory stays bounded, and the peer's parser recovers what
 the builder framed, whole or fragmented.
 */
module WebSocketTheorems {
  import opened Bytes
  import opened WebSocketFrame
  import opened Wrappers

  // ----- Independence of how the stream is cut -----

  lemma ParseHeaderIgnoresLaterBytes(isServer: bool, buf: bytes, more: bytes)
    requires !ParseHeader(isServer, buf).ShortHeader?
    ensures ParseHeader(isServer, buf + more) == ParseHeader(isServer, buf)
  {
    var ext := 2 + ExtendedLengthSize(And8(buf[1], 0x7F));
    if ext <= |buf| {
      assert (buf + more)[2..ext] == buf[2..ext];
      if ext + 4 <= |buf| {
        assert (buf + more)[ext..ext + 4] == buf[ext..ext + 4];
      }
    }
  }

  lemma ParseFrameIgnoresLaterBytes(isServer: bool, buf: bytes, more: bytes, frag: Fragment)
    requires !ParseFrame(isServer, buf, frag).NeedMore?
    ensures ParseFrame(isServer, buf + more, frag) == ParseFrame(isServer, buf, frag)
  {
    hide ParseHeader, AcceptFrame, Unmask;
    ParseHeaderIgnoresLaterBytes(isServer, buf, more);
    var h := ParseHeader(isServer, buf);
    if h.Header? {
      var total := h.headerLen + h.payloadLen;
      assert (buf + more)[h.headerLen..total] == buf[h.headerLen..total];
    }
  }

  /** Parsing all the bytes at once is parsing the first part and then, unless that part was rejected, the rest. */
  function Resume(isServer: bool, o: Outcome, more: bytes): Outcome {
    match o
    case Parsed(msgs, buffer, frag) => Prepend(msgs, ParseBuffer(isServer, buffer + more, frag))
    case Rejected(error, buffer, frag) => Rejected(error, buffer + more, frag)
  }

  lemma {:induction false} SplitIndependence(isServer: bool, buf: bytes, more: bytes, frag: Fragment)
    ensures ParseBuffer(isServer, buf + more, frag) == Resume(isServer, ParseBuffer(isServer, buf, frag), more)
    decreases |buf|
  {
    hide ParseFrame;
    var r := ParseFrame(isServer, buf, frag);
    if r.NeedMore? {
      PrependNothing(ParseBuffer(isServer, buf + more, frag));
    } else {
      ParseFrameIgnoresLaterBytes(isServer, buf, more, frag);
      if r.Done? {
        assert (buf + more)[r.consumed..] == buf[r.consumed..] + more;
        SplitIndependence(isServer, buf[r.consumed..], more, r.frag);
        var rest := ParseBuffer(isServer, buf[r.consumed..], r.frag);
        if rest.Parsed? {
          PrependTwice(Emitted(r.msg), rest.messages, ParseBuffer(isServer, rest.buffer + more, rest.frag));
        }
      }
    }
  }

  lemma PrependNothing(o: Outcome)
    ensures Prepend([], o) == o
  {
    if o.Parsed? {
      assert [] + o.messages == o.messages;
    }
  }

  lemma PrependTwice(a: seq<Message>, b: seq<Message>, o: Outcome)
    ensures Prepend(a, Prepend(b, o)) == Prepend(a + b, o)
  {
    if o.Parsed? {
      assert a + (b + o.messages) == a + b + o.messages;
    }
  }

  /** A run of Parse calls, one for each arriving chunk, that stops at the first rejection. */
  function ParseRun(isServer: bool, chunks: seq<bytes>, buf: bytes, frag: Fragment): Outcome
    decreases |chunks|
  {
    if chunks == [] then Parsed([], buf, frag)
    else
      match ParseBuffer(isServer, buf + chunks[0], frag)
      case Parsed(msgs, buf', frag') => Prepend(msgs, ParseRun(isServer, chunks[1..], buf', frag'))
      case Rejected(error, buf', frag') => Rejected(error, buf', frag')
  }

  // A state a Parse call can leave: nothing complete is left in the buffer.
  predicate Settled(isServer: bool, buf: bytes, frag: Fragment) {
    ParseFrame(isServer, buf, frag).NeedMore?
  }

  lemma {:induction false} ParseBufferSettles(isServer: bool, buf: bytes, frag: Fragment)
    ensures var o := ParseBuffer(isServer, buf, frag);
            o.Parsed? ==> Settled(isServer, o.buffer, o.frag)
    decreases |buf|
  {
    hide ParseFrame;
    var r := ParseFrame(isServer, buf, frag);
    if r.Done? {
      ParseBufferSettles(isServer, buf[r.consumed..], r.frag);
    }
  }

  /** However a stream is cut into chunks, the run of Parse calls delivers what one call on the whole delivers. */
  lemma {:induction false} RunEqualsOneParse(isServer: bool, chunks: seq<bytes>, buf: bytes, frag: Fragment)
    requires Settled(isServer, buf, frag)
    ensures var run := ParseRun(isServer, chunks, buf, frag);
            var whole := ParseBuffer(isServer, buf + Flatten(chunks), frag);
            if run.Parsed? then whole == run
            else whole.Rejected? && whole.error == run.error && whole.frag == run.frag && run.buffer <= whole.buffer
    decreases |chunks|
  {
    hide ParseFrame;
    if chunks == [] {
      assert buf + Flatten(chunks) == buf;
    } else {
      var rest := Flatten(chunks[1..]);
      assert buf + Flatten(chunks) == (buf + chunks[0]) + rest;
      SplitIndependence(isServer, buf + chunks[0], rest, frag);
      var first := ParseBuffer(isServer, buf + chunks[0], frag);
      if first.Parsed? {
        ParseBufferSettles(isServer, buf + chunks[0], frag);
        RunEqualsOneParse(isServer, chunks[1..], first.buffer, first.frag);
      }
    }
  }

  // ----- Bounded memory -----

  lemma ParseFrameBounds(isServer: bool, buf: bytes, frag: Fragment)
    requires |frag.data| <= MAX_MSG_SIZE
    ensures var r := ParseFrame(isServer, buf, frag);
            && (r.NeedMore? ==> |buf| < 14 + MAX_FRAME_SIZE)
            && (!r.NeedMore? ==> |r.frag.data| <= MAX_MSG_SIZE)
  {
    hide ParseHeader, AcceptFrame, Unmask;
    var h := ParseHeader(isServer, buf);
    if h.Header? && |buf| >= h.headerLen + h.payloadLen {
      var total := h.headerLen + h.payloadLen;
      AcceptFrameBounds(h.opCode, Unmask(buf[h.headerLen..total], h.maskKey), h.fin, h.masked, h.maskKey, total, frag);
    }
  }

  lemma AcceptFrameBounds(opCode: byte, payload: bytes, fin: bool, masked: bool, maskKey: bytes, total: nat, frag: Fragment)
    requires |frag.data| <= MAX_MSG_SIZE
    ensures |AcceptFrame(opCode, payload, fin, masked, maskKey, total, frag).frag.data| <= MAX_MSG_SIZE
  {
    hide Utf8Valid;
  }

  lemma {:induction false} ParseBufferBounds(isServer: bool, buf: bytes, frag: Fragment)
    requires |frag.data| <= MAX_MSG_SIZE
    ensures var o := ParseBuffer(isServer, buf, frag);
            && |o.frag.data| <= MAX_MSG_SIZE
            && (o.Parsed? ==> |o.buffer| < 14 + MAX_FRAME_SIZE)
    decreases |buf|
  {
    hide ParseFrame;
    ParseFrameBounds(isServer, buf, frag);
    var r := ParseFrame(isServer, buf, frag);
    if r.Done? {
      ParseBufferBounds(isServer, buf[r.consumed..], r.frag);
    }
  }

  /** After any run of Parse calls from a fresh parser, residual buffer and fragment buffer are bounded. */
  lemma {:induction false} BoundedMemory(isServer: bool, chunks: seq<bytes>, buf: bytes, frag: Fragment)
    requires |buf| < 14 + MAX_FRAME_SIZE && |frag.data| <= MAX_MSG_SIZE
    ensures var o := ParseRun(isServer, chunks, buf, frag);
            && |o.frag.data| <= MAX_MSG_SIZE
            && (o.Parsed? ==> |o.buffer| < 14 + MAX_FRAME_SIZE)
    decreases |chunks|
  {
    if chunks != [] {
      ParseBufferBounds(isServer, buf + chunks[0], frag);
      var first := ParseBuffer(isServer, buf + chunks[0], frag);
      if first.Parsed? {
        BoundedMemory(isServer, chunks[1..], first.buffer, first.frag);
      }
    }
  }

  // ----- One frame, from builder to peer -----

  lemma MaskTwice(payload: bytes, key: MaskKey)
    ensures Mask(Mask(payload, key), key) == payload
  {
    var twice := Mask(Mask(payload, key), key);
    forall i | 0 <= i < |payload|
      ensures twice[i] == payload[i]
    {
      XorTwice(payload[i], key[i % 4]);
    }
    assert twice == payload;
  }

  // Reading back the length field: its 7-bit part, its extended part and the length itself.
  lemma LengthFieldParses(n: nat)
    requires n < 0x8000_0000_0000_0000
    ensures var l := LengthField(n);
            && |l| == 1 + ExtendedLengthSize(l[0])
            && n == (if |l| == 1 then l[0] else FromBigEndian(l[1..]))
  {
    if n >= 65536 {
      assert Pow256(8) == 0x1_0000_0000_0000_0000;
      BigEndianRoundTrip(n, 8);
      assert LengthField(n)[1..] == BigEndian(n, 8);
    } else if n >= 126 {
      assert Pow256(2) == 65536;
      BigEndianRoundTrip(n, 2);
      assert LengthField(n)[1..] == BigEndian(n, 2);
    }
  }

  predicate Fits(payload: bytes) {
    |payload| < 0x8000_0000_0000_0000
  }

  // The first two bytes of a frame carry FIN, opcode, mask bit and 7-bit length.
  lemma FirstBytes(isServer: bool, key: MaskKey, opCode: byte, payload: bytes, fin: bool)
    requires IsValidOpCode(opCode)
    ensures var f := Frame(isServer, key, opCode, payload, fin);
            && (And8(f[0], 0x80) != 0 <==> fin)
            && And8(f[0], 0x0F) == opCode
            && (And8(f[1], 0x80) != 0 <==> !isServer)
            && And8(f[1], 0x7F) == LengthField(|payload|)[0]
  {
    hide And8, Or8;
    FlaggedByteFields(opCode);
    FlaggedByteFields(LengthField(|payload|)[0]);
  }

  // Where the extended length, the key and the payload of a frame stand.
  lemma FrameLayout(isServer: bool, key: MaskKey, opCode: byte, payload: bytes, fin: bool)
    ensures var f := Frame(isServer, key, opCode, payload, fin);
            var l := LengthField(|payload|);
            var wire := WireKey(isServer, key);
            var headerLen := 1 + |l| + |wire|;
            && |f| == headerLen + |payload|
            && f[2..1 + |l|] == l[1..]
            && f[1 + |l|..headerLen] == wire
            && f[headerLen..] == if isServer then payload else Mask(payload, key)
  {
    hide Or8, Mask, LengthField;
    var f := Frame(isServer, key, opCode, payload, fin);
    var l := LengthField(|payload|);
    if isServer {
      assert f[1 + |l|..] == payload;
      assert f[2..1 + |l|] == l[1..];
    } else {
      assert f[1 + |l| + 4..] == Mask(payload, key);
      assert f[1 + |l|..1 + |l| + 4] == key;
      assert f[2..1 + |l|] == l[1..];
    }
  }

  lemma HeaderIsRead(isServer: bool, key: MaskKey, opCode: byte, payload: bytes, fin: bool)
    requires IsValidOpCode(opCode) && Fits(payload)
    ensures var l := LengthField(|payload|);
            var wire := WireKey(isServer, key);
            ParseHeader(!isServer, Frame(isServer, key, opCode, payload, fin)) ==
            if |payload| > MAX_FRAME_SIZE then BadHeader(FrameTooLarge)
            else Header(fin, opCode, !isServer, wire, 1 + |l| + |wire|, |payload|)
  {
    FirstBytes(isServer, key, opCode, payload, fin);
    FrameLayout(isServer, key, opCode, payload, fin);
    LengthFieldParses(|payload|);
    var f := Frame(isServer, key, opCode, payload, fin);
    assert |f| >= 2;
    var l := LengthField(|payload|);
    hide And8, Frame, LengthField, FromBigEndian, WireKey, IsValidOpCode, Fits;
    HeaderOf(!isServer, f, l[0], |payload|);
  }

  // What ParseHeader finds in a buffer whose mask bit suits the receiver and whose header is complete.
  lemma HeaderOf(isServer: bool, buf: bytes, len7: byte, n: nat)
    requires |buf| >= 2 && len7 < 128 && len7 == And8(buf[1], 0x7F) && (And8(buf[1], 0x80) != 0 <==> isServer)
    requires n < 0x8000_0000_0000_0000
    requires var headerLen := 2 + ExtendedLengthSize(len7) + if isServer then 4 else 0;
             |buf| >= headerLen && n == if len7 < 126 then len7 else FromBigEndian(buf[2..2 + ExtendedLengthSize(len7)])
    ensures var ext := 2 + ExtendedLengthSize(len7);
            var headerLen := if isServer then ext + 4 else ext;
            ParseHeader(isServer, buf) ==
            if n > MAX_FRAME_SIZE then BadHeader(FrameTooLarge)
            else Header(And8(buf[0], 0x80) != 0, And8(buf[0], 0x0F), isServer, buf[ext..headerLen], headerLen, n)
  {
    hide And8, FromBigEndian;
  }

  /** A frame followed by anything is judged by its own content alone, and consumed exactly. */
  lemma FrameIsRead(isServer: bool, key: MaskKey, opCode: byte, payload: bytes, fin: bool, more: bytes, frag: Fragment)
    requires IsValidOpCode(opCode) && Fits(payload)
    ensures var f := Frame(isServer, key, opCode, payload, fin);
            ParseFrame(!isServer, f + more, frag) ==
            if |payload| > MAX_FRAME_SIZE then Failed(FrameTooLarge, frag)
            else AcceptFrame(opCode, payload, fin, !isServer, WireKey(isServer, key), |f|, frag)
  {
    hide ParseHeader, AcceptFrame, Frame, Mask;
    var f := Frame(isServer, key, opCode, payload, fin);
    HeaderIsRead(isServer, key, opCode, payload, fin);
    FrameLayout(isServer, key, opCode, payload, fin);
    MaskTwice(payload, key);
    var headerLen := 1 + |LengthField(|payload|)| + |WireKey(isServer, key)|;
    assert f[headerLen..|f|] == f[headerLen..];
    ParseFrameIgnoresLaterBytes(!isServer, f, more, frag);
  }

  /** When a whole, unfragmented frame reaches the peer's application. */
  predicate Deliverable(opCode: byte, payload: bytes) {
    && |payload| <= 65536
    && (IsControl(opCode) ==> |payload| <= 125)
    && (opCode == OP_TEXT ==> Utf8Valid(payload))
  }

  /**
   Frame round trip, in both directions: the peer recovers opcode, FIN, payload and mask key and consumes
   exactly the frame if and only if the frame is within the limits and text is valid UTF-8.
   */
  lemma FrameRoundTrip(isServer: bool, key: MaskKey, opCode: byte, payload: bytes, more: bytes, frag: Fragment)
    requires IsValidOpCode(opCode) && opCode != OP_CONTINUATION && Fits(payload)
    ensures var f := Frame(isServer, key, opCode, payload, true);
            var r := ParseFrame(!isServer, f + more, frag);
            if Deliverable(opCode, payload) then
              && r.Done? && r.msg.Some? && r.consumed == |f| && r.frag == frag
              && var m := r.msg.value;
                 m.opCode == opCode && m.final && m.payload == payload
                 && m.masked == !isServer && m.maskKey == WireKey(isServer, key)
            else r.Failed?
  {
    hide ParseFrame, Frame, Utf8Valid, Mask, BigEndian;
    FrameIsRead(isServer, key, opCode, payload, true, more, frag);
  }

  function ClosePayload(code: nat, reason: bytes): bytes {
    BigEndian(code, 2) + reason
  }

  /** A close frame's code and reason come back. */
  lemma CloseRoundTrip(isServer: bool, key: MaskKey, code: nat, reason: bytes, more: bytes, frag: Fragment)
    requires code < 65536 && |reason| <= 123
    ensures var f := Frame(isServer, key, OP_CLOSE, ClosePayload(code, reason), true);
            var r := ParseFrame(!isServer, f + more, frag);
            && r.Done? && r.msg.Some? && r.consumed == |f|
            && r.msg.value.closeCode == code && r.msg.value.closeReason == reason
  {
    var payload := ClosePayload(code, reason);
    FrameIsRead(isServer, key, OP_CLOSE, payload, true, more, frag);
    assert payload[..2] == BigEndian(code, 2);
    assert payload[2..] == reason;
    assert Pow256(2) == 65536;
    BigEndianRoundTrip(code, 2);
  }

  /** A control frame built as not final is rejected by every peer. */
  lemma NonFinalControlRejected(isServer: bool, key: MaskKey, opCode: byte, payload: bytes, more: bytes, frag: Fragment)
    requires IsValidOpCode(opCode) && IsControl(opCode) && Fits(payload)
    ensures ParseFrame(!isServer, Frame(isServer, key, opCode, payload, false) + more, frag).Failed?
  {
    FrameIsRead(isServer, key, opCode, payload, false, more, frag);
  }
}

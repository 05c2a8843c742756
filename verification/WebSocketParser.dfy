/** The incremental WebSocket parser object, proved against ParseFrame and ParseBuffer. */
module WebSocketParser {
  import opened Bytes
  import opened WebSocketFrame
  import opened WebSocketTheorems
  import opened Wrappers

  lemma TooShort(isServer: bool, buf: bytes, frag: Fragment)
    requires |buf| < 2
    ensures ParseFrame(isServer, buf, frag).NeedMore?
  {
  }

  class Parser {
    const isServer: bool
    const maxFrameSize := MAX_FRAME_SIZE
    const maxMsgSize := MAX_MSG_SIZE
    var buffer: bytes
    var fragmentBuffer: bytes
    var fragmentOpCode: byte

    constructor (isServer: bool)
      ensures this.isServer == isServer
      ensures buffer == [] && Frag() == NO_FRAGMENT
    {
      this.isServer := isServer;
      buffer, fragmentBuffer, fragmentOpCode := [], [], 0;
    }

    function Frag(): Fragment
      reads this
    {
      Fragment(fragmentBuffer, fragmentOpCode)
    }

    /** Takes in the bytes that arrived and delivers every message that is complete; a rejection delivers none. */
    method Parse(data: bytes) returns (messages: seq<Message>, err: Option<Error>)
      modifies this
      ensures var o := ParseBuffer(isServer, old(buffer) + data, old(Frag()));
              && buffer == o.buffer && Frag() == o.frag
              && (o.Parsed? ==> err == None && messages == o.messages)
              && (o.Rejected? ==> err == Some(o.error) && messages == [])
    {
      hide ParseFrame;
      buffer := buffer + data;
      messages, err := [], None;
      ghost var start := ParseBuffer(isServer, buffer, Frag());
      PrependNothing(start);
      while |buffer| >= 2
        invariant err == None
        invariant start == Prepend(messages, ParseBuffer(isServer, buffer, Frag()))
        decreases |buffer|
      {
        var msg, consumed;
        ghost var before := Frag();
        msg, consumed, err := NextFrame();
        if err.Some? {
          return [], err;
        }
        if consumed == 0 {
          break;
        }
        ghost var rest := ParseBuffer(isServer, buffer[consumed..], Frag());
        PrependTwice(messages, Emitted(msg), rest);
        if msg.Some? {
          messages := messages + [msg.value];
        } else {
          assert messages + [] == messages;
        }
        buffer := buffer[consumed..];
      }
      if |buffer| < 2 {
        TooShort(isServer, buffer, Frag());
      }
      assert messages + [] == messages;
    }

    /** parseFrame: reads one frame off the front of the buffer without removing it. */
    method NextFrame() returns (msg: Option<Message>, consumed: nat, err: Option<Error>)
      modifies `fragmentBuffer, `fragmentOpCode
      ensures match ParseFrame(isServer, buffer, old(Frag()))
              case NeedMore => msg == None && consumed == 0 && err == None && Frag() == old(Frag())
              case Failed(e, frag) => msg == None && consumed == 0 && err == Some(e) && Frag() == frag
              case Done(m, n, frag) => msg == m && consumed == n && err == None && Frag() == frag
    {
      hide AcceptFrame, ParseHeader, Unmask;
      msg, consumed, err := None, 0, None;
      var h := ReadHeader();
      match h
      case ShortHeader =>
      case BadHeader(e) =>
        err := Some(e);
      case Header(fin, opCode, masked, maskKey, headerLen, payloadLen) =>
        var total := headerLen + payloadLen;
        if |buffer| >= total {
          var payload := UnmaskInPlace(buffer[headerLen..total], maskKey);
          msg, consumed, err := Accept(opCode, payload, fin, masked, maskKey, total);
        }
    }

    // The part of parseFrame up to the mask key.
    method ReadHeader() returns (h: Header)
      ensures h == ParseHeader(isServer, buffer)
    {
      hide And8;
      if |buffer| < 2 {
        return ShortHeader;
      }
      var fin := And8(buffer[0], 0x80) != 0;
      var opCode := And8(buffer[0], 0x0F);
      var masked := And8(buffer[1], 0x80) != 0;
      var payloadLen: nat := And8(buffer[1], 0x7F);
      var headerLen := 2;
      if isServer && !masked {
        return BadHeader(UnmaskedClientFrame);
      }
      if !isServer && masked {
        return BadHeader(MaskedServerFrame);
      }
      if payloadLen == 126 {
        if |buffer| < 4 {
          return ShortHeader;
        }
        payloadLen := FromBigEndian(buffer[2..4]);
        headerLen := 4;
      } else if payloadLen == 127 {
        if |buffer| < 10 {
          return ShortHeader;
        }
        payloadLen := FromBigEndian(buffer[2..10]);
        if payloadLen >= 0x8000_0000_0000_0000 {
          return BadHeader(LengthMsbSet);
        }
        headerLen := 10;
      }
      if payloadLen > maxFrameSize {
        return BadHeader(FrameTooLarge);
      }
      var maskKey: bytes := [];
      if masked {
        if |buffer| < headerLen + 4 {
          return ShortHeader;
        }
        maskKey := buffer[headerLen..headerLen + 4];
        headerLen := headerLen + 4;
      }
      return Header(fin, opCode, masked, maskKey, headerLen, payloadLen);
    }

    // Copies the payload out of the buffer and, when there is a key, unmasks the copy in place.
    static method UnmaskInPlace(masked: bytes, maskKey: bytes) returns (payload: bytes)
      requires maskKey == [] || |maskKey| == 4
      ensures payload == Unmask(masked, maskKey)
    {
      var a := new byte[|masked|](i requires 0 <= i < |masked| => masked[i]);
      if maskKey != [] {
        var i := 0;
        while i < a.Length
          invariant 0 <= i <= a.Length
          invariant forall j :: 0 <= j < i ==> a[j] == Xor8(masked[j], maskKey[j % 4])
          invariant forall j :: i <= j < a.Length ==> a[j] == masked[j]
        {
          a[i] := Xor8(a[i], maskKey[i % 4]);
          i := i + 1;
        }
      }
      payload := a[..];
    }

    /** The frame is all there: validate it, then deliver it or add it to the fragmented message. */
    method Accept(opCode: byte, payload: bytes, fin: bool, masked: bool, maskKey: bytes, total: nat)
      returns (msg: Option<Message>, consumed: nat, err: Option<Error>)
      modifies `fragmentBuffer, `fragmentOpCode
      ensures match AcceptFrame(opCode, payload, fin, masked, maskKey, total, old(Frag()))
              case NeedMore => false
              case Failed(e, frag) => msg == None && consumed == 0 && err == Some(e) && Frag() == frag
              case Done(m, n, frag) => msg == m && consumed == n && err == None && Frag() == frag
    {
      var invalid := Validate(opCode, payload, fin);
      if invalid.Some? {
        return None, 0, invalid;
      }
      if opCode == OP_CONTINUATION || (!fin && (opCode == OP_TEXT || opCode == OP_BINARY)) {
        msg, consumed, err := Collect(opCode, payload, fin, maskKey, total);
        return;
      }
      var m := Message(opCode, MessageType(opCode), masked, maskKey, fin, payload, 0, []);
      if opCode == OP_CLOSE {
        if |payload| >= 2 {
          m := m.(closeCode := FromBigEndian(payload[..2]));
          if |payload| > 2 {
            m := m.(closeReason := payload[2..]);
          }
        } else {
          m := m.(closeCode := CLOSE_NO_STATUS_RCVD);
        }
      }
      return Some(m), total, None;
    }

    /** handleFragmentation: opens, extends or completes the fragmented message. */
    method Collect(opCode: byte, payload: bytes, fin: bool, maskKey: bytes, total: nat)
      returns (msg: Option<Message>, consumed: nat, err: Option<Error>)
      modifies `fragmentBuffer, `fragmentOpCode
      ensures match HandleFragment(opCode, payload, fin, maskKey, total, old(Frag()))
              case NeedMore => false
              case Failed(e, frag) => msg == None && consumed == 0 && err == Some(e) && Frag() == frag
              case Done(m, n, frag) => msg == m && consumed == n && err == None && Frag() == frag
    {
      if opCode != OP_CONTINUATION {
        if |fragmentBuffer| > 0 {
          return None, 0, Some(UnexpectedFragmentStart);
        }
        fragmentOpCode := opCode;
        fragmentBuffer := [];
      }
      assert [] + payload == payload;
      fragmentBuffer := fragmentBuffer + payload;
      if |fragmentBuffer| > maxMsgSize {
        fragmentBuffer := [];
        return None, 0, Some(MessageTooLarge);
      }
      if fin {
        var m := Message(fragmentOpCode, MessageType(fragmentOpCode), |maskKey| > 0, maskKey, true, fragmentBuffer, 0, []);
        if fragmentOpCode == OP_TEXT && !Utf8Valid(m.payload) {
          fragmentBuffer := [];
          return None, 0, Some(InvalidUtf8Message);
        }
        fragmentBuffer := [];
        fragmentOpCode := 0;
        return Some(m), total, None;
      }
      return None, total, None;
    }
  }

  /** A whole session from a fresh parser: the chunks are delivered as one Parse of their concatenation would. */
  method Session(isServer: bool, chunks: seq<bytes>) returns (messages: seq<Message>, err: Option<Error>)
    ensures var whole := ParseBuffer(isServer, Flatten(chunks), NO_FRAGMENT);
            if err == None then whole.Parsed? && messages == whole.messages
            else whole.Rejected? && err == Some(whole.error)
  {
    hide ParseBuffer;
    var p := new Parser(isServer);
    messages, err := [], None;
    ghost var run := ParseRun(isServer, chunks, [], NO_FRAGMENT);
    PrependNothing(run);
    RunEqualsOneParse(isServer, chunks, [], NO_FRAGMENT);
    assert [] + Flatten(chunks) == Flatten(chunks);
    var i := 0;
    while i < |chunks|
      invariant 0 <= i <= |chunks| && p.isServer == isServer
      invariant err == None
      invariant run == Prepend(messages, ParseRun(isServer, chunks[i..], p.buffer, p.Frag()))
    {
      assert chunks[i..][0] == chunks[i] && chunks[i..][1..] == chunks[i + 1..];
      var msgs;
      msgs, err := p.Parse(chunks[i]);
      if err.Some? {
        return;
      }
      PrependTwice(messages, msgs, ParseRun(isServer, chunks[i + 1..], p.buffer, p.Frag()));
      messages := messages + msgs;
      i := i + 1;
    }
    assert messages + [] == messages;
  }
}

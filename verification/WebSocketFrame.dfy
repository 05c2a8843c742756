/**
 The WebSocket frame format of the repository (RFC 6455, sections 5.2 to 5.5):
 what one frame parse, one Parse call and one frame build compute, as functions.
 The parser and builder classes are proved against these functions.
 */
module WebSocketFrame {
  import opened Bytes
  import opened Wrappers

  const OP_CONTINUATION: byte := 0x0
  const OP_TEXT: byte := 0x1
  const OP_BINARY: byte := 0x2
  const OP_CLOSE: byte := 0x8
  const OP_PING: byte := 0x9
  const OP_PONG: byte := 0xa

  const CLOSE_NO_STATUS_RCVD := 1005
  const MAX_FRAME_SIZE := 65536
  const MAX_MSG_SIZE := 1048576

  datatype Error =
    | UnmaskedClientFrame
    | MaskedServerFrame
    | LengthMsbSet
    | FrameTooLarge
    | InvalidOpCode
    | FragmentedControlFrame
    | ControlFrameTooLarge
    | InvalidUtf8Frame
    | UnexpectedFragmentStart
    | MessageTooLarge
    | InvalidUtf8Message

  /** A parsed message; an absent mask key is the empty sequence. */
  datatype Message = Message(
    opCode: byte, msgType: string, masked: bool, maskKey: bytes, final: bool,
    payload: bytes, closeCode: nat, closeReason: bytes)

  /** The parser's fragmentBuffer and fragmentOpCode. */
  datatype Fragment = Fragment(data: bytes, opCode: byte)

  const NO_FRAGMENT := Fragment([], 0)

  /** What one parseFrame call reports, together with the fragment state it leaves. */
  datatype FrameResult =
    | NeedMore
    | Failed(error: Error, frag: Fragment)
    | Done(msg: Option<Message>, consumed: nat, frag: Fragment)

  /** What one Parse call reports, together with the state it leaves. */
  datatype Outcome =
    | Parsed(messages: seq<Message>, buffer: bytes, frag: Fragment)
    | Rejected(error: Error, buffer: bytes, frag: Fragment)

  predicate IsValidOpCode(opCode: byte) {
    opCode in {OP_CONTINUATION, OP_TEXT, OP_BINARY, OP_CLOSE, OP_PING, OP_PONG}
  }

  predicate IsControl(opCode: byte) {
    opCode >= 0x8
  }

  function MessageType(opCode: byte): string {
    if opCode == OP_TEXT then "websocket_text"
    else if opCode == OP_BINARY then "websocket_binary"
    else if opCode == OP_CLOSE then "websocket_close"
    else if opCode == OP_PING then "websocket_ping"
    else if opCode == OP_PONG then "websocket_pong"
    else "websocket_unknown"
  }

  // ----- UTF-8, as utf8.Valid decides it -----

  predicate Between(b: byte, lo: byte, hi: byte) {
    lo <= b <= hi
  }

  /** The length of the well-formed character at the front of s, or 0 if there is none. */
  function RuneLength(s: bytes): (n: nat)
    requires s != []
    ensures n <= |s|
  {
    var b := s[0];
    if b < 0x80 then 1
    else if Between(b, 0xC2, 0xDF) then
      if |s| >= 2 && Between(s[1], 0x80, 0xBF) then 2 else 0
    else if Between(b, 0xE0, 0xEF) then
      var lo: byte := if b == 0xE0 then 0xA0 else 0x80;
      var hi: byte := if b == 0xED then 0x9F else 0xBF;
      if |s| >= 3 && Between(s[1], lo, hi) && Between(s[2], 0x80, 0xBF) then 3 else 0
    else if Between(b, 0xF0, 0xF4) then
      var lo: byte := if b == 0xF0 then 0x90 else 0x80;
      var hi: byte := if b == 0xF4 then 0x8F else 0xBF;
      if |s| >= 4 && Between(s[1], lo, hi) && Between(s[2], 0x80, 0xBF) && Between(s[3], 0x80, 0xBF)
      then 4 else 0
    else 0
  }

  predicate Utf8Valid(s: bytes) {
    s == [] || (RuneLength(s) > 0 && Utf8Valid(s[RuneLength(s)..]))
  }

  // ----- Masking -----

  type MaskKey = k: bytes | |k| == 4 witness [0, 0, 0, 0]

  function Mask(payload: bytes, key: bytes): (r: bytes)
    requires |key| == 4
    ensures |r| == |payload|
  {
    seq(|payload|, i requires 0 <= i < |payload| => Xor8(payload[i], key[i % 4]))
  }

  /** The payload of a frame: unmasked when there is a key, as it stands otherwise. */
  function Unmask(payload: bytes, key: bytes): (r: bytes)
    requires key == [] || |key| == 4
    ensures |r| == |payload|
  {
    if key == [] then payload else Mask(payload, key)
  }

  // ----- Parsing one frame -----

  function Validate(opCode: byte, payload: bytes, fin: bool): Option<Error> {
    if !IsValidOpCode(opCode) then Some(InvalidOpCode)
    else if IsControl(opCode) && !fin then Some(FragmentedControlFrame)
    else if IsControl(opCode) && |payload| > 125 then Some(ControlFrameTooLarge)
    else if opCode == OP_TEXT && !Utf8Valid(payload) then Some(InvalidUtf8Frame)
    else None
  }

  function HandleFragment(opCode: byte, payload: bytes, fin: bool, maskKey: bytes, total: nat, frag: Fragment)
    : (r: FrameResult)
    ensures r.Done? || r.Failed?
    ensures r.Done? ==> r.consumed == total
  {
    if opCode != OP_CONTINUATION && |frag.data| > 0 then
      Failed(UnexpectedFragmentStart, frag)
    else
      var op := if opCode != OP_CONTINUATION then opCode else frag.opCode;
      var data := if opCode != OP_CONTINUATION then payload else frag.data + payload;
      if |data| > MAX_MSG_SIZE then
        Failed(MessageTooLarge, Fragment([], op))
      else if !fin then
        Done(None, total, Fragment(data, op))
      else if op == OP_TEXT && !Utf8Valid(data) then
        Failed(InvalidUtf8Message, Fragment([], op))
      else
        Done(Some(Message(op, MessageType(op), |maskKey| > 0, maskKey, true, data, 0, [])), total, NO_FRAGMENT)
  }

  function CloseCode(payload: bytes): nat {
    if |payload| >= 2 then FromBigEndian(payload[..2]) else CLOSE_NO_STATUS_RCVD
  }

  function CloseReason(payload: bytes): bytes {
    if |payload| > 2 then payload[2..] else []
  }

  /** The message of a frame that is not part of a fragmented message. */
  function FrameMessage(opCode: byte, masked: bool, maskKey: bytes, fin: bool, payload: bytes): Message {
    var closing := opCode == OP_CLOSE;
    Message(opCode, MessageType(opCode), masked, maskKey, fin, payload,
            if closing then CloseCode(payload) else 0,
            if closing then CloseReason(payload) else [])
  }

  /** The part of parseFrame that follows once the whole frame is in the buffer. */
  function AcceptFrame(opCode: byte, payload: bytes, fin: bool, masked: bool, maskKey: bytes, total: nat, frag: Fragment)
    : (r: FrameResult)
    ensures r.Done? || r.Failed?
    ensures r.Done? ==> r.consumed == total
  {
    var invalid := Validate(opCode, payload, fin);
    if invalid.Some? then
      Failed(invalid.value, frag)
    else if opCode == OP_CONTINUATION || (!fin && (opCode == OP_TEXT || opCode == OP_BINARY)) then
      HandleFragment(opCode, payload, fin, maskKey, total, frag)
    else
      Done(Some(FrameMessage(opCode, masked, maskKey, fin, payload)), total, frag)
  }

  /** How many bytes the extended length takes for a 7-bit length field. */
  function ExtendedLengthSize(len7: byte): nat {
    if len7 == 126 then 2 else if len7 == 127 then 8 else 0
  }

  /** The header of a frame: not all there yet, unacceptable, or read. */
  datatype Header =
    | ShortHeader
    | BadHeader(error: Error)
    | Header(fin: bool, opCode: byte, masked: bool, maskKey: bytes, headerLen: nat, payloadLen: nat)

  function ParseHeader(isServer: bool, buf: bytes): (h: Header)
    ensures h.ShortHeader? ==> |buf| < 14
    ensures h.Header? ==> 2 <= h.headerLen <= 14 && h.headerLen <= |buf| && h.payloadLen <= MAX_FRAME_SIZE
    ensures h.Header? ==> h.maskKey == [] || |h.maskKey| == 4
  {
    if |buf| < 2 then ShortHeader
    else
      var fin := And8(buf[0], 0x80) != 0;
      var opCode := And8(buf[0], 0x0F);
      var masked := And8(buf[1], 0x80) != 0;
      var len7 := And8(buf[1], 0x7F);
      var ext := 2 + ExtendedLengthSize(len7);
      if isServer && !masked then BadHeader(UnmaskedClientFrame)
      else if !isServer && masked then BadHeader(MaskedServerFrame)
      else if |buf| < ext then ShortHeader
      else
        var payloadLen := if ext == 2 then len7 else FromBigEndian(buf[2..ext]);
        var headerLen := if masked then ext + 4 else ext;
        if len7 == 127 && payloadLen >= 0x8000_0000_0000_0000 then BadHeader(LengthMsbSet)
        else if payloadLen > MAX_FRAME_SIZE then BadHeader(FrameTooLarge)
        else if |buf| < headerLen then ShortHeader
        else Header(fin, opCode, masked, buf[ext..headerLen], headerLen, payloadLen)
  }

  function ParseFrame(isServer: bool, buf: bytes, frag: Fragment): (r: FrameResult)
    ensures r.Done? ==> 2 <= r.consumed <= |buf|
  {
    match ParseHeader(isServer, buf)
    case ShortHeader => NeedMore
    case BadHeader(error) => Failed(error, frag)
    case Header(fin, opCode, masked, maskKey, headerLen, payloadLen) =>
      var total := headerLen + payloadLen;
      if |buf| < total then NeedMore
      else AcceptFrame(opCode, Unmask(buf[headerLen..total], maskKey), fin, masked, maskKey, total, frag)
  }

  // ----- Parsing a buffer -----

  function Prepend(msgs: seq<Message>, o: Outcome): Outcome {
    match o
    case Parsed(rest, buffer, frag) => Parsed(msgs + rest, buffer, frag)
    case Rejected(_, _, _) => o
  }

  /** The parse loop: take frames off the buffer until more data is needed or a frame is bad. */
  function ParseBuffer(isServer: bool, buf: bytes, frag: Fragment): Outcome
    decreases |buf|
  {
    match ParseFrame(isServer, buf, frag)
    case NeedMore => Parsed([], buf, frag)
    case Failed(error, frag') => Rejected(error, buf, frag')
    case Done(msg, consumed, frag') =>
      Prepend(Emitted(msg), ParseBuffer(isServer, buf[consumed..], frag'))
  }

  // ----- Building frames -----

  function LengthField(n: nat): (r: bytes)
    ensures r != [] && r[0] < 128
  {
    if n >= 65536 then [127] + BigEndian(n, 8)
    else if n >= 126 then [126] + BigEndian(n, 2)
    else [n]
  }

  /** The key bytes a frame carries: a client's frame is masked, a server's is not. */
  function WireKey(isServer: bool, key: MaskKey): bytes {
    if isServer then [] else key
  }

  function FrameHeader(isServer: bool, key: MaskKey, opCode: byte, payloadLen: nat, fin: bool): bytes {
    var first := if fin then Or8(opCode, 0x80) else opCode;
    var length := LengthField(payloadLen);
    var second := if isServer then length[0] else Or8(0x80, length[0]);
    [first, second] + length[1..] + WireKey(isServer, key)
  }

  /** The bytes of one frame; a client frame is masked with the drawn key. */
  function Frame(isServer: bool, key: MaskKey, opCode: byte, payload: bytes, fin: bool): bytes {
    FrameHeader(isServer, key, opCode, |payload|, fin) + (if isServer then payload else Mask(payload, key))
  }
}

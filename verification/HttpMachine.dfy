/**
 The HTTP/1.1 parser of the repository as a state machine (RFC 7230, sections 3.1.1, 3.3.3 and 4.1):
 what one parseNext step and one Parse call compute, as functions of the parser state.
 */
module HttpMachine {
  import opened Bytes
  import opened HttpText
  import opened Wrappers

  const MAX_HEADER_SIZE := 8192
  const MAX_BODY_SIZE := 10485760
  const MAX_REQUEST_LINE := 8192

  // The header names and values the parser looks at.
  const HOST := Str("host")
  const CONNECTION := Str("connection")
  const CONTENT_TYPE := Str("content-type")
  const CONTENT_LENGTH := Str("content-length")
  const UPGRADE := Str("upgrade")
  const SEC_WEBSOCKET_KEY := Str("sec-websocket-key")
  const SEC_WEBSOCKET_VERSION := Str("sec-websocket-version")
  const SEC_WEBSOCKET_PROTOCOL := Str("sec-websocket-protocol")
  const SEC_WEBSOCKET_ACCEPT := Str("sec-websocket-accept")
  const TRANSFER_ENCODING := Str("transfer-encoding")
  const CHUNKED := Str("chunked")
  const HTTP_SLASH := Str("HTTP/")

  type Headers = map<bytes, bytes>

  datatype Request = Request(
    method_: bytes, path: bytes, version: bytes, uri: bytes, query: Option<map<bytes, bytes>>,
    headers: Headers, host: bytes, connection: bytes, contentType: bytes, contentLength: int,
    upgrade: bytes, webSocketKey: bytes, webSocketVersion: bytes, webSocketProtocol: bytes,
    body: bytes, payload: bytes)

  datatype Response = Response(
    version: bytes, statusCode: int, statusText: bytes,
    headers: Headers, connection: bytes, contentType: bytes, contentLength: int,
    upgrade: bytes, webSocketAccept: bytes, webSocketProtocol: bytes,
    body: bytes, payload: bytes)

  datatype Message = HttpRequest(request: Request) | HttpResponse(response: Response)

  datatype Phase = RequestLine | ResponseLine | HeaderLines | FixedBody | ChunkedBody | Complete

  datatype Error =
    | RequestLineTooLong
    | BadRequestLine
    | ResponseLineTooLong
    | BadResponseLine
    | BadStatusCode
    | HeadersTooLarge
    | BadChunkSize
    | RuntimePanic  // make([]byte, n) with n negative or beyond the address space

  /** The fields of HTTPParser. */
  datatype State = State(
    phase: Phase, buffer: bytes, headerComplete: bool, bodyComplete: bool,
    contentLength: int, chunked: bool, request: Option<Request>, response: Option<Response>)

  /** The state of a new parser, and finishMessage's reset with the given bytes left over. */
  function Fresh(buffer: bytes): State {
    State(RequestLine, buffer, false, false, 0, false, None, None)
  }

  /** What one parseNext call does: nothing yet, an error, or some bytes consumed and perhaps a message. */
  datatype StepResult =
    | Wait
    | Fault(error: Error, st: State)
    | Step(st: State, msg: Option<Message>, consumed: nat)

  datatype Outcome = Parsed(messages: seq<Message>, st: State) | Rejected(error: Error, st: State)

  // ----- Request and status line -----

  /** One key=value pair of a query string. */
  function AddPair(pair: bytes, acc: map<bytes, bytes>): map<bytes, bytes> {
    if pair == [] then acc
    else
      var parts := SplitN(pair, 61, 2);
      acc[parts[0] := if |parts| == 2 then parts[1] else []]
  }

  function AddPairs(pairs: seq<bytes>, acc: map<bytes, bytes>): map<bytes, bytes> {
    if pairs == [] then acc else AddPairs(pairs[1..], AddPair(pairs[0], acc))
  }

  function ParseQuery(query: bytes): map<bytes, bytes> {
    if query == [] then map[] else AddPairs(Split(query, 38), map[])
  }

  function NewRequest(m: bytes, uri: bytes, version: bytes): Request {
    var mark := Find([63], uri);
    var path := if mark.Some? then uri[..mark.value] else uri;
    var query := if mark.Some? then Some(ParseQuery(uri[mark.value + 1..])) else None;
    Request(m, path, version, uri, query, map[], [], [], [], 0, [], [], [], [], [], [])
  }

  function NewResponse(version: bytes, code: int, text: bytes): Response {
    Response(version, code, text, map[], [], [], 0, [], [], [], [], [])
  }

  function ParseRequestLine(st: State): StepResult {
    match Find(CRLF, st.buffer)
    case None => if |st.buffer| > MAX_REQUEST_LINE then Fault(RequestLineTooLong, st) else Wait
    case Some(end) =>
      var parts := SplitN(st.buffer[..end], SPACE, 3);
      if |parts| != 3 then Fault(BadRequestLine, st)
      else if HTTP_SLASH <= parts[0] then ParseResponseLine(st.(phase := ResponseLine))
      else
        var request := NewRequest(parts[0], parts[1], parts[2]);
        Step(st.(request := Some(request), phase := HeaderLines), None, end + 2)
  }

  function ParseResponseLine(st: State): StepResult {
    match Find(CRLF, st.buffer)
    case None => if |st.buffer| > MAX_REQUEST_LINE then Fault(ResponseLineTooLong, st) else Wait
    case Some(end) =>
      var parts := SplitN(st.buffer[..end], SPACE, 3);
      if |parts| < 2 then Fault(BadResponseLine, st)
      else
        match ParseInt(parts[1], 10)
        case None => Fault(BadStatusCode, st)
        case Some(code) =>
          var response := NewResponse(parts[0], code, if |parts| == 3 then parts[2] else []);
          Step(st.(response := Some(response), phase := HeaderLines), None, end + 2)
  }

  // ----- Headers -----

  /** One header line: later values of a name replace earlier ones, lines without a colon are skipped. */
  function AddHeader(u: Unicode, line: bytes, acc: Headers): Headers {
    match Find([COLON], line)
    case None => acc
    case Some(i) => acc[ToLower(u, TrimSpace(u, line[..i])) := TrimSpace(u, line[i + 1..])]
  }

  function AddHeaders(u: Unicode, lines: seq<bytes>, acc: Headers): Headers {
    if lines == [] then acc else AddHeaders(u, lines[1..], AddHeader(u, lines[0], acc))
  }

  function Get(h: Headers, name: bytes): bytes {
    if name in h then h[name] else []
  }

  // A field keeps its value when the header is absent or empty.
  function Field(h: Headers, name: bytes, old_: bytes): bytes {
    var v := Get(h, name);
    if v != [] then v else old_
  }

  /** The Content-Length the parser takes over, if there is one it can read. */
  function DeclaredLength(h: Headers): Option<int> {
    ParseInt(Get(h, CONTENT_LENGTH), 10)
  }

  function SetRequestHeaders(r: Request, h: Headers): Request {
    var length := DeclaredLength(h);
    r.(headers := h,
       host := Field(h, HOST, r.host),
       connection := Field(h, CONNECTION, r.connection),
       contentType := Field(h, CONTENT_TYPE, r.contentType),
       contentLength := if length.Some? then length.value else r.contentLength,
       upgrade := Field(h, UPGRADE, r.upgrade),
       webSocketKey := Field(h, SEC_WEBSOCKET_KEY, r.webSocketKey),
       webSocketVersion := Field(h, SEC_WEBSOCKET_VERSION, r.webSocketVersion),
       webSocketProtocol := Field(h, SEC_WEBSOCKET_PROTOCOL, r.webSocketProtocol))
  }

  function SetResponseHeaders(r: Response, h: Headers): Response {
    var length := DeclaredLength(h);
    r.(headers := h,
       connection := Field(h, CONNECTION, r.connection),
       contentType := Field(h, CONTENT_TYPE, r.contentType),
       contentLength := if length.Some? then length.value else r.contentLength,
       upgrade := Field(h, UPGRADE, r.upgrade),
       webSocketAccept := Field(h, SEC_WEBSOCKET_ACCEPT, r.webSocketAccept),
       webSocketProtocol := Field(h, SEC_WEBSOCKET_PROTOCOL, r.webSocketProtocol))
  }

  predicate ShouldParseBody(st: State) {
    st.chunked || 0 < st.contentLength <= MAX_BODY_SIZE
  }

  /** The message being read takes its headers, and the parser its body strategy. */
  function ApplyHeaders(st: State, h: Headers): State {
    var length := DeclaredLength(h);
    var known := st.request.Some? || st.response.Some?;
    var st1 := st.(
      request := if st.request.Some? then Some(SetRequestHeaders(st.request.value, h)) else None,
      response := if st.request.None? && st.response.Some?
                  then Some(SetResponseHeaders(st.response.value, h)) else st.response,
      contentLength := if known && length.Some? then length.value else st.contentLength,
      chunked := st.chunked || (known && Get(h, TRANSFER_ENCODING) == CHUNKED),
      headerComplete := true);
    st1.(phase := if !ShouldParseBody(st1) then Complete else if st1.chunked then ChunkedBody else FixedBody)
  }

  function ParseHeaderLines(u: Unicode, st: State): StepResult {
    match Find(CRLF2, st.buffer)
    case None => if |st.buffer| > MAX_HEADER_SIZE then Fault(HeadersTooLarge, st) else Wait
    case Some(end) => Step(ApplyHeaders(st, AddHeaders(u, ScanLines(st.buffer[..end]), map[])), None, end + 4)
  }

  // ----- Bodies -----

  /** The body goes to the message being read. */
  function WithBody(st: State, body: bytes): State {
    st.(request := if st.request.Some? then Some(st.request.value.(body := body)) else None,
        response := if st.request.None? && st.response.Some?
                    then Some(st.response.value.(body := body)) else st.response,
        bodyComplete := true,
        phase := Complete)
  }

  /** completeMessage: the payload becomes the body. */
  function Completed(st: State): Option<Message> {
    if st.request.Some? then
      var r := st.request.value;
      Some(HttpRequest(if r.body != [] then r.(payload := r.body) else r))
    else if st.response.Some? then
      var r := st.response.value;
      Some(HttpResponse(if r.body != [] then r.(payload := r.body) else r))
    else None
  }

  function ParseFixedBody(st: State): StepResult {
    if st.contentLength == 0 then Step(Fresh(st.buffer), Completed(st), 0)
    else if |st.buffer| < st.contentLength then Wait
    else if st.contentLength < 0 then Fault(RuntimePanic, st)
    else Step(WithBody(st, st.buffer[..st.contentLength]), None, st.contentLength)
  }

  datatype ChunkResult = ChunkWait | ChunkFault(error: Error) | Chunks(body: bytes, consumed: nat)

  /** The size a chunk-size line declares; what follows the first semicolon is ignored. */
  function ChunkSize(line: bytes): Option<int> {
    ParseInt(Split(line, 59)[0], 16)
  }

  /** int(chunkSize)+2 in 64-bit arithmetic. */
  function PlusTwo(n: int): int {
    if n + 2 > MAX_INT64 then n + 2 - 0x1_0000_0000_0000_0000 else n + 2
  }

  /** One turn of the chunk loop: a chunk's data with its size line and the two bytes behind it, or the end. */
  datatype ChunkHead =
    | HeadWait
    | HeadFault(error: Error)
    | LastChunk(consumed: nat)
    | OneChunk(data: bytes, consumed: nat)

  function ReadChunk(buf: bytes): (r: ChunkHead)
    ensures r.OneChunk? || r.LastChunk? ==> 0 < r.consumed <= |buf|
  {
    match Find(CRLF, buf)
    case None => HeadWait
    case Some(end) =>
      var rest := buf[end + 2..];
      match ChunkSize(buf[..end])
      case None => HeadFault(BadChunkSize)
      case Some(n) =>
        if n == 0 then
          if |rest| < 2 then HeadWait else LastChunk(end + 4)
        else if |rest| < PlusTwo(n) then HeadWait
        else if n < 0 || n + 2 > MAX_INT64 then HeadFault(RuntimePanic)
        else OneChunk(rest[..n], end + 2 + n + 2)
  }

  /** The chunk loop: chunk data is taken over, the two bytes after it and after the last chunk are skipped. */
  function DecodeChunks(buf: bytes): (r: ChunkResult)
    ensures r.Chunks? ==> 0 < r.consumed <= |buf|
    decreases |buf|
  {
    match ReadChunk(buf)
    case HeadWait => ChunkWait
    case HeadFault(error) => ChunkFault(error)
    case LastChunk(consumed) => Chunks([], consumed)
    case OneChunk(data, consumed) =>
      match DecodeChunks(buf[consumed..])
      case Chunks(body, more) => Chunks(data + body, consumed + more)
      case other => other
  }

  function ParseChunkedBody(st: State): StepResult {
    match DecodeChunks(st.buffer)
    case ChunkWait => Wait
    case ChunkFault(error) => Fault(error, st)
    case Chunks(body, consumed) => Step(WithBody(st, body), None, consumed)
  }

  // ----- The machine -----

  function ParseNext(u: Unicode, st: State): (r: StepResult)
    ensures r.Step? ==> r.consumed <= |st.buffer| && r.st.buffer == st.buffer
    ensures r.Step? && r.consumed == 0 ==> st.phase in {Complete, FixedBody} && r.st == Fresh(st.buffer)
  {
    if st.phase == Complete then Step(Fresh(st.buffer), Completed(st), 0)
    else if st.buffer == [] then Wait
    else
      match st.phase
      case RequestLine => ParseRequestLine(st)
      case ResponseLine => ParseResponseLine(st)
      case HeaderLines => ParseHeaderLines(u, st)
      case FixedBody => ParseFixedBody(st)
      case ChunkedBody => ParseChunkedBody(st)
  }

  function Prepend(msgs: seq<Message>, o: Outcome): Outcome {
    match o
    case Parsed(rest, st) => Parsed(msgs + rest, st)
    case Rejected(_, _) => o
  }

  // The state once the consumed bytes are taken off the buffer.
  function Advance(r: StepResult): State
    requires r.Step? && r.consumed <= |r.st.buffer|
  {
    r.st.(buffer := r.st.buffer[r.consumed..])
  }

  /** The loop of Parse. */
  function ParseLoop(u: Unicode, st: State): Outcome
    decreases |st.buffer|, if st.phase in {Complete, FixedBody} then 1 else 0
  {
    var r := ParseNext(u, st);
    match r
    case Wait => Parsed([], st)
    case Fault(error, st') => Rejected(error, st')
    case Step(_, msg, consumed) =>
      if consumed > 0 || (msg.Some? && st.buffer != []) then
        Prepend(Emitted(msg), ParseLoop(u, Advance(r)))
      else
        Parsed(Emitted(msg), r.st)
  }

  /** What the parser's own steps keep: a message is being read whenever its first line is behind. */
  predicate Consistent(st: State) {
    && (st.phase in {HeaderLines, FixedBody, ChunkedBody, Complete} ==> st.request.Some? || st.response.Some?)
    && (st.phase in {RequestLine, ResponseLine} ==> st.contentLength == 0 && !st.chunked && st.request.None? && st.response.None?)
    && (st.phase == HeaderLines ==> st.contentLength == 0 && !st.chunked)
    && (st.phase == FixedBody ==> 0 < st.contentLength <= MAX_BODY_SIZE)
  }
}

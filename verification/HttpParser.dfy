/** The incremental HTTP/1.1 parser object, proved against the state machine of HttpMachine. */
module HttpParser {
  import opened Bytes
  import opened HttpText
  import opened HttpMachine
  import opened HttpTheorems
  import opened Wrappers

  class Parser {
    const unicode: Unicode
    var state: Phase
    var buffer: bytes
    var headerComplete: bool
    var bodyComplete: bool
    var contentLength: int
    var chunked: bool
    var currentRequest: Option<Request>
    var currentResponse: Option<Response>

    constructor (unicode: Unicode)
      ensures this.unicode == unicode && St() == Fresh([])
    {
      this.unicode := unicode;
      state, buffer, headerComplete, bodyComplete := RequestLine, [], false, false;
      contentLength, chunked, currentRequest, currentResponse := 0, false, None, None;
    }

    function St(): State
      reads this
    {
      State(state, buffer, headerComplete, bodyComplete, contentLength, chunked, currentRequest, currentResponse)
    }

    // What parseNext and the line, header and body parsers report, against the step the machine takes.
    ghost predicate Reports(r: StepResult, before: State, msg: Option<Message>, consumed: nat, err: Option<Error>)
      reads this
    {
      match r
      case Wait => msg == None && consumed == 0 && err == None && St() == before
      case Fault(e, st) => msg == None && consumed == 0 && err == Some(e) && St() == st
      case Step(st, m, n) => msg == m && consumed == n && err == None && St() == st
    }

    /** Takes in the bytes that arrived and delivers every message that is complete; an error delivers none. */
    method Parse(data: bytes) returns (messages: seq<Message>, err: Option<Error>)
      modifies this
      ensures var o := ParseLoop(unicode, Feed(old(St()), data));
              && St() == o.st
              && (o.Parsed? ==> err == None && messages == o.messages)
              && (o.Rejected? ==> err == Some(o.error) && messages == [])
    {
      hide ParseNext;
      buffer := buffer + data;
      messages, err := [], None;
      ghost var start := ParseLoop(unicode, St());
      PrependNothing(start);
      while true
        invariant err == None
        invariant start == Prepend(messages, ParseLoop(unicode, St()))
        decreases |buffer|, if state in {Complete, FixedBody} then 1 else 0
      {
        ghost var before := St();
        ghost var r := ParseNext(unicode, before);
        ghost var earlier := messages;
        var msg, consumed;
        msg, consumed, err := NextStep();
        if err.Some? {
          return [], err;
        }
        messages := messages + Emitted(msg);
        if consumed == 0 {
          if msg.Some? && |buffer| > 0 {
            assert Advance(r) == St();
            PrependTwice(earlier, Emitted(msg), ParseLoop(unicode, St()));
            continue;
          }
          assert r.Wait? ==> earlier + [] == messages;
          break;
        }
        buffer := buffer[consumed..];
        assert Advance(r) == St();
        PrependTwice(earlier, Emitted(msg), ParseLoop(unicode, St()));
      }
    }

    /** parseNext. */
    method NextStep() returns (msg: Option<Message>, consumed: nat, err: Option<Error>)
      modifies this
      ensures Reports(ParseNext(unicode, old(St())), old(St()), msg, consumed, err)
    {
      hide ParseRequestLine, ParseResponseLine, ParseHeaderLines, ParseFixedBody, ParseChunkedBody;
      if state == Complete {
        msg := CompleteMessage();
        FinishMessage();
        return msg, 0, None;
      }
      if |buffer| == 0 {
        return None, 0, None;
      }
      match state
      case RequestLine => msg, consumed, err := ReadRequestLine();
      case ResponseLine => msg, consumed, err := ReadResponseLine();
      case HeaderLines => msg, consumed, err := ReadHeaders();
      case FixedBody => msg, consumed, err := ReadBody();
      case ChunkedBody => msg, consumed, err := ReadChunkedBody();
    }

    method ReadRequestLine() returns (msg: Option<Message>, consumed: nat, err: Option<Error>)
      modifies this
      ensures Reports(ParseRequestLine(old(St())), old(St()), msg, consumed, err)
    {
      hide Find, SplitN, ParseResponseLine;
      var lineEnd := Find(CRLF, buffer);
      if lineEnd.None? {
        if |buffer| > MAX_REQUEST_LINE {
          return None, 0, Some(RequestLineTooLong);
        }
        return None, 0, None;
      }
      var parts := SplitN(buffer[..lineEnd.value], SPACE, 3);
      if |parts| != 3 {
        return None, 0, Some(BadRequestLine);
      }
      if HTTP_SLASH <= parts[0] {
        state := ResponseLine;
        LineFound(St());
        msg, consumed, err := ReadResponseLine();
        return;
      }
      var mark := Find([63], parts[1]);
      var request := Request(parts[0], parts[1], parts[2], parts[1], None, map[], [], [], [], 0, [], [], [], [], [], []);
      if mark.Some? {
        request := request.(path := parts[1][..mark.value], query := Some(ParseQuery(parts[1][mark.value + 1..])));
      }
      currentRequest := Some(request);
      state := HeaderLines;
      return None, lineEnd.value + 2, None;
    }

    method ReadResponseLine() returns (msg: Option<Message>, consumed: nat, err: Option<Error>)
      modifies this
      ensures Reports(ParseResponseLine(old(St())), old(St()), msg, consumed, err)
    {
      hide Find, SplitN, ParseInt;
      var lineEnd := Find(CRLF, buffer);
      if lineEnd.None? {
        if |buffer| > MAX_REQUEST_LINE {
          return None, 0, Some(ResponseLineTooLong);
        }
        return None, 0, None;
      }
      var parts := SplitN(buffer[..lineEnd.value], SPACE, 3);
      if |parts| < 2 {
        return None, 0, Some(BadResponseLine);
      }
      var code := ParseInt(parts[1], 10);
      if code.None? {
        return None, 0, Some(BadStatusCode);
      }
      var text := [];
      if |parts| == 3 {
        text := parts[2];
      }
      currentResponse := Some(NewResponse(parts[0], code.value, text));
      state := HeaderLines;
      return None, lineEnd.value + 2, None;
    }

    method ReadHeaders() returns (msg: Option<Message>, consumed: nat, err: Option<Error>)
      modifies this
      ensures Reports(ParseHeaderLines(unicode, old(St())), old(St()), msg, consumed, err)
    {
      hide Find, ScanLines, AddHeaders, SetRequestHeaders, SetResponseHeaders, DeclaredLength, Get;
      var headerEnd := Find(CRLF2, buffer);
      if headerEnd.None? {
        if |buffer| > MAX_HEADER_SIZE {
          return None, 0, Some(HeadersTooLarge);
        }
        return None, 0, None;
      }
      var headers := CollectHeaders(ScanLines(buffer[..headerEnd.value]));
      var length := DeclaredLength(headers);
      if currentRequest.Some? || currentResponse.Some? {
        if currentRequest.Some? {
          currentRequest := Some(SetRequestHeaders(currentRequest.value, headers));
        } else {
          currentResponse := Some(SetResponseHeaders(currentResponse.value, headers));
        }
        if length.Some? {
          contentLength := length.value;
        }
        if Get(headers, TRANSFER_ENCODING) == CHUNKED {
          chunked := true;
        }
      }
      headerComplete := true;
      if ShouldParseBody(St()) {
        if chunked {
          state := ChunkedBody;
        } else {
          state := FixedBody;
        }
      } else {
        state := Complete;
      }
      return None, headerEnd.value + 4, None;
    }

    // The scanner loop over the lines of the header block.
    method CollectHeaders(lines: seq<bytes>) returns (headers: Headers)
      ensures headers == AddHeaders(unicode, lines, map[])
    {
      headers := map[];
      var i := 0;
      while i < |lines|
        invariant 0 <= i <= |lines|
        invariant AddHeaders(unicode, lines[i..], headers) == AddHeaders(unicode, lines, map[])
      {
        var line := lines[i];
        assert lines[i..][0] == line && lines[i..][1..] == lines[i + 1..];
        i := i + 1;
        if line == [] {
          assert Find([COLON], line) == None;
          continue;
        }
        var colon := Find([COLON], line);
        if colon.None? {
          continue;
        }
        var name := TrimSpace(unicode, line[..colon.value]);
        var value := TrimSpace(unicode, line[colon.value + 1..]);
        headers := headers[ToLower(unicode, name) := value];
      }
    }

    method ReadBody() returns (msg: Option<Message>, consumed: nat, err: Option<Error>)
      modifies this
      ensures Reports(ParseFixedBody(old(St())), old(St()), msg, consumed, err)
    {
      if contentLength == 0 {
        state := Complete;
        msg := CompleteMessage();
        FinishMessage();
        return msg, 0, None;
      }
      if |buffer| < contentLength {
        return None, 0, None;
      }
      if contentLength < 0 {
        return None, 0, Some(RuntimePanic);
      }
      TakeBody(buffer[..contentLength]);
      return None, contentLength, None;
    }

    /** The chunk loop starts over from the front of the buffer each time and only then stores the body. */
    method ReadChunkedBody() returns (msg: Option<Message>, consumed: nat, err: Option<Error>)
      modifies this
      ensures Reports(ParseChunkedBody(old(St())), old(St()), msg, consumed, err)
    {
      hide ReadChunk;
      var body: bytes := [];
      consumed := 0;
      var rest := buffer;
      ghost var whole := DecodeChunks(buffer);
      ChunksAfter([], 0, whole);
      while true
        invariant St() == old(St())
        invariant 0 <= consumed <= |buffer| && rest == buffer[consumed..]
        invariant whole == After(body, consumed, DecodeChunks(rest))
        decreases |rest|
      {
        var head := ReadChunk(rest);
        match head
        case HeadWait =>
          assert ParseChunkedBody(old(St())) == Wait;
          return None, 0, None;
        case HeadFault(e) => return None, 0, Some(e);
        case LastChunk(n) =>
          consumed := consumed + n;
          assert body + [] == body;
          break;
        case OneChunk(data, n) =>
          AfterTwice(body, consumed, data, n, DecodeChunks(rest[n..]));
          body := body + data;
          consumed := consumed + n;
          assert rest[n..] == buffer[consumed..];
          rest := rest[n..];
      }
      TakeBody(body);
      return None, consumed, None;
    }

    method TakeBody(body: bytes)
      modifies this
      ensures St() == WithBody(old(St()), body)
    {
      if currentRequest.Some? {
        currentRequest := Some(currentRequest.value.(body := body));
      } else if currentResponse.Some? {
        currentResponse := Some(currentResponse.value.(body := body));
      }
      bodyComplete := true;
      state := Complete;
    }

    method CompleteMessage() returns (msg: Option<Message>)
      ensures msg == Completed(St())
    {
      if currentRequest.Some? {
        var r := currentRequest.value;
        if r.body != [] {
          r := r.(payload := r.body);
        }
        return Some(HttpRequest(r));
      } else if currentResponse.Some? {
        var r := currentResponse.value;
        if r.body != [] {
          r := r.(payload := r.body);
        }
        return Some(HttpResponse(r));
      }
      return None;
    }

    method FinishMessage()
      modifies this
      ensures St() == Fresh(old(buffer))
    {
      state, headerComplete, bodyComplete := RequestLine, false, false;
      contentLength, chunked, currentRequest, currentResponse := 0, false, None, None;
    }
  }

  // A status line is only looked at once its end is there.
  lemma LineFound(st: State)
    requires Find(CRLF, st.buffer).Some?
    ensures !ParseResponseLine(st).Wait?
  {
  }

  // Chunks already taken over in front of what is still to be decoded.
  function After(body: bytes, consumed: nat, r: ChunkResult): ChunkResult {
    match r
    case Chunks(b, n) => Chunks(body + b, consumed + n)
    case other => other
  }

  lemma ChunksAfter(body: bytes, consumed: nat, r: ChunkResult)
    requires body == [] && consumed == 0
    ensures After(body, consumed, r) == r
  {
    if r.Chunks? {
      assert [] + r.body == r.body;
    }
  }

  lemma AfterTwice(b1: bytes, n1: nat, b2: bytes, n2: nat, r: ChunkResult)
    ensures After(b1, n1, After(b2, n2, r)) == After(b1 + b2, n1 + n2, r)
  {
    if r.Chunks? {
      assert b1 + (b2 + r.body) == b1 + b2 + r.body;
    }
  }
}

/** Responses that the builder prints are read back too, one by one and pipelined. */
module HttpResponses {
  import opened Bytes
  import opened HttpText
  import opened HttpMachine
  import opened HttpTheorems
  import opened HttpBuilder
  import opened HttpRoundTrip
  import opened Wrappers

  // ----- The status line -----

  /** A status line the parser reads back: a 64-bit code and a text without a line break. */
  predicate GoodStatus(code: int, text: bytes) {
    -MAX_INT64 - 1 <= code <= MAX_INT64 && CR !in text
  }

  lemma CodeIsPlain(code: int)
    requires -MAX_INT64 - 1 <= code <= MAX_INT64
    ensures ParseInt(PrintInt(code), 10) == Some(code)
    ensures SPACE !in PrintInt(code) && CR !in PrintInt(code)
  {
    hide PrintInt, ParseInt;
    PrintIntRoundTrip(code);
  }

  lemma VersionIsPlain()
    ensures SPACE !in VERSION && CR !in VERSION && HTTP_SLASH <= VERSION
  {
    assert VERSION[..5] == HTTP_SLASH;
  }

  lemma StatusLineSplits(code: int, text: bytes)
    requires GoodStatus(code, text)
    ensures SplitN(StatusLine(code, text), SPACE, 3) == [VERSION, PrintInt(code), text]
    ensures CR !in StatusLine(code, text)
  {
    hide Find, PrintInt, ParseInt;
    VersionIsPlain();
    CodeIsPlain(code);
    var number := PrintInt(code);
    var rest := number + [SPACE] + text;
    var line := StatusLine(code, text);
    assert line == VERSION + [SPACE] + rest;
    FindByteAfter(SPACE, VERSION, rest);
    FindByteAfter(SPACE, number, text);
    assert line[..|VERSION|] == VERSION && line[|VERSION| + 1..] == rest;
    assert rest[..|number|] == number && rest[|number| + 1..] == text;
    assert SplitN(text, SPACE, 1) == [text];
    assert SplitN(rest, SPACE, 2) == [number] + [text];
  }

  // The parser takes the line for a request line first and hands it over.
  lemma StatusLineIsRead(code: int, text: bytes, more: bytes)
    requires GoodStatus(code, text)
    ensures var st := Fresh(StatusLine(code, text) + CRLF + more);
            ParseRequestLine(st) ==
            Step(st.(response := Some(NewResponse(VERSION, code, text)), phase := HeaderLines), None,
                 |StatusLine(code, text)| + 2)
  {
    hide SplitN, NewResponse, Find, ParseInt, PrintInt, StatusLine;
    var line := StatusLine(code, text);
    StatusLineSplits(code, text);
    VersionIsPlain();
    CodeIsPlain(code);
    FindLineEnd(line, more);
    assert (line + CRLF + more)[..|line|] == line;
  }

  /** The texts the builder fills in are fine. */
  lemma FilledInTextIsGood(code: int, text: bytes)
    requires CR !in text
    ensures CR !in StatusText(code, text) && StatusText(code, text) != []
  {
    hide StatusName;
  }

  // ----- A whole response -----

  /** A response as the caller hands it to the builder, with the enumeration order and the date of the moment. */
  datatype SentResponse =
    SentResponse(code: int, text: bytes, headers: Headers, body: bytes, date: bytes, order: seq<bytes>) {
    function All(auto: bool, server: bytes): Headers {
      ResponseHeaders(auto, server, date, headers, |body|)
    }

    ghost predicate Enumerated(auto: bool, server: bytes) {
      Enumerates(order, All(auto, server))
    }

    /** What BuildResponse prints. */
    ghost function Bytes(auto: bool, server: bytes): bytes
      requires Enumerated(auto, server)
    {
      ResponseBytes(StatusCode(code), StatusText(code, text), All(auto, server), order, body)
    }
  }

  /** A response whose parts can be read back one by one; it may have no headers. */
  ghost predicate SendableResponse(u: Unicode, auto: bool, server: bytes, s: SentResponse) {
    && s.Enumerated(auto, server)
    && GoodStatus(StatusCode(s.code), s.text)
    && GoodHeaders(u, s.All(auto, server))
    && DeclaresBody(Lowered(u, s.All(auto, server)), s.body)
  }

  ghost predicate GoodResponse(u: Unicode, auto: bool, server: bytes, s: SentResponse) {
    SendableResponse(u, auto, server, s) && s.All(auto, server) != map[]
  }

  function ResponseHead(code: int, text: bytes, h: Headers): Response {
    SetResponseHeaders(NewResponse(VERSION, code, text), h)
  }

  /** The response the peer's application should see. */
  ghost function ReceivedResponse(u: Unicode, auto: bool, server: bytes, s: SentResponse): (r: Response)
    requires SendableResponse(u, auto, server, s)
    ensures r.statusCode == StatusCode(s.code) && r.statusText == StatusText(s.code, s.text) && r.version == VERSION
    ensures r.headers == Lowered(u, s.All(auto, server))
    ensures r.body == s.body && r.payload == s.body
  {
    hide StatusName;
    ResponseHead(StatusCode(s.code), StatusText(s.code, s.text), Lowered(u, s.All(auto, server)))
      .(body := s.body, payload := s.body)
  }

  lemma ResponseHeadIsRead(
      u: Unicode, code: int, text: bytes, all: Headers, order: seq<bytes>, rest: bytes)
    requires GoodStatus(code, text) && GoodHeaders(u, all) && Enumerates(order, all) && all != map[]
    ensures var st := Fresh(rest).(response := Some(NewResponse(VERSION, code, text)), phase := HeaderLines);
            ParseLoop(u, Fresh(ResponseBytes(code, text, all, order, rest))) == ParseLoop(u, ApplyHeaders(st, Lowered(u, all)))
  {
    hide Lowered, GoodHeaders, ParseRequestLine, ParseHeaderLines, GoodStatus, StatusLine, JoinLines, HeaderLinesOf;
    hide NewResponse, ApplyHeaders, ParseLoop;
    var line := StatusLine(code, text);
    var block := JoinLines(HeaderLinesOf(all, order));
    var tail := block + CRLF + rest;
    var buf := ResponseBytes(code, text, all, order, rest);
    assert buf == line + CRLF + tail;
    StatusLineIsRead(code, text, tail);
    OneStep(u, Fresh(buf));
    var st := Fresh(tail).(response := Some(NewResponse(VERSION, code, text)), phase := HeaderLines);
    assert buf[|line| + 2..] == tail;
    assert Advance(ParseNext(u, Fresh(buf))) == st;
    HeaderBlockIsRead(u, st, all, order, rest);
    OneStep(u, st);
    assert tail[|block| + 2..] == rest;
    HeadersKeepBuffer(st, rest, Lowered(u, all));
  }

  lemma HeadersLeaveResponseBody(r: Response, h: Headers)
    ensures SetResponseHeaders(r, h).body == r.body && SetResponseHeaders(r, h).payload == r.payload
  {
    hide DeclaredLength, Field;
  }

  lemma ResponseBodyIsRead(u: Unicode, code: int, text: bytes, h: Headers, body: bytes, more: bytes)
    requires DeclaresBody(h, body)
    ensures var st := Fresh(body + more).(response := Some(NewResponse(VERSION, code, text)), phase := HeaderLines);
            var o := ParseLoop(u, ApplyHeaders(st, h));
            var r := ResponseHead(code, text, h);
            if |body| <= MAX_BODY_SIZE then
              o == Prepend([HttpResponse(r.(body := body, payload := body))], ParseLoop(u, Fresh(more)))
            else
              o == Prepend([HttpResponse(r)], ParseLoop(u, Fresh(body + more)))
  {
    var r := NewResponse(VERSION, code, text);
    HeadersLeaveResponseBody(r, h);
    assert r.body == [] && r.payload == [];
    hide ParseLoop, SetResponseHeaders, NewResponse, DeclaredLength, Get;
    var st := Fresh(body + more).(response := Some(r), phase := HeaderLines);
    var st1 := ApplyHeaders(st, h);
    if 0 < |body| <= MAX_BODY_SIZE {
      assert st1.phase == FixedBody && st1.contentLength == |body|;
      assert (body + more)[..|body|] == body && (body + more)[|body|..] == more;
      OneStep(u, st1);
      LastStep(u, Advance(ParseNext(u, st1)));
    } else {
      assert st1.phase == Complete;
      LastStep(u, st1);
      if body == [] {
        assert body + more == more;
      }
    }
  }

  lemma ResponseHeadHasNoBody(code: int, text: bytes, h: Headers)
    ensures ResponseHead(code, text, h).body == [] && ResponseHead(code, text, h).payload == []
  {
    HeadersLeaveResponseBody(NewResponse(VERSION, code, text), h);
  }

  lemma BytesBefore(code: int, text: bytes, all: Headers, order: seq<bytes>, body: bytes, more: bytes)
    requires forall k :: k in order ==> k in all
    ensures ResponseBytes(code, text, all, order, body) + more == ResponseBytes(code, text, all, order, body + more)
  {
    hide StatusLine, JoinLines, HeaderLinesOf;
  }

  lemma ResponsePartsAreRead(
      u: Unicode, code: int, text: bytes, all: Headers, order: seq<bytes>, body: bytes, more: bytes)
    requires GoodStatus(code, text) && GoodHeaders(u, all) && Enumerates(order, all) && all != map[]
    requires DeclaresBody(Lowered(u, all), body)
    ensures var o := ParseLoop(u, Fresh(ResponseBytes(code, text, all, order, body) + more));
            var r := ResponseHead(code, text, Lowered(u, all));
            && r.body == [] && r.payload == []
            && if |body| <= MAX_BODY_SIZE then
                 o == Prepend([HttpResponse(r.(body := body, payload := body))], ParseLoop(u, Fresh(more)))
               else
                 o == Prepend([HttpResponse(r)], ParseLoop(u, Fresh(body + more)))
  {
    ResponseHeadHasNoBody(code, text, Lowered(u, all));
    BytesBefore(code, text, all, order, body, more);
    hide *;
    ResponseHeadIsRead(u, code, text, all, order, body + more);
    ResponseBodyIsRead(u, code, text, Lowered(u, all), body, more);
  }

  /** One response, whatever follows it: the parser delivers it and goes on behind it, if the body is within the limit. */
  lemma ResponseIsRead(u: Unicode, auto: bool, server: bytes, s: SentResponse, more: bytes)
    requires GoodResponse(u, auto, server, s)
    ensures var o := ParseLoop(u, Fresh(s.Bytes(auto, server) + more));
            var r := ReceivedResponse(u, auto, server, s);
            if |s.body| <= MAX_BODY_SIZE then o == Prepend([HttpResponse(r)], ParseLoop(u, Fresh(more)))
            else o == Prepend([HttpResponse(r.(body := [], payload := []))], ParseLoop(u, Fresh(s.body + more)))
  {
    var all := s.All(auto, server);
    FilledInTextIsGood(s.code, s.text);
    hide ParseLoop, ResponseHeaders, StatusName, StatusCode, StatusText, GoodHeaders, DeclaresBody, Enumerates, Lowered;
    hide ResponseHead, ResponseBytes;
    ResponsePartsAreRead(u, StatusCode(s.code), StatusText(s.code, s.text), all, s.order, s.body, more);
  }

  ghost function AllReceived(u: Unicode, auto: bool, server: bytes, sent: seq<SentResponse>): seq<Message>
    requires forall s :: s in sent ==> GoodResponse(u, auto, server, s)
  {
    if sent == [] then []
    else
      assert GoodResponse(u, auto, server, sent[0]);
      [HttpResponse(ReceivedResponse(u, auto, server, sent[0]))] + AllReceived(u, auto, server, sent[1..])
  }

  ghost function AllBytes(u: Unicode, auto: bool, server: bytes, sent: seq<SentResponse>): bytes
    requires forall s :: s in sent ==> GoodResponse(u, auto, server, s)
  {
    if sent == [] then []
    else
      assert GoodResponse(u, auto, server, sent[0]);
      sent[0].Bytes(auto, server) + AllBytes(u, auto, server, sent[1..])
  }

  /** Any list of well-formed responses sent back to back is read back as the same responses in the same order. */
  lemma {:induction false} ResponsePipelineRoundTrip(u: Unicode, auto: bool, server: bytes, sent: seq<SentResponse>)
    requires forall s :: s in sent ==> GoodResponse(u, auto, server, s) && |s.body| <= 10485760
    ensures ParseLoop(u, Fresh(AllBytes(u, auto, server, sent))) == Parsed(AllReceived(u, auto, server, sent), Fresh([]))
    decreases |sent|
  {
    hide GoodResponse, ReceivedResponse;
    if sent == [] {
      NothingToRead(u, Fresh([]));
    } else {
      hide ParseLoop;
      assert sent[0] in sent;
      ResponseIsRead(u, auto, server, sent[0], AllBytes(u, auto, server, sent[1..]));
      ResponsePipelineRoundTrip(u, auto, server, sent[1..]);
    }
  }

  // What the headers say about the body, whatever other headers the builder adds.
  lemma AutomaticHeaders(server: bytes, date: bytes, headers: Headers, n: nat)
    requires CONTENT_LENGTH_NAME !in headers
    ensures var all := ResponseHeaders(true, server, date, headers, n);
            && (n > 0 ==> CONTENT_LENGTH_NAME in all && all[CONTENT_LENGTH_NAME] == Digits(n, 10))
            && (n == 0 ==> CONTENT_LENGTH_NAME !in all)
            && forall k :: k in all ==> k in headers || k in {SERVER, DATE, CONNECTION_NAME, CONTENT_LENGTH_NAME}
  {
    hide Digits, Str;
    NamesDiffer();
    hide SERVER, DATE, CONNECTION_NAME, CONTENT_LENGTH_NAME;
  }

  lemma NamesDiffer()
    ensures |SERVER| == 6 && |DATE| == 4 && |CONNECTION_NAME| == 10 && |CONTENT_LENGTH_NAME| == 14
  {
  }

  /** A response whose caller names no length and no transfer coding declares its body by the automatic length. */
  lemma AutomaticResponseLengthDeclares(u: Unicode, server: bytes, date: bytes, headers: Headers, body: bytes)
    requires GoodHeaders(u, ResponseHeaders(true, server, date, headers, |body|)) && |body| <= MAX_INT64
    requires forall k :: k in headers ==> ToLower(u, k) != CONTENT_LENGTH && ToLower(u, k) != TRANSFER_ENCODING
    ensures DeclaresBody(Lowered(u, ResponseHeaders(true, server, date, headers, |body|)), body)
  {
    LowerNames(u);
    LowerResponseNames(u);
    hide ToLower, GoodHeader, ParseInt, Digits, Str;
    AutomaticHeaders(server, date, headers, |body|);
    hide ResponseHeaders;
    var all := ResponseHeaders(true, server, date, headers, |body|);
    var l := Lowered(u, all);
    forall k | k in all
      ensures ToLower(u, k) != TRANSFER_ENCODING
      ensures k == CONTENT_LENGTH_NAME || ToLower(u, k) != CONTENT_LENGTH
    {
    }
    if |body| > 0 {
      ParseIntRoundTrip(|body|, 10);
      assert l[ToLower(u, CONTENT_LENGTH_NAME)] == Digits(|body|, 10);
    } else {
      assert CONTENT_LENGTH !in l;
      NothingDeclared();
    }
    assert TRANSFER_ENCODING !in l;
  }

  lemma LowerResponseNames(u: Unicode)
    ensures |ToLower(u, SERVER)| == 6 && |ToLower(u, DATE)| == 4 && |ToLower(u, CONNECTION_NAME)| == 10
  {
  }
}

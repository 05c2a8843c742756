/**
 A printed request or response, with or without headers, and what follows it: what the parser makes of the message and
 where it goes on.
 */
module HttpPipeline {
  import opened Bytes
  import opened HttpText
  import opened HttpMachine
  import opened HttpBuilder
  import opened HttpRoundTrip
  import opened HttpResponses
  import opened Wrappers
  import opened Sequences

  /** The settings of the builder. */
  datatype Printer = Printer(auto: bool, server: bytes)

  /** A message as the caller hands it to the builder. */
  datatype Printed = PrintedRequest(q: Sent) | PrintedResponse(a: SentResponse) {
    function All(c: Printer): Headers {
      match this
      case PrintedRequest(q) => q.All(c.auto)
      case PrintedResponse(a) => a.All(c.auto, c.server)
    }

    function Line(): bytes {
      match this
      case PrintedRequest(q) => StartLine(Method(q.method_), Path(q.path))
      case PrintedResponse(a) => StatusLine(StatusCode(a.code), StatusText(a.code, a.text))
    }

    function Order(): seq<bytes> {
      match this
      case PrintedRequest(q) => q.order
      case PrintedResponse(a) => a.order
    }

    function Body(): bytes {
      match this
      case PrintedRequest(q) => q.body
      case PrintedResponse(a) => a.body
    }

    /** The parts can be read back one by one. */
    ghost predicate Ready(u: Unicode, c: Printer) {
      match this
      case PrintedRequest(q) => Sendable(u, c.auto, q)
      case PrintedResponse(a) => SendableResponse(u, c.auto, c.server, a)
    }

    /** What the builder prints. */
    ghost function Bytes(u: Unicode, c: Printer): bytes
      requires Ready(u, c)
    {
      match this
      case PrintedRequest(q) => q.Bytes(c.auto)
      case PrintedResponse(a) => a.Bytes(c.auto, c.server)
    }

    /** The message the peer's application should see. */
    ghost function Received(u: Unicode, c: Printer): Message
      requires Ready(u, c)
    {
      match this
      case PrintedRequest(q) => HttpRequest(HttpRoundTrip.Received(u, c.auto, q))
      case PrintedResponse(a) => HttpResponse(ReceivedResponse(u, c.auto, c.server, a))
    }

    /** The parser behind the first line, with the given bytes still to read. */
    function Opened(buffer: bytes): State {
      match this
      case PrintedRequest(q) =>
        Fresh(buffer).(request := Some(NewRequest(Method(q.method_), Path(q.path), VERSION)), phase := HeaderLines)
      case PrintedResponse(a) =>
        Fresh(buffer).(
          response := Some(NewResponse(VERSION, StatusCode(a.code), StatusText(a.code, a.text))), phase := HeaderLines)
    }

    /** The message with the given headers and body. */
    function With(h: Headers, body: bytes): Message {
      match this
      case PrintedRequest(q) =>
        HttpRequest(Head(Method(q.method_), Path(q.path), h).(body := body, payload := body))
      case PrintedResponse(a) =>
        HttpResponse(ResponseHead(StatusCode(a.code), StatusText(a.code, a.text), h).(body := body, payload := body))
    }
  }

  function HeadersOf(m: Message): Headers {
    match m
    case HttpRequest(r) => r.headers
    case HttpResponse(r) => r.headers
  }

  function BodyOf(m: Message): bytes {
    match m
    case HttpRequest(r) => r.body
    case HttpResponse(r) => r.body
  }

  lemma WithHas(p: Printed, h: Headers, body: bytes)
    ensures HeadersOf(p.With(h, body)) == h && BodyOf(p.With(h, body)) == body
  {
    hide Field, DeclaredLength, NewRequest, NewResponse, StatusName;
  }

  lemma ReceivedIs(u: Unicode, c: Printer, p: Printed)
    requires p.Ready(u, c)
    ensures GoodHeaders(u, p.All(c)) && Enumerates(p.Order(), p.All(c))
    ensures DeclaresBody(Lowered(u, p.All(c)), p.Body())
    ensures p.Received(u, c) == p.With(Lowered(u, p.All(c)), p.Body())
    ensures HeadersOf(p.Received(u, c)) == Lowered(u, p.All(c)) && BodyOf(p.Received(u, c)) == p.Body()
  {
    hide GoodHeaders, Lowered, DeclaresBody, Head, ResponseHead, ResponseHeaders, AllHeaders, StatusName, Enumerates;
    hide GoodStart, GoodStatus, Method, Path;
  }

  lemma Shape(u: Unicode, c: Printer, p: Printed)
    requires p.Ready(u, c)
    ensures forall k :: k in p.Order() ==> k in p.All(c)
    ensures p.Bytes(u, c) == p.Line() + CRLF + JoinLines(HeaderLinesOf(p.All(c), p.Order())) + CRLF + p.Body()
    ensures p.Line() != [] && CR !in p.Line()
  {
    hide GoodHeaders, Lowered, DeclaresBody, ResponseHeaders, AllHeaders, StatusName, JoinLines, HeaderLinesOf, PrintInt;
    match p
    case PrintedRequest(q) =>
      VersionHasNoCR();
      hide Method, Path;
    case PrintedResponse(a) =>
      FilledInTextIsGood(a.code, a.text);
      hide StatusCode, StatusText, SplitN;
      StatusLineSplits(StatusCode(a.code), StatusText(a.code, a.text));
  }

  lemma EmptyHeadersEmptyBody(u: Unicode, c: Printer, p: Printed)
    requires p.Ready(u, c) && p.All(c) == map[]
    ensures Lowered(u, p.All(c)) == map[] && p.Body() == []
    ensures p.Bytes(u, c) == p.Line() + CRLF + CRLF
  {
    ReceivedIs(u, c, p);
    Shape(u, c, p);
    NothingDeclaresNothing(u, p.All(c), p.Body());
    NothingListed(p.All(c), p.Order());
    hide *;
    NothingBetween(p.Line());
  }

  lemma NothingBetween(line: bytes)
    ensures line + CRLF + [] + CRLF + [] == line + CRLF + CRLF
  {
  }

  lemma NothingDeclaresNothing(u: Unicode, h: Headers, body: bytes)
    requires h == map[] && GoodHeaders(u, h) && DeclaresBody(Lowered(u, h), body)
    ensures Lowered(u, h) == map[] && body == []
  {
    hide ToLower, GoodHeader, ParseInt;
    NothingDeclared();
    assert Get(Lowered(u, h), CONTENT_LENGTH) == [];
  }

  lemma NothingListed(h: Headers, order: seq<bytes>)
    requires h == map[] && Enumerates(order, h)
    ensures JoinLines(HeaderLinesOf(h, order)) == []
  {
    if order != [] {
      var k := FirstOf(order);
    }
  }

  lemma FirstOf(order: seq<bytes>) returns (k: bytes)
    requires order != []
    ensures k in order
  {
    k := order[0];
  }

  // The parser reads the first line and goes on behind it.
  lemma LineIsRead(u: Unicode, c: Printer, p: Printed, more: bytes)
    requires p.Ready(u, c)
    ensures ParseRequestLine(Fresh(p.Line() + CRLF + more)) == Step(p.Opened(p.Line() + CRLF + more), None, |p.Line()| + 2)
    ensures ParseLoop(u, Fresh(p.Line() + CRLF + more)) == ParseLoop(u, p.Opened(more))
  {
    LineStepIs(u, c, p, more);
    Shape(u, c, p);
    BufferBehind(p, p.Line(), more);
    hide *;
    hide Printed.Opened, Printed.Line;
    BehindLine(u, p.Line(), more, p.Opened(p.Line() + CRLF + more));
  }

  lemma LineStepIs(u: Unicode, c: Printer, p: Printed, more: bytes)
    requires p.Ready(u, c)
    ensures ParseRequestLine(Fresh(p.Line() + CRLF + more)) == Step(p.Opened(p.Line() + CRLF + more), None, |p.Line()| + 2)
  {
    hide ParseRequestLine, StartLine, StatusLine, NewRequest, NewResponse, StatusName, GoodStart, GoodHeaders;
    hide Lowered, DeclaresBody, AllHeaders, ResponseHeaders, Enumerates, Find;
    match p
    case PrintedRequest(q) => RequestLineIsRead(Method(q.method_), Path(q.path), more);
    case PrintedResponse(a) =>
      FilledInTextIsGood(a.code, a.text);
      StatusLineIsRead(StatusCode(a.code), StatusText(a.code, a.text), more);
  }

  lemma BufferBehind(p: Printed, line: bytes, more: bytes)
    ensures p.Opened(line + CRLF + more).buffer == line + CRLF + more
    ensures p.Opened(line + CRLF + more).(buffer := more) == p.Opened(more)
  {
    hide NewRequest, NewResponse, StatusName;
  }

  lemma BehindLine(u: Unicode, line: bytes, more: bytes, st: State)
    requires line != [] && ParseRequestLine(Fresh(line + CRLF + more)) == Step(st, None, |line| + 2)
    requires st.buffer == line + CRLF + more
    ensures ParseLoop(u, Fresh(line + CRLF + more)) == ParseLoop(u, st.(buffer := more))
  {
    hide ParseLoop, ParseRequestLine;
    OneStep(u, Fresh(line + CRLF + more));
    assert st.buffer[|line| + 2..] == more;
  }

  // ----- Messages with headers -----

  /** One message with headers, whatever follows it. */
  lemma HeadedIsRead(u: Unicode, c: Printer, p: Printed, more: bytes)
    requires p.Ready(u, c) && p.All(c) != map[]
    ensures var o := ParseLoop(u, Fresh(p.Bytes(u, c) + more));
            if |p.Body()| <= MAX_BODY_SIZE then o == Prepend([p.Received(u, c)], ParseLoop(u, Fresh(more)))
            else o == Prepend([p.With(Lowered(u, p.All(c)), [])], ParseLoop(u, Fresh(p.Body() + more)))
  {
    ReceivedIs(u, c, p);
    hide ParseLoop, Lowered, GoodHeaders, DeclaresBody, ResponseHeaders, AllHeaders, StatusName, Enumerates, GoodStart;
    hide StartLine, StatusLine, JoinLines, HeaderLinesOf, Head, ResponseHead, StatusText, StatusCode, Method, Path;
    match p
    case PrintedRequest(q) => RequestIsRead(u, c.auto, q, more);
    case PrintedResponse(a) => ResponseIsRead(u, c.auto, c.server, a, more);
  }

  // ----- Messages without headers -----

  /** The body the headers announce is all there. */
  predicate BodyArrived(st: State) {
    match st.phase
    case Complete => true
    case FixedBody => |st.buffer| >= st.contentLength
    case ChunkedBody => DecodeChunks(st.buffer).Chunks?
    case _ => false
  }

  /** The state once that body is taken off the buffer. */
  function BehindBody(st: State): State
    requires BodyArrived(st) && Consistent(st)
  {
    if st.phase == Complete then st
    else if st.phase == FixedBody then Advance(ParseFixedBody(st))
    else Advance(ParseChunkedBody(st))
  }

  /** Behind the header block: the message is delivered if and only if its body has arrived. */
  lemma BodyDecides(u: Unicode, st: State)
    requires Consistent(st) && st.phase in {Complete, FixedBody, ChunkedBody}
    ensures var o := ParseLoop(u, st);
            if BodyArrived(st) then
              && Completed(BehindBody(st)).Some?
              && o == Prepend([Completed(BehindBody(st)).value], ParseLoop(u, Fresh(BehindBody(st).buffer)))
            else o.Rejected? || o == Parsed([], st)
  {
    hide DecodeChunks;
    NothingDecoded();
    if st.phase == Complete {
      LastStep(u, st);
    } else if BodyArrived(st) {
      hide ParseLoop;
      OneStep(u, st);
      LastStep(u, BehindBody(st));
    }
  }

  lemma NothingDecoded()
    ensures DecodeChunks([]) == ChunkWait
  {
  }

  /** Where the block of headers ends, if it does: in the bytes behind a first line. */
  function HeadersRead(u: Unicode, st: State): State
    requires Find(CRLF2, st.buffer).Some?
  {
    var end := Find(CRLF2, st.buffer).value;
    ApplyHeaders(st, AddHeaders(u, ScanLines(st.buffer[..end]), map[])).(buffer := st.buffer[end + 4..])
  }

  lemma HeadersDecide(u: Unicode, st: State)
    requires st.phase == HeaderLines && Consistent(st)
    ensures Find(CRLF2, st.buffer).None? ==>
              ParseLoop(u, st) == if |st.buffer| > 8192 then Rejected(HeadersTooLarge, st) else Parsed([], st)
    ensures Find(CRLF2, st.buffer).Some? ==>
              && ParseLoop(u, st) == ParseLoop(u, HeadersRead(u, st))
              && Consistent(HeadersRead(u, st)) && HeadersRead(u, st).phase in {Complete, FixedBody, ChunkedBody}
  {
    hide AddHeaders, ScanLines, SetRequestHeaders, SetResponseHeaders, DeclaredLength, Get, Find;
    if Find(CRLF2, st.buffer).Some? {
      hide ParseLoop;
      var end := Find(CRLF2, st.buffer).value;
      var h := AddHeaders(u, ScanLines(st.buffer[..end]), map[]);
      OneStep(u, st);
      hide ApplyHeaders;
      HeadersKeepBuffer(st, st.buffer[end + 4..], h);
    }
  }

  /**
   A message printed without headers, followed by anything: its blank line is taken for the end of its first line, so the
   parser goes on to look for headers in a line end and what follows. Without an empty line there the message waits, or
   the block grows too large; with one the message is delivered if and only if the body so declared has arrived.
   */
  lemma HeaderlessDecided(u: Unicode, c: Printer, p: Printed, more: bytes)
    requires p.Ready(u, c) && p.All(c) == map[]
    ensures var o := ParseLoop(u, Fresh(p.Bytes(u, c) + more));
            var st := p.Opened(CRLF + more);
            && o == ParseLoop(u, st)
            && (Find(CRLF2, CRLF + more).None? ==>
                  o == if |CRLF + more| > 8192 then Rejected(HeadersTooLarge, st) else Parsed([], st))
            && (Find(CRLF2, CRLF + more).Some? ==>
                  var st1 := HeadersRead(u, st);
                  && Consistent(st1)
                  && if BodyArrived(st1) then
                       && Completed(BehindBody(st1)).Some?
                       && o == Prepend([Completed(BehindBody(st1)).value], ParseLoop(u, Fresh(BehindBody(st1).buffer)))
                     else o.Rejected? || o == Parsed([], st1))
  {
    HeaderlessOpens(u, c, p, more);
    OpenedIsConsistent(p, CRLF + more);
    var st := p.Opened(CRLF + more);
    hide *;
    HeadersDecide(u, st);
    if Find(CRLF2, CRLF + more).Some? {
      BodyDecides(u, HeadersRead(u, st));
    }
  }

  lemma HeaderlessOpens(u: Unicode, c: Printer, p: Printed, more: bytes)
    requires p.Ready(u, c) && p.All(c) == map[]
    ensures ParseLoop(u, Fresh(p.Bytes(u, c) + more)) == ParseLoop(u, p.Opened(CRLF + more))
  {
    EmptyHeadersEmptyBody(u, c, p);
    hide *;
    ConcatAssoc(p.Line() + CRLF, CRLF, more);
    LineIsRead(u, c, p, CRLF + more);
  }

  lemma OpenedIsConsistent(p: Printed, buf: bytes)
    ensures p.Opened(buf).phase == HeaderLines && p.Opened(buf).buffer == buf && Consistent(p.Opened(buf))
  {
    hide NewRequest, NewResponse, StatusName;
  }

  // With the block found, the message goes on behind it with the headers read there.
  lemma HeaderlessBlock(u: Unicode, c: Printer, p: Printed, more: bytes, block: bytes, rest: bytes)
    requires p.Ready(u, c) && p.All(c) == map[]
    requires var buf := CRLF + more;
             |block| + 4 <= |buf| && Find(CRLF2, buf) == Some(|block|) && buf[..|block|] == block && buf[|block| + 4..] == rest
    ensures ParseLoop(u, Fresh(p.Bytes(u, c) + more))
         == ParseLoop(u, ApplyHeaders(p.Opened(rest), AddHeaders(u, ScanLines(block), map[])))
  {
    var st := p.Opened(CRLF + more);
    OpenedIsConsistent(p, CRLF + more);
    HeaderlessOpens(u, c, p, more);
    HeadersDecide(u, st);
    OpenedKeepsBuffer(p, CRLF + more, rest, AddHeaders(u, ScanLines(block), map[]));
    HeadersReadAt(u, st, block, rest);
    hide *;
  }

  lemma HeadersReadAt(u: Unicode, st: State, block: bytes, rest: bytes)
    requires |block| + 4 <= |st.buffer| && Find(CRLF2, st.buffer) == Some(|block|)
    requires st.buffer[..|block|] == block && st.buffer[|block| + 4..] == rest
    ensures HeadersRead(u, st) == ApplyHeaders(st, AddHeaders(u, ScanLines(block), map[])).(buffer := rest)
  {
    hide Find, ApplyHeaders, AddHeaders, ScanLines;
  }

  lemma OpenedKeepsBuffer(p: Printed, buf: bytes, rest: bytes, h: Headers)
    ensures ApplyHeaders(p.Opened(buf), h).(buffer := rest) == ApplyHeaders(p.Opened(rest), h)
  {
    assert p.Opened(buf).(buffer := rest) == p.Opened(rest);
    HeadersKeepBuffer(p.Opened(buf), rest, h);
  }

  // ----- What a message without headers takes from the next one -----

  // Behind a line end, the header block runs over the next message's first line to the end of its headers.
  lemma BlockWithHeaders(line: bytes, lines: seq<bytes>, more: bytes)
    requires line != [] && CR !in line && lines != [] && forall l :: l in lines ==> GoodLine(l)
    ensures |JoinLines(lines)| >= 2
    ensures var block := CRLF + (line + CRLF + JoinLines(lines)[..|JoinLines(lines)| - 2]);
            var buf := CRLF + (line + CRLF + JoinLines(lines) + CRLF + more);
            Find(CRLF2, buf) == Some(|block|) && buf[..|block|] == block && buf[|block| + 4..] == more
  {
    hide Find, GoodLine;
    HeaderEndIsFound(lines, more);
    GoodLineHasNoCR(lines);
    assert lines[0] in lines;
    TailStartsWithLine(lines);
    hide JoinLines;
    LineEndThenLine(line, JoinLines(lines), more);
  }

  lemma LineEndThenLine(line: bytes, join: bytes, more: bytes)
    requires line != [] && CR !in line && |join| >= 2 && join[0] != CR
    requires Find(CRLF2, join + CRLF + more) == Some(|join| - 2)
    ensures var block := CRLF + (line + CRLF + join[..|join| - 2]);
            var buf := CRLF + (line + CRLF + join + CRLF + more);
            Find(CRLF2, buf) == Some(|block|) && buf[..|block|] == block && buf[|block| + 4..] == more
  {
    hide Find;
    NextLineEnds(line, join, more);
    var rest := line + CRLF + join + CRLF + more;
    NothingBefore(rest);
    assert rest[0] == line[0] && line[0] in line;
    FindFurtherOn([], rest);
    PartsOfBlock(line, join, more);
  }

  lemma NothingBefore(rest: bytes)
    ensures [] + CRLF + rest == CRLF + rest
  {
  }

  lemma PartsOfBlock(line: bytes, join: bytes, more: bytes)
    requires |join| >= 2
    ensures var block := CRLF + (line + CRLF + join[..|join| - 2]);
            var buf := CRLF + (line + CRLF + join + CRLF + more);
            |block| + 4 == |buf| - |more| && buf[..|block|] == block && buf[|block| + 4..] == more
  {
  }

  // The same when the next message has no headers either.
  lemma BlockWithoutHeaders(line: bytes, more: bytes)
    requires line != [] && CR !in line
    ensures var buf := CRLF + (line + CRLF + CRLF + more);
            Find(CRLF2, buf) == Some(|CRLF + line|) && buf[..|CRLF + line|] == CRLF + line && buf[|CRLF + line| + 4..] == more
  {
    hide Find;
    FindRightBehind(line, more);
    var rest := line + CRLF + CRLF + more;
    assert rest == line + CRLF2 + more;
    NothingBefore(rest);
    assert rest[0] == line[0] && line[0] in line;
    FindFurtherOn([], rest);
  }

  lemma ScanLineEnd(rest: bytes)
    ensures ScanLines(CRLF + rest) == [[]] + ScanLines(rest)
  {
    hide Find;
    var data := CRLF + rest;
    assert data == [CR] + [LF] + rest;
    FindByteAfter(LF, [CR], rest);
    assert data[..1] == [CR] && data[2..] == rest;
    assert DropCR([CR]) == [];
  }

  lemma {:induction false} NotFoundByte(b: byte, s: bytes)
    ensures Find([b], s) == None <==> b !in s
    decreases |s|
  {
    if s != [] {
      assert s == [s[0]] + s[1..] && s[..1] == [s[0]];
      NotFoundByte(b, s[1..]);
    }
  }

  /** The scan of header lines comes past this line: no piece of it between line feeds is too long. */
  predicate ScansPast(line: bytes)
    decreases |line|
  {
    match Find([LF], line)
    case None => |line| + 1 < MAX_LINE
    case Some(i) => i < MAX_LINE && ScansPast(line[i + 1..])
  }

  // A line is scanned for headers, whatever it holds, and the scan goes on behind it unless it stops.
  lemma {:induction false} ScanOn(line: bytes, rest: bytes)
    ensures ScanLines(line + CRLF + rest) == ScanLines(line + CRLF) + if ScansPast(line) then ScanLines(rest) else []
    decreases |line|
  {
    hide Find, DropCR, ScanLines;
    match Find([LF], line)
    case None => ScanLastPiece(line, rest);
    case Some(i) =>
      ScanPiece(line, CRLF + rest, i);
      ScanPiece(line, CRLF, i);
      assert line + (CRLF + rest) == line + CRLF + rest;
      var later := line[i + 1..];
      assert later + (CRLF + rest) == later + CRLF + rest;
      if i < MAX_LINE {
        ScanOn(later, rest);
      }
  }

  lemma ScanLastPiece(line: bytes, rest: bytes)
    requires Find([LF], line) == None
    ensures ScanLines(line + CRLF + rest)
         == ScanLines(line + CRLF) + if |line| + 1 < MAX_LINE then ScanLines(rest) else []
  {
    hide Find, DropCR;
    NotFoundByte(LF, line);
    ScanUpTo(line, rest);
    ScanUpTo(line, []);
    assert line + CRLF + [] == line + CRLF;
  }

  lemma ScanUpTo(line: bytes, rest: bytes)
    requires LF !in line
    ensures ScanLines(line + CRLF + rest) ==
            if |line| + 1 < MAX_LINE then [DropCR(line + [CR])] + ScanLines(rest) else []
  {
    hide Find, DropCR;
    var data := line + CRLF + rest;
    assert data == (line + [CR]) + [LF] + rest;
    FindByteAfter(LF, line + [CR], rest);
    assert data[|line| + 2..] == rest && data[..|line| + 1] == line + [CR];
  }

  lemma ScanPiece(line: bytes, rest: bytes, i: nat)
    requires Find([LF], line) == Some(i) && i < |line|
    ensures ScanLines(line + rest) == if i < MAX_LINE then [DropCR(line[..i])] + ScanLines(line[i + 1..] + rest) else []
  {
    hide Find, DropCR;
    FindIgnoresLaterBytes([LF], line, rest);
    assert (line + rest)[i + 1..] == line[i + 1..] + rest && (line + rest)[..i] == line[..i];
  }

  lemma {:induction false} AddHeadersSplit(u: Unicode, front: seq<bytes>, lines: seq<bytes>, acc: Headers)
    ensures AddHeaders(u, front + lines, acc) == AddHeaders(u, lines, AddHeaders(u, front, acc))
    decreases |front|
  {
    hide AddHeader;
    if front == [] {
      assert front + lines == lines;
    } else {
      assert (front + lines)[1..] == front[1..] + lines;
      AddHeadersSplit(u, front[1..], lines, AddHeader(u, front[0], acc));
    }
  }

  // Later headers go over the ones already there.
  lemma {:induction false} AddHeadersOver(u: Unicode, lines: seq<bytes>, acc: Headers)
    ensures AddHeaders(u, lines, acc) == acc + AddHeaders(u, lines, map[])
    decreases |lines|
  {
    if lines != [] {
      var one := AddHeader(u, lines[0], map[]);
      assert AddHeader(u, lines[0], acc) == acc + one;
      hide AddHeader;
      AddHeadersOver(u, lines[1..], acc + one);
      AddHeadersOver(u, lines[1..], one);
      var rest := AddHeaders(u, lines[1..], map[]);
      assert (acc + one) + rest == acc + (one + rest);
    }
  }

  lemma FirstHeaderLine(h: Headers, order: seq<bytes>)
    requires order != [] && forall k :: k in order ==> k in h
    ensures HeaderLinesOf(h, order) != [] && HeaderLinesOf(h, order)[0] == HeaderLine(order[0], h[order[0]])
  {
  }

  lemma OrderNotEmpty(h: Headers, order: seq<bytes>)
    requires Enumerates(order, h) && h != map[]
    ensures order != []
  {
    var k :| k in h;
    assert k in order;
  }

  // The header block a message without headers finds in front of a message with headers.
  lemma NextBlock(u: Unicode, c: Printer, s: Printed, more: bytes) returns (block: bytes)
    requires s.Ready(u, c) && s.All(c) != map[]
    ensures forall k :: k in s.Order() ==> k in s.All(c)
    ensures var lines := HeaderLinesOf(s.All(c), s.Order());
            && |JoinLines(lines)| >= 2
            && block == CRLF + (s.Line() + CRLF + JoinLines(lines)[..|JoinLines(lines)| - 2])
    ensures var buf := CRLF + (s.Bytes(u, c) + more);
            Find(CRLF2, buf) == Some(|block|) && buf[..|block|] == block && buf[|block| + 4..] == s.Body() + more
  {
    hide *;
    hide Printed.Bytes, Printed.Ready, Printed.All, Printed.Order, Printed.Line, Printed.Body, Printed.Received, Printed.With;
    ReceivedIs(u, c, s);
    Shape(u, c, s);
    OrderNotEmpty(s.All(c), s.Order());
    HeaderLinesAreGood(u, s.All(c), s.Order());
    FirstHeaderLine(s.All(c), s.Order());
    var lines := HeaderLinesOf(s.All(c), s.Order());
    block := BlockOfNext(s.Line(), lines, s.Body(), s.Bytes(u, c), more);
  }

  lemma BlockOfNext(line: bytes, lines: seq<bytes>, body: bytes, whole: bytes, more: bytes) returns (block: bytes)
    requires line != [] && CR !in line && lines != [] && forall l :: l in lines ==> GoodLine(l)
    requires whole == line + CRLF + JoinLines(lines) + CRLF + body
    ensures |JoinLines(lines)| >= 2 && block == CRLF + (line + CRLF + JoinLines(lines)[..|JoinLines(lines)| - 2])
    ensures var buf := CRLF + (whole + more);
            Find(CRLF2, buf) == Some(|block|) && buf[..|block|] == block && buf[|block| + 4..] == body + more
  {
    hide *;
    BlockWithHeaders(line, lines, body + more);
    block := CRLF + (line + CRLF + JoinLines(lines)[..|JoinLines(lines)| - 2]);
    ConcatAssoc(line + CRLF + JoinLines(lines) + CRLF, body, more);
  }

  /** The headers the parser finds in a first line that it takes for header lines. */
  function LineHeaders(u: Unicode, line: bytes): Headers {
    AddHeaders(u, ScanLines(line + CRLF), map[])
  }

  /** A first line without a colon or a line feed, and not too long, has no headers. */
  lemma PlainLineHasNoHeaders(u: Unicode, line: bytes)
    requires GoodLine(line) && COLON !in line
    ensures LineHeaders(u, line) == map[] && ScansPast(line)
  {
    hide ToLower, TrimSpace;
    FindByteNowhere(COLON, line);
    FindByteNowhere(LF, line);
    ScanNext(line, []);
    assert line + CRLF + [] == line + CRLF;
    assert ScanLines(line + CRLF) == [line] + ScanLines([]) == [line] + [];
    OneLine(u, line);
  }

  lemma OneLine(u: Unicode, line: bytes)
    requires Find([COLON], line) == None
    ensures AddHeaders(u, [line] + [], map[]) == map[]
  {
    hide ToLower, TrimSpace, Find;
    var lines: seq<bytes> := [line] + [];
    assert lines[0] == line && lines[1..] == [];
    assert AddHeader(u, line, map[]) == map[];
  }

  /** The headers found in a first line and, unless the scan stops in it, over them those of the lines behind it. */
  function TakenHeaders(u: Unicode, line: bytes, next: Headers): Headers {
    LineHeaders(u, line) + if ScansPast(line) then next else map[]
  }

  lemma BlockIsScanned(u: Unicode, line: bytes, h: Headers, order: seq<bytes>)
    requires GoodHeaders(u, h) && Enumerates(order, h) && order != []
    ensures var join := JoinLines(HeaderLinesOf(h, order));
            && |join| >= 2
            && AddHeaders(u, ScanLines(CRLF + (line + CRLF + join[..|join| - 2])), map[]) == TakenHeaders(u, line, Lowered(u, h))
  {
    hide ToLower, GoodHeader, GoodLine, AddHeader, AddHeaders, ScanLines, JoinLines, ScansPast;
    HeaderLinesAreGood(u, h, order);
    FirstHeaderLine(h, order);
    var lines := HeaderLinesOf(h, order);
    hide HeaderLinesOf;
    LinesAreScanned(lines);
    AllHeadersAreRead(u, h, order);
    var rest := JoinLines(lines)[..|JoinLines(lines)| - 2];
    ScanOn(line, rest);
    ScannedHeaders(u, line, rest, lines);
  }

  lemma ScannedHeaders(u: Unicode, line: bytes, rest: bytes, lines: seq<bytes>)
    requires ScanLines(line + CRLF + rest) == ScanLines(line + CRLF) + if ScansPast(line) then lines else []
    ensures AddHeaders(u, ScanLines(CRLF + (line + CRLF + rest)), map[])
         == TakenHeaders(u, line, AddHeaders(u, lines, map[]))
  {
    hide ScanLines, AddHeader, ScansPast;
    ScanLineEnd(line + CRLF + rest);
    var front, behind := ScanLines(line + CRLF), if ScansPast(line) then lines else [];
    EmptyLineAddsNothing(u, front + behind);
    AddHeadersSplit(u, front, behind, map[]);
    AddHeadersOver(u, behind, AddHeaders(u, front, map[]));
  }

  lemma EmptyLineAddsNothing(u: Unicode, lines: seq<bytes>)
    ensures AddHeaders(u, [[]] + lines, map[]) == AddHeaders(u, lines, map[])
  {
    hide ToLower, TrimSpace;
    var all: seq<bytes> := [[]] + lines;
    assert all[0] == [] && all[1..] == lines;
    assert AddHeader(u, [], map[]) == map[];
  }

  /**
   A message printed without headers takes the next message's first line for header lines, whatever it holds, and over
   them that message's headers; parsing goes on at its body. When the headers so taken declare that body, as they do if
   the first line has no headers in it, the first message is delivered with them and the second one is lost.
   */
  lemma HeaderlessTakesNext(u: Unicode, c: Printer, p: Printed, s: Printed, more: bytes)
    requires p.Ready(u, c) && p.All(c) == map[]
    requires s.Ready(u, c) && s.All(c) != map[]
    ensures GoodHeaders(u, s.All(c))
    ensures var h := TakenHeaders(u, s.Line(), Lowered(u, s.All(c)));
            var o := ParseLoop(u, Fresh(p.Bytes(u, c) + (s.Bytes(u, c) + more)));
            && o == ParseLoop(u, ApplyHeaders(p.Opened(s.Body() + more), h))
            && (DeclaresBody(h, s.Body()) ==>
                  if |s.Body()| <= MAX_BODY_SIZE then
                    o == Prepend([p.With(h, s.Body())], ParseLoop(u, Fresh(more)))
                  else
                    o == Prepend([p.With(h, [])], ParseLoop(u, Fresh(s.Body() + more))))
    ensures LineHeaders(u, s.Line()) == map[] && ScansPast(s.Line()) ==>
              var h := TakenHeaders(u, s.Line(), Lowered(u, s.All(c)));
              h == Lowered(u, s.All(c)) && DeclaresBody(h, s.Body())
  {
    var block := NextBlock(u, c, s, more);
    ReceivedIs(u, c, s);
    OrderNotEmpty(s.All(c), s.Order());
    BlockIsScanned(u, s.Line(), s.All(c), s.Order());
    HeaderlessBlock(u, c, p, s.Bytes(u, c) + more, block, s.Body() + more);
    var h := TakenHeaders(u, s.Line(), Lowered(u, s.All(c)));
    NothingAdded(u, s.Line(), Lowered(u, s.All(c)));
    hide *;
    if DeclaresBody(h, s.Body()) {
      TakenBody(u, p, h, s.Body(), more);
    }
  }

  lemma NothingAdded(u: Unicode, line: bytes, next: Headers)
    ensures LineHeaders(u, line) == map[] && ScansPast(line) ==> TakenHeaders(u, line, next) == next
  {
    hide LineHeaders, ScansPast;
  }

  /**
   Behind a message without headers, another one without headers is taken for its header block and lost, whatever its
   first line holds; without headers in that line the first message is delivered as it was sent.
   */
  lemma HeaderlessTakesLine(u: Unicode, c: Printer, p: Printed, x: Printed, more: bytes)
    requires p.Ready(u, c) && p.All(c) == map[]
    requires x.Ready(u, c) && x.All(c) == map[]
    ensures var h := AddHeaders(u, ScanLines(x.Line()), map[]);
            var o := ParseLoop(u, Fresh(p.Bytes(u, c) + (x.Bytes(u, c) + more)));
            && o == ParseLoop(u, ApplyHeaders(p.Opened(more), h))
            && (h == map[] ==> o == Prepend([p.Received(u, c)], ParseLoop(u, Fresh(more))))
  {
    EmptyHeadersEmptyBody(u, c, p);
    ReceivedIs(u, c, p);
    BlockIsLine(u, c, x, more);
    HeaderlessBlock(u, c, p, x.Bytes(u, c) + more, CRLF + x.Line(), more);
    ScanLineEnd(x.Line());
    EmptyLineAddsNothing(u, ScanLines(x.Line()));
    TakenBody(u, p, map[], [], more);
    hide *;
    assert [] + more == more;
  }

  lemma BlockIsLine(u: Unicode, c: Printer, x: Printed, more: bytes)
    requires x.Ready(u, c) && x.All(c) == map[]
    ensures var (buf, block) := (CRLF + (x.Bytes(u, c) + more), CRLF + x.Line());
            && |block| + 4 <= |buf| && Find(CRLF2, buf) == Some(|block|)
            && buf[..|block|] == block && buf[|block| + 4..] == more
  {
    EmptyHeadersEmptyBody(u, c, x);
    Shape(u, c, x);
    hide *;
    BlockWithoutHeaders(x.Line(), more);
  }

  lemma TakenBody(u: Unicode, p: Printed, h: Headers, body: bytes, more: bytes)
    requires DeclaresBody(h, body)
    ensures var o := ParseLoop(u, ApplyHeaders(p.Opened(body + more), h));
            if |body| <= MAX_BODY_SIZE then o == Prepend([p.With(h, body)], ParseLoop(u, Fresh(more)))
            else o == Prepend([p.With(h, [])], ParseLoop(u, Fresh(body + more)))
  {
    hide ParseLoop, DeclaresBody, ApplyHeaders, StatusName, NewRequest, NewResponse, SetRequestHeaders, SetResponseHeaders;
    match p
    case PrintedRequest(q) =>
      var m, path := Method(q.method_), Path(q.path);
      BodyIsRead(u, m, path, h, body, more);
      HeadHasNoBody(m, path, h);
    case PrintedResponse(a) =>
      var code, text := StatusCode(a.code), StatusText(a.code, a.text);
      ResponseBodyIsRead(u, code, text, h, body, more);
      ResponseHeadHasNoBody(code, text, h);
  }
}

/** What the builder prints, the parser reads back: single requests and pipelined lists of them. */
module HttpRoundTrip {
  import opened Bytes
  import opened HttpText
  import opened HttpMachine
  import opened HttpTheorems
  import opened HttpBuilder
  import opened Wrappers

  // ----- The request line -----

  lemma StartLineSplits(m: bytes, path: bytes)
    requires SPACE !in m && SPACE !in path
    ensures SplitN(StartLine(m, path), SPACE, 3) == [m, path, VERSION]
  {
    hide Find;
    var rest := path + [SPACE] + VERSION;
    assert StartLine(m, path) == m + [SPACE] + rest;
    FindByteAfter(SPACE, m, rest);
    FindByteAfter(SPACE, path, VERSION);
    assert StartLine(m, path)[..|m|] == m && StartLine(m, path)[|m| + 1..] == rest;
    assert rest[..|path|] == path && rest[|path| + 1..] == VERSION;
    assert SplitN(VERSION, SPACE, 1) == [VERSION];
    assert SplitN(rest, SPACE, 2) == [path] + [VERSION];
  }

  predicate GoodStart(m: bytes, path: bytes) {
    && SPACE !in m && CR !in m && !(HTTP_SLASH <= m)
    && SPACE !in path && CR !in path
  }

  lemma RequestLineIsRead(m: bytes, path: bytes, more: bytes)
    requires GoodStart(m, path)
    ensures var st := Fresh(StartLine(m, path) + CRLF + more);
            ParseRequestLine(st) ==
            Step(st.(request := Some(NewRequest(m, path, VERSION)), phase := HeaderLines), None, |StartLine(m, path)| + 2)
  {
    hide SplitN, NewRequest, Find;
    var line := StartLine(m, path);
    StartLineSplits(m, path);
    VersionHasNoCR();
    assert CR !in line;
    FindLineEnd(line, more);
    assert (line + CRLF + more)[..|line|] == line;
  }

  lemma VersionHasNoCR()
    ensures CR !in VERSION
  {
  }

  // ----- The header block -----

  // A line the builder can write and the scanner delivers unchanged.
  predicate GoodLine(line: bytes) {
    line != [] && CR !in line && LF !in line && |line| + 1 < 65536
  }

  // The first CRLF CRLF is not inside a line: it is right behind the line, or further on.
  lemma {:induction false} FindRightBehind(line: bytes, more: bytes)
    requires CR !in line
    ensures Find(CRLF2, line + CRLF2 + more) == Some(|line|)
    decreases |line|
  {
    var t := line + CRLF2 + more;
    if line == [] {
      assert t[..4] == CRLF2;
    } else {
      assert t[0] == line[0];
      assert t[1..] == line[1..] + CRLF2 + more;
      FindRightBehind(line[1..], more);
      SkipByte(t);
    }
  }

  lemma {:induction false} FindFurtherOn(line: bytes, rest: bytes)
    requires CR !in line && rest != [] && rest[0] != CR && Find(CRLF2, rest).Some?
    ensures Find(CRLF2, line + CRLF + rest) == Some(|line| + 2 + Find(CRLF2, rest).value)
    decreases |line|
  {
    hide Find;
    var t := line + CRLF + rest;
    if line == [] {
      assert t[1..][1..] == rest;
      assert t[2] == rest[0];
      SkipByte(t[1..]);
      SkipByte(t);
    } else {
      assert t[0] == line[0];
      assert t[1..] == line[1..] + CRLF + rest;
      FindFurtherOn(line[1..], rest);
      SkipByte(t);
    }
  }

  lemma SkipByte(t: bytes)
    requires t != [] && (t[0] != CR || (|t| >= 3 && t[2] != CR))
    requires Find(CRLF2, t[1..]).Some?
    ensures Find(CRLF2, t) == Some(Find(CRLF2, t[1..]).value + 1)
  {
    if |t| >= 4 {
      assert t[..4][0] == t[0] && t[..4][2] == t[2];
    }
  }

  lemma GoodLineHasNoCR(lines: seq<bytes>)
    requires forall l :: l in lines ==> GoodLine(l)
    ensures forall l :: l in lines ==> l != [] && CR !in l && l[0] != CR
  {
    forall l | l in lines
      ensures l != [] && CR !in l && l[0] != CR
    {
      assert GoodLine(l);
      assert l[0] in l;
    }
  }

  lemma {:induction false} HeaderEndIsFound(lines: seq<bytes>, more: bytes)
    requires lines != [] && forall l :: l in lines ==> GoodLine(l)
    ensures |JoinLines(lines)| >= 2
    ensures Find(CRLF2, JoinLines(lines) + CRLF + more) == Some(|JoinLines(lines)| - 2)
    decreases |lines|
  {
    hide Find, GoodLine;
    GoodLineHasNoCR(lines);
    var line := lines[0];
    assert line in lines;
    var tail := JoinLines(lines[1..]);
    assert JoinLines(lines) == line + CRLF + tail;
    if |lines| == 1 {
      assert tail == [];
      LastLineEnds(line, more);
    } else {
      HeaderEndIsFound(lines[1..], more);
      assert lines[1] in lines;
      TailStartsWithLine(lines[1..]);
      NextLineEnds(line, tail, more);
    }
  }

  lemma LastLineEnds(line: bytes, more: bytes)
    requires CR !in line
    ensures Find(CRLF2, line + CRLF + [] + CRLF + more) == Some(|line|)
  {
    hide Find;
    assert line + CRLF + [] + CRLF + more == line + CRLF2 + more;
    FindRightBehind(line, more);
  }

  lemma NextLineEnds(line: bytes, tail: bytes, more: bytes)
    requires CR !in line && |tail| >= 2 && tail[0] != CR
    requires Find(CRLF2, tail + CRLF + more) == Some(|tail| - 2)
    ensures Find(CRLF2, line + CRLF + tail + CRLF + more) == Some(|line| + |tail|)
  {
    hide Find;
    var rest := tail + CRLF + more;
    assert line + CRLF + tail + CRLF + more == line + CRLF + rest;
    assert rest[0] == tail[0];
    FindFurtherOn(line, rest);
  }

  lemma TailStartsWithLine(lines: seq<bytes>)
    requires lines != [] && lines[0] != []
    ensures JoinLines(lines) != [] && JoinLines(lines)[0] == lines[0][0]
  {
    assert JoinLines(lines) == lines[0] + CRLF + JoinLines(lines[1..]);
  }

  lemma ScanLast(line: bytes)
    requires GoodLine(line)
    ensures ScanLines(line) == [line]
  {
    FindByteNowhere(LF, line);
  }

  lemma ScanNext(line: bytes, rest: bytes)
    requires GoodLine(line)
    ensures ScanLines(line + CRLF + rest) == [line] + ScanLines(rest)
  {
    hide Find;
    var data := line + CRLF + rest;
    assert data == (line + [CR]) + [LF] + rest;
    FindByteAfter(LF, line + [CR], rest);
    assert data[..|line| + 1] == line + [CR];
    assert data[|line| + 2..] == rest;
    assert DropCR(line + [CR]) == line;
  }

  lemma {:induction false} LinesAreScanned(lines: seq<bytes>)
    requires lines != [] && forall l :: l in lines ==> GoodLine(l)
    ensures |JoinLines(lines)| >= 2
    ensures ScanLines(JoinLines(lines)[..|JoinLines(lines)| - 2]) == lines
    decreases |lines|
  {
    hide ScanLines, GoodLine;
    var line := lines[0];
    assert line in lines;
    var tail := JoinLines(lines[1..]);
    var block := line + CRLF + tail;
    assert JoinLines(lines) == block;
    if |lines| == 1 {
      assert tail == [];
      assert block[..|block| - 2] == line;
      ScanLast(line);
    } else {
      LinesAreScanned(lines[1..]);
      var rest := tail[..|tail| - 2];
      assert block[..|block| - 2] == line + CRLF + rest;
      ScanNext(line, rest);
    }
  }

  // ----- Header names and values -----

  /** A header the parser reads back as it was: no line breaks, no colon in the name, nothing to trim. */
  predicate GoodHeader(u: Unicode, name: bytes, value: bytes) {
    && COLON !in name && TrimSpace(u, name) == name
    && TrimSpace(u, [SPACE] + value) == value
    && GoodLine(HeaderLine(name, value))
  }

  /** Plain ASCII headers without surrounding white space are good. */
  lemma AsciiHeaderIsGood(u: Unicode, name: bytes, value: bytes)
    requires IsAscii(name) && IsTrimmed(name) && COLON !in name && CR !in name && LF !in name
    requires IsAscii(value) && IsTrimmed(value) && CR !in value && LF !in value
    requires |name| + |value| + 3 < MAX_LINE
    ensures GoodHeader(u, name, value)
  {
    TrimOfTrimmed(u, name);
    TrimOfTrimmed(u, value);
  }

  lemma HeaderIsRead(u: Unicode, name: bytes, value: bytes, acc: Headers)
    requires GoodHeader(u, name, value)
    ensures AddHeader(u, HeaderLine(name, value), acc) == acc[ToLower(u, name) := value]
  {
    hide TrimSpace, ToLower, Find;
    var line := HeaderLine(name, value);
    assert line == name + [COLON] + ([SPACE] + value);
    FindByteAfter(COLON, name, [SPACE] + value);
    assert line[..|name|] == name && line[|name| + 1..] == [SPACE] + value;
  }

  predicate GoodHeaders(u: Unicode, h: Headers) {
    && (forall k :: k in h ==> GoodHeader(u, k, h[k]))
    && (forall j, k :: j in h && k in h && j != k ==> ToLower(u, j) != ToLower(u, k))
  }

  /** The header map as the parser reports it: lower-case names. */
  function Lowered(u: Unicode, h: Headers): Headers
    requires GoodHeaders(u, h)
  {
    map k | k in h.Keys :: ToLower(u, k) := h[k]
  }

  // The first headers of an enumeration, lowered.
  predicate LoweredPart(u: Unicode, h: Headers, order: seq<bytes>, part: Headers)
    requires forall k :: k in order ==> k in h
  {
    && (forall k :: k in order ==> ToLower(u, k) in part && part[ToLower(u, k)] == h[k])
    && (forall l :: l in part ==> exists k :: k in order && ToLower(u, k) == l)
  }

  lemma {:induction false} HeadersAreRead(u: Unicode, h: Headers, done: seq<bytes>, order: seq<bytes>, acc: Headers)
    requires GoodHeaders(u, h) && (forall k :: k in order ==> k in h) && (forall k :: k in done ==> k in h)
    requires forall k :: k in order ==> k !in done
    requires forall i, j :: 0 <= i < j < |order| ==> order[i] != order[j]
    requires LoweredPart(u, h, done, acc)
    ensures forall k :: k in done + order ==> k in h
    ensures LoweredPart(u, h, done + order, AddHeaders(u, HeaderLinesOf(h, order), acc))
    decreases |order|
  {
    hide ToLower, AddHeader, GoodHeader;
    if order == [] {
      assert done + order == done;
    } else {
      var k := order[0];
      assert k in order;
      HeaderIsRead(u, k, h[k], acc);
      var acc' := acc[ToLower(u, k) := h[k]];
      assert HeaderLinesOf(h, order)[1..] == HeaderLinesOf(h, order[1..]);
      assert (done + [k]) + order[1..] == done + order;
      forall l | l in acc'
        ensures exists j :: j in done + [k] && ToLower(u, j) == l
      {
        if l in acc {
          var j :| j in done && ToLower(u, j) == l;
          assert j in done + [k];
        } else {
          assert k in done + [k];
        }
      }
      HeadersAreRead(u, h, done + [k], order[1..], acc');
    }
  }

  lemma AllHeadersAreRead(u: Unicode, h: Headers, order: seq<bytes>)
    requires GoodHeaders(u, h) && Enumerates(order, h)
    ensures AddHeaders(u, HeaderLinesOf(h, order), map[]) == Lowered(u, h)
  {
    HeadersAreRead(u, h, [], order, map[]);
    assert [] + order == order;
    hide ToLower, GoodHeader, AddHeaders, HeaderLinesOf;
    WholeIsLowered(u, h, order, AddHeaders(u, HeaderLinesOf(h, order), map[]));
  }

  lemma WholeIsLowered(u: Unicode, h: Headers, order: seq<bytes>, r: Headers)
    requires GoodHeaders(u, h) && Enumerates(order, h)
    requires LoweredPart(u, h, order, r)
    ensures r == Lowered(u, h)
  {
    hide ToLower, GoodHeader;
    var l := Lowered(u, h);
    forall x | x in r
      ensures x in l && l[x] == r[x]
    {
      var k :| k in order && ToLower(u, k) == x;
      assert k in h.Keys;
    }
    forall x | x in l
      ensures x in r
    {
      var k :| k in h.Keys && ToLower(u, k) == x;
      assert k in order;
    }
    assert r.Keys == l.Keys;
  }

  lemma {:induction false} HeaderLinesAreGood(u: Unicode, h: Headers, order: seq<bytes>)
    requires GoodHeaders(u, h) && forall k :: k in order ==> k in h
    ensures |HeaderLinesOf(h, order)| == |order|
    ensures forall l :: l in HeaderLinesOf(h, order) ==> GoodLine(l)
    decreases |order|
  {
    if order != [] {
      assert order[0] in order;
      HeaderLinesAreGood(u, h, order[1..]);
    }
  }

  lemma HeaderBlockIsRead(u: Unicode, st: State, h: Headers, order: seq<bytes>, more: bytes)
    requires GoodHeaders(u, h) && Enumerates(order, h) && h != map[]
    requires st.buffer == JoinLines(HeaderLinesOf(h, order)) + CRLF + more
    ensures ParseHeaderLines(u, st) ==
            Step(ApplyHeaders(st, Lowered(u, h)), None, |JoinLines(HeaderLinesOf(h, order))| + 2)
  {
    hide ApplyHeaders, AddHeaders, ScanLines, Find, GoodHeaders, Lowered;
    var lines := HeaderLinesOf(h, order);
    HeaderLinesAreGood(u, h, order);
    var k :| k in h;
    assert k in order;
    HeaderEndIsFound(lines, more);
    LinesAreScanned(lines);
    AllHeadersAreRead(u, h, order);
    var block := JoinLines(lines);
    assert (block + CRLF + more)[..|block| - 2] == block[..|block| - 2];
  }

  // ----- A whole request -----

  /** A request as the caller hands it to the builder, with the enumeration order the runtime picks. */
  datatype Sent = Sent(method_: bytes, path: bytes, headers: Headers, body: bytes, order: seq<bytes>) {
    function All(auto: bool): Headers {
      AllHeaders(auto, headers, |body|)
    }

    ghost predicate Enumerated(auto: bool) {
      Enumerates(order, All(auto))
    }

    /** What BuildRequest prints. */
    ghost function Bytes(auto: bool): bytes
      requires Enumerated(auto)
    {
      RequestBytes(Method(method_), Path(path), All(auto), order, body)
    }
  }

  /** The headers declare the body: its exact length, or nothing when it is empty; and the body is not chunked. */
  predicate DeclaresBody(h: Headers, body: bytes) {
    && Get(h, TRANSFER_ENCODING) != CHUNKED
    && (DeclaredLength(h) == Some(|body|) || (DeclaredLength(h) == None && body == []))
  }

  /** A request whose parts can be read back one by one; it may have no headers. */
  ghost predicate Sendable(u: Unicode, auto: bool, s: Sent) {
    && s.Enumerated(auto)
    && GoodStart(Method(s.method_), Path(s.path))
    && GoodHeaders(u, s.All(auto))
    && DeclaresBody(Lowered(u, s.All(auto)), s.body)
  }

  ghost predicate WellFormed(u: Unicode, auto: bool, s: Sent) {
    Sendable(u, auto, s) && s.All(auto) != map[]
  }

  // The message being read behind its start line and headers.
  function Head(m: bytes, path: bytes, h: Headers): Request {
    SetRequestHeaders(NewRequest(m, path, VERSION), h)
  }

  /** The request the peer's application should see. */
  ghost function Received(u: Unicode, auto: bool, s: Sent): (r: Request)
    requires Sendable(u, auto, s)
    ensures r.method_ == Method(s.method_) && r.uri == Path(s.path) && r.version == VERSION
    ensures r.headers == Lowered(u, s.All(auto))
    ensures r.body == s.body && r.payload == s.body
  {
    Head(Method(s.method_), Path(s.path), Lowered(u, s.All(auto))).(body := s.body, payload := s.body)
  }

  // The parser behind the header block, in general.
  lemma HeadIsRead(u: Unicode, m: bytes, path: bytes, all: Headers, order: seq<bytes>, rest: bytes)
    requires GoodStart(m, path) && GoodHeaders(u, all) && Enumerates(order, all) && all != map[]
    ensures var st := Fresh(rest).(request := Some(NewRequest(m, path, VERSION)), phase := HeaderLines);
            ParseLoop(u, Fresh(RequestBytes(m, path, all, order, rest))) == ParseLoop(u, ApplyHeaders(st, Lowered(u, all)))
  {
    hide Lowered, GoodHeaders, ParseRequestLine, ParseHeaderLines, GoodStart, StartLine, JoinLines, HeaderLinesOf;
    hide NewRequest, ApplyHeaders, ParseLoop;
    var line := StartLine(m, path);
    var block := JoinLines(HeaderLinesOf(all, order));
    var tail := block + CRLF + rest;
    var buf := RequestBytes(m, path, all, order, rest);
    assert buf == line + CRLF + tail;
    RequestLineIsRead(m, path, tail);
    OneStep(u, Fresh(buf));
    var st := Fresh(tail).(request := Some(NewRequest(m, path, VERSION)), phase := HeaderLines);
    assert buf[|line| + 2..] == tail;
    assert Advance(ParseNext(u, Fresh(buf))) == st;
    HeaderBlockIsRead(u, st, all, order, rest);
    OneStep(u, st);
    assert tail[|block| + 2..] == rest;
    HeadersKeepBuffer(st, rest, Lowered(u, all));
  }

  lemma HeadersKeepBuffer(st: State, rest: bytes, h: Headers)
    ensures ApplyHeaders(st, h).(buffer := rest) == ApplyHeaders(st.(buffer := rest), h)
  {
    hide SetRequestHeaders, SetResponseHeaders, DeclaredLength, Get;
  }

  // A step that consumes bytes and completes nothing.
  lemma OneStep(u: Unicode, st: State)
    requires var r := ParseNext(u, st); r.Step? && r.consumed > 0 && r.msg == None
    ensures ParseLoop(u, st) == ParseLoop(u, Advance(ParseNext(u, st)))
  {
    hide ParseNext;
    PrependNothing(ParseLoop(u, Advance(ParseNext(u, st))));
  }

  lemma LastStep(u: Unicode, st: State)
    requires st.phase == Complete && Completed(st).Some?
    ensures ParseLoop(u, st) == Prepend([Completed(st).value], ParseLoop(u, Fresh(st.buffer)))
  {
    var r := ParseNext(u, st);
    assert Advance(r) == Fresh(st.buffer);
    if st.buffer == [] {
      NothingToRead(u, Fresh(st.buffer));
    }
  }

  // What the parser makes of the body, when it takes the body at all.
  lemma BodyIsRead(u: Unicode, m: bytes, path: bytes, h: Headers, body: bytes, more: bytes)
    requires DeclaresBody(h, body)
    ensures var st := Fresh(body + more).(request := Some(NewRequest(m, path, VERSION)), phase := HeaderLines);
            var o := ParseLoop(u, ApplyHeaders(st, h));
            if |body| <= MAX_BODY_SIZE then
              o == Prepend([HttpRequest(Head(m, path, h).(body := body, payload := body))], ParseLoop(u, Fresh(more)))
            else
              o == Prepend([HttpRequest(Head(m, path, h))], ParseLoop(u, Fresh(body + more)))
  {
    var r := NewRequest(m, path, VERSION);
    HeadersLeaveBody(r, h);
    assert r.body == [] && r.payload == [];
    hide ParseLoop, SetRequestHeaders, NewRequest, DeclaredLength, Get;
    var st := Fresh(body + more).(request := Some(r), phase := HeaderLines);
    var st1 := ApplyHeaders(st, h);
    if 0 < |body| <= MAX_BODY_SIZE {
      assert st1.phase == FixedBody && st1.contentLength == |body|;
      assert (body + more)[..|body|] == body && (body + more)[|body|..] == more;
      OneStep(u, st1);
      LastStep(u, Advance(ParseNext(u, st1)));
    } else {
      assert st1.phase == Complete;
      LastStep(u, st1);
      if body == [] {
        assert body + more == more;
      }
    }
  }

  lemma HeadersLeaveBody(r: Request, h: Headers)
    ensures SetRequestHeaders(r, h).body == r.body && SetRequestHeaders(r, h).payload == r.payload
  {
    hide DeclaredLength, Field;
  }

  lemma PartsAreRead(u: Unicode, m: bytes, path: bytes, all: Headers, order: seq<bytes>, body: bytes, more: bytes)
    requires GoodStart(m, path) && GoodHeaders(u, all) && Enumerates(order, all) && all != map[]
    requires DeclaresBody(Lowered(u, all), body)
    ensures var o := ParseLoop(u, Fresh(RequestBytes(m, path, all, order, body) + more));
            var r := Head(m, path, Lowered(u, all));
            if |body| <= MAX_BODY_SIZE then
              o == Prepend([HttpRequest(r.(body := body, payload := body))], ParseLoop(u, Fresh(more)))
            else
              o == Prepend([HttpRequest(r)], ParseLoop(u, Fresh(body + more)))
  {
    hide Lowered, ParseLoop, DeclaresBody, ApplyHeaders, Head, StartLine, JoinLines, HeaderLinesOf, GoodHeaders, GoodStart;
    assert RequestBytes(m, path, all, order, body) + more == RequestBytes(m, path, all, order, body + more);
    HeadIsRead(u, m, path, all, order, body + more);
    BodyIsRead(u, m, path, Lowered(u, all), body, more);
  }

  /** One request, whatever follows it: the parser delivers it and goes on behind it, if the body is within the limit. */
  lemma RequestIsRead(u: Unicode, auto: bool, s: Sent, more: bytes)
    requires WellFormed(u, auto, s)
    ensures var o := ParseLoop(u, Fresh(s.Bytes(auto) + more));
            var r := Received(u, auto, s);
            if |s.body| <= MAX_BODY_SIZE then o == Prepend([HttpRequest(r)], ParseLoop(u, Fresh(more)))
            else o == Prepend([HttpRequest(r.(body := [], payload := []))], ParseLoop(u, Fresh(s.body + more)))
  {
    var all := s.All(auto);
    var m, path := Method(s.method_), Path(s.path);
    hide ParseLoop, Head, AllHeaders, Method, Path, GoodHeaders, GoodStart, DeclaresBody, Enumerates, Lowered;
    PartsAreRead(u, m, path, all, s.order, s.body, more);
    HeadHasNoBody(m, path, Lowered(u, all));
  }

  lemma HeadHasNoBody(m: bytes, path: bytes, h: Headers)
    ensures Head(m, path, h).body == [] && Head(m, path, h).payload == []
  {
    HeadersLeaveBody(NewRequest(m, path, VERSION), h);
  }

  ghost function ReceivedAll(u: Unicode, auto: bool, sent: seq<Sent>): seq<Message>
    requires forall s :: s in sent ==> WellFormed(u, auto, s)
  {
    if sent == [] then []
    else
      assert WellFormed(u, auto, sent[0]);
      [HttpRequest(Received(u, auto, sent[0]))] + ReceivedAll(u, auto, sent[1..])
  }

  ghost function BytesOfAll(u: Unicode, auto: bool, sent: seq<Sent>): bytes
    requires forall s :: s in sent ==> WellFormed(u, auto, s)
  {
    if sent == [] then []
    else
      assert WellFormed(u, auto, sent[0]);
      sent[0].Bytes(auto) + BytesOfAll(u, auto, sent[1..])
  }

  /**
   Printer and parser agree: any list of well-formed requests, each printed with any enumeration of its headers and
   sent back to back, is read back as the same requests in the same order, and nothing is left over.
   */
  lemma {:induction false} PipelineRoundTrip(u: Unicode, auto: bool, sent: seq<Sent>)
    requires forall s :: s in sent ==> WellFormed(u, auto, s) && |s.body| <= 10485760
    ensures ParseLoop(u, Fresh(BytesOfAll(u, auto, sent))) == Parsed(ReceivedAll(u, auto, sent), Fresh([]))
    decreases |sent|
  {
    hide WellFormed, Received;
    if sent == [] {
      NothingToRead(u, Fresh([]));
    } else {
      hide ParseLoop;
      assert sent[0] in sent;
      RequestIsRead(u, auto, sent[0], BytesOfAll(u, auto, sent[1..]));
      PipelineRoundTrip(u, auto, sent[1..]);
    }
  }

  /** A single request round-trips if and only if its body is within the parser's body limit. */
  lemma RoundTripIffBodyFits(u: Unicode, auto: bool, s: Sent)
    requires WellFormed(u, auto, s)
    ensures ParseLoop(u, Fresh(s.Bytes(auto))) == Parsed([HttpRequest(Received(u, auto, s))], Fresh([]))
            <==> |s.body| <= 10485760
  {
    assert s.Enumerated(auto);
    hide ParseLoop, WellFormed, Received, RequestBytes, AllHeaders, Method, Path, Lowered;
    var code := s.Bytes(auto);
    assert code + [] == code;
    RequestIsRead(u, auto, s, []);
    EmptyLoop(u);
    OneMessage(ParseLoop(u, Fresh(code)), Received(u, auto, s), ParseLoop(u, Fresh(s.body + [])));
  }

  lemma OneMessage(o: Outcome, r: Request, rest: Outcome)
    requires r.payload == r.body
    requires if |r.body| <= MAX_BODY_SIZE then o == Prepend([HttpRequest(r)], Parsed([], Fresh([])))
             else o == Prepend([HttpRequest(r.(body := [], payload := []))], rest)
    ensures o == Parsed([HttpRequest(r)], Fresh([])) <==> |r.body| <= MAX_BODY_SIZE
  {
    if |r.body| > MAX_BODY_SIZE && rest.Parsed? {
      assert o.messages[0].request.body == [];
    }
  }

  lemma EmptyLoop(u: Unicode)
    ensures ParseLoop(u, Fresh([])) == Parsed([], Fresh([]))
  {
  }

  /** The automatic Content-Length is right: no caller header may be called content-length in any case. */
  lemma AutomaticLengthDeclares(u: Unicode, headers: Headers, body: bytes)
    requires GoodHeaders(u, AllHeaders(true, headers, |body|)) && |body| <= MAX_INT64
    requires forall k :: k in headers ==> ToLower(u, k) != CONTENT_LENGTH && ToLower(u, k) != TRANSFER_ENCODING
    ensures DeclaresBody(Lowered(u, AllHeaders(true, headers, |body|)), body)
  {
    hide ToLower, GoodHeader, ParseInt, Digits;
    var all := AllHeaders(true, headers, |body|);
    var l := Lowered(u, all);
    LowerNames(u);
    if |body| > 0 {
      ParseIntRoundTrip(|body|, 10);
      assert CONTENT_LENGTH_NAME in all.Keys && all[CONTENT_LENGTH_NAME] == Digits(|body|, 10);
      assert l[ToLower(u, CONTENT_LENGTH_NAME)] == Digits(|body|, 10);
    } else {
      assert CONTENT_LENGTH !in l;
      NothingDeclared();
    }
    assert TRANSFER_ENCODING !in l;
  }

  lemma NothingDeclared()
    ensures ParseInt([], 10) == None && CHUNKED != []
  {
  }

  lemma LowerNames(u: Unicode)
    ensures ToLower(u, CONTENT_LENGTH_NAME) == CONTENT_LENGTH
    ensures USER_AGENT != CONTENT_LENGTH_NAME && ACCEPT != CONTENT_LENGTH_NAME
    ensures |ToLower(u, USER_AGENT)| == 10 && |ToLower(u, ACCEPT)| == 6
    ensures |CONTENT_LENGTH| == 14 && |TRANSFER_ENCODING| == 17 && CHUNKED != []
  {
  }

  /** A request printed without any header and followed by nothing waits: its blank line was taken for a line end. */
  lemma HeaderlessRequestWaits(u: Unicode, m: bytes, path: bytes)
    requires GoodStart(Method(m), Path(path))
    ensures var o := ParseLoop(u, Fresh(Sent(m, path, map[], [], []).Bytes(false)));
            o.Parsed? && o.messages == [] && o.st.phase == HeaderLines && o.st.buffer == CRLF
  {
    hide GoodStart, StartLine, ParseRequestLine, NewRequest;
    var line := StartLine(Method(m), Path(path));
    var buf := Sent(m, path, map[], [], []).Bytes(false);
    assert JoinLines(HeaderLinesOf(map[], [])) == [];
    assert buf == line + CRLF + CRLF;
    RequestLineIsRead(Method(m), Path(path), CRLF);
    assert buf[|line| + 2..] == CRLF;
    OneStep(u, Fresh(buf));
    assert Find(CRLF2, CRLF) == None;
  }
}

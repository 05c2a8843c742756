/**
 Reading from the middle of what was printed: a parser that starts behind the first byte of a printed message and still
 delivers that message has read beyond the message's end.
 */
module HttpSuffixes {
  import opened Bytes
  import opened HttpText
  import opened HttpMachine
  import opened HttpBuilder
  import opened HttpRoundTrip
  import opened HttpResponses
  import opened HttpPipeline
  import opened Wrappers

  // ----- What a first message says about the bytes -----

  /** The parser behind the first line. */
  function Started(buf: bytes): State
    requires ParseRequestLine(Fresh(buf)).Step?
  {
    Advance(ParseRequestLine(Fresh(buf)))
  }

  lemma LineStep(buf: bytes)
    requires ParseRequestLine(Fresh(buf)).Step?
    ensures var r := ParseRequestLine(Fresh(buf));
            && Find(CRLF, buf).Some? && r.consumed == Find(CRLF, buf).value + 2 && r.msg == None
            && r.st.buffer == buf && r.st.phase == HeaderLines && Consistent(r.st)
  {
    hide Find, SplitN, ParseInt, NewRequest, NewResponse, ParseResponseLine, HTTP_SLASH, Str, CRLF;
    StatusLineStep(Fresh(buf).(phase := ResponseLine));
  }

  lemma StatusLineStep(st: State)
    requires st.contentLength == 0 && !st.chunked
    ensures var r := ParseResponseLine(st);
            r.Step? ==> && Find(CRLF, st.buffer).Some? && r.consumed == Find(CRLF, st.buffer).value + 2 && r.msg == None
                        && r.st.buffer == st.buffer && r.st.phase == HeaderLines && Consistent(r.st)
  {
    hide Find, SplitN, ParseInt, NewResponse, Str, CRLF;
  }

  /** A call that delivers a first message found the end of its first line, the end of its headers and its body. */
  lemma FirstMessage(u: Unicode, buf: bytes, ms: seq<Message>)
    requires ParseLoop(u, Fresh(buf)) == Parsed(ms, Fresh([])) && ms != []
    ensures ParseRequestLine(Fresh(buf)).Step?
    ensures var st := Started(buf);
            && st.phase == HeaderLines && Find(CRLF2, st.buffer).Some?
            && Consistent(HeadersRead(u, st)) && BodyArrived(HeadersRead(u, st))
            && var done := BehindBody(HeadersRead(u, st));
               && Completed(done) == Some(ms[0])
               && ParseLoop(u, Fresh(done.buffer)) == Parsed(ms[1..], Fresh([]))
  {
    hide ParseRequestLine, HeadersRead, BodyArrived, BehindBody, Completed;
    FirstLine(u, buf, ms);
    var st := Started(buf);
    hide ParseLoop, Started;
    HeadersDecide(u, st);
    var st1 := HeadersRead(u, st);
    BodyDecides(u, st1);
    FirstOfTwo(Completed(BehindBody(st1)).value, ParseLoop(u, Fresh(BehindBody(st1).buffer)), ms);
  }

  lemma FirstLine(u: Unicode, buf: bytes, ms: seq<Message>)
    requires ParseLoop(u, Fresh(buf)) == Parsed(ms, Fresh([])) && ms != []
    ensures ParseRequestLine(Fresh(buf)).Step?
    ensures Started(buf).phase == HeaderLines && Consistent(Started(buf))
    ensures ParseLoop(u, Started(buf)) == ParseLoop(u, Fresh(buf))
  {
    hide ParseRequestLine;
    assert buf != [];
    assert ParseNext(u, Fresh(buf)) == ParseRequestLine(Fresh(buf));
    LineStep(buf);
    OneStep(u, Fresh(buf));
  }

  lemma FirstOfTwo(m: Message, o: Outcome, ms: seq<Message>)
    requires Prepend([m], o) == Parsed(ms, Fresh([])) && ms != []
    ensures ms[0] == m && o == Parsed(ms[1..], Fresh([]))
  {
    assert ([m] + o.messages)[1..] == o.messages;
  }

  // ----- The first line -----

  /** The first and last word of the first line; the middle one is its path or status code. */
  function FirstWord(p: Printed): bytes {
    match p
    case PrintedRequest(q) => Method(q.method_)
    case PrintedResponse(_) => VERSION
  }

  function LastWord(p: Printed): bytes {
    match p
    case PrintedRequest(_) => VERSION
    case PrintedResponse(a) => StatusText(a.code, a.text)
  }

  lemma WordsOfLine(u: Unicode, c: Printer, p: Printed) returns (middle: bytes)
    requires p.Ready(u, c)
    ensures SPACE !in middle && LastWord(p) != []
    ensures p.Line() == FirstWord(p) + [SPACE] + middle + [SPACE] + LastWord(p)
  {
    hide GoodHeaders, Lowered, DeclaresBody, ResponseHeaders, AllHeaders, StatusName, PrintInt;
    match p
    case PrintedRequest(q) =>
      middle := Path(q.path);
    case PrintedResponse(a) =>
      middle := PrintInt(StatusCode(a.code));
      CodeIsPlain(StatusCode(a.code));
      FilledInTextIsGood(a.code, a.text);
  }

  lemma WordsOfSplit(line: bytes)
    ensures var parts := SplitN(line, SPACE, 3);
            |parts| == 3 ==> line == parts[0] + [SPACE] + parts[1] + [SPACE] + parts[2]
  {
    hide Find;
    match Find([SPACE], line)
    case None =>
    case Some(i) =>
      var rest := line[i + 1..];
      assert line == line[..i] + [SPACE] + rest;
      match Find([SPACE], rest)
      case None =>
      case Some(j) =>
        assert rest == rest[..j] + [SPACE] + rest[j + 1..];
        assert SplitN(rest[j + 1..], SPACE, 1) == [rest[j + 1..]];
        assert SplitN(rest, SPACE, 2) == [rest[..j]] + [rest[j + 1..]];
  }

  // With the same first and last word, a line whose middle word has no space is not a proper end of the other.
  lemma NoShorterLine(first: bytes, middle: bytes, other: bytes, last: bytes, d: nat)
    requires SPACE !in middle
    requires 0 < d <= |first + [SPACE] + middle + [SPACE] + last|
    ensures (first + [SPACE] + middle + [SPACE] + last)[d..] != first + [SPACE] + other + [SPACE] + last
  {
    var line, short := first + [SPACE] + middle + [SPACE] + last, first + [SPACE] + other + [SPACE] + last;
    if |line[d..]| == |short| {
      assert short[|first|] == SPACE;
      assert line[d..][|first|] == line[|first| + d] == middle[d - 1];
    }
  }

  /** What a first line says. */
  datatype Start = RequestStart(method_: bytes, uri: bytes, version: bytes) | StatusStart(version: bytes, code: int, text: bytes)

  function StartOf(m: Message): Start {
    match m
    case HttpRequest(r) => RequestStart(r.method_, r.uri, r.version)
    case HttpResponse(r) => StatusStart(r.version, r.statusCode, r.statusText)
  }

  // The first line the parser has read.
  function StartIn(st: State): Start
    requires st.request.Some? || st.response.Some?
  {
    if st.request.Some? then StartOf(HttpRequest(st.request.value)) else StartOf(HttpResponse(st.response.value))
  }

  lemma HeadersKeepStart(st: State, h: Headers)
    requires st.request.Some? || st.response.Some?
    ensures var st1 := ApplyHeaders(st, h);
            (st1.request.Some? || st1.response.Some?) && StartIn(st1) == StartIn(st)
  {
    hide DeclaredLength, Get, Field;
  }

  lemma BodyKeepsStart(st: State)
    requires Consistent(st) && BodyArrived(st)
    ensures var m := Completed(BehindBody(st)); m.Some? && StartOf(m.value) == StartIn(st)
  {
    hide DecodeChunks;
  }

  function StartOfPrinted(p: Printed): Start {
    match p
    case PrintedRequest(q) => RequestStart(Method(q.method_), Path(q.path), VERSION)
    case PrintedResponse(a) => StatusStart(VERSION, StatusCode(a.code), StatusText(a.code, a.text))
  }

  lemma WithHasStart(p: Printed, h: Headers, body: bytes)
    ensures StartOf(p.With(h, body)) == StartOfPrinted(p)
  {
    hide DeclaredLength, Field, StatusName;
  }

  // A first line that reads as the printed one was.
  lemma SameStart(buf: bytes, p: Printed) returns (middle: bytes)
    requires ParseRequestLine(Fresh(buf)).Step?
    requires Consistent(Started(buf)) && Started(buf).phase == HeaderLines && StartIn(Started(buf)) == StartOfPrinted(p)
    ensures Started(buf) == p.Opened(Started(buf).buffer)
    ensures Find(CRLF, buf).Some?
    ensures LastWord(p) != [] ==>
              buf[..Find(CRLF, buf).value] == FirstWord(p) + [SPACE] + middle + [SPACE] + LastWord(p)
  {
    hide Find, SplitN, ParseInt, StatusName, ParseQuery, Str;
    var parts := SplitN(buf[..Find(CRLF, buf).value], SPACE, 3);
    WordsOfSplit(buf[..Find(CRLF, buf).value]);
    middle := if |parts| > 1 then parts[1] else [];
  }

  // ----- Heads inside a head -----

  /** A first line and lines of headers, up to and with the empty line. */
  function HeadBytes(line: bytes, lines: seq<bytes>): bytes {
    line + CRLF + JoinLines(lines) + CRLF
  }

  lemma HeadBytesNext(line: bytes, lines: seq<bytes>, more: bytes)
    requires lines != []
    ensures HeadBytes(line, lines) + more == line + CRLF + (HeadBytes(lines[0], lines[1..]) + more)
    ensures |HeadBytes(line, lines)| == |line| + 2 + |HeadBytes(lines[0], lines[1..])|
    ensures (HeadBytes(line, lines) + more)[|line| + 2..] == HeadBytes(lines[0], lines[1..]) + more
  {
    assert JoinLines(lines) == lines[0] + CRLF + JoinLines(lines[1..]);
  }

  /**
   A head that is read from the middle of a printed one, and ends within it, ends with it: its headers are the last lines
   of the printed ones, and when they are all there, its first line is an end of the printed first line.
   */
  lemma {:induction false} HeadInside(line: bytes, lines: seq<bytes>, d: nat, more: bytes, end: nat, block: nat)
      returns (i: nat)
    requires CR !in line && forall l :: l in lines ==> GoodLine(l)
    requires d + end + 2 + block + 4 <= |HeadBytes(line, lines)|
    requires var buf := (HeadBytes(line, lines) + more)[d..];
             && Find(CRLF, buf) == Some(end) && Find(CRLF2, buf[end + 2..]) == Some(block)
    ensures i < |lines|
    ensures var buf := (HeadBytes(line, lines) + more)[d..];
            && |JoinLines(lines[i..])| == block + 2
            && buf[end + 2..][..block] == JoinLines(lines[i..])[..block]
            && (i == 0 ==> d <= |line| && buf[..end] == line[d..])
    decreases |lines|
  {
    hide Find, GoodLine;
    var whole := HeadBytes(line, lines) + more;
    if d <= |line| {
      HeadFromLine(line[d..], lines, more, end, block, whole[d..]);
      assert whole[d..] == HeadBytes(line[d..], lines) + more;
      i := 0;
      assert lines[0..] == lines;
    } else if lines == [] {
      assert false;
    } else {
      HeadBytesNext(line, lines, more);
      GoodLineHasNoCR(lines);
      var next := HeadBytes(lines[0], lines[1..]) + more;
      if d == |line| + 1 {
        assert whole[d..] == HeadBytes([LF] + lines[0], lines[1..]) + more;
        HeadFromLine([LF] + lines[0], lines[1..], more, end, block, whole[d..]);
        i := 1;
      } else {
        var d' := d - |line| - 2;
        assert whole[d..] == next[d'..];
        var i' := HeadInside(lines[0], lines[1..], d', more, end, block);
        i := i' + 1;
        assert lines[1..][i'..] == lines[i..];
      }
    }
  }

  lemma HeadApart(line: bytes, join: bytes, more: bytes)
    ensures line + CRLF + join + CRLF + more == line + CRLF + (join + CRLF + more)
    ensures (line + CRLF + join + CRLF + more)[|line| + 2..] == join + CRLF + more
    ensures (line + CRLF + join + CRLF + more)[..|line|] == line
  {
  }

  lemma HeadFromLine(line: bytes, lines: seq<bytes>, more: bytes, end: nat, block: nat, buf: bytes)
    requires CR !in line && forall l :: l in lines ==> GoodLine(l)
    requires buf == HeadBytes(line, lines) + more && end + 2 + block + 4 <= |HeadBytes(line, lines)|
    requires Find(CRLF, buf) == Some(end) && Find(CRLF2, buf[end + 2..]) == Some(block)
    ensures lines != [] && |JoinLines(lines)| == block + 2
    ensures end == |line| && buf[..end] == line && buf[end + 2..][..block] == JoinLines(lines)[..block]
  {
    hide Find, GoodLine;
    var join := JoinLines(lines);
    HeadApart(line, join, more);
    FindLineEnd(line, join + CRLF + more);
    if lines != [] {
      HeaderEndIsFound(lines, more);
    }
    hide JoinLines;
    assert (join + CRLF + more)[..block] == join[..block];
  }

  lemma {:induction false} LinesOfRest(h: Headers, order: seq<bytes>, i: nat)
    requires i <= |order| && forall k :: k in order ==> k in h
    ensures |HeaderLinesOf(h, order)| == |order| && HeaderLinesOf(h, order)[i..] == HeaderLinesOf(h, order[i..])
    decreases |order|
  {
    if order != [] {
      var lines := HeaderLinesOf(h, order);
      LinesOfRest(h, order[1..], if i == 0 then 0 else i - 1);
      assert lines[1..] == HeaderLinesOf(h, order[1..]);
      if i > 0 {
        assert order[1..][i - 1..] == order[i..] && lines[1..][i - 1..] == lines[i..];
      }
    }
  }

  // Without the first line, the first header is missing.
  lemma RestLacksFirst(u: Unicode, h: Headers, order: seq<bytes>, i: nat)
    requires GoodHeaders(u, h) && Enumerates(order, h) && 0 < i < |order|
    ensures |HeaderLinesOf(h, order)| == |order|
    ensures AddHeaders(u, HeaderLinesOf(h, order)[i..], map[]) != Lowered(u, h)
  {
    hide ToLower, GoodHeader, AddHeaders, HeaderLinesOf;
    LinesOfRest(h, order, i);
    HeadersAreRead(u, h, [], order[i..], map[]);
    assert [] + order[i..] == order[i..];
    var first, part := order[0], AddHeaders(u, HeaderLinesOf(h, order)[i..], map[]);
    assert first in order && ToLower(u, first) in Lowered(u, h);
    forall k | k in order[i..]
      ensures k in h && k != first
    {
    }
  }

  lemma CompletedHeaders(p: Printed, h: Headers, rest: bytes)
    requires var st := ApplyHeaders(p.Opened(rest), h); Consistent(st) && BodyArrived(st)
    ensures var st := ApplyHeaders(p.Opened(rest), h);
            Completed(BehindBody(st)).Some? ==> HeadersOf(Completed(BehindBody(st)).value) == h
  {
    hide DecodeChunks, DeclaredLength, Get, Field, NewRequest, NewResponse, StatusName;
  }

  // The bytes the parser takes for a body that is delivered whole.
  lemma BodyTaken(p: Printed, h: Headers, body: bytes, rest: bytes)
    requires DeclaresBody(h, body)
    requires var st := ApplyHeaders(p.Opened(rest), h);
             && Consistent(st) && BodyArrived(st) && Completed(BehindBody(st)).Some?
             && BodyOf(Completed(BehindBody(st)).value) == body
    ensures |body| <= |rest| && BehindBody(ApplyHeaders(p.Opened(rest), h)).buffer == rest[|body|..]
  {
    hide DecodeChunks, DeclaredLength, Get, Field, ParseQuery, StatusName;
  }

  // ----- Reading past the end -----

  // A head that reads like the printed one does not end before it.
  lemma HeadEndsBeyond(u: Unicode, c: Printer, p: Printed, d: nat, more: bytes, end: nat, block: nat, middle: bytes)
    requires p.Ready(u, c) && 0 < d <= |p.Bytes(u, c) + more|
    requires var buf := (p.Bytes(u, c) + more)[d..];
             && Find(CRLF, buf) == Some(end) && Find(CRLF2, buf[end + 2..]) == Some(block)
             && buf[..end] == FirstWord(p) + [SPACE] + middle + [SPACE] + LastWord(p)
             && GoodHeaders(u, p.All(c))
             && AddHeaders(u, ScanLines(buf[end + 2..][..block]), map[]) == Lowered(u, p.All(c))
    ensures d + end + 2 + block + 4 + |p.Body()| > |p.Bytes(u, c)|
  {
    Shape(u, c, p);
    ReceivedIs(u, c, p);
    HeaderLinesAreGood(u, p.All(c), p.Order());
    var printed := WordsOfLine(u, c, p);
    var lines := HeaderLinesOf(p.All(c), p.Order());
    var whole := p.Bytes(u, c) + more;
    BodyBehindHead(p.Line(), lines, p.Body(), more, p.Bytes(u, c));
    hide *;
    hide Printed.Bytes, Printed.Ready, Printed.All, Printed.Order, Printed.Line, Printed.Body;
    if d + end + 2 + block + 4 <= |HeadBytes(p.Line(), lines)| {
      var i := HeadInside(p.Line(), lines, d, p.Body() + more, end, block);
      LinesAreScanned(lines[i..]);
      if i == 0 {
        NoShorterLine(FirstWord(p), printed, middle, LastWord(p), d);
      } else {
        RestLacksFirst(u, p.All(c), p.Order(), i);
      }
    }
  }

  lemma BodyBehindHead(line: bytes, lines: seq<bytes>, body: bytes, more: bytes, whole: bytes)
    requires whole == line + CRLF + JoinLines(lines) + CRLF + body
    ensures whole + more == HeadBytes(line, lines) + (body + more) && |whole| == |HeadBytes(line, lines)| + |body|
  {
  }

  // What a delivered message says about the parser that read it.
  lemma DeliveredHasStart(p: Printed, h: Headers, body: bytes, st: State, l: Headers)
    requires Consistent(st) && st.phase == HeaderLines
    requires var st1 := ApplyHeaders(st, l);
             Consistent(st1) && BodyArrived(st1) && Completed(BehindBody(st1)) == Some(p.With(h, body))
    ensures StartIn(st) == StartOfPrinted(p)
  {
    HeadersKeepStart(st, l);
    BodyKeepsStart(ApplyHeaders(st, l));
    WithHasStart(p, h, body);
    hide *;
  }

  lemma DeliveredHasBody(p: Printed, h: Headers, body: bytes, rest: bytes, l: Headers)
    requires DeclaresBody(h, body)
    requires var st1 := ApplyHeaders(p.Opened(rest), l);
             Consistent(st1) && BodyArrived(st1) && Completed(BehindBody(st1)) == Some(p.With(h, body))
    ensures l == h
    ensures |body| <= |rest| && BehindBody(ApplyHeaders(p.Opened(rest), l)).buffer == rest[|body|..]
  {
    CompletedHeaders(p, l, rest);
    WithHas(p, h, body);
    hide *;
    hide Printed.Opened, Printed.With;
    BodyTaken(p, h, body, rest);
  }

  // The headers and the body are what the parser takes behind the first line.
  lemma StartedParts(u: Unicode, buf: bytes, end: nat, block: nat)
    requires ParseRequestLine(Fresh(buf)).Step? && Find(CRLF, buf) == Some(end) && end + 2 <= |buf|
    requires Find(CRLF2, buf[end + 2..]) == Some(block) && end + 2 + block + 4 <= |buf|
    ensures Started(buf).buffer == buf[end + 2..]
    ensures var tail := buf[end + 2..];
            HeadersRead(u, Started(buf)) ==
            ApplyHeaders(Started(buf).(buffer := tail[block + 4..]), AddHeaders(u, ScanLines(tail[..block]), map[]))
  {
    LineStep(buf);
    var st, tail := Started(buf), buf[end + 2..];
    assert st.buffer == tail;
    hide *;
    HeadersReadAt(u, st, tail[..block], tail[block + 4..]);
    HeadersKeepBuffer(st, tail[block + 4..], AddHeaders(u, ScanLines(tail[..block]), map[]));
  }

  lemma HeadParts(buf: bytes) returns (end: nat, block: nat)
    requires ParseRequestLine(Fresh(buf)).Step? && Find(CRLF2, Started(buf).buffer).Some?
    ensures Find(CRLF, buf) == Some(end) && end + 2 <= |buf|
    ensures Find(CRLF2, buf[end + 2..]) == Some(block) && end + 2 + block + 4 <= |buf|
    ensures Consistent(Started(buf))
  {
    LineStep(buf);
    hide Find, ParseRequestLine;
    end := Find(CRLF, buf).value;
    assert Started(buf).buffer == buf[end + 2..];
    block := Find(CRLF2, buf[end + 2..]).value;
  }

  lemma FreshOpened(p: Printed, buf: bytes, rest: bytes)
    ensures p.Opened(buf).(buffer := rest) == p.Opened(rest)
  {
  }

  // The parts of a buffer whose first message is the printed one.
  lemma ReadsLike(u: Unicode, p: Printed, h: Headers, body: bytes, buf: bytes, end: nat, block: nat) returns (middle: bytes)
    requires DeclaresBody(h, body) && LastWord(p) != []
    requires ParseRequestLine(Fresh(buf)).Step? && Find(CRLF, buf) == Some(end) && end + 2 <= |buf|
    requires Find(CRLF2, buf[end + 2..]) == Some(block) && end + 2 + block + 4 <= |buf|
    requires Started(buf).phase == HeaderLines && Consistent(Started(buf)) && Find(CRLF2, Started(buf).buffer).Some?
    requires var st1 := HeadersRead(u, Started(buf));
             Consistent(st1) && BodyArrived(st1) && Completed(BehindBody(st1)) == Some(p.With(h, body))
    ensures buf[..end] == FirstWord(p) + [SPACE] + middle + [SPACE] + LastWord(p)
    ensures AddHeaders(u, ScanLines(buf[end + 2..][..block]), map[]) == h
    ensures var rest := buf[end + 2..][block + 4..];
            |body| <= |rest| && BehindBody(HeadersRead(u, Started(buf))).buffer == rest[|body|..]
  {
    StartedParts(u, buf, end, block);
    var tail := buf[end + 2..];
    var rest := tail[block + 4..];
    var l := AddHeaders(u, ScanLines(tail[..block]), map[]);
    var st := Started(buf);
    AnyBufferIsConsistent(st, rest);
    hide *;
    hide Printed.Opened, Printed.With;
    DeliveredHasStart(p, h, body, st.(buffer := rest), l);
    StartIgnoresBuffer(st, rest);
    middle := SameStart(buf, p);
    FreshOpened(p, tail, rest);
    DeliveredHasBody(p, h, body, rest, l);
  }

  lemma AnyBufferIsConsistent(st: State, rest: bytes)
    requires Consistent(st)
    ensures Consistent(st.(buffer := rest))
  {
  }

  lemma StartIgnoresBuffer(st: State, rest: bytes)
    requires st.request.Some? || st.response.Some?
    ensures StartIn(st.(buffer := rest)) == StartIn(st)
  {
  }

  lemma EndsOfWhole(front: bytes, more: bytes, d: nat, end: nat, block: nat, body: nat)
    requires d <= |front| + |more| && end + 2 + block + 4 + body <= |(front + more)[d..]|
    requires d + end + 2 + block + 4 + body > |front|
    ensures (front + more)[d..][end + 2..][block + 4..][body..] == more[d + end + 2 + block + 4 + body - |front|..]
  {
  }

  // What a parser that delivers a printed message has read, and where it goes on.
  lemma HeadOfMessage(u: Unicode, c: Printer, p: Printed, buf: bytes, ms: seq<Message>)
    returns (end: nat, block: nat, middle: bytes)
    requires p.Ready(u, c) && ms != [] && ms[0] == p.Received(u, c)
    requires ParseLoop(u, Fresh(buf)) == Parsed(ms, Fresh([]))
    ensures Find(CRLF, buf) == Some(end) && end + 2 <= |buf| && Find(CRLF2, buf[end + 2..]) == Some(block)
    ensures buf[..end] == FirstWord(p) + [SPACE] + middle + [SPACE] + LastWord(p)
    ensures end + 2 + block + 4 + |p.Body()| <= |buf| && GoodHeaders(u, p.All(c))
    ensures AddHeaders(u, ScanLines(buf[end + 2..][..block]), map[]) == Lowered(u, p.All(c))
    ensures ParseLoop(u, Fresh(buf[end + 2..][block + 4..][|p.Body()|..])) == Parsed(ms[1..], Fresh([]))
  {
    hide *;
    hide Printed.Bytes, Printed.Ready, Printed.All, Printed.Order, Printed.Line, Printed.Body, Printed.With, Printed.Received;
    FirstMessage(u, buf, ms);
    end, block := HeadParts(buf);
    ReceivedIs(u, c, p);
    var printed := WordsOfLine(u, c, p);
    middle := ReadsLike(u, p, Lowered(u, p.All(c)), p.Body(), buf, end, block);
  }

  /**
   A parser that starts behind the first byte of a printed message, delivers that message first and is done in the end
   has read beyond the message's end.
   */
  lemma ReadPastEnd(u: Unicode, c: Printer, p: Printed, d: nat, more: bytes, ms: seq<Message>) returns (n: nat)
    requires p.Ready(u, c) && 0 < d <= |p.Bytes(u, c) + more| && ms != [] && ms[0] == p.Received(u, c)
    requires ParseLoop(u, Fresh((p.Bytes(u, c) + more)[d..])) == Parsed(ms, Fresh([]))
    ensures 0 < n <= |more| && ParseLoop(u, Fresh(more[n..])) == Parsed(ms[1..], Fresh([]))
  {
    hide *;
    hide Printed.Bytes, Printed.Ready, Printed.All, Printed.Order, Printed.Line, Printed.Body, Printed.With, Printed.Received;
    var end, block, middle := HeadOfMessage(u, c, p, (p.Bytes(u, c) + more)[d..], ms);
    HeadEndsBeyond(u, c, p, d, more, end, block, middle);
    n := d + end + 2 + block + 4 + |p.Body()| - |p.Bytes(u, c)|;
    EndsOfWhole(p.Bytes(u, c), more, d, end, block, |p.Body()|);
  }

  // The bytes taken for the headers and the body.
  lemma BehindHeaders(u: Unicode, st: State) returns (taken: nat)
    requires Find(CRLF2, st.buffer).Some? && Consistent(HeadersRead(u, st)) && BodyArrived(HeadersRead(u, st))
    ensures 4 <= taken <= |st.buffer| && BehindBody(HeadersRead(u, st)).buffer == st.buffer[taken..]
  {
    hide AddHeaders, ScanLines, ApplyHeaders, BodyArrived, BehindBody, Consistent, Find;
    var end := Find(CRLF2, st.buffer).value;
    var st1 := HeadersRead(u, st);
    assert st1.buffer == st.buffer[end + 4..];
    hide HeadersRead;
    var body := BodyBytes(st1);
    taken := end + 4 + body;
    RestOfRest(st.buffer, end + 4, body);
  }

  lemma RestOfRest(b: bytes, i: nat, j: nat)
    requires i + j <= |b|
    ensures b[i..][j..] == b[i + j..]
  {
  }

  lemma BodyBytes(st: State) returns (n: nat)
    requires Consistent(st) && BodyArrived(st)
    ensures n <= |st.buffer| && BehindBody(st).buffer == st.buffer[n..]
  {
    hide DecodeChunks;
    n := if st.phase == Complete then 0
         else if st.phase == FixedBody then st.contentLength
         else DecodeChunks(st.buffer).consumed;
  }

  /** A message without headers that is delivered first has taken bytes of what follows it. */
  lemma HeaderlessTakes(u: Unicode, c: Printer, p: Printed, more: bytes, ms: seq<Message>) returns (n: nat)
    requires p.Ready(u, c) && p.All(c) == map[] && ms != []
    requires ParseLoop(u, Fresh(p.Bytes(u, c) + more)) == Parsed(ms, Fresh([]))
    ensures 0 < n <= |more| && ParseLoop(u, Fresh(more[n..])) == Parsed(ms[1..], Fresh([]))
  {
    HeaderlessDecided(u, c, p, more);
    var st := p.Opened(CRLF + more);
    OpenedIsConsistent(p, CRLF + more);
    HeadersDecide(u, st);
    hide *;
    hide Printed.Opened, Printed.Bytes;
    var st1 := HeadersRead(u, st);
    var next := BehindBody(st1);
    FirstOfTwo(Completed(next).value, ParseLoop(u, Fresh(next.buffer)), ms);
    var taken := BehindHeaders(u, st);
    n := taken - 2;
    BehindLineEnd(more, taken);
  }

  lemma BehindLineEnd(more: bytes, taken: nat)
    requires 2 <= taken <= |CRLF + more|
    ensures (CRLF + more)[taken..] == more[taken - 2..]
  {
  }
}

/**
 Which lists of printed messages the parser reads back, decided by what the sender can see: whether every message has
 headers, whether the bodies fit, and, for streams cut in every way, how long the first lines and header blocks are.
 */
module HttpChunkings {
  import opened Bytes
  import opened HttpText
  import opened HttpMachine
  import opened HttpTheorems
  import opened HttpLimits
  import opened HttpBuilder
  import opened HttpRoundTrip
  import opened HttpPipeline
  import opened HttpSuffixes
  import opened Wrappers

  ghost predicate AllReady(u: Unicode, c: Printer, sent: seq<Printed>) {
    forall p :: p in sent ==> p.Ready(u, c)
  }

  ghost function Stream(u: Unicode, c: Printer, sent: seq<Printed>): bytes
    requires AllReady(u, c, sent)
  {
    if sent == [] then []
    else
      assert sent[0] in sent;
      sent[0].Bytes(u, c) + Stream(u, c, sent[1..])
  }

  ghost function Expected(u: Unicode, c: Printer, sent: seq<Printed>): seq<Message>
    requires AllReady(u, c, sent)
  {
    if sent == [] then []
    else
      assert sent[0] in sent;
      [sent[0].Received(u, c)] + Expected(u, c, sent[1..])
  }

  /** The message has headers, and its body is within the parser's limit. */
  predicate IsDelivered(c: Printer, p: Printed) {
    p.All(c) != map[] && |p.Body()| <= 10485760
  }

  // The whole stream is read back, message by message.
  ghost predicate ReadBack(u: Unicode, c: Printer, sent: seq<Printed>)
    requires AllReady(u, c, sent)
  {
    ParseLoop(u, Fresh(Stream(u, c, sent))) == Parsed(Expected(u, c, sent), Fresh([]))
  }

  lemma PrependIs(m: Message, o: Outcome, ms: seq<Message>, st: State)
    requires ms != []
    ensures Prepend([m], o) == Parsed(ms, st) <==> ms[0] == m && o == Parsed(ms[1..], st)
  {
    if o.Parsed? {
      assert ([m] + o.messages)[1..] == o.messages;
      assert ms == [ms[0]] + ms[1..];
    }
  }

  lemma FirstReceived(u: Unicode, c: Printer, sent: seq<Printed>)
    requires AllReady(u, c, sent) && sent != []
    ensures sent[0].Ready(u, c) && AllReady(u, c, sent[1..])
    ensures Expected(u, c, sent) != [] && Expected(u, c, sent)[0] == sent[0].Received(u, c)
    ensures Expected(u, c, sent)[1..] == Expected(u, c, sent[1..])
    ensures GoodHeaders(u, sent[0].All(c)) && HeadersOf(Expected(u, c, sent)[0]) == Lowered(u, sent[0].All(c))
  {
    assert sent[0] in sent;
    ReceivedIs(u, c, sent[0]);
  }

  // ----- In one piece -----

  /** A stream read from anywhere behind its first byte does not deliver what was sent. */
  lemma {:induction false} SuffixIsNotReadBack(u: Unicode, c: Printer, sent: seq<Printed>, d: nat)
    requires AllReady(u, c, sent) && 0 < d <= |Stream(u, c, sent)|
    ensures ParseLoop(u, Fresh(Stream(u, c, sent)[d..])) != Parsed(Expected(u, c, sent), Fresh([]))
    decreases |sent|
  {
    FirstReceived(u, c, sent);
    var expected := Expected(u, c, sent);
    var more := Stream(u, c, sent[1..]);
    hide ParseLoop, Expected;
    if ParseLoop(u, Fresh(Stream(u, c, sent)[d..])) == Parsed(expected, Fresh([])) {
      var n := ReadPastEnd(u, c, sent[0], d, more, expected);
      SuffixIsNotReadBack(u, c, sent[1..], n);
    }
  }

  lemma EmptyStream(u: Unicode, c: Printer, sent: seq<Printed>)
    requires sent == [] && AllReady(u, c, sent)
    ensures ParseLoop(u, Fresh(Stream(u, c, sent))) == Parsed([], Fresh([]))
    ensures Expected(u, c, sent) == []
  {
    NothingToRead(u, Fresh([]));
  }

  /**
   A list of printed requests and responses sent back to back is read back as it is, with nothing left over, if and only if
   every message has headers and a body within the limit.
   */
  lemma {:induction false} ReadBackIff(u: Unicode, c: Printer, sent: seq<Printed>)
    requires AllReady(u, c, sent)
    ensures ReadBack(u, c, sent) <==> forall p :: p in sent ==> IsDelivered(c, p)
    decreases |sent|
  {
    hide ReadBack, Lowered;
    if sent == [] {
      EmptyIsReadBack(u, c, sent);
    } else {
      assert sent[0] in sent && sent == [sent[0]] + sent[1..];
      FirstReceived(u, c, sent);
      ReadBackIff(u, c, sent[1..]);
      if sent[0].All(c) == map[] {
        HeaderlessNotReadBack(u, c, sent);
      } else {
        HeadedReadBack(u, c, sent);
      }
    }
  }

  lemma EmptyIsReadBack(u: Unicode, c: Printer, sent: seq<Printed>)
    requires sent == [] && AllReady(u, c, sent)
    ensures ReadBack(u, c, sent)
  {
    hide ParseLoop, Stream, Expected;
    EmptyStream(u, c, sent);
  }

  // A first message without headers takes at least two bytes from what follows.
  lemma HeaderlessNotReadBack(u: Unicode, c: Printer, sent: seq<Printed>)
    requires AllReady(u, c, sent) && sent != [] && sent[0].All(c) == map[]
    ensures !ReadBack(u, c, sent)
  {
    FirstReceived(u, c, sent);
    var expected, more := Expected(u, c, sent), Stream(u, c, sent[1..]);
    HeaderlessDecided(u, c, sent[0], more);
    if ReadBack(u, c, sent) {
      var n := HeaderlessTakes(u, c, sent[0], more, expected);
      SuffixIsNotReadBack(u, c, sent[1..], n);
    }
  }

  lemma HeadedReadBack(u: Unicode, c: Printer, sent: seq<Printed>)
    requires AllReady(u, c, sent) && sent != [] && sent[0].All(c) != map[] && AllReady(u, c, sent[1..])
    ensures ReadBack(u, c, sent) <==> |sent[0].Body()| <= MAX_BODY_SIZE && ReadBack(u, c, sent[1..])
  {
    hide ParseLoop, Expected, HeadersOf, Lowered;
    var p, tail := sent[0], Stream(u, c, sent[1..]);
    FirstReceived(u, c, sent);
    var received := Expected(u, c, sent);
    HeadedIsRead(u, c, p, tail);
    if |p.Body()| <= MAX_BODY_SIZE {
      PrependIs(p.Received(u, c), ParseLoop(u, Fresh(tail)), received, Fresh([]));
    } else {
      WithHas(p, Lowered(u, p.All(c)), []);
      ReceivedIs(u, c, p);
      PrependIs(p.With(Lowered(u, p.All(c)), []), ParseLoop(u, Fresh(p.Body() + tail)), received, Fresh([]));
    }
  }

  // ----- Cut in every way -----

  /** The bytes of the header lines, without the blank line behind them. */
  ghost function Block(u: Unicode, c: Printer, p: Printed): bytes
    requires p.Ready(u, c)
  {
    Shape(u, c, p);
    JoinLines(HeaderLinesOf(p.All(c), p.Order()))
  }

  /** First line and header block can be waited for: their bytes up to the last one of the line end are within the limits. */
  ghost predicate LinesFit(u: Unicode, c: Printer, p: Printed)
    requires p.Ready(u, c)
  {
    |p.Line()| + 1 <= 8192 && |Block(u, c, p)| + 1 <= 8192
  }

  lemma WithinStep(u: Unicode, st: State)
    requires ParseNext(u, st).Step? && ParseNext(u, st).consumed > 0
    ensures WithinLimits(u, st) <==> LimitOk(st) && WithinLimits(u, Advance(ParseNext(u, st)))
  {
    hide ParseNext, LimitOk;
  }

  lemma WithinComplete(u: Unicode, st: State)
    requires st.phase == Complete && Completed(st).Some?
    ensures WithinLimits(u, st) <==> WithinLimits(u, Fresh(st.buffer))
  {
    assert Advance(ParseNext(u, st)) == Fresh(st.buffer);
    if st.buffer == [] {
      FreshWithinLimits(u, Fresh(st.buffer));
    }
  }

  lemma LineWithin(u: Unicode, c: Printer, p: Printed, more: bytes)
    requires p.Ready(u, c)
    ensures WithinLimits(u, Fresh(p.Line() + CRLF + more)) <==>
            |p.Line()| + 1 <= MAX_REQUEST_LINE && WithinLimits(u, p.Opened(more))
  {
    var line, buf := p.Line(), p.Line() + CRLF + more;
    LineEnds(u, c, p, more);
    LineIsRead(u, c, p, more);
    AdvanceOpened(p, buf, |line| + 2);
    BehindBlock(line, more);
    hide *;
    hide Printed.Opened, Printed.Line;
    FirstLineWithin(u, line, more, p.Opened(buf));
  }

  lemma LineEnds(u: Unicode, c: Printer, p: Printed, more: bytes)
    requires p.Ready(u, c)
    ensures Find(CRLF, p.Line() + CRLF + more) == Some(|p.Line()|)
  {
    Shape(u, c, p);
    FindLineEnd(p.Line(), more);
  }

  lemma FirstLineWithin(u: Unicode, line: bytes, more: bytes, st: State)
    requires Find(CRLF, line + CRLF + more) == Some(|line|)
    requires ParseRequestLine(Fresh(line + CRLF + more)) == Step(st, None, |line| + 2)
    requires st.buffer == line + CRLF + more
    ensures WithinLimits(u, Fresh(line + CRLF + more)) <==>
            |line| + 1 <= MAX_REQUEST_LINE && WithinLimits(u, st.(buffer := st.buffer[|line| + 2..]))
  {
    var buf := line + CRLF + more;
    StepInLine(u, buf);
    hide WithinLimits, Find, ParseRequestLine, ParseNext;
    WithinStep(u, Fresh(buf));
  }

  lemma StepInLine(u: Unicode, buf: bytes)
    requires buf != []
    ensures ParseNext(u, Fresh(buf)) == ParseRequestLine(Fresh(buf))
  {
  }

  lemma AdvanceOpened(p: Printed, buf: bytes, n: nat)
    requires n <= |buf|
    ensures p.Opened(buf).(buffer := buf[n..]) == p.Opened(buf[n..])
  {
  }

  lemma BlockWithin(u: Unicode, p: Printed, h: Headers, order: seq<bytes>, rest: bytes)
    requires GoodHeaders(u, h) && Enumerates(order, h) && h != map[]
    ensures var block := JoinLines(HeaderLinesOf(h, order));
            WithinLimits(u, p.Opened(block + CRLF + rest)) <==>
            |block| + 1 <= MAX_HEADER_SIZE && WithinLimits(u, ApplyHeaders(p.Opened(rest), Lowered(u, h)))
  {
    var block := JoinLines(HeaderLinesOf(h, order));
    var buf := block + CRLF + rest;
    OpenedIsConsistent(p, buf);
    OpenedKeepsBuffer(p, buf, rest, Lowered(u, h));
    hide *;
    hide Printed.Opened;
    StateWithin(u, p.Opened(buf), h, order, rest);
  }

  lemma StateWithin(u: Unicode, st: State, h: Headers, order: seq<bytes>, rest: bytes)
    requires GoodHeaders(u, h) && Enumerates(order, h) && h != map[]
    requires st.phase == HeaderLines && st.buffer == JoinLines(HeaderLinesOf(h, order)) + CRLF + rest
    ensures WithinLimits(u, st) <==>
            |JoinLines(HeaderLinesOf(h, order))| + 1 <= MAX_HEADER_SIZE
            && WithinLimits(u, ApplyHeaders(st, Lowered(u, h)).(buffer := rest))
  {
    hide GoodHeaders, HeaderLinesOf, JoinLines, Lowered, ApplyHeaders, WithinLimits, Find, ParseHeaderLines;
    HeaderBlockIsRead(u, st, h, order, rest);
    BlockEnds(u, h, order, rest);
    HeadersWithin(u, st, Lowered(u, h), JoinLines(HeaderLinesOf(h, order)), rest);
  }

  lemma BlockEnds(u: Unicode, h: Headers, order: seq<bytes>, rest: bytes)
    requires GoodHeaders(u, h) && Enumerates(order, h) && h != map[]
    ensures var block := JoinLines(HeaderLinesOf(h, order));
            |block| >= 2 && Find(CRLF2, block + CRLF + rest) == Some(|block| - 2)
  {
    hide GoodHeaders, Find;
    OrderNotEmpty(h, order);
    HeaderLinesAreGood(u, h, order);
    FirstHeaderLine(h, order);
    HeaderEndIsFound(HeaderLinesOf(h, order), rest);
  }

  lemma HeadersWithin(u: Unicode, st: State, l: Headers, block: bytes, rest: bytes)
    requires st.phase == HeaderLines && st.buffer == block + CRLF + rest && |block| >= 2
    requires Find(CRLF2, st.buffer) == Some(|block| - 2)
    requires ParseHeaderLines(u, st) == Step(ApplyHeaders(st, l), None, |block| + 2)
    ensures WithinLimits(u, st) <==>
            |block| + 1 <= MAX_HEADER_SIZE && WithinLimits(u, ApplyHeaders(st, l).(buffer := rest))
  {
    StepInHeaders(u, st);
    BehindBlock(block, rest);
    ApplyKeepsBuffer(st, l);
    hide WithinLimits, Find, ApplyHeaders, ParseHeaderLines, ParseNext;
    WithinStep(u, st);
  }

  lemma ApplyKeepsBuffer(st: State, l: Headers)
    ensures ApplyHeaders(st, l).buffer == st.buffer
  {
    hide SetRequestHeaders, SetResponseHeaders, DeclaredLength, Get;
  }

  lemma StepInHeaders(u: Unicode, st: State)
    requires st.phase == HeaderLines && st.buffer != []
    ensures ParseNext(u, st) == ParseHeaderLines(u, st)
  {
  }

  lemma BehindBlock(block: bytes, rest: bytes)
    ensures (block + CRLF + rest)[|block| + 2..] == rest
  {
  }

  lemma BodyWithin(u: Unicode, p: Printed, h: Headers, body: bytes, more: bytes)
    requires DeclaresBody(h, body) && |body| <= MAX_BODY_SIZE
    ensures WithinLimits(u, ApplyHeaders(p.Opened(body + more), h)) <==> WithinLimits(u, Fresh(more))
  {
    hide WithinLimits, SetRequestHeaders, SetResponseHeaders, NewRequest, NewResponse, DeclaredLength, Get, StatusName;
    var st := ApplyHeaders(p.Opened(body + more), h);
    if body != [] {
      assert st.phase == FixedBody && st.contentLength == |body|;
      assert (body + more)[|body|..] == more;
      WithinStep(u, st);
      WithinComplete(u, Advance(ParseNext(u, st)));
    } else {
      assert st.phase == Complete && body + more == more;
      WithinComplete(u, st);
    }
  }

  lemma MessageWithin(u: Unicode, c: Printer, p: Printed, more: bytes)
    requires p.Ready(u, c) && IsDelivered(c, p)
    ensures WithinLimits(u, Fresh(p.Bytes(u, c) + more)) <==> LinesFit(u, c, p) && WithinLimits(u, Fresh(more))
  {
    Shape(u, c, p);
    ReceivedIs(u, c, p);
    var block := Block(u, c, p);
    LineWithin(u, c, p, block + CRLF + (p.Body() + more));
    BlockWithin(u, p, p.All(c), p.Order(), p.Body() + more);
    BodyWithin(u, p, Lowered(u, p.All(c)), p.Body(), more);
    Reassociate(p.Line(), block, p.Body(), more);
    hide WithinLimits, ApplyHeaders, Lowered, GoodHeaders, DeclaresBody, HeaderLinesOf, JoinLines, Enumerates;
  }

  lemma Reassociate(line: bytes, block: bytes, body: bytes, more: bytes)
    ensures line + CRLF + block + CRLF + body + more == line + CRLF + (block + CRLF + (body + more))
  {
  }

  /** The limits of a stream of delivered messages, in what the sender can measure. */
  lemma {:induction false} StreamWithin(u: Unicode, c: Printer, sent: seq<Printed>)
    requires AllReady(u, c, sent) && forall p :: p in sent ==> IsDelivered(c, p)
    ensures WithinLimits(u, Fresh(Stream(u, c, sent))) <==> forall p :: p in sent ==> LinesFit(u, c, p)
    decreases |sent|
  {
    hide WithinLimits, IsDelivered, LinesFit, Expected, HeadersOf, Lowered, GoodHeaders;
    if sent == [] {
      FreshWithinLimits(u, Fresh([]));
    } else {
      assert sent[0] in sent && sent == [sent[0]] + sent[1..];
      FirstReceived(u, c, sent);
      StreamWithin(u, c, sent[1..]);
      MessageWithin(u, c, sent[0], Stream(u, c, sent[1..]));
    }
  }

  /** However the stream is cut into chunks, the run of Parse calls reads the messages back. */
  ghost predicate ReadBackCut(u: Unicode, c: Printer, sent: seq<Printed>, chunks: seq<bytes>)
    requires AllReady(u, c, sent)
  {
    ParseRun(u, chunks, Fresh([])) == Parsed(Expected(u, c, sent), Fresh([]))
  }

  lemma FreshIsSettled(u: Unicode)
    ensures Settled(u, Fresh([])) && Consistent(Fresh([]))
  {
  }

  lemma FeedFresh(stream: bytes)
    ensures Feed(Fresh([]), stream) == Fresh(stream)
  {
    assert [] + stream == stream;
  }

  lemma FlattenOne(stream: bytes)
    ensures Flatten([stream]) == stream
  {
    var one: seq<bytes> := [stream];
    assert one[1..] == [] && Flatten(one) == stream + Flatten(one[1..]);
  }

  // A run that reads the messages back shows that the whole does.
  lemma CutMeansWhole(u: Unicode, c: Printer, sent: seq<Printed>, chunks: seq<bytes>)
    requires AllReady(u, c, sent) && Flatten(chunks) == Stream(u, c, sent) && ReadBackCut(u, c, sent, chunks)
    ensures ReadBack(u, c, sent)
  {
    hide ParseLoop, ParseRun, Stream, Expected, Settled;
    FreshIsSettled(u);
    FeedFresh(Stream(u, c, sent));
    RunEqualsOneParse(u, chunks, Fresh([]));
  }

  // When the whole is read back, a run that accepts its chunks reads it back.
  lemma WholeMeansCut(u: Unicode, c: Printer, sent: seq<Printed>, chunks: seq<bytes>)
    requires AllReady(u, c, sent) && Flatten(chunks) == Stream(u, c, sent) && ReadBack(u, c, sent)
    ensures ReadBackCut(u, c, sent, chunks) <==> ParseRun(u, chunks, Fresh([])).Parsed?
  {
    hide ParseLoop, ParseRun, Stream, Expected, Settled;
    FreshIsSettled(u);
    FeedFresh(Stream(u, c, sent));
    if ParseRun(u, chunks, Fresh([])).Parsed? {
      RunEqualsOneParse(u, chunks, Fresh([]));
    }
  }

  /**
   A list of printed messages sent back to back is read back however the stream is cut if and only if every message has
   headers, a body within the limit, and a first line and a header block within theirs.
   */
  lemma EveryCutReadBackIff(u: Unicode, c: Printer, sent: seq<Printed>)
    requires AllReady(u, c, sent)
    ensures (forall chunks :: Flatten(chunks) == Stream(u, c, sent) ==> ReadBackCut(u, c, sent, chunks))
            <==> forall p :: p in sent ==> IsDelivered(c, p) && LinesFit(u, c, p)
  {
    hide ParseLoop, ParseRun, Stream, Expected, Flatten, ReadBackCut, IsDelivered, LinesFit;
    if forall p :: p in sent ==> IsDelivered(c, p) && LinesFit(u, c, p) {
      forall chunks | Flatten(chunks) == Stream(u, c, sent)
        ensures ReadBackCut(u, c, sent, chunks)
      {
        FittingIsReadBack(u, c, sent, chunks);
      }
    } else {
      var chunks := LosingCut(u, c, sent);
    }
  }

  lemma FittingIsReadBack(u: Unicode, c: Printer, sent: seq<Printed>, chunks: seq<bytes>)
    requires AllReady(u, c, sent) && Flatten(chunks) == Stream(u, c, sent)
    requires forall p :: p in sent ==> IsDelivered(c, p) && LinesFit(u, c, p)
    ensures ReadBackCut(u, c, sent, chunks)
  {
    ReadBackIff(u, c, sent);
    StreamWithin(u, c, sent);
    FreshIsSettled(u);
    FeedFresh(Stream(u, c, sent));
    WholeMeansCut(u, c, sent, chunks);
    hide ParseLoop, ParseRun, Stream, Expected, WithinLimits, Flatten;
    EveryCutAccepted(u, Fresh([]), Stream(u, c, sent));
  }

  lemma LosingCut(u: Unicode, c: Printer, sent: seq<Printed>) returns (chunks: seq<bytes>)
    requires AllReady(u, c, sent)
    requires exists p :: p in sent && !(IsDelivered(c, p) && LinesFit(u, c, p))
    ensures Flatten(chunks) == Stream(u, c, sent) && !ReadBackCut(u, c, sent, chunks)
  {
    var stream := Stream(u, c, sent);
    ReadBackIff(u, c, sent);
    FreshIsSettled(u);
    FeedFresh(stream);
    hide ParseLoop, ParseRun, Stream, Expected, WithinLimits, Flatten, ReadBackCut, IsDelivered, LinesFit;
    if ReadBack(u, c, sent) {
      StreamWithin(u, c, sent);
      EveryCutAccepted(u, Fresh([]), stream);
      chunks :| Flatten(chunks) == stream && !ParseRun(u, chunks, Fresh([])).Parsed?;
      WholeMeansCut(u, c, sent, chunks);
    } else {
      chunks := [stream];
      FlattenOne(stream);
      if ReadBackCut(u, c, sent, chunks) {
        CutMeansWhole(u, c, sent, chunks);
      }
    }
  }
}

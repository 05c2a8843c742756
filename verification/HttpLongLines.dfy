/** Messages whose first line is over the parser's limit: read back in one piece, rejected when cut inside that line. */
module HttpLongLines {
  import opened Bytes
  import opened HttpText
  import opened HttpMachine
  import opened HttpTheorems
  import opened HttpLimits
  import opened HttpBuilder
  import opened HttpRoundTrip
  import opened HttpPipeline
  import opened HttpChunkings
  import opened Wrappers

  /**
   A message whose first line is over the limit is delivered when it comes in one piece, and rejected when it is cut right
   before the last byte of that line's end.
   */
  lemma LongLineIsCut(u: Unicode, c: Printer, p: Printed)
    requires p.Ready(u, c) && IsDelivered(c, p) && |p.Line()| + 1 > 8192
    ensures ParseLoop(u, Fresh(p.Bytes(u, c))) == Parsed([p.Received(u, c)], Fresh([]))
    ensures var chunks := CutAt(p.Bytes(u, c), |p.Line()| + 1);
            && Flatten(chunks) == p.Bytes(u, c)
            && ParseRun(u, chunks, Fresh([])) == Rejected(RequestLineTooLong, Fresh(chunks[0]))
  {
    Shape(u, c, p);
    WholeIsRead(u, c, p);
    LongStreamIsCut(u, p.Line(), JoinLines(HeaderLinesOf(p.All(c), p.Order())), p.Body(), p.Bytes(u, c));
    hide *;
  }

  /** The stream in two chunks, cut behind the k-th byte. */
  function CutAt(stream: bytes, k: nat): (chunks: seq<bytes>)
    ensures chunks != []
  {
    if k <= |stream| then [stream[..k], stream[k..]] else [stream]
  }

  lemma CutAtKeeps(stream: bytes, k: nat)
    ensures Flatten(CutAt(stream, k)) == stream
  {
    if k <= |stream| {
      FlattenTwo(stream[..k], stream[k..]);
      assert stream[..k] + stream[k..] == stream;
    } else {
      FlattenOne(stream);
    }
  }

  lemma LongStreamIsCut(u: Unicode, line: bytes, block: bytes, body: bytes, stream: bytes)
    requires CR !in line && |line| + 1 > MAX_REQUEST_LINE && stream == line + CRLF + block + CRLF + body
    ensures var chunks := CutAt(stream, |line| + 1);
            Flatten(chunks) == stream && ParseRun(u, chunks, Fresh([])) == Rejected(RequestLineTooLong, Fresh(chunks[0]))
  {
    hide ParseRun, ParseLoop;
    CutAtKeeps(stream, |line| + 1);
    var tail := block + CRLF + body;
    Tail(line, block, body);
    LongLineWaits(u, line, tail, stream);
    CutStops(u, stream, |line| + 1);
  }

  lemma Tail(line: bytes, block: bytes, body: bytes)
    ensures line + CRLF + block + CRLF + body == line + CRLF + (block + CRLF + body)
    ensures |line| + 1 <= |line + CRLF + block + CRLF + body|
  {
  }

  lemma WholeIsRead(u: Unicode, c: Printer, p: Printed)
    requires p.Ready(u, c) && IsDelivered(c, p)
    ensures ParseLoop(u, Fresh(p.Bytes(u, c))) == Parsed([p.Received(u, c)], Fresh([]))
  {
    HeadedIsRead(u, c, p, []);
    NothingToRead(u, Fresh([]));
    hide *;
    NothingBehind(p.Bytes(u, c));
    OnlyOne(p.Received(u, c));
  }

  lemma NothingBehind(stream: bytes)
    ensures stream + [] == stream
  {
  }

  lemma OnlyOne(m: Message)
    ensures Prepend([m], Parsed([], Fresh([]))) == Parsed([m], Fresh([]))
  {
  }

  lemma CutStops(u: Unicode, stream: bytes, k: nat)
    requires k <= |stream| && ParseLoop(u, Fresh(stream[..k])).Rejected?
    ensures ParseRun(u, [stream[..k], stream[k..]], Fresh([])) == ParseLoop(u, Fresh(stream[..k]))
  {
    hide ParseLoop;
    FeedFresh(stream[..k]);
    var chunks: seq<bytes> := [stream[..k], stream[k..]];
    assert chunks[0] == stream[..k];
  }

  lemma LongLineWaits(u: Unicode, line: bytes, tail: bytes, stream: bytes)
    requires CR !in line && |line| + 1 > MAX_REQUEST_LINE && stream == line + CRLF + tail
    ensures ParseLoop(u, Fresh(stream[..|line| + 1])) == Rejected(RequestLineTooLong, Fresh(stream[..|line| + 1]))
  {
    hide Find;
    FindLineEnd(line, tail);
    var start := stream[..|line| + 1];
    assert start + stream[|line| + 1..] == stream;
    FindInPrefix(CRLF, start, stream[|line| + 1..]);
    LongStartIsRejected(u, start);
  }

  lemma LongStartIsRejected(u: Unicode, start: bytes)
    requires |start| > MAX_REQUEST_LINE && Find(CRLF, start).None?
    ensures ParseLoop(u, Fresh(start)) == Rejected(RequestLineTooLong, Fresh(start))
  {
    hide Find;
  }

  const LONG_PATH := [SLASH[0]] + seq(8192, _ => 97)
  const HOST_NAME := Str("Host")

  const LONG_REQUEST := PrintedRequest(Sent(GET, LONG_PATH, map[HOST_NAME := SLASH], [], [HOST_NAME]))

  /** There are such messages: a GET of a path of 8193 bytes is delivered in one piece, and rejected cut in two. */
  lemma LongPathIsCut(u: Unicode)
    ensures var (c, p) := (Printer(false, []), LONG_REQUEST);
            && p.Ready(u, c)
            && ParseLoop(u, Fresh(p.Bytes(u, c))) == Parsed([p.Received(u, c)], Fresh([]))
            && var chunks := CutAt(p.Bytes(u, c), |p.Line()| + 1);
               && Flatten(chunks) == p.Bytes(u, c)
               && ParseRun(u, chunks, Fresh([])) == Rejected(RequestLineTooLong, Fresh(chunks[0]))
  {
    LongRequestIsReady(u);
    hide *;
    hide LONG_REQUEST;
    LongLineIsCut(u, Printer(false, []), LONG_REQUEST);
  }

  lemma LongRequestIsReady(u: Unicode)
    ensures var c := Printer(false, []);
            LONG_REQUEST.Ready(u, c) && IsDelivered(c, LONG_REQUEST) && |LONG_REQUEST.Line()| + 1 > 8192
  {
    HostIsGood(u);
    LongStartIsGood();
    hide GoodHeaders, GoodStart, DeclaresBody, Lowered, StartLine, Str, LONG_PATH, GET;
    assert HOST_NAME in LONG_REQUEST.All(Printer(false, []));
  }

  lemma LongStartIsGood()
    ensures GoodStart(GET, LONG_PATH) && LONG_PATH != [] && GET != []
    ensures |StartLine(GET, LONG_PATH)| > MAX_REQUEST_LINE
  {
  }

  lemma HostIsGood(u: Unicode)
    ensures var headers: Headers := map[HOST_NAME := SLASH];
            GoodHeaders(u, headers) && DeclaresBody(Lowered(u, headers), [])
  {
    AsciiHeaderIsGood(u, HOST_NAME, SLASH);
    HostIsHost(u);
    NothingDeclared();
    hide ToLower, GoodHeader, ParseInt, Str;
    var headers: Headers := map[HOST_NAME := SLASH];
    assert Get(Lowered(u, headers), CONTENT_LENGTH) == [] && Get(Lowered(u, headers), TRANSFER_ENCODING) == [];
  }

  lemma HostIsHost(u: Unicode)
    ensures ToLower(u, HOST_NAME) == HOST && HOST != CONTENT_LENGTH && HOST != TRANSFER_ENCODING
  {
    assert |HOST| == 4 && |CONTENT_LENGTH| == 14 && |TRANSFER_ENCODING| == 17;
  }
}

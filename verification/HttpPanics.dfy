/**
 Where the parser makes Go's make panic: only on the size lines of a chunked body, and exactly on sizes that are negative
 but pass the length check, or so large that adding two wraps around.
 */
module HttpPanics {
  import opened Bytes
  import opened HttpText
  import opened HttpMachine
  import opened HttpTheorems
  import opened HttpChunked
  import opened HttpBuilder
  import opened HttpRoundTrip
  import opened Wrappers

  // ----- Only in a chunked body -----

  predicate BodyPanics(buf: bytes) {
    DecodeChunks(buf) == ChunkFault(RuntimePanic)
  }

  /** From a state the parser can be in, a step panics if and only if it decodes a chunked body that does. */
  lemma OnlyChunksPanic(u: Unicode, st: State)
    requires Consistent(st)
    ensures var r := ParseNext(u, st);
            r.Fault? && r.error == RuntimePanic <==> st.phase == ChunkedBody && BodyPanics(st.buffer)
  {
    hide DecodeChunks, Find, SplitN, ParseInt, NewRequest, NewResponse, AddHeaders, ScanLines, ApplyHeaders;
    assert BodyPanics([]) ==> false by {
      EmptyBodyWaits();
    }
  }

  lemma EmptyBodyWaits()
    ensures DecodeChunks([]) == ChunkWait
  {
  }

  /** A call that panics does so in a chunked body. */
  lemma {:induction false} LoopPanicsInChunks(u: Unicode, st: State)
    requires Consistent(st) && ParseLoop(u, st).Rejected? && ParseLoop(u, st).error == RuntimePanic
    ensures var st' := ParseLoop(u, st).st; st'.phase == ChunkedBody && BodyPanics(st'.buffer)
    decreases |st.buffer|, if st.phase in {Complete, FixedBody} then 1 else 0
  {
    OnlyChunksPanic(u, st);
    FaultKeepsState(u, st);
    hide ParseNext, BodyPanics;
    var r := ParseNext(u, st);
    if r.Step? {
      StepKeepsConsistent(u, st);
      LoopPanicsInChunks(u, Advance(r));
    }
  }

  lemma FaultKeepsState(u: Unicode, st: State)
    ensures var r := ParseNext(u, st); r.Fault? && r.error == RuntimePanic && st.phase == ChunkedBody ==> r.st == st
  {
    hide DecodeChunks;
  }

  // ----- On which chunked bodies -----

  /**
   Behind any complete chunks, a size line declaring n with rest behind it makes the decoding panic if and only if the size
   is bad, or the chunk it opens is complete and what follows that chunk panics.
   */
  lemma {:induction false} SizeLineDecides(chunks: seq<Chunk>, line: bytes, n: int, rest: bytes)
    requires (forall c :: c in chunks ==> WellFramed(c)) && DeclaresSize(line, n)
    ensures BodyPanics(Frames(chunks) + (line + CRLF + rest)) <==>
            BadSize(n, |rest|) || (0 < n && n + 2 <= |rest| && BodyPanics(rest[n + 2..]))
    decreases |chunks|
  {
    hide ReadChunk, DeclaresSize, WellFramed;
    var tail := line + CRLF + rest;
    if chunks == [] {
      assert [] + tail == tail;
      SizeLineIsRead(line, n, rest);
      if 0 < n && n + 2 <= |rest| && !BadSize(n, |rest|) {
        assert tail[|line| + 2 + n + 2..] == rest[n + 2..];
      }
    } else {
      var c := chunks[0];
      assert c in chunks;
      FirstChunkPassed(c, Frames(chunks[1..]) + tail);
      assert Frames(chunks) + tail == c.line + CRLF + (c.data + c.tail + (Frames(chunks[1..]) + tail));
      SizeLineDecides(chunks[1..], line, n, rest);
    }
  }

  lemma FirstChunkPassed(c: Chunk, more: bytes)
    requires WellFramed(c)
    ensures BodyPanics(c.line + CRLF + (c.data + c.tail + more)) <==> BodyPanics(more)
  {
    hide ReadChunk, DeclaresSize;
    var rest := c.data + c.tail + more;
    SizeLineIsRead(c.line, |c.data|, rest);
    var buf := c.line + CRLF + rest;
    assert buf[|c.line| + 2 + |c.data| + 2..] == more;
  }

  /** Some complete chunks, then a size line with a bad size. */
  ghost predicate HasBadSize(buf: bytes) {
    exists chunks: seq<Chunk>, line: bytes, n: int, rest: bytes ::
      IsBadAt(buf, chunks, line, n, rest)
  }

  predicate IsBadAt(buf: bytes, chunks: seq<Chunk>, line: bytes, n: int, rest: bytes) {
    && buf == Frames(chunks) + (line + CRLF + rest) && (forall c :: c in chunks ==> WellFramed(c))
    && DeclaresSize(line, n) && BadSize(n, |rest|)
  }

  /** A chunked body makes the parser panic if and only if a bad size stands behind complete chunks. */
  lemma BodyPanicsIff(buf: bytes)
    ensures BodyPanics(buf) <==> HasBadSize(buf)
  {
    hide BodyPanics, IsBadAt;
    if BodyPanics(buf) {
      var chunks, line, n, rest := FindBadSize(buf);
    } else if HasBadSize(buf) {
      var chunks, line, n, rest :| IsBadAt(buf, chunks, line, n, rest);
      BadSizePanics(buf, chunks, line, n, rest);
    }
  }

  lemma BadSizePanics(buf: bytes, chunks: seq<Chunk>, line: bytes, n: int, rest: bytes)
    requires IsBadAt(buf, chunks, line, n, rest)
    ensures BodyPanics(buf)
  {
    hide BodyPanics;
    SizeLineDecides(chunks, line, n, rest);
  }

  lemma FirstRead(buf: bytes)
    requires BodyPanics(buf)
    ensures var r := ReadChunk(buf);
            r == HeadFault(RuntimePanic) || (r.OneChunk? && BodyPanics(buf[r.consumed..]))
  {
    hide ReadChunk;
  }

  // The size line is bad, or a complete chunk stands in front of a body that panics.
  lemma NextBody(line: bytes, n: int, behind: bytes)
    requires DeclaresSize(line, n) && BodyPanics(line + CRLF + behind) && !BadSize(n, |behind|)
    ensures 0 < n && n + 2 <= |behind| && n + 2 <= MAX_INT64 && BodyPanics(behind[n + 2..])
  {
    hide ReadChunk, BodyPanics, DeclaresSize, BadSize;
    FirstRead(line + CRLF + behind);
    GoodSizeIsRead(line, n, behind);
    BehindLine(line, behind, n + 2);
  }

  lemma GoodSizeIsRead(line: bytes, n: int, behind: bytes)
    requires DeclaresSize(line, n) && !BadSize(n, |behind|)
    requires var r := ReadChunk(line + CRLF + behind); r == HeadFault(RuntimePanic) || r.OneChunk?
    ensures 0 < n && n + 2 <= |behind| && n + 2 <= MAX_INT64
    ensures var r := ReadChunk(line + CRLF + behind); r.OneChunk? && r.consumed == |line| + 2 + (n + 2)
  {
    SizeLineIsRead(line, n, behind);
    hide ReadChunk, DeclaresSize;
  }

  lemma BehindLine(line: bytes, behind: bytes, k: int)
    requires 0 <= k <= |behind|
    ensures (line + CRLF + behind)[|line| + 2 + k..] == behind[k..]
  {
  }

  lemma {:induction false} FindBadSize(buf: bytes) returns (chunks: seq<Chunk>, line: bytes, n: int, rest: bytes)
    requires BodyPanics(buf)
    ensures IsBadAt(buf, chunks, line, n, rest)
    decreases |buf|
  {
    hide BodyPanics, DeclaresSize, ReadChunk;
    FirstRead(buf);
    line, n, rest := FirstLine(buf);
    chunks := [];
    if BadSize(n, |rest|) {
      assert [] + (line + CRLF + rest) == buf;
    } else {
      NextBody(line, n, rest);
      var c, more := Chunk(line, rest[..n], rest[n..n + 2]), rest[n + 2..];
      assert rest == c.data + c.tail + more;
      chunks, line, n, rest := FindBadSize(more);
      OneMoreFrame(buf, c, more, chunks, line, n, rest);
      chunks := [c] + chunks;
    }
  }

  lemma OneMoreFrame(
      buf: bytes, c: Chunk, more: bytes, later: seq<Chunk>, line: bytes, n: int, rest: bytes)
    requires WellFramed(c) && buf == c.line + CRLF + (c.data + c.tail + more)
    requires IsBadAt(more, later, line, n, rest)
    ensures IsBadAt(buf, [c] + later, line, n, rest)
  {
    hide DeclaresSize;
    var chunks := [c] + later;
    assert chunks[1..] == later && Frames(chunks) == c.line + CRLF + c.data + c.tail + Frames(later);
  }

  // ----- In a whole request -----

  /** A printed request that announces chunks and whose body panics makes the call panic. */
  lemma ChunkedRequestPanics(u: Unicode, m: bytes, path: bytes, all: Headers, order: seq<bytes>, body: bytes)
    requires GoodStart(m, path) && GoodHeaders(u, all) && Enumerates(order, all) && all != map[]
    requires Get(Lowered(u, all), TRANSFER_ENCODING) == CHUNKED && BodyPanics(body)
    ensures var o := ParseLoop(u, Fresh(RequestBytes(m, path, all, order, body)));
            o.Rejected? && o.error == RuntimePanic
  {
    EmptyBodyWaits();
    hide Lowered, GoodHeaders, GoodStart, RequestBytes, NewRequest, SetRequestHeaders, DeclaredLength, Get, DecodeChunks;
    HeadIsRead(u, m, path, all, order, body);
    var st := Fresh(body).(request := Some(NewRequest(m, path, VERSION)), phase := HeaderLines);
    var st1 := ApplyHeaders(st, Lowered(u, all));
    assert st1.phase == ChunkedBody && st1.buffer == body;
    assert ParseNext(u, st1) == Fault(RuntimePanic, st1);
  }

  const TRANSFER_ENCODING_NAME := Str("Transfer-Encoding")
  const MINUS_ONE := Str("-1\r\nx")

  /** A chunk size of minus one with a single byte behind it is enough. */
  lemma MinusOnePanics(u: Unicode)
    ensures BodyPanics(MINUS_ONE)
    ensures var o := ParseLoop(u, Fresh(RequestBytes(
              GET, SLASH, map[TRANSFER_ENCODING_NAME := CHUNKED], [TRANSFER_ENCODING_NAME], MINUS_ONE)));
            o.Rejected? && o.error == RuntimePanic
  {
    var name := TRANSFER_ENCODING_NAME;
    var headers: Headers := map[name := CHUNKED];
    MinusOneIsBad();
    ChunkedHeaderIsGood(u);
    GetStartIsGood();
    hide ToLower, GoodHeader, ParseLoop, BodyPanics, RequestBytes, Str, GoodStart;
    assert Lowered(u, headers)[TRANSFER_ENCODING] == CHUNKED by {
      assert name in headers.Keys;
    }
    assert Enumerates([name], headers);
    hide Lowered;
    ChunkedRequestPanics(u, GET, SLASH, headers, [name], MINUS_ONE);
  }

  lemma GetStartIsGood()
    ensures GoodStart(GET, SLASH)
  {
  }

  lemma ChunkedHeaderIsGood(u: Unicode)
    ensures GoodHeader(u, TRANSFER_ENCODING_NAME, CHUNKED)
    ensures ToLower(u, TRANSFER_ENCODING_NAME) == TRANSFER_ENCODING
  {
    AsciiHeaderIsGood(u, TRANSFER_ENCODING_NAME, CHUNKED);
  }

  lemma MinusOneIsBad()
    ensures BodyPanics(MINUS_ONE)
  {
    var line: bytes := [45, 49];
    var rest: bytes := [120];
    assert MINUS_ONE == line + CRLF + rest;
    MinusOneIsDeclared(line);
    hide ChunkSize, NoBreak;
    assert [] + (line + CRLF + rest) == line + CRLF + rest;
    SizeLineDecides([], line, -1, rest);
  }

  lemma MinusOneIsDeclared(line: bytes)
    requires line == [45, 49]
    ensures ChunkSize(line) == Some(-1) && NoBreak(line)
  {
    FindByteNowhere(59, line);
    assert Split(line, 59) == [line];
    assert line[1..] == [49] && DigitsValue([49], 16) == DigitsValue([], 16) * 16 + 1;
  }
}

/**
 The parser's line and header limits only bite when a stream is cut inside a long line: which streams are accepted
 however they are cut.
 */
module HttpLimits {
  import opened Bytes
  import opened HttpText
  import opened HttpMachine
  import opened HttpTheorems
  import opened HttpChunked
  import opened Wrappers

  // The line or header block that starts here can be cut anywhere without exceeding the limit.
  predicate LimitOk(st: State) {
    && (st.phase in {RequestLine, ResponseLine} ==>
          var end := Find(CRLF, st.buffer); end.Some? ==> end.value + 1 <= MAX_REQUEST_LINE)
    && (st.phase == HeaderLines ==>
          var end := Find(CRLF2, st.buffer); end.Some? ==> end.value + 3 <= MAX_HEADER_SIZE)
  }

  /** Every request line, status line and header block of the stream stays within its limit. */
  predicate WithinLimits(u: Unicode, st: State)
    decreases |st.buffer|, if st.phase in {Complete, FixedBody} then 1 else 0
  {
    var r := ParseNext(u, st);
    LimitOk(st)
    && (r.Step? && (r.consumed > 0 || (r.msg.Some? && st.buffer != [])) ==> WithinLimits(u, Advance(r)))
  }

  lemma {:induction false} ChunksFaultStays(buf: bytes, more: bytes)
    requires DecodeChunks(buf).ChunkFault?
    ensures DecodeChunks(buf + more) == DecodeChunks(buf)
  {
    ChunksIgnoreLaterBytes(buf, more);
  }

  // A step that fails on a prefix for another reason than a limit fails on the longer buffer too.
  lemma PrefixNoFault(u: Unicode, st: State, more: bytes)
    requires Consistent(st) && LimitOk(Feed(st, more)) && !ParseNext(u, Feed(st, more)).Fault?
    ensures !ParseNext(u, st).Fault?
  {
    hide Find, SplitN, ParseInt, NewRequest, NewResponse, DecodeChunks, AddHeaders, ScanLines, ApplyHeaders;
    match st.phase
    case Complete =>
    case RequestLine => LinePrefixNoFault(st, more);
    case ResponseLine => LinePrefixNoFault(st, more);
    case HeaderLines =>
      if Find(CRLF2, st.buffer).Some? {
        FindIgnoresLaterBytes(CRLF2, st.buffer, more);
      } else if Find(CRLF2, st.buffer + more).Some? {
        FindInPrefix(CRLF2, st.buffer, more);
      }
    case FixedBody =>
    case ChunkedBody =>
      if DecodeChunks(st.buffer).ChunkFault? {
        ChunksFaultStays(st.buffer, more);
      }
  }

  lemma LinePrefixNoFault(st: State, more: bytes)
    requires var end := Find(CRLF, st.buffer + more); end.Some? ==> end.value + 1 <= MAX_REQUEST_LINE
    ensures !ParseRequestLine(Feed(st, more)).Fault? ==> !ParseRequestLine(st).Fault?
    ensures !ParseResponseLine(Feed(st, more)).Fault? ==> !ParseResponseLine(st).Fault?
  {
    hide Find, SplitN, ParseInt, NewRequest, NewResponse;
    if Find(CRLF, st.buffer).Some? {
      FindIgnoresLaterBytes(CRLF, st.buffer, more);
      var end := Find(CRLF, st.buffer).value;
      assert (st.buffer + more)[..end] == st.buffer[..end];
    } else if Find(CRLF, st.buffer + more).Some? {
      FindInPrefix(CRLF, st.buffer, more);
    }
  }

  lemma {:induction false} PrefixAccepted(u: Unicode, st: State, more: bytes)
    requires Consistent(st) && ParseLoop(u, Feed(st, more)).Parsed? && WithinLimits(u, Feed(st, more))
    ensures ParseLoop(u, st).Parsed?
    ensures WithinLimits(u, Feed(ParseLoop(u, st).st, more))
    decreases |st.buffer|, if st.phase in {Complete, FixedBody} then 1 else 0
  {
    hide ParseNext, LimitOk;
    PrefixNoFault(u, st, more);
    var r := ParseNext(u, st);
    if r.Step? {
      StepKeepsConsistent(u, st);
      StepIgnoresLaterBytes(u, st, more);
      if r.consumed > 0 || (r.msg.Some? && st.buffer != []) {
        assert Feed(st, more).buffer[r.consumed..] == st.buffer[r.consumed..] + more;
        PrefixAccepted(u, Advance(r), more);
      } else {
        assert st.buffer + more == more;
        if more == [] {
          FreshWithinLimits(u, Feed(r.st, more));
        } else {
          assert Advance(ParseNext(u, Feed(st, more))) == Feed(r.st, more);
        }
      }
    }
  }

  lemma FreshWithinLimits(u: Unicode, st: State)
    requires st.buffer == [] && st.phase == RequestLine
    ensures WithinLimits(u, st)
  {
  }

  lemma {:induction false} CutsAccepted(u: Unicode, st: State, chunks: seq<bytes>)
    requires Consistent(st)
    requires ParseLoop(u, Feed(st, Flatten(chunks))).Parsed? && WithinLimits(u, Feed(st, Flatten(chunks)))
    ensures ParseRun(u, chunks, st).Parsed?
    decreases |chunks|
  {
    hide ParseLoop, WithinLimits;
    if chunks != [] {
      var rest := Flatten(chunks[1..]);
      var fed := Feed(st, chunks[0]);
      assert Feed(st, Flatten(chunks)) == Feed(fed, rest) by {
        assert st.buffer + (chunks[0] + rest) == st.buffer + chunks[0] + rest;
      }
      PrefixAccepted(u, fed, rest);
      SplitIndependence(u, fed, rest);
      CutsAccepted(u, ParseLoop(u, fed).st, chunks[1..]);
    }
  }

  // A step only needs the bytes it consumes.
  lemma StepFromPrefix(u: Unicode, st: State, k: nat)
    requires Consistent(st) && ParseNext(u, st).Step? && ParseNext(u, st).consumed <= k <= |st.buffer| && k > 0
    ensures var r := ParseNext(u, st);
            ParseNext(u, st.(buffer := st.buffer[..k])) == Step(r.st.(buffer := st.buffer[..k]), r.msg, r.consumed)
  {
    hide DecodeChunks, ParseRequestLine, ParseResponseLine, ParseHeaderLines;
    var buf := st.buffer;
    assert buf[..k] + buf[k..] == buf;
    match st.phase
    case Complete =>
    case RequestLine => LineFromPrefix(st, k);
    case ResponseLine => LineFromPrefix(st, k);
    case HeaderLines => HeadersFromPrefix(u, st, k);
    case FixedBody =>
      assert buf[..k][..st.contentLength] == buf[..st.contentLength];
    case ChunkedBody =>
      DecodePrefix(buf, k);
  }

  lemma LineFromPrefix(st: State, k: nat)
    requires k <= |st.buffer|
    ensures var r := ParseRequestLine(st);
            r.Step? && r.consumed <= k ==>
            ParseRequestLine(st.(buffer := st.buffer[..k])) == Step(r.st.(buffer := st.buffer[..k]), r.msg, r.consumed)
    ensures var r := ParseResponseLine(st);
            r.Step? && r.consumed <= k ==>
            ParseResponseLine(st.(buffer := st.buffer[..k])) == Step(r.st.(buffer := st.buffer[..k]), r.msg, r.consumed)
  {
    hide Find, SplitN, ParseInt, NewRequest, NewResponse;
    var buf := st.buffer;
    assert buf[..k] + buf[k..] == buf;
    if Find(CRLF, buf).Some? && Find(CRLF, buf).value + 2 <= k {
      FindInPrefix(CRLF, buf[..k], buf[k..]);
      var end := Find(CRLF, buf).value;
      assert buf[..k][..end] == buf[..end];
    }
  }

  lemma HeadersFromPrefix(u: Unicode, st: State, k: nat)
    requires k <= |st.buffer|
    ensures var r := ParseHeaderLines(u, st);
            r.Step? && r.consumed <= k ==>
            ParseHeaderLines(u, st.(buffer := st.buffer[..k])) == Step(r.st.(buffer := st.buffer[..k]), r.msg, r.consumed)
  {
    hide AddHeaders, ScanLines, Find, DeclaredLength, SetRequestHeaders, SetResponseHeaders, Get;
    var buf := st.buffer;
    assert buf[..k] + buf[k..] == buf;
    if Find(CRLF2, buf).Some? && Find(CRLF2, buf).value + 4 <= k {
      FindInPrefix(CRLF2, buf[..k], buf[k..]);
      var end := Find(CRLF2, buf).value;
      assert buf[..k][..end] == buf[..end];
    }
  }

  // Where a limit is exceeded, cutting just before the end of the line makes the parser give up.
  lemma CutAtLimit(u: Unicode, st: State) returns (k: nat)
    requires Consistent(st) && !LimitOk(st)
    ensures 0 < k <= |st.buffer| && ParseNext(u, st.(buffer := st.buffer[..k])).Fault?
  {
    hide Find, SplitN, ParseInt, NewRequest, NewResponse;
    var buf := st.buffer;
    if st.phase == HeaderLines {
      k := Find(CRLF2, buf).value + 3;
      assert buf[..k] + buf[k..] == buf;
      FindInPrefix(CRLF2, buf[..k], buf[k..]);
    } else {
      k := Find(CRLF, buf).value + 1;
      assert buf[..k] + buf[k..] == buf;
      FindInPrefix(CRLF, buf[..k], buf[k..]);
    }
  }

  lemma {:induction false} RejectedCut(u: Unicode, st: State) returns (k: nat)
    requires Consistent(st) && ParseLoop(u, st).Parsed? && !WithinLimits(u, st)
    ensures 0 < k <= |st.buffer| && ParseLoop(u, st.(buffer := st.buffer[..k])).Rejected?
    decreases |st.buffer|, if st.phase in {Complete, FixedBody} then 1 else 0
  {
    hide ParseNext, LimitOk;
    if !LimitOk(st) {
      k := CutAtLimit(u, st);
    } else {
      var r := ParseNext(u, st);
      StepKeepsConsistent(u, st);
      var k' := RejectedCut(u, Advance(r));
      k := r.consumed + k';
      StepFromPrefix(u, st, k);
      assert st.buffer[..k][r.consumed..] == st.buffer[r.consumed..][..k'];
    }
  }

  lemma FlattenTwo(a: bytes, b: bytes)
    ensures Flatten([a, b]) == a + b
  {
    var one: seq<bytes> := [b];
    var two: seq<bytes> := [a, b];
    assert one[1..] == [] && two[1..] == one;
    assert Flatten(one) == b + Flatten(one[1..]) == b;
  }

  /**
   A stream that parses in one call is accepted however it is cut into chunks if and only if every request line,
   status line and header block in it stays within the limits.
   */
  lemma EveryCutAccepted(u: Unicode, st: State, stream: bytes)
    requires Consistent(st) && st.buffer == [] && ParseLoop(u, Feed(st, stream)).Parsed?
    ensures (forall chunks :: Flatten(chunks) == stream ==> ParseRun(u, chunks, st).Parsed?)
            <==> WithinLimits(u, Feed(st, stream))
  {
    hide ParseLoop, WithinLimits;
    var fed := Feed(st, stream);
    if WithinLimits(u, fed) {
      forall chunks | Flatten(chunks) == stream
        ensures ParseRun(u, chunks, st).Parsed?
      {
        CutsAccepted(u, st, chunks);
      }
    } else {
      assert fed.buffer == stream;
      var k := RejectedCut(u, fed);
      var chunks: seq<bytes> := [stream[..k], stream[k..]];
      FlattenTwo(stream[..k], stream[k..]);
      assert stream[..k] + stream[k..] == stream;
      assert Feed(st, chunks[0]) == fed.(buffer := fed.buffer[..k]);
      assert ParseRun(u, chunks, st).Rejected?;
    }
  }
}

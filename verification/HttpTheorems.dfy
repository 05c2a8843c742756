/** The HTTP parser does not depend on how the byte stream is cut. */
module HttpTheorems {
  import opened Bytes
  import opened HttpText
  import opened HttpMachine
  import opened Wrappers

  function Feed(st: State, more: bytes): State {
    st.(buffer := st.buffer + more)
  }

  lemma StepKeepsConsistent(u: Unicode, st: State)
    requires Consistent(st) && ParseNext(u, st).Step?
    ensures Consistent(ParseNext(u, st).st)
    ensures st.phase in {Complete, FixedBody} && ParseNext(u, st).consumed == 0 ==> ParseNext(u, st).msg.Some?
  {
    hide DecodeChunks, NewRequest, NewResponse, AddHeaders, DeclaredLength, Find, SplitN, ParseInt;
  }

  lemma ReadChunkIgnoresLaterBytes(buf: bytes, more: bytes)
    requires !ReadChunk(buf).HeadWait?
    ensures ReadChunk(buf + more) == ReadChunk(buf)
  {
    hide ChunkSize, Find;
    FindIgnoresLaterBytes(CRLF, buf, more);
    var end := Find(CRLF, buf).value;
    assert (buf + more)[..end] == buf[..end];
    var rest := buf[end + 2..];
    assert (buf + more)[end + 2..] == rest + more;
    var size := ChunkSize(buf[..end]);
    if size.Some? && 0 < size.value <= |rest| {
      assert (rest + more)[..size.value] == rest[..size.value];
    }
  }

  lemma {:induction false} ChunksIgnoreLaterBytes(buf: bytes, more: bytes)
    requires !DecodeChunks(buf).ChunkWait?
    ensures DecodeChunks(buf + more) == DecodeChunks(buf)
    decreases |buf|
  {
    hide ReadChunk;
    ReadChunkIgnoresLaterBytes(buf, more);
    var r := ReadChunk(buf);
    if r.OneChunk? {
      assert (buf + more)[r.consumed..] == buf[r.consumed..] + more;
      ChunksIgnoreLaterBytes(buf[r.consumed..], more);
    }
  }

  lemma StepIgnoresLaterBytes(u: Unicode, st: State, more: bytes)
    requires Consistent(st) && ParseNext(u, st).Step?
    ensures var r := ParseNext(u, st);
            ParseNext(u, Feed(st, more)) == Step(Feed(r.st, more), r.msg, r.consumed)
  {
    hide ParseRequestLine, ParseResponseLine, ParseHeaderLines, ParseFixedBody, ParseChunkedBody;
    match st.phase
    case Complete =>
    case RequestLine => LineIgnoresLaterBytes(st, more);
    case ResponseLine => LineIgnoresLaterBytes(st, more);
    case HeaderLines => HeadersIgnoreLaterBytes(u, st, more);
    case FixedBody => BodyIgnoresLaterBytes(st, more);
    case ChunkedBody => BodyIgnoresLaterBytes(st, more);
  }

  lemma HeadersIgnoreLaterBytes(u: Unicode, st: State, more: bytes)
    requires ParseHeaderLines(u, st).Step?
    ensures var r := ParseHeaderLines(u, st);
            ParseHeaderLines(u, Feed(st, more)) == Step(Feed(r.st, more), r.msg, r.consumed)
  {
    hide AddHeaders, ScanLines, Find, DeclaredLength, SetRequestHeaders, SetResponseHeaders, Get;
    FindIgnoresLaterBytes(CRLF2, st.buffer, more);
    var end := Find(CRLF2, st.buffer).value;
    assert (st.buffer + more)[..end] == st.buffer[..end];
  }

  lemma BodyIgnoresLaterBytes(st: State, more: bytes)
    ensures var r := ParseFixedBody(st);
            r.Step? && st.contentLength > 0 ==>
            ParseFixedBody(Feed(st, more)) == Step(Feed(r.st, more), r.msg, r.consumed)
    ensures var r := ParseChunkedBody(st);
            r.Step? ==> ParseChunkedBody(Feed(st, more)) == Step(Feed(r.st, more), r.msg, r.consumed)
  {
    hide DecodeChunks;
    if 0 < st.contentLength <= |st.buffer| {
      assert (st.buffer + more)[..st.contentLength] == st.buffer[..st.contentLength];
    }
    if !DecodeChunks(st.buffer).ChunkWait? {
      ChunksIgnoreLaterBytes(st.buffer, more);
    }
  }

  lemma LineIgnoresLaterBytes(st: State, more: bytes)
    ensures var r := ParseRequestLine(st);
            var r' := ParseRequestLine(Feed(st, more));
            r.Step? ==> r' == Step(Feed(r.st, more), r.msg, r.consumed)
    ensures var r := ParseResponseLine(st);
            var r' := ParseResponseLine(Feed(st, more));
            r.Step? ==> r' == Step(Feed(r.st, more), r.msg, r.consumed)
  {
    hide Find, SplitN, ParseInt, NewRequest, NewResponse;
    if Find(CRLF, st.buffer).Some? {
      FindIgnoresLaterBytes(CRLF, st.buffer, more);
      var end := Find(CRLF, st.buffer).value;
      assert (st.buffer + more)[..end] == st.buffer[..end];
    }
  }

  lemma PrependNothing(o: Outcome)
    ensures Prepend([], o) == o
  {
    if o.Parsed? {
      assert [] + o.messages == o.messages;
    }
  }

  lemma PrependTwice(a: seq<Message>, b: seq<Message>, o: Outcome)
    ensures Prepend(a, Prepend(b, o)) == Prepend(a + b, o)
  {
    if o.Parsed? {
      assert a + (b + o.messages) == a + b + o.messages;
    }
  }

  /**
   Split independence: when Parse succeeds on the bytes so far, then parsing them together with more
   bytes is going on with those bytes from the state Parse left, be the rest accepted or not.
   */
  lemma {:induction false} SplitIndependence(u: Unicode, st: State, more: bytes)
    requires Consistent(st) && ParseLoop(u, st).Parsed?
    ensures var first := ParseLoop(u, st);
            && Consistent(first.st)
            && ParseLoop(u, Feed(st, more)) == Prepend(first.messages, ParseLoop(u, Feed(first.st, more)))
    decreases |st.buffer|, if st.phase in {Complete, FixedBody} then 1 else 0
  {
    hide ParseNext;
    var r := ParseNext(u, st);
    if r.Wait? {
      PrependNothing(ParseLoop(u, Feed(st, more)));
    } else {
      StepKeepsConsistent(u, st);
      StepIgnoresLaterBytes(u, st, more);
      var r' := ParseNext(u, Feed(st, more));
      if r.consumed > 0 || (r.msg.Some? && st.buffer != []) {
        assert Feed(st, more).buffer[r.consumed..] == st.buffer[r.consumed..] + more;
        SplitIndependence(u, Advance(r), more);
        var rest := ParseLoop(u, Advance(r));
        PrependTwice(Emitted(r.msg), rest.messages, ParseLoop(u, Feed(rest.st, more)));
      } else {
        assert st.buffer + more == more;
        assert Advance(r') == Feed(r.st, more);
        if more == [] {
          NothingToRead(u, r.st);
          PrependNothing(ParseLoop(u, Feed(r.st, more)));
        }
      }
    }
  }

  lemma NothingToRead(u: Unicode, st: State)
    requires st.buffer == [] && st.phase != Complete
    ensures ParseLoop(u, st) == Parsed([], st)
  {
  }

  /** A run of Parse calls, one for each arriving chunk, that stops at the first rejection. */
  function ParseRun(u: Unicode, chunks: seq<bytes>, st: State): Outcome
    decreases |chunks|
  {
    if chunks == [] then Parsed([], st)
    else
      match ParseLoop(u, Feed(st, chunks[0]))
      case Parsed(msgs, st') => Prepend(msgs, ParseRun(u, chunks[1..], st'))
      case Rejected(error, st') => Rejected(error, st')
  }

  // A state a Parse call can leave.
  predicate Settled(u: Unicode, st: State) {
    Consistent(st) && ParseLoop(u, st) == Parsed([], st)
  }

  lemma {:induction false} ParseLoopSettles(u: Unicode, st: State)
    requires Consistent(st) && ParseLoop(u, st).Parsed?
    ensures Settled(u, ParseLoop(u, st).st)
    decreases |st.buffer|, if st.phase in {Complete, FixedBody} then 1 else 0
  {
    hide ParseNext;
    var r := ParseNext(u, st);
    if r.Step? {
      StepKeepsConsistent(u, st);
      if r.consumed > 0 || (r.msg.Some? && st.buffer != []) {
        ParseLoopSettles(u, Advance(r));
      } else {
        NothingToRead(u, r.st);
      }
    }
  }

  /** A run that accepts every chunk delivers what one Parse of the whole stream delivers, and leaves the same state. */
  lemma {:induction false} RunEqualsOneParse(u: Unicode, chunks: seq<bytes>, st: State)
    requires Settled(u, st) && ParseRun(u, chunks, st).Parsed?
    ensures ParseLoop(u, Feed(st, Flatten(chunks))) == ParseRun(u, chunks, st)
    decreases |chunks|
  {
    hide ParseLoop;
    if chunks == [] {
      assert st.buffer + Flatten(chunks) == st.buffer;
    } else {
      var rest := Flatten(chunks[1..]);
      var fed := Feed(st, chunks[0]);
      assert Feed(st, Flatten(chunks)) == Feed(fed, rest) by {
        assert st.buffer + (chunks[0] + rest) == st.buffer + chunks[0] + rest;
      }
      SplitIndependence(u, fed, rest);
      ParseLoopSettles(u, fed);
      RunEqualsOneParse(u, chunks[1..], ParseLoop(u, fed).st);
    }
  }
}

/** Chunked bodies (RFC 7230, section 4.1): decoding undoes encoding and never acts on an incomplete body. */
module HttpChunked {
  import opened Bytes
  import opened HttpText
  import opened HttpMachine
  import opened Wrappers

  /** A chunk as sent: its size line, extensions included, its data, and two bytes the parser does not look at. */
  datatype Chunk = Chunk(line: bytes, data: bytes, tail: bytes)

  predicate NoBreak(line: bytes) {
    forall i :: 0 <= i < |line| - 1 ==> !(line[i] == CR && line[i + 1] == LF)
  }

  // A line that declares n, with no line break inside.
  predicate DeclaresSize(line: bytes, n: int) {
    NoBreak(line) && ChunkSize(line) == Some(n)
  }

  predicate WellFramed(c: Chunk) {
    c.data != [] && |c.data| + 2 <= MAX_INT64 && DeclaresSize(c.line, |c.data|) && |c.tail| == 2
  }

  predicate IsLast(c: Chunk) {
    c.data == [] && DeclaresSize(c.line, 0) && |c.tail| == 2
  }

  function Frames(chunks: seq<Chunk>): bytes {
    if chunks == [] then []
    else chunks[0].line + CRLF + chunks[0].data + chunks[0].tail + Frames(chunks[1..])
  }

  function Encode(chunks: seq<Chunk>, last: Chunk): bytes {
    Frames(chunks) + (last.line + CRLF + last.tail)
  }

  function Data(chunks: seq<Chunk>): bytes {
    if chunks == [] then [] else chunks[0].data + Data(chunks[1..])
  }

  /** A hexadecimal size, bare or followed by a semicolon and an extension, declares that size. */
  lemma SizeLineDeclares(n: nat, ext: bytes)
    requires n <= MAX_INT64 && CR !in ext && (ext == [] || ext[0] == 59)
    ensures DeclaresSize(Digits(n, 16) + ext, n)
  {
    var digits := Digits(n, 16);
    DigitsAreParsed(n, 16);
    assert 59 !in digits && CR !in digits;
    ParseIntRoundTrip(n, 16);
    if ext == [] {
      assert digits + ext == digits;
      FindByteNowhere(59, digits);
    } else {
      assert digits + ext == digits + [59] + ext[1..];
      FindByteAfter(59, digits, ext[1..]);
      assert (digits + ext)[..|digits|] == digits;
    }
  }

  // ----- One size line -----

  lemma {:induction false} FindBreak(line: bytes, rest: bytes)
    requires NoBreak(line)
    ensures Find(CRLF, line + CRLF + rest) == Some(|line|)
    decreases |line|
  {
    var t := line + CRLF + rest;
    if line == [] {
      assert t[..2] == CRLF;
    } else {
      assert t[1..] == line[1..] + CRLF + rest;
      assert t[0] == line[0] && t[1] == if |line| >= 2 then line[1] else CR;
      assert t[..2][0] == t[0] && t[..2][1] == t[1];
      FindBreak(line[1..], rest);
    }
  }

  lemma FoundMeansNoBreak(buf: bytes)
    requires Find(CRLF, buf).Some?
    ensures var end := Find(CRLF, buf).value;
            NoBreak(buf[..end]) && buf == buf[..end] + CRLF + buf[end + 2..]
  {
    hide Find;
    var end := Find(CRLF, buf).value;
    assert buf[end..end + 2] == CRLF;
    forall i: nat | i + 1 < end
      ensures !(buf[i] == CR && buf[i + 1] == LF)
    {
      FindIsFirst(CRLF, buf, i);
      assert buf[i..i + 2] == [buf[i], buf[i + 1]];
    }
  }

  lemma SizeInRange(line: bytes)
    ensures ChunkSize(line).Some? ==> -MAX_INT64 - 1 <= ChunkSize(line).value <= MAX_INT64
  {
  }

  /** With room bytes behind its line, the size is negative and passes the length check, or adding two wraps around. */
  predicate BadSize(n: int, room: nat) {
    (n < 0 && room >= n + 2) || n + 2 > MAX_INT64
  }

  lemma SizeLineIsRead(line: bytes, n: int, rest: bytes)
    requires DeclaresSize(line, n)
    ensures ReadChunk(line + CRLF + rest) ==
            if n == 0 then (if |rest| < 2 then HeadWait else LastChunk(|line| + 4))
            else if BadSize(n, |rest|) then HeadFault(RuntimePanic)
            else if |rest| < n + 2 then HeadWait
            else OneChunk(rest[..n], |line| + 2 + n + 2)
  {
    SizeInRange(line);
    hide Find, ChunkSize, NoBreak;
    FindBreak(line, rest);
    var buf := line + CRLF + rest;
    assert buf[..|line|] == line && buf[|line| + 2..] == rest;
  }

  lemma FirstLine(buf: bytes) returns (line: bytes, n: int, behind: bytes)
    requires ReadChunk(buf) == HeadFault(RuntimePanic) || ReadChunk(buf).OneChunk? || ReadChunk(buf).LastChunk?
    ensures DeclaresSize(line, n) && buf == line + CRLF + behind
  {
    var end := Find(CRLF, buf).value;
    line, behind := buf[..end], buf[end + 2..];
    n := ChunkSize(line).value;
    hide Find, ChunkSize, NoBreak;
    FoundMeansNoBreak(buf);
  }

  // ----- Whole bodies -----

  lemma ReadEncodedChunk(c: Chunk, more: bytes)
    requires WellFramed(c)
    ensures var buf := c.line + CRLF + c.data + c.tail + more;
            ReadChunk(buf) == OneChunk(c.data, |c.line| + |c.data| + 4) && buf[|c.line| + |c.data| + 4..] == more
  {
    hide ReadChunk, DeclaresSize;
    var rest := c.data + c.tail + more;
    assert c.line + CRLF + c.data + c.tail + more == c.line + CRLF + rest;
    SizeLineIsRead(c.line, |c.data|, rest);
    assert rest[..|c.data|] == c.data;
  }

  lemma ReadLastChunk(c: Chunk, more: bytes)
    requires IsLast(c)
    ensures ReadChunk(c.line + CRLF + c.tail + more) == LastChunk(|c.line| + 4)
  {
    hide ReadChunk, DeclaresSize;
    assert c.line + CRLF + c.tail + more == c.line + CRLF + (c.tail + more);
    SizeLineIsRead(c.line, 0, c.tail + more);
  }

  /** Decoding an encoded body, whatever follows it, yields the data and consumes exactly the encoding. */
  lemma {:induction false} DecodeEncoded(chunks: seq<Chunk>, last: Chunk, more: bytes)
    requires (forall c :: c in chunks ==> WellFramed(c)) && IsLast(last)
    ensures DecodeChunks(Encode(chunks, last) + more) == Chunks(Data(chunks), |Encode(chunks, last)|)
    decreases |chunks|
  {
    hide ReadChunk, DeclaresSize;
    var buf := Encode(chunks, last) + more;
    if chunks == [] {
      assert buf == last.line + CRLF + last.tail + more;
      ReadLastChunk(last, more);
    } else {
      var c := chunks[0];
      assert c in chunks;
      var tail := Encode(chunks[1..], last) + more;
      assert buf == c.line + CRLF + c.data + c.tail + tail;
      ReadEncodedChunk(c, tail);
      DecodeEncoded(chunks[1..], last, more);
    }
  }

  lemma DecodeStep(buf: bytes)
    ensures DecodeChunks(buf).Chunks? ==> ReadChunk(buf).LastChunk? || ReadChunk(buf).OneChunk?
    ensures ReadChunk(buf).LastChunk? ==> DecodeChunks(buf) == Chunks([], ReadChunk(buf).consumed)
    ensures ReadChunk(buf).OneChunk? && DecodeChunks(buf).Chunks? ==>
              var r := DecodeChunks(buf[ReadChunk(buf).consumed..]);
              r.Chunks? && DecodeChunks(buf) == Chunks(ReadChunk(buf).data + r.body, ReadChunk(buf).consumed + r.consumed)
  {
    hide ReadChunk;
  }

  // A decoded body starts with the last chunk, or with another one and a decoded body behind it.
  lemma FirstDecoded(buf: bytes) returns (c: Chunk, more: bytes)
    requires DecodeChunks(buf).Chunks?
    ensures buf == c.line + CRLF + (c.data + c.tail + more) && |more| < |buf|
    ensures if c.data == [] then IsLast(c) && DecodeChunks(buf) == Chunks([], |c.line| + 4)
            else
              var r := DecodeChunks(more);
              && WellFramed(c) && r.Chunks?
              && DecodeChunks(buf) == Chunks(c.data + r.body, |c.line| + 2 + |c.data| + 2 + r.consumed)
  {
    hide *;
    DecodeStep(buf);
    var line, n, rest := FirstLine(buf);
    c, more := ChunkRead(line, n, rest);
    BehindChunk(buf, c, more);
  }

  lemma ChunkRead(line: bytes, n: int, rest: bytes) returns (c: Chunk, more: bytes)
    requires DeclaresSize(line, n)
    requires var r := ReadChunk(line + CRLF + rest); r.OneChunk? || r.LastChunk?
    ensures c.line == line && rest == c.data + c.tail + more && |c.tail| == 2
    ensures ReadChunk(line + CRLF + rest)
         == if c.data == [] then LastChunk(|line| + 4) else OneChunk(c.data, |line| + 2 + |c.data| + 2)
    ensures if c.data == [] then IsLast(c) else WellFramed(c)
  {
    SizeLineIsRead(line, n, rest);
    hide *;
    if n == 0 {
      c, more := LastCut(line, rest);
    } else {
      c, more := ChunkCut(line, n, rest);
    }
  }

  lemma LastCut(line: bytes, rest: bytes) returns (c: Chunk, more: bytes)
    requires DeclaresSize(line, 0) && |rest| >= 2
    ensures c.line == line && c.data == [] && rest == c.data + c.tail + more && IsLast(c)
  {
    hide DeclaresSize;
    c, more := Chunk(line, [], rest[..2]), rest[2..];
    assert [] + rest[..2] + rest[2..] == rest;
  }

  lemma ChunkCut(line: bytes, n: int, rest: bytes) returns (c: Chunk, more: bytes)
    requires DeclaresSize(line, n) && 0 < n && n + 2 <= |rest| && n + 2 <= MAX_INT64
    ensures c.line == line && c.data == rest[..n] && rest == c.data + c.tail + more && WellFramed(c)
  {
    hide DeclaresSize;
    c, more := Chunk(line, rest[..n], rest[n..n + 2]), rest[n + 2..];
  }

  lemma BehindChunk(buf: bytes, c: Chunk, more: bytes)
    requires buf == c.line + CRLF + (c.data + c.tail + more)
    ensures buf[|c.line| + 2 + |c.data| + |c.tail|..] == more
  {
  }

  /** What is decoded and consumed is some encoded body and its data, so decoding accepts nothing else. */
  lemma {:induction false} DecodedIsEncoded(buf: bytes) returns (chunks: seq<Chunk>, last: Chunk)
    requires DecodeChunks(buf).Chunks?
    ensures (forall c :: c in chunks ==> WellFramed(c)) && IsLast(last)
    ensures var r := DecodeChunks(buf); r.body == Data(chunks) && buf[..r.consumed] == Encode(chunks, last)
    decreases |buf|
  {
    hide *;
    var c, more := FirstDecoded(buf);
    if c.data == [] {
      chunks, last := [], c;
      OnlyLast(buf, c, more);
    } else {
      var later, end := DecodedIsEncoded(more);
      AppendedBehind(buf, c, more, later, end, DecodeChunks(more).consumed);
      chunks, last := [c] + later, end;
    }
  }

  lemma OnlyLast(buf: bytes, c: Chunk, more: bytes)
    requires buf == c.line + CRLF + (c.data + c.tail + more) && IsLast(c)
    ensures |c.line| + 4 <= |buf| && buf[..|c.line| + 4] == Encode([], c) && Data([]) == []
  {
  }

  lemma AppendedBehind(buf: bytes, c: Chunk, more: bytes, later: seq<Chunk>, last: Chunk, k: nat)
    requires buf == c.line + CRLF + (c.data + c.tail + more) && WellFramed(c) && k <= |more| && more[..k] == Encode(later, last)
    ensures var n := |c.line| + 2 + |c.data| + 2;
            n + k <= |buf| && buf[..n + k] == Encode([c] + later, last) && Data([c] + later) == c.data + Data(later)
  {
    var chunks := [c] + later;
    assert chunks[1..] == later;
    assert Encode(chunks, last) == c.line + CRLF + c.data + c.tail + Encode(later, last);
    hide Encode, Frames, DeclaresSize;
    FrontOf(c.line + CRLF + c.data + c.tail, more, k);
    assert buf == c.line + CRLF + c.data + c.tail + more;
  }

  lemma FrontOf(front: bytes, more: bytes, k: nat)
    requires k <= |more|
    ensures (front + more)[..|front| + k] == front + more[..k]
  {
  }

  lemma ReadChunkPrefix(buf: bytes, k: nat)
    requires ReadChunk(buf).OneChunk? || ReadChunk(buf).LastChunk?
    requires k <= |buf|
    ensures ReadChunk(buf[..k]) == if k < ReadChunk(buf).consumed then HeadWait else ReadChunk(buf)
  {
    hide Find, ChunkSize;
    var end := Find(CRLF, buf).value;
    assert buf[..k] + buf[k..] == buf;
    FindInPrefix(CRLF, buf[..k], buf[k..]);
    if end + 2 <= k {
      assert buf[..k][..end] == buf[..end];
      var rest := buf[end + 2..];
      var rest' := buf[..k][end + 2..];
      assert rest' == rest[..k - end - 2];
      var n := ChunkSize(buf[..end]).value;
      if n <= |rest'| {
        assert rest'[..n] == rest[..n];
      }
    }
  }

  /** A complete body decodes from its own bytes alone; cut anywhere before its end, nothing is decoded yet. */
  lemma {:induction false} DecodePrefix(buf: bytes, k: nat)
    requires DecodeChunks(buf).Chunks? && k <= |buf|
    ensures DecodeChunks(buf[..k]) == if k < DecodeChunks(buf).consumed then ChunkWait else DecodeChunks(buf)
    decreases |buf|
  {
    hide ReadChunk;
    ReadChunkPrefix(buf, k);
    var r := ReadChunk(buf);
    if r.OneChunk? && k >= r.consumed {
      assert buf[..k][r.consumed..] == buf[r.consumed..][..k - r.consumed];
      DecodePrefix(buf[r.consumed..], k - r.consumed);
    }
  }

  /**
   The parser in the chunked-body phase: a whole encoded body becomes the body of the current message and exactly
   its bytes are consumed; on any strict prefix nothing is consumed and no state changes.
   */
  lemma ChunkedBodyIsRead(u: Unicode, st: State, chunks: seq<Chunk>, last: Chunk, more: bytes, k: nat)
    requires st.phase == ChunkedBody
    requires (forall c :: c in chunks ==> WellFramed(c)) && IsLast(last)
    requires k < |Encode(chunks, last)|
    ensures var whole := st.(buffer := Encode(chunks, last) + more);
            ParseNext(u, whole) == Step(WithBody(whole, Data(chunks)), None, |Encode(chunks, last)|)
    ensures ParseNext(u, st.(buffer := Encode(chunks, last)[..k])) == Wait
  {
    hide DecodeChunks, Encode;
    DecodeEncoded(chunks, last, more);
    DecodeEncoded(chunks, last, []);
    var code := Encode(chunks, last);
    assert code + [] == code;
    DecodePrefix(code, k);
    EncodeNotEmpty(chunks, last);
  }

  lemma EncodeNotEmpty(chunks: seq<Chunk>, last: Chunk)
    ensures Encode(chunks, last) != []
  {
    assert last.line + CRLF + last.tail != [];
  }
}

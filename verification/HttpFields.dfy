/**
 What the parser makes of a first line, of headers and of a chunk size, said on the text itself: which are refused, the path
 and the query string of a request, the fields that repeat a header; and which headers the builder sends.
 */
module HttpFields {
  import opened Bytes
  import opened HttpText
  import opened HttpMachine
  import opened HttpChunked
  import opened HttpBuilder
  import opened HttpRoundTrip
  import opened HttpResponses
  import opened HttpPipeline
  import opened Wrappers

  const QUESTION_MARK: byte := 63
  const AMPERSAND: byte := 38
  const EQUALS: byte := 61

  // ----- The first line -----

  function ThreeWords(a: bytes, b: bytes, c: bytes): bytes {
    a + [SPACE] + b + [SPACE] + c
  }

  lemma WordsAreSplit(a: bytes, b: bytes, c: bytes)
    requires SPACE !in a && SPACE !in b
    ensures SplitN(ThreeWords(a, b, c), SPACE, 3) == [a, b, c]
  {
    hide Find;
    var line, rest := ThreeWords(a, b, c), b + [SPACE] + c;
    assert line == a + [SPACE] + rest;
    FindByteAfter(SPACE, a, rest);
    FindByteAfter(SPACE, b, c);
    assert line[..|a|] == a && line[|a| + 1..] == rest;
    assert rest[..|b|] == b && rest[|b| + 1..] == c;
    assert SplitN(c, SPACE, 1) == [c];
    assert SplitN(rest, SPACE, 2) == [b] + [c];
  }

  /**
   A first line of three words is a status line when the first word starts with HTTP/ and a request line otherwise; the
   third word may hold further spaces. A status code that is no number is refused.
   */
  lemma FirstLineDecides(a: bytes, b: bytes, c: bytes, more: bytes)
    requires SPACE !in a && SPACE !in b && CR !in ThreeWords(a, b, c)
    ensures var line := ThreeWords(a, b, c);
            var (r, code) := (ParseRequestLine(Fresh(line + CRLF + more)), ParseInt(b, 10));
            if !(Str("HTTP/") <= a) then
              && r.Step? && r.msg == None && r.consumed == |line| + 2 && r.st.phase == HeaderLines && r.st.response == None
              && r.st.request == Some(NewRequest(a, b, c))
              && r.st.request.value.method_ == a && r.st.request.value.uri == b && r.st.request.value.version == c
            else if code == None then r.Fault? && r.error == BadStatusCode
            else
              && r.Step? && r.msg == None && r.consumed == |line| + 2 && r.st.phase == HeaderLines && r.st.request == None
              && r.st.response == Some(NewResponse(a, code.value, c))
              && r.st.response.value.version == a && r.st.response.value.statusCode == code.value
              && r.st.response.value.statusText == c
  {
    hide SplitN, Find, ParseInt, ParseQuery, Str;
    var line := ThreeWords(a, b, c);
    WordsAreSplit(a, b, c);
    FindLineEnd(line, more);
    assert (line + CRLF + more)[..|line|] == line;
  }

  /** A first line of fewer than three words is refused. */
  lemma ShortLineIsRefused(a: bytes, b: bytes, more: bytes)
    requires SPACE !in a && CR !in a && SPACE !in b && CR !in b
    ensures ParseRequestLine(Fresh(a + CRLF + more)) == Fault(BadRequestLine, Fresh(a + CRLF + more))
    ensures var buf := a + [SPACE] + b + CRLF + more;
            ParseRequestLine(Fresh(buf)) == Fault(BadRequestLine, Fresh(buf))
  {
    hide Find;
    FindLineEnd(a, more);
    assert (a + CRLF + more)[..|a|] == a;
    FindByteNowhere(SPACE, a);
    var line := a + [SPACE] + b;
    FindLineEnd(line, more);
    assert (line + CRLF + more)[..|line|] == line;
    FindByteAfter(SPACE, a, b);
    FindByteNowhere(SPACE, b);
    assert line[..|a|] == a && line[|a| + 1..] == b;
    assert SplitN(b, SPACE, 2) == [b] && SplitN(line, SPACE, 3) == [a] + [b];
  }

  // ----- Path and query -----

  /** Without a question mark the path is the whole address and there is no query. */
  lemma PathWithoutQuery(m: bytes, uri: bytes, version: bytes)
    requires QUESTION_MARK !in uri
    ensures NewRequest(m, uri, version).path == uri && NewRequest(m, uri, version).query == None
  {
    FindByteNowhere(QUESTION_MARK, uri);
  }

  /** The items of a query string, joined by ampersands. */
  function Joined(items: seq<bytes>): bytes
    requires items != []
    decreases |items|
  {
    if |items| == 1 then items[0] else items[0] + [AMPERSAND] + Joined(items[1..])
  }

  /** The item names the key and gives it the value: key=value, or the key alone with nothing as its value. */
  predicate Gives(item: bytes, key: bytes, value: bytes) {
    && item != [] && EQUALS !in key
    && (item == key + [EQUALS] + value || (item == key && value == []))
  }

  /** The map holds the keys the items name, each with the value the last of them gives it. */
  ghost predicate LastValues(items: seq<bytes>, m: map<bytes, bytes>) {
    && (forall k :: k in m ==> exists i, v :: 0 <= i < |items| && Gives(items[i], k, v))
    && (forall i, k, v :: 0 <= i < |items| && Gives(items[i], k, v) ==>
          k in m && ((forall j, w :: i < j < |items| ==> !Gives(items[j], k, w)) ==> m[k] == v))
  }

  lemma {:induction false} JoinedIsSplit(items: seq<bytes>)
    requires items != [] && forall i :: 0 <= i < |items| ==> AMPERSAND !in items[i]
    ensures Split(Joined(items), AMPERSAND) == items
    decreases |items|
  {
    hide Find;
    var first := items[0];
    if |items| == 1 {
      FindByteNowhere(AMPERSAND, first);
      assert items == [first];
    } else {
      var all, rest := Joined(items), Joined(items[1..]);
      FindByteAfter(AMPERSAND, first, rest);
      assert all[..|first|] == first && all[|first| + 1..] == rest;
      JoinedIsSplit(items[1..]);
      assert items == [first] + items[1..];
    }
  }

  lemma PairIsAdded(item: bytes, key: bytes, value: bytes, acc: map<bytes, bytes>)
    requires Gives(item, key, value)
    ensures AddPair(item, acc) == acc[key := value]
  {
    hide Find;
    if item == key + [EQUALS] + value {
      FindByteAfter(EQUALS, key, value);
      assert item[..|key|] == key && item[|key| + 1..] == value;
      assert SplitN(value, EQUALS, 1) == [value];
      assert SplitN(item, EQUALS, 2) == [key] + [value];
    } else {
      FindByteNowhere(EQUALS, key);
    }
  }

  lemma SomePair(item: bytes) returns (key: bytes, value: bytes)
    requires item != []
    ensures Gives(item, key, value)
  {
    match Find([EQUALS], item)
    case None =>
      NotFoundByte(EQUALS, item);
      key, value := item, [];
    case Some(i) =>
      key, value := item[..i], item[i + 1..];
      assert item == key + [EQUALS] + value;
      forall j | 0 <= j < i
        ensures item[j] != EQUALS
      {
        FindIsFirst([EQUALS], item, j);
        assert item[j..j + 1] == [item[j]];
      }
  }

  lemma SamePair(item: bytes, k: bytes, v: bytes, k': bytes, v': bytes)
    requires Gives(item, k, v) && Gives(item, k', v')
    ensures k == k' && v == v'
  {
    PairIsAdded(item, k, v, map[]);
    PairIsAdded(item, k', v', map[]);
    assert map[][k := v].Keys == {k} && map[][k' := v'].Keys == {k'};
    var one: map<bytes, bytes> := map[][k := v];
    assert one[k] == v && one == map[][k' := v'];
  }

  lemma OneMoreItem(done: seq<bytes>, item: bytes, acc: map<bytes, bytes>)
    requires LastValues(done, acc)
    ensures LastValues(done + [item], AddPair(item, acc))
  {
    var all, m := done + [item], AddPair(item, acc);
    hide AddPair, Gives;
    if item == [] {
      EmptyItem(acc);
      EmptyGivesNothing();
      forall i, k, v | 0 <= i < |all| && Gives(all[i], k, v)
        ensures k in m && ((forall j, w :: i < j < |all| ==> !Gives(all[j], k, w)) ==> m[k] == v)
      {
        assert i < |done| && all[i] == done[i];
        if forall j, w :: i < j < |all| ==> !Gives(all[j], k, w) {
          assert forall j, w :: i < j < |done| ==> done[j] == all[j] && !Gives(done[j], k, w);
        }
      }
      assert forall i :: 0 <= i < |done| ==> all[i] == done[i];
    } else {
      var key, value := SomePair(item);
      PairIsAdded(item, key, value, acc);
      ItemAdded(done, item, acc, key, value);
    }
  }

  lemma EmptyItem(acc: map<bytes, bytes>)
    ensures AddPair([], acc) == acc
  {
  }

  lemma EmptyGivesNothing()
    ensures forall k, v :: !Gives([], k, v)
  {
  }

  lemma ItemAdded(done: seq<bytes>, item: bytes, acc: map<bytes, bytes>, key: bytes, value: bytes)
    requires LastValues(done, acc) && Gives(item, key, value)
    ensures LastValues(done + [item], acc[key := value])
  {
    var all, m := done + [item], acc[key := value];
    hide Gives;
    assert all[|done|] == item && forall i :: 0 <= i < |done| ==> all[i] == done[i];
    forall k | k in m
      ensures exists i, v :: 0 <= i < |all| && Gives(all[i], k, v)
    {
      if k == key {
        assert Gives(all[|done|], key, value);
      } else {
        var i, v :| 0 <= i < |done| && Gives(done[i], k, v);
        assert Gives(all[i], k, v);
      }
    }
    forall i, k, v | 0 <= i < |all| && Gives(all[i], k, v)
      ensures k in m && ((forall j, w :: i < j < |all| ==> !Gives(all[j], k, w)) ==> m[k] == v)
    {
      if i == |done| {
        SamePair(item, k, v, key, value);
      } else {
        assert Gives(done[i], k, v);
        if forall j, w :: i < j < |all| ==> !Gives(all[j], k, w) {
          assert Gives(all[|done|], key, value);
          assert k != key;
          assert forall j, w :: i < j < |done| ==> done[j] == all[j] && !Gives(done[j], k, w);
        }
      }
    }
  }

  lemma {:induction false} AllItemsAdded(done: seq<bytes>, items: seq<bytes>, acc: map<bytes, bytes>)
    requires LastValues(done, acc)
    ensures LastValues(done + items, AddPairs(items, acc))
    decreases |items|
  {
    hide LastValues, AddPair;
    if items == [] {
      assert done + items == done;
    } else {
      OneMoreItem(done, items[0], acc);
      AllItemsAdded(done + [items[0]], items[1..], AddPair(items[0], acc));
      assert (done + [items[0]]) + items[1..] == done + items;
    }
  }

  /**
   An address with a question mark is cut there: the path is what stands in front of the first one, and the query holds the
   keys of the items behind it, each with the value the last item of that name gives it. Empty items are skipped.
   */
  lemma PathAndQuery(m: bytes, path: bytes, items: seq<bytes>, version: bytes)
    requires QUESTION_MARK !in path && items != [] && forall i :: 0 <= i < |items| ==> AMPERSAND !in items[i]
    ensures var r := NewRequest(m, path + [QUESTION_MARK] + Joined(items), version);
            r.path == path && r.query.Some? && LastValues(items, r.query.value)
  {
    hide LastValues, Joined, ParseQuery, Find;
    var q := Joined(items);
    var uri := path + [QUESTION_MARK] + q;
    FindByteAfter(QUESTION_MARK, path, q);
    assert uri[..|path|] == path && uri[|path| + 1..] == q;
    QueryIsRead(items);
  }

  lemma QueryIsRead(items: seq<bytes>)
    requires items != [] && forall i :: 0 <= i < |items| ==> AMPERSAND !in items[i]
    ensures LastValues(items, ParseQuery(Joined(items)))
  {
    JoinedIsSplit(items);
    NoItems();
    if Joined(items) == [] {
      NothingJoined(items);
    }
    hide LastValues, AddPairs, Joined, Split;
    AllItemsAdded([], items, map[]);
    assert [] + items == items;
  }

  lemma NoItems()
    ensures LastValues([], map[])
  {
  }

  lemma NothingJoined(items: seq<bytes>)
    requires items != [] && Joined(items) == []
    ensures items == [[]] && AddPairs(items, map[]) == map[]
  {
    var all: seq<bytes> := [[]];
    assert items == all;
    assert all[1..] == [] && AddPair([], map[]) == map[];
  }

  // ----- The fields that repeat headers -----

  // The names of the headers that are looked at.
  const HOST_FIELD := Str("host")
  const CONNECTION_FIELD := Str("connection")
  const TYPE_FIELD := Str("content-type")
  const LENGTH_FIELD := Str("content-length")
  const UPGRADE_FIELD := Str("upgrade")
  const ENCODING_FIELD := Str("transfer-encoding")
  const KEY_FIELD := Str("sec-websocket-key")
  const VERSION_FIELD := Str("sec-websocket-version")
  const PROTOCOL_FIELD := Str("sec-websocket-protocol")
  const ACCEPT_FIELD := Str("sec-websocket-accept")
  const CHUNKED_WORD := Str("chunked")

  /** The value of a header, or nothing. */
  function ValueOf(h: Headers, name: bytes): bytes {
    if name in h then h[name] else []
  }

  /** These fields of a request have the values of the headers of these names. */
  predicate RepeatsHeaders(r: Request, h: Headers) {
    && r.host == ValueOf(h, HOST_FIELD) && r.connection == ValueOf(h, CONNECTION_FIELD)
    && r.contentType == ValueOf(h, TYPE_FIELD) && r.upgrade == ValueOf(h, UPGRADE_FIELD)
    && r.webSocketKey == ValueOf(h, KEY_FIELD)
    && r.webSocketVersion == ValueOf(h, VERSION_FIELD)
    && r.webSocketProtocol == ValueOf(h, PROTOCOL_FIELD)
  }

  /** A request read from a first line has its fields set from the headers of these names. */
  lemma RequestFields(m: bytes, uri: bytes, version: bytes, h: Headers)
    ensures var r := SetRequestHeaders(NewRequest(m, uri, version), h);
            && r.headers == h && RepeatsHeaders(r, h)
            && var n := ParseInt(ValueOf(h, LENGTH_FIELD), 10); r.contentLength == if n.Some? then n.value else 0
  {
    hide ParseInt, ParseQuery, Find;
  }

  /** The same for a response read from a status line. */
  lemma ResponseFields(version: bytes, code: int, text: bytes, h: Headers)
    ensures var r := SetResponseHeaders(NewResponse(version, code, text), h);
            && r.headers == h
            && r.connection == ValueOf(h, CONNECTION_FIELD) && r.contentType == ValueOf(h, TYPE_FIELD)
            && r.upgrade == ValueOf(h, UPGRADE_FIELD) && r.webSocketAccept == ValueOf(h, ACCEPT_FIELD)
            && r.webSocketProtocol == ValueOf(h, PROTOCOL_FIELD)
            && var n := ParseInt(ValueOf(h, LENGTH_FIELD), 10); r.contentLength == if n.Some? then n.value else 0
  {
    hide ParseInt;
  }

  /**
   The body strategy: chunked if Transfer-Encoding says exactly that; otherwise of the declared length if that is from 1 to
   10 MiB; otherwise none.
   */
  lemma HeadersChooseBody(st: State, h: Headers)
    requires st.phase == HeaderLines && Consistent(st)
    ensures var r := ApplyHeaders(st, h);
            var n := ParseInt(ValueOf(h, LENGTH_FIELD), 10);
            && (r.phase == ChunkedBody <==> ValueOf(h, ENCODING_FIELD) == CHUNKED_WORD)
            && (r.phase == FixedBody <==>
                  && ValueOf(h, ENCODING_FIELD) != CHUNKED_WORD
                  && n.Some? && 1 <= n.value <= 10485760)
            && (r.phase == FixedBody ==> r.contentLength == n.value)
            && r.phase in {ChunkedBody, FixedBody, Complete} && r.buffer == st.buffer
  {
    hide ParseInt, SetRequestHeaders, SetResponseHeaders;
  }

  /** The request that is delivered for a printed one (RequestIsRead) has the path and query its address says. */
  lemma ReceivedPath(u: Unicode, auto: bool, s: Sent, path: bytes, items: seq<bytes>)
    requires Sendable(u, auto, s)
    requires items != [] && forall i :: 0 <= i < |items| ==> AMPERSAND !in items[i]
    ensures var r := Received(u, auto, s);
            && (QUESTION_MARK !in Path(s.path) ==> r.path == Path(s.path) && r.query == None)
            && (QUESTION_MARK !in path && Path(s.path) == path + [QUESTION_MARK] + Joined(items) ==>
                  r.path == path && r.query.Some? && LastValues(items, r.query.value))
  {
    hide *;
    hide Sent.All, Sent.Enumerated;
    var m, uri := Method(s.method_), Path(s.path);
    HeadReceived(u, auto, s);
    if QUESTION_MARK !in uri {
      PathWithoutQuery(m, uri, VERSION);
    }
    if QUESTION_MARK !in path && uri == path + [QUESTION_MARK] + Joined(items) {
      PathAndQuery(m, path, items, VERSION);
    }
  }

  /** And its fields have the values of its headers. */
  lemma ReceivedFields(u: Unicode, auto: bool, s: Sent)
    requires Sendable(u, auto, s)
    ensures GoodHeaders(u, s.All(auto))
    ensures var (r, h) := (Received(u, auto, s), Lowered(u, s.All(auto)));
            RepeatsHeaders(r, h) && r.contentLength == |s.body|
  {
    hide *;
    hide Sent.All, Sent.Enumerated;
    HeadReceived(u, auto, s);
    var h := Lowered(u, s.All(auto));
    RequestFields(Method(s.method_), Path(s.path), VERSION, h);
    LengthOfBody(h, s.body);
    BodyIsNoField(SetRequestHeaders(NewRequest(Method(s.method_), Path(s.path), VERSION), h), h, s.body);
  }

  lemma BodyIsNoField(r: Request, h: Headers, body: bytes)
    ensures var r' := r.(body := body, payload := body);
            (RepeatsHeaders(r', h) <==> RepeatsHeaders(r, h)) && r'.contentLength == r.contentLength
  {
    hide ValueOf;
  }

  lemma HeadReceived(u: Unicode, auto: bool, s: Sent)
    requires Sendable(u, auto, s)
    ensures GoodHeaders(u, s.All(auto)) && DeclaresBody(Lowered(u, s.All(auto)), s.body)
    ensures var (m, uri, h) := (Method(s.method_), Path(s.path), Lowered(u, s.All(auto)));
            && Received(u, auto, s) == SetRequestHeaders(NewRequest(m, uri, VERSION), h).(body := s.body, payload := s.body)
            && SetRequestHeaders(NewRequest(m, uri, VERSION), h).path == NewRequest(m, uri, VERSION).path
            && SetRequestHeaders(NewRequest(m, uri, VERSION), h).query == NewRequest(m, uri, VERSION).query
  {
    KeepsPath(NewRequest(Method(s.method_), Path(s.path), VERSION), Lowered(u, s.All(auto)));
    hide NewRequest, SetRequestHeaders, AllHeaders, Lowered, GoodHeaders, DeclaresBody, Enumerates, GoodStart;
  }

  lemma KeepsPath(r: Request, h: Headers)
    ensures SetRequestHeaders(r, h).path == r.path && SetRequestHeaders(r, h).query == r.query
  {
    hide DeclaredLength, Field;
  }

  lemma LengthOfBody(h: Headers, body: bytes)
    requires DeclaresBody(h, body)
    ensures var n := ParseInt(ValueOf(h, LENGTH_FIELD), 10); |body| == if n.Some? then n.value else 0
  {
    hide ParseInt;
  }

  // ----- Chunked requests -----

  /** A request that announces chunks is delivered with the data of the chunks as its body, and parsing goes on behind them. */
  lemma ChunkedRequestIsRead(
      u: Unicode, m: bytes, path: bytes, all: Headers, order: seq<bytes>, chunks: seq<Chunk>, last: Chunk, more: bytes)
    requires GoodStart(m, path) && GoodHeaders(u, all) && Enumerates(order, all) && all != map[]
    requires ValueOf(Lowered(u, all), ENCODING_FIELD) == CHUNKED_WORD
    requires (forall c :: c in chunks ==> WellFramed(c)) && IsLast(last)
    ensures var o := ParseLoop(u, Fresh(RequestBytes(m, path, all, order, Encode(chunks, last) + more)));
            var r := Head(m, path, Lowered(u, all)).(body := Data(chunks), payload := Data(chunks));
            o == Prepend([HttpRequest(r)], ParseLoop(u, Fresh(more)))
  {
    hide *;
    var l, buf := Lowered(u, all), Encode(chunks, last) + more;
    HeadIsRead(u, m, path, all, order, buf);
    ChunkedHead(m, path, l, buf);
    ChunkedMessage(u, ApplyHeaders(HeadState(m, path, buf), l), Head(m, path, l), chunks, last, more);
  }

  // The parser behind a request line.
  function HeadState(m: bytes, path: bytes, buf: bytes): State {
    Fresh(buf).(request := Some(NewRequest(m, path, VERSION)), phase := HeaderLines)
  }

  lemma ChunkedHead(m: bytes, path: bytes, h: Headers, buf: bytes)
    requires ValueOf(h, ENCODING_FIELD) == CHUNKED_WORD
    ensures HeadState(m, path, buf)
         == Fresh(buf).(request := Some(NewRequest(m, path, VERSION)), phase := HeaderLines)
    ensures var st := ApplyHeaders(HeadState(m, path, buf), h);
            && st.phase == ChunkedBody && st.buffer == buf && st.request == Some(Head(m, path, h))
            && Head(m, path, h).body == [] && Head(m, path, h).payload == []
  {
    HeadHasNoBody(m, path, h);
    hide ValueOf, Str, SetRequestHeaders, ApplyHeaders, NewRequest;
    ChunksAnnounced(HeadState(m, path, buf), h);
  }

  lemma ChunksAnnounced(st: State, h: Headers)
    requires st.phase == HeaderLines && Consistent(st) && ValueOf(h, ENCODING_FIELD) == CHUNKED_WORD
    ensures var r := ApplyHeaders(st, h);
            && r.phase == ChunkedBody && r.buffer == st.buffer
            && (st.request.Some? ==> r.request == Some(SetRequestHeaders(st.request.value, h)))
  {
    HeadersChooseBody(st, h);
    hide ValueOf, Str, SetRequestHeaders, SetResponseHeaders, DeclaredLength, Get;
  }

  lemma ChunkedMessage(u: Unicode, st: State, r: Request, chunks: seq<Chunk>, last: Chunk, more: bytes)
    requires st.phase == ChunkedBody && st.request == Some(r) && r.body == [] && r.payload == []
    requires st.buffer == Encode(chunks, last) + more
    requires (forall c :: c in chunks ==> WellFramed(c)) && IsLast(last)
    ensures ParseLoop(u, st)
         == Prepend([HttpRequest(r.(body := Data(chunks), payload := Data(chunks)))], ParseLoop(u, Fresh(more)))
  {
    var code := Encode(chunks, last);
    EncodeNotEmpty(chunks, last);
    hide WellFramed, IsLast, Encode, Data, DecodeChunks, ParseLoop;
    ChunkedBodyIsRead(u, st, chunks, last, more, 0);
    assert (code + more)[|code|..] == more;
    OneStep(u, st);
    LastStep(u, Advance(ParseNext(u, st)));
  }

  // ----- Names, values and numbers -----

  /** White space throughout: tab, line feed, vertical tab, form feed, carriage return and space. */
  predicate IsBlank(s: bytes) {
    forall i :: 0 <= i < |s| ==> s[i] in {9, 10, 11, 12, 13, 32}
  }

  /** Trimming takes the white space off both ends of a plain text and nothing else. */
  lemma TrimTakesSpaces(u: Unicode, front: bytes, s: bytes, back: bytes)
    requires IsAscii(s) && (s != [] ==> s[0] !in {9, 10, 11, 12, 13, 32} && s[|s| - 1] !in {9, 10, 11, 12, 13, 32})
    requires IsBlank(front) && IsBlank(back)
    ensures TrimSpace(u, front + s + back) == s
  {
    var whole := front + s + back;
    assert IsAscii(whole);
    assert front + (s + back) == whole;
    LeftTaken(front, s + back);
    if s == [] {
      assert [] + back == back && back + [] == back;
      LeftTaken(back, []);
    } else {
      RightTaken(s, back);
    }
  }

  lemma {:induction false} LeftTaken(front: bytes, s: bytes)
    requires IsBlank(front)
    ensures TrimLeft(front + s) == TrimLeft(s)
    decreases |front|
  {
    if front == [] {
      assert front + s == s;
    } else {
      assert (front + s)[1..] == front[1..] + s;
      LeftTaken(front[1..], s);
    }
  }

  lemma {:induction false} RightTaken(s: bytes, back: bytes)
    requires IsBlank(back)
    requires s != [] && s[|s| - 1] !in {9, 10, 11, 12, 13, 32}
    ensures TrimRight(s + back) == s
    decreases |back|
  {
    if back == [] {
      assert s + back == s;
    } else {
      var n := |back| - 1;
      assert (s + back)[..|s| + n] == s + back[..n];
      RightTaken(s, back[..n]);
    }
  }

  /** Lower-casing a plain text leaves no capital letter, and changes nothing but capital letters, by 32 each. */
  lemma LowerHasNoCapitals(u: Unicode, s: bytes, i: nat)
    requires IsAscii(s) && i < |s|
    ensures |ToLower(u, s)| == |s| && !(65 <= ToLower(u, s)[i] <= 90)
    ensures ToLower(u, s)[i] == s[i] || (65 <= s[i] <= 90 && ToLower(u, s)[i] == s[i] + 32)
  {
  }

  /** Of two headers with one name the later one counts. */
  lemma LaterHeaderCounts(u: Unicode, lines: seq<bytes>, name: bytes, value: bytes)
    requires GoodHeader(u, name, value)
    ensures var h := AddHeaders(u, lines + [HeaderLine(name, value)], map[]);
            && ToLower(u, name) in h && h[ToLower(u, name)] == value
            && forall k :: k != ToLower(u, name) ==> ValueOf(h, k) == ValueOf(AddHeaders(u, lines, map[]), k)
  {
    hide ToLower, GoodHeader, AddHeader;
    var line := HeaderLine(name, value);
    var last: seq<bytes> := [line];
    AddHeadersSplit(u, lines, last, map[]);
    HeaderIsRead(u, name, value, AddHeaders(u, lines, map[]));
    assert last[0] == line && last[1..] == [];
  }

  predicate IsDecimal(s: bytes) {
    s != [] && forall i :: 0 <= i < |s| ==> 48 <= s[i] <= 57
  }

  /** A number is decimal digits behind at most one sign, and nothing else is; a leading zero or plus changes nothing. */
  lemma NumbersAreDigits(s: bytes)
    ensures ParseInt(s, 10).Some? ==> s != [] && (IsDecimal(s) || (s[0] in {43, 45} && IsDecimal(s[1..])))
    ensures IsDecimal(s) ==> ParseInt([48] + s, 10) == ParseInt(s, 10) && ParseInt([43] + s, 10) == ParseInt(s, 10)
  {
    hide ParseInt, IsDecimal;
    if IsDecimal(s) {
      ZeroInFront(s);
      PlusInFront(s);
    }
    if ParseInt(s, 10).Some? {
      OnlyDigits(s);
    }
  }

  lemma OnlyDigits(s: bytes)
    requires ParseInt(s, 10).Some?
    ensures s != [] && (IsDecimal(s) || (s[0] in {43, 45} && IsDecimal(s[1..])))
  {
    hide DigitsValue;
    var digits := if s[0] == 43 || s[0] == 45 then s[1..] else s;
    assert AllDigits(digits, 10);
    assert forall i :: 0 <= i < |digits| ==> DigitValue(digits[i]) < 10;
  }

  lemma PlusInFront(s: bytes)
    requires IsDecimal(s)
    ensures ParseInt([43] + s, 10) == ParseInt(s, 10)
  {
    hide DigitsValue, AllDigits;
    assert ([43] + s)[1..] == s && ([43] + s)[0] == 43;
  }

  lemma ZeroInFront(s: bytes)
    requires IsDecimal(s)
    ensures ParseInt([48] + s, 10) == ParseInt(s, 10)
  {
    LeadingZero(s);
    DecimalIsDigits(s);
    assert IsDecimal([48] + s);
    DecimalIsDigits([48] + s);
    hide DigitsValue, AllDigits;
  }

  lemma DecimalIsDigits(s: bytes)
    requires IsDecimal(s)
    ensures AllDigits(s, 10) && s[0] != 43 && s[0] != 45
  {
  }

  lemma {:induction false} LeadingZero(s: bytes)
    ensures DigitsValue([48] + s, 10) == DigitsValue(s, 10)
    decreases |s|
  {
    var t := [48] + s;
    if s == [] {
      assert t[..0] == [] && DigitsValue([], 10) == 0;
    } else {
      assert t[..|t| - 1] == [48] + s[..|s| - 1];
      LeadingZero(s[..|s| - 1]);
    }
  }

  predicate IsHexDigit(b: byte) {
    48 <= b <= 57 || 65 <= b <= 70 || 97 <= b <= 102
  }

  /** A chunk size is hexadecimal digits behind at most one sign, and nothing else is. */
  lemma SizesAreHexDigits(s: bytes)
    ensures ParseInt(s, 16).Some? ==>
              && s != []
              && var digits := if s[0] in {43, 45} then s[1..] else s;
                 digits != [] && forall i :: 0 <= i < |digits| ==> IsHexDigit(digits[i])
  {
    hide DigitsValue;
    if ParseInt(s, 16).Some? {
      var digits := if s[0] == 43 || s[0] == 45 then s[1..] else s;
      assert AllDigits(digits, 16);
      assert forall i :: 0 <= i < |digits| ==> DigitValue(digits[i]) < 16;
    }
  }

  /** Sizes in capital and in small letters are the same. */
  lemma SizesIgnoreCase(u: Unicode, s: bytes)
    requires IsAscii(s)
    ensures ParseInt(ToLower(u, s), 16) == ParseInt(s, 16)
  {
    LowerDigits(u, s);
    var l := ToLower(u, s);
    hide ToLower, DigitValue, AllDigits, DigitsValue;
    if s != [] && (s[0] == 43 || s[0] == 45) {
      SameDigits(s[1..], l[1..]);
    }
    SameDigits(s, l);
  }

  lemma LowerDigits(u: Unicode, s: bytes)
    requires IsAscii(s)
    ensures var l := ToLower(u, s);
            && |l| == |s| && (forall i :: 0 <= i < |s| ==> DigitValue(l[i]) == DigitValue(s[i]))
            && (s != [] ==> (l[0] == 43 <==> s[0] == 43) && (l[0] == 45 <==> s[0] == 45))
  {
    var l := ToLower(u, s);
    forall i | 0 <= i < |s|
      ensures l[i] == LowerByte(s[i]) && DigitValue(l[i]) == DigitValue(s[i])
    {
    }
  }

  lemma {:induction false} SameDigits(s: bytes, t: bytes)
    requires |s| == |t| && forall i :: 0 <= i < |s| ==> DigitValue(s[i]) == DigitValue(t[i])
    ensures AllDigits(s, 16) == AllDigits(t, 16) && DigitsValue(s, 16) == DigitsValue(t, 16)
    decreases |s|
  {
    hide DigitValue;
    if s != [] {
      SameDigits(s[..|s| - 1], t[..|t| - 1]);
    }
  }

  /** A chunk whose size, up to the first semicolon, is no number is refused. */
  lemma BadSizeIsRefused(size: bytes, extension: bytes, more: bytes)
    requires CR !in size && CR !in extension && 59 !in size && ParseInt(size, 16) == None
    ensures DecodeChunks(size + CRLF + more) == ChunkFault(BadChunkSize)
    ensures DecodeChunks(size + [59] + extension + CRLF + more) == ChunkFault(BadChunkSize)
  {
    hide Find, ParseInt;
    FindByteNowhere(59, size);
    RefusedLine(size, more);
    var line := size + [59] + extension;
    FindByteAfter(59, size, extension);
    assert line[..|size|] == size;
    RefusedLine(line, more);
  }

  lemma RefusedLine(line: bytes, more: bytes)
    requires CR !in line && ParseInt(Split(line, 59)[0], 16) == None
    ensures DecodeChunks(line + CRLF + more) == ChunkFault(BadChunkSize)
  {
    hide Find, ParseInt, Split;
    FindLineEnd(line, more);
    assert (line + CRLF + more)[..|line|] == line;
  }

  // ----- What the builder sends -----

  const AGENT_NAME := Str("User-Agent")
  const ACCEPT_NAME := Str("Accept")
  const LENGTH_NAME := Str("Content-Length")
  const SERVER_NAME := Str("Server")
  const DATE_NAME := Str("Date")
  const CONNECTED_NAME := Str("Connection")

  /** The names of the headers the builder adds are all different. */
  lemma NamesSent()
    ensures |AGENT_NAME| == 10 && |ACCEPT_NAME| == 6 && |LENGTH_NAME| == 14
    ensures |SERVER_NAME| == 6 && |DATE_NAME| == 4 && |CONNECTED_NAME| == 10
    ensures CONNECTED_NAME != AGENT_NAME && SERVER_NAME != ACCEPT_NAME
  {
    assert CONNECTED_NAME[0] != AGENT_NAME[0] && SERVER_NAME[0] != ACCEPT_NAME[0];
  }

  /**
   A request is sent with the caller's headers as they are. With automatic headers these are added where the caller has none
   of that name: the client's name, Accept, and for a body its length; and nothing else is.
   */
  lemma RequestHeadersSent(auto: bool, headers: Headers, n: nat)
    requires n <= MAX_INT64
    ensures var h := AllHeaders(auto, headers, n);
            && headers.Keys <= h.Keys && (forall k :: k in headers ==> h[k] == headers[k])
            && h.Keys - headers.Keys ==
               (if !auto then {}
                else {AGENT_NAME, ACCEPT_NAME} + (if n > 0 then {LENGTH_NAME} else {})) - headers.Keys
            && (auto ==> AGENT_NAME in h && ACCEPT_NAME in h)
            && (auto && AGENT_NAME !in headers ==> h[AGENT_NAME] == Str("NetClient/1.0"))
            && (auto && ACCEPT_NAME !in headers ==> h[ACCEPT_NAME] == Str("*/*"))
            && (auto && n > 0 && LENGTH_NAME !in headers ==>
                  LENGTH_NAME in h && ParseInt(h[LENGTH_NAME], 10) == Some(n))
  {
    NamesSent();
    ParseIntRoundTrip(n, 10);
    hide Str, ParseInt, Digits;
  }

  /** The same for a response: server, date, length and connection. */
  lemma ResponseHeadersSent(auto: bool, server: bytes, date: bytes, headers: Headers, n: nat)
    requires n <= MAX_INT64
    ensures var h := ResponseHeaders(auto, server, date, headers, n);
            && headers.Keys <= h.Keys && (forall k :: k in headers ==> h[k] == headers[k])
            && h.Keys - headers.Keys ==
               (if !auto then {}
                else {DATE_NAME, CONNECTED_NAME} + (if server != [] then {SERVER_NAME} else {})
                     + (if n > 0 then {LENGTH_NAME} else {})) - headers.Keys
            && (auto ==> DATE_NAME in h && CONNECTED_NAME in h)
            && (auto && DATE_NAME !in headers ==> h[DATE_NAME] == date)
            && (auto && CONNECTED_NAME !in headers ==> h[CONNECTED_NAME] == Str("keep-alive"))
            && (auto && server != [] && SERVER_NAME !in headers ==> SERVER_NAME in h && h[SERVER_NAME] == server)
            && (auto && n > 0 && LENGTH_NAME !in headers ==>
                  LENGTH_NAME in h && ParseInt(h[LENGTH_NAME], 10) == Some(n))
  {
    NamesSent();
    ParseIntRoundTrip(n, 10);
    hide Str, ParseInt, Digits;
  }

  /** What the builder fills in for parts left empty, and only for those. */
  lemma EmptyPartsFilledIn(m: bytes, path: bytes, code: int, text: bytes)
    ensures Method(m) == (if m != [] then m else Str("GET")) && Path(path) == (if path != [] then path else Str("/"))
    ensures StatusCode(code) == if code != 0 then code else 200
    ensures text != [] ==> StatusText(code, text) == text
  {
    hide StatusName;
  }
}

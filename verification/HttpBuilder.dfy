/** The HTTP request builder: the bytes of a request, for any order in which the header map is enumerated. */
module HttpBuilder {
  import opened Bytes
  import opened HttpText
  import opened HttpMachine
  import opened Sequences

  const VERSION := Str("HTTP/1.1")
  const USER_AGENT := Str("User-Agent")
  const NET_CLIENT := Str("NetClient/1.0")
  const ACCEPT := Str("Accept")
  const ANY_TYPE := Str("*/*")
  const CONTENT_LENGTH_NAME := Str("Content-Length")
  const GET := Str("GET")
  const SLASH := Str("/")

  function Method(m: bytes): bytes {
    if m == [] then GET else m
  }

  function Path(p: bytes): bytes {
    if p == [] then SLASH else p
  }

  function WithDefault(h: Headers, name: bytes, value: bytes): Headers {
    if name in h then h else h[name := value]
  }

  /** The headers sent: the caller's, and with autoHeaders the defaults and the body length. */
  function AllHeaders(auto: bool, headers: Headers, bodyLen: nat): Headers {
    if !auto then headers
    else
      var h := WithDefault(WithDefault(headers, USER_AGENT, NET_CLIENT), ACCEPT, ANY_TYPE);
      if bodyLen > 0 then WithDefault(h, CONTENT_LENGTH_NAME, Digits(bodyLen, 10)) else h
  }

  function HeaderLine(name: bytes, value: bytes): bytes {
    name + [COLON, SPACE] + value
  }

  function HeaderLinesOf(h: Headers, order: seq<bytes>): seq<bytes>
    requires forall k :: k in order ==> k in h
  {
    if order == [] then [] else [HeaderLine(order[0], h[order[0]])] + HeaderLinesOf(h, order[1..])
  }

  function JoinLines(lines: seq<bytes>): bytes {
    if lines == [] then [] else lines[0] + CRLF + JoinLines(lines[1..])
  }

  /** An enumeration of the header map: every name once. */
  ghost predicate Enumerates(order: seq<bytes>, h: Headers) {
    && (forall k :: k in order <==> k in h)
    && (forall i, j :: 0 <= i < j < |order| ==> order[i] != order[j])
  }

  function StartLine(m: bytes, path: bytes): bytes {
    m + [SPACE] + path + [SPACE] + VERSION
  }

  function RequestBytes(m: bytes, path: bytes, h: Headers, order: seq<bytes>, body: bytes): bytes
    requires forall k :: k in order ==> k in h
  {
    StartLine(m, path) + CRLF + JoinLines(HeaderLinesOf(h, order)) + CRLF + body
  }

  // ----- Responses -----

  const SERVER := Str("Server")
  const DATE := Str("Date")
  const CONNECTION_NAME := Str("Connection")
  const KEEP_ALIVE := Str("keep-alive")
  const NET_SERVER := Str("NetServer/1.0")

  // Not empty, and printable ASCII throughout.
  predicate Printable(s: string) {
    s != "" && forall i :: 0 <= i < |s| ==> 32 <= s[i] as int < 127
  }

  // The rows of getStatusText, a few at a time.
  function UnavailableName(code: int): (s: string)
    ensures Printable(s)
  {
    match code
    case 503 => "Service Unavailable"
    case 504 => "Gateway Timeout"
    case 505 => "HTTP Version Not Supported"
    case _ => "Unknown"
  }

  function ServerErrorName(code: int): (s: string)
    ensures Printable(s)
  {
    match code
    case 500 => "Internal Server Error"
    case 501 => "Not Implemented"
    case 502 => "Bad Gateway"
    case _ => UnavailableName(code)
  }

  function RequestLimitName(code: int): (s: string)
    ensures Printable(s)
  {
    match code
    case 414 => "URI Too Long"
    case 415 => "Unsupported Media Type"
    case 426 => "Upgrade Required"
    case 429 => "Too Many Requests"
    case _ => ServerErrorName(code)
  }

  function RequestErrorName(code: int): (s: string)
    ensures Printable(s)
  {
    match code
    case 408 => "Request Timeout"
    case 409 => "Conflict"
    case 410 => "Gone"
    case 411 => "Length Required"
    case 413 => "Payload Too Large"
    case _ => RequestLimitName(code)
  }

  function ClientErrorName(code: int): (s: string)
    ensures Printable(s)
  {
    match code
    case 400 => "Bad Request"
    case 401 => "Unauthorized"
    case 403 => "Forbidden"
    case 404 => "Not Found"
    case 405 => "Method Not Allowed"
    case 406 => "Not Acceptable"
    case _ => RequestErrorName(code)
  }

  function RedirectName(code: int): (s: string)
    ensures Printable(s)
  {
    match code
    case 301 => "Moved Permanently"
    case 302 => "Found"
    case 304 => "Not Modified"
    case _ => ClientErrorName(code)
  }

  /** getStatusText. */
  function StatusName(code: int): (s: string)
    ensures Printable(s)
  {
    match code
    case 100 => "Continue"
    case 101 => "Switching Protocols"
    case 200 => "OK"
    case 201 => "Created"
    case 202 => "Accepted"
    case 204 => "No Content"
    case _ => RedirectName(code)
  }

  function StatusCode(code: int): int {
    if code == 0 then 200 else code
  }

  function StatusText(code: int, text: bytes): bytes {
    if text == [] then Str(StatusName(StatusCode(code))) else text
  }

  /** The headers of a response; the date is what the clock prints. */
  function ResponseHeaders(auto: bool, server: bytes, date: bytes, headers: Headers, bodyLen: nat): Headers {
    if !auto then headers
    else
      var h := if server != [] then WithDefault(headers, SERVER, server) else headers;
      var h1 := WithDefault(h, DATE, date);
      var h2 := if bodyLen > 0 then WithDefault(h1, CONTENT_LENGTH_NAME, Digits(bodyLen, 10)) else h1;
      WithDefault(h2, CONNECTION_NAME, KEEP_ALIVE)
  }

  function StatusLine(code: int, text: bytes): bytes {
    VERSION + [SPACE] + PrintInt(code) + [SPACE] + text
  }

  function ResponseBytes(code: int, text: bytes, h: Headers, order: seq<bytes>, body: bytes): bytes
    requires forall k :: k in order ==> k in h
  {
    StatusLine(code, text) + CRLF + JoinLines(HeaderLinesOf(h, order)) + CRLF + body
  }

  class Builder {
    var autoHeaders: bool
    var serverName: bytes

    constructor ()
      ensures autoHeaders && serverName == NET_SERVER
    {
      autoHeaders := true;
      serverName := NET_SERVER;
    }

    /** BuildRequest; order is the order in which the runtime happens to enumerate the merged header map. */
    method BuildRequest(m: bytes, path: bytes, headers: Headers, body: bytes, order: seq<bytes>) returns (r: bytes)
      requires Enumerates(order, AllHeaders(autoHeaders, headers, |body|))
      ensures var h := AllHeaders(autoHeaders, headers, |body|);
              r == RequestBytes(Method(m), Path(path), h, order, body)
    {
      hide JoinLines, HeaderLinesOf, AllHeaders;
      var method_, target := m, path;
      if method_ == [] {
        method_ := GET;
      }
      if target == [] {
        target := SLASH;
      }
      r := method_ + [SPACE] + target + [SPACE] + VERSION + CRLF;
      var all := MergeHeaders(headers, |body|);
      var block := WriteHeaders(all, order);
      r := r + block + CRLF;
      if |body| > 0 {
        r := r + body;
      }
    }

    /** BuildResponse; date is what the clock prints. */
    method BuildResponse(code: int, text: bytes, headers: Headers, body: bytes, date: bytes, order: seq<bytes>)
      returns (r: bytes)
      requires Enumerates(order, ResponseHeaders(autoHeaders, serverName, date, headers, |body|))
      ensures var h := ResponseHeaders(autoHeaders, serverName, date, headers, |body|);
              r == ResponseBytes(StatusCode(code), StatusText(code, text), h, order, body)
    {
      hide JoinLines, HeaderLinesOf, ResponseHeaders, StatusName, PrintInt;
      var statusCode, statusText := code, text;
      if statusCode == 0 {
        statusCode := 200;
      }
      if statusText == [] {
        statusText := Str(StatusName(statusCode));
      }
      r := VERSION + [SPACE] + PrintInt(statusCode) + [SPACE] + statusText + CRLF;
      var all := MergeResponseHeaders(headers, |body|, date);
      var block := WriteHeaders(all, order);
      r := r + block + CRLF;
      if |body| > 0 {
        r := r + body;
      }
    }

    method MergeResponseHeaders(headers: Headers, bodyLen: nat, date: bytes) returns (all: Headers)
      ensures all == ResponseHeaders(autoHeaders, serverName, date, headers, bodyLen)
    {
      hide Digits;
      all := headers;
      if autoHeaders {
        if SERVER !in all && serverName != [] {
          all := all[SERVER := serverName];
        }
        if DATE !in all {
          all := all[DATE := date];
        }
        if bodyLen > 0 {
          if CONTENT_LENGTH_NAME !in all {
            all := all[CONTENT_LENGTH_NAME := Digits(bodyLen, 10)];
          }
        }
        if CONNECTION_NAME !in all {
          all := all[CONNECTION_NAME := KEEP_ALIVE];
        }
      }
    }

    // The caller's headers and the automatic ones.
    method MergeHeaders(headers: Headers, bodyLen: nat) returns (all: Headers)
      ensures all == AllHeaders(autoHeaders, headers, bodyLen)
    {
      hide Digits;
      all := headers;
      if autoHeaders {
        if USER_AGENT !in all {
          all := all[USER_AGENT := NET_CLIENT];
        }
        if ACCEPT !in all {
          all := all[ACCEPT := ANY_TYPE];
        }
        if bodyLen > 0 {
          if CONTENT_LENGTH_NAME !in all {
            all := all[CONTENT_LENGTH_NAME := Digits(bodyLen, 10)];
          }
        }
      }
    }

    // The loop that writes one line for each header.
    static method WriteHeaders(all: Headers, order: seq<bytes>) returns (block: bytes)
      requires forall k :: k in order ==> k in all
      ensures block == JoinLines(HeaderLinesOf(all, order))
    {
      hide HeaderLinesOf, JoinLines;
      block := [];
      ghost var whole := JoinLines(HeaderLinesOf(all, order));
      assert [] + whole == whole;
      var i := 0;
      while i < |order|
        invariant 0 <= i <= |order|
        invariant block + JoinLines(HeaderLinesOf(all, order[i..])) == whole
      {
        assert order[i..][0] == order[i] && order[i..][1..] == order[i + 1..];
        UnfoldBlock(all, order[i..]);
        var line := order[i] + [COLON, SPACE] + all[order[i]] + CRLF;
        ConcatAssoc(block, line, JoinLines(HeaderLinesOf(all, order[i + 1..])));
        block := block + line;
        i := i + 1;
      }
      EmptyBlock(all);
      assert block + [] == block;
    }
  }

  lemma EmptyBlock(h: Headers)
    ensures JoinLines(HeaderLinesOf(h, [])) == []
  {
  }

  lemma UnfoldBlock(h: Headers, order: seq<bytes>)
    requires order != [] && forall k :: k in order ==> k in h
    ensures JoinLines(HeaderLinesOf(h, order)) ==
            HeaderLine(order[0], h[order[0]]) + CRLF + JoinLines(HeaderLinesOf(h, order[1..]))
  {
    var lines := HeaderLinesOf(h, order);
    assert lines[1..] == HeaderLinesOf(h, order[1..]);
  }
}

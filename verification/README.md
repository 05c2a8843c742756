# Verified model of the live chat room server

A Dafny model of the parts of the repository whose state, loops and arithmetic carry guarantees, with the guarantees
proved for all inputs, all runs or all reachable states.

Each area has functions that say what one operation does to the state, classes or methods in the form of the Go code
that are proved against those functions, and theorems about the functions.

- **Wire codecs.** `WebSocketFrame` is the frame format of RFC 6455 (sections 5.2 to 5.5) as the code implements it;
  `WebSocketParser` and `WebSocketBuilder` are the objects; `WebSocketTheorems`, `WebSocketVerdicts` and `WebSocketFragments`
  hold the results, `WebSocketUtf8` what counts as text.
  `HttpText` and `HttpMachine` are the HTTP/1.1 parser of RFC 7230 (sections 3.1.1, 3.3.3 and 4.1) as a state machine;
  `HttpParser` and `HttpBuilder` are the objects; `HttpTheorems`, `HttpLimits`, `HttpChunked`, `HttpRoundTrip`,
  `HttpResponses` and `HttpFields` hold the results for one kind of message, `HttpPipeline`, `HttpSuffixes`, `HttpChunkings` and
  `HttpLongLines` those for lists of both, and `HttpPanics` says where a chunk size makes the program panic.
  `WebSocketMessages` has lists of fragmented messages. `Bytes` has bytes, bit operations and big-endian words; `Words`,
  `Sequences` and `Wrappers` are shared.
- **Ring buffer.** `RingModel` decides which writes end and which append; `RingBuffer` is the object over its array.
- **Message IDs and the reorder window.** `GlobalId`; `IdAllocator` and `IdAvailability` for one call at a time,
  `IdInterleavings` and `IdCalls` for many at once; `ReorderWindow`.
- **Reliability.** `AckQueues`, `AckTheorems` and `AckRooms` for the client's queues; `RouterReliability`,
  `RouterTheorems`, `RouterRecords` and `RouterBounds` for the router's timeout machine; `MessageKey` for the keys both use.
- **Index structures and the scheduler.** `HashRing`, `HashRingTheorems`, `Timers`, `TimerTheorems`, `Membership`.

Where the code does not have the property one would expect of it, the model keeps the code and the theorem gives the exact
condition:

- `RingBuffer.Write` (util/net/base/buffer/ring_buffer.go:477-527) reads a size that is stale inside its loop, and one
  branch never wraps the tail. A write outside `RingModel.Fits` never ends (`RingModel.LoopEndsIff`), or finds the ring full
  and writes nothing, or reports every byte and leaves a ring that looks empty or has a size beyond its capacity
  (`RingModel.EndsWith`, `RingBuffer.LossIsReachable`, `RingModel.OverfilledRing`); reading from the last one slices out of
  range.
- The ID generator clears its mask before it swaps the time, which its comment calls harmless. With two callers both the
  clearing and a stale mask hand the same time and sequence number out twice; they differ in every interleaving if and only
  if there is one caller at a time (`IdInterleavings.DifferIffOneCaller`). Only a new millisecond does it: while none starts,
  the numbers are handed out in a row (`IdCalls.NumbersInARow`).
- A stream with a request line or header block over 8192 bytes is accepted in one piece, and rejected when a cut
  leaves more than 8192 bytes of it without its end (`HttpLimits.EveryCutAccepted`, `HttpChunkings.EveryCutReadBackIff`,
  and `HttpLongLines.LongPathIsCut` for an input).
- A message printed without headers is not delivered on its own: its blank line is taken for the end of its first line, so
  it waits, or takes over the headers and body of the message behind it, which is then lost
  (`HttpPipeline.HeaderlessDecided`, `HttpPipeline.HeaderlessTakesNext`). A list is read back if and only if every message
  has headers and a body within the limit (`HttpChunkings.ReadBackIff`).
- A chunk size that is negative and passes the length check, or so large that adding two wraps around, makes Go's `make`
  panic; the model has the outcome `RuntimePanic`, and `HttpPanics.BodyPanicsIff` and `HttpPanics.OnlyChunksPanic` say
  exactly when.
- Fragmented text needs its first chunk to be valid UTF-8 on its own, because the parser validates a first frame alone.
- In the router, acknowledgements of room operations and chat messages are looked up under keys such as `room_join_7`, while
  messages are filed under hexadecimal IDs, so they never confirm anything (router/reliability_manager.go:424-446).
- A negative fetch response in the router removes the message first and then reports a failure of a message no longer there,
  so the failure counter misses it (router/reliability_manager.go:366-404), although the comment there says the send failed.
- A key sent again while it is pending leaves its old timer running (router) or stands twice in a queue (client). In the
  router each timer left behind adds one firing to the bound for the new message (`RouterBounds.ResolvedWithinBound`,
  `RouterBounds.SendingAgainFiresMore`).
- Removing a node from the hash ring in place equals a rebuild only when the node shares no point with another. A node that
  joins can make keys move between old nodes that share a point (`HashRingTheorems.JoiningMovesOnlyToNewNode`).
- A message without an ID at the head of a room's queue in the client blocks every acknowledgement of the room
  (`AckTheorems.RoomAckConfirmsIff`).
- The generator's wait for a new millisecond uses up the first later clock reading it sees and then reads the clock again, so a
  clock that shows a later time only once in between does not end it (`IdAvailability.WaitsIff`).
- The 50 ms release window is exact: messages 50 ms late may be released out of order.

`dafny verify dfyconfig.toml` checks the whole project.

## Model

| member | source | states |
|---|---|---|
| WebSocketParser.Parser.Parse | util/net/protocol/websocket/websocket.go:137-168 | consumes the arrived bytes exactly as the parse function over buffer and fragment state says: messages, residual buffer, fragment bytes and opcode, and on an error no message but the state the error leaves |
| WebSocketParser.Parser.NextFrame | util/net/protocol/websocket/websocket.go:171-293 | one frame read off the front: wait, reject or deliver with the exact length, per ParseFrame |
| WebSocketParser.Parser.ReadHeader | util/net/protocol/websocket/websocket.go:171-248 | header fields, the three length forms, mask checks and the size limit in the order the code tests them |
| WebSocketParser.Parser.UnmaskInPlace | util/net/protocol/websocket/websocket.go:255-264 | the in-place XOR loop equals unmasking byte i with key byte i mod 4 |
| WebSocketParser.Parser.Accept | util/net/protocol/websocket/websocket.go:266-293 | validation, then delivery or fragment handling, per AcceptFrame |
| WebSocketParser.Parser.Collect | util/net/protocol/websocket/websocket.go:337-395 | opening, extending, overflowing and completing a fragmented message, with the fragment state each outcome leaves |
| WebSocketParser.Session | util/net/protocol/websocket/websocket.go:137-168 | a whole session over any chunks returns the messages, or the error, of one parse of the concatenation |
| WebSocketTheorems.ParseFrameIgnoresLaterBytes | util/net/protocol/websocket/websocket.go:171-293 | a frame that is decided is decided by its own bytes |
| WebSocketTheorems.SplitIndependence | util/net/protocol/websocket/websocket.go:137-293 | for every parser state and byte strings A, B: parsing A ++ B equals parsing A and then, unless A was rejected, B: same messages, residual buffer, fragment state, and same rejection |
| WebSocketTheorems.RunEqualsOneParse | util/net/protocol/websocket/websocket.go:137-293 | the same for any number of chunks |
| WebSocketTheorems.ParseBufferBounds | util/net/protocol/websocket/websocket.go:107-110 | one accepted parse leaves less than 14 + 65536 buffered bytes and at most 1 MiB of fragments |
| WebSocketTheorems.BoundedMemory | util/net/protocol/websocket/websocket.go:355-362 | the bounds hold after every run of Parse calls |
| WebSocketTheorems.MaskTwice | util/net/protocol/websocket/builder.go:163-168 | masking twice is the identity |
| WebSocketTheorems.LengthFieldParses | util/net/protocol/websocket/builder.go:141-151 | the 7-bit, 16-bit and 64-bit length forms are read back as the length |
| WebSocketTheorems.FrameIsRead | util/net/protocol/websocket/websocket.go:171-293 | a built frame followed by anything is consumed exactly and judged by its own content, in every role and length form |
| WebSocketTheorems.FrameRoundTrip | util/net/protocol/websocket/builder.go:85-172 | opcode, FIN, payload and mask key come back from the peer if and only if the payload is within the limits and text is valid UTF-8; otherwise the peer rejects |
| WebSocketTheorems.CloseRoundTrip | util/net/protocol/websocket/websocket.go:398-407 | close code and reason come back for every code and every reason up to 123 bytes |
| WebSocketTheorems.NonFinalControlRejected | util/net/protocol/websocket/websocket.go:307-314 | a control frame that is not final is rejected by every peer |
| WebSocketBuilder.Builder.BuildFrame | util/net/protocol/websocket/builder.go:85-172 | the byte-by-byte filled array is the frame, or the opcode or control-size error |
| WebSocketBuilder.Builder.PutHeader | util/net/protocol/websocket/builder.go:128-157 | first two bytes, extended length and mask key at their offsets |
| WebSocketBuilder.Builder.MaskTail | util/net/protocol/websocket/builder.go:163-168 | the masking loop masks the payload where it stands and nothing else |
| WebSocketBuilder.Builder.BuildFragmentedFrames | util/net/protocol/websocket/builder.go:220-264 | the loop cuts the data into the frames of FragmentsFrom; control opcodes are refused; a chunk size that is not positive means 32768 |
| WebSocketBuilder.Builder.BuildCloseFrame | util/net/protocol/websocket/builder.go:185-191 | the close frame, or the control-size error for a reason over 123 bytes |
| WebSocketFragments.ControlsAreRead | util/net/protocol/websocket/websocket.go:277-292 | control frames in front of anything are delivered in order and leave the fragment state alone |
| WebSocketFragments.ContinuationAccepted | util/net/protocol/websocket/websocket.go:351-394 | what a continuation frame does to the collected bytes: reject, complete or extend |
| WebSocketFragments.FragmentationRoundTrip | util/net/protocol/websocket/builder.go:220-264 | for all non-empty data, chunk sizes, mask keys and valid control frames before each fragment and after the last, the peer delivers those controls in order and the one message if and only if Reassembles holds: within the size limits and, for text, first chunk and whole valid UTF-8 |
| WebSocketMessages.MessageIsRead | util/net/protocol/websocket/builder.go:220-264 | one fragmented message with its control frames, followed by anything: delivered, and parsing goes on behind it, or rejected |
| WebSocketMessages.MessagesAreRead | util/net/protocol/websocket/builder.go:220-264 | a list of messages, each with its own chunk size, keys and control frames, is delivered in order if and only if each reassembles |
| WebSocketMessages.MessagesInAnyChunks | util/net/protocol/websocket/websocket.go:137-168 | the same however the bytes arrive |
| WebSocketFragments.TextCutInsideCharacterIsRejected | util/net/protocol/websocket/websocket.go:324-331 | valid UTF-8 text cut inside its first characters is lost: a concrete message the peer rejects |
| WebSocketVerdicts.WrongMaskIsRefused | util/net/protocol/websocket/websocket.go:188-202 | on raw bytes: a server refuses every frame whose second byte is below 128 and a client every other one, each with its error, whatever else has arrived or is held |
| WebSocketVerdicts.FrameWaitsIff | util/net/protocol/websocket/websocket.go:171-253 | the parser waits if and only if there are less than two bytes, or the mask bit is right and the length field, or with a length within 64 KiB the frame, is not all there |
| WebSocketVerdicts.LongFrameIsRefused | util/net/protocol/websocket/websocket.go:215-236 | a length over 64 KiB is refused once its field is there, before the rest of the frame |
| WebSocketVerdicts.WholeFrameIsRefusedIff | util/net/protocol/websocket/websocket.go:266-394 | a whole frame with the right mask bit is refused if and only if its opcode is none of the six, or a control frame is not final or over 125 bytes, or text is not valid, or a fragment opens while bytes are held, or a continuation makes over 1 MiB or completes invalid text; with the error of each and what is held then |
| WebSocketVerdicts.WholeFrameDelivers | util/net/protocol/websocket/websocket.go:255-407 | a whole frame that is not refused and no part of a fragmented message is delivered, with opcode, unmasked payload, FIN, mask key, kind, close code and reason said on the raw bytes, and what is held stays held |
| WebSocketVerdicts.FragmentIsCollected | util/net/protocol/websocket/websocket.go:337-394 | a part of a fragmented message is held behind the parts before it; the last part delivers the whole under the opcode of the first and leaves nothing held |
| WebSocketVerdicts.MaskFlipsBits | util/net/protocol/websocket/builder.go:163-168 | bit k of byte i is flipped exactly where key byte i mod 4 has bit k set |
| WebSocketUtf8.ValidIffEncoded | util/net/protocol/websocket/websocket.go:324-331 | bytes pass for text if and only if they are the UTF-8 encoding of a sequence of Unicode scalar values |
| HttpText.FindIsFirst | util/net/protocol/http/http.go:296-297 | the index found is the first occurrence |
| HttpText.FindInPrefix | util/net/protocol/http/http.go:296-297 | what a prefix does not show ends beyond it |
| HttpText.ParseIntRoundTrip | util/net/protocol/http/builder.go:103-106 | decimal and hexadecimal printing and ParseInt agree on every 63-bit number |
| HttpParser.Parser.Parse | util/net/protocol/http/http.go:221-257 | the parse loop: messages, error and every field of the parser afterwards, per ParseLoop |
| HttpParser.Parser.NextStep | util/net/protocol/http/http.go:260-292 | one parseNext call: wait, error with the state it leaves, or bytes consumed and perhaps a message |
| HttpParser.Parser.ReadRequestLine | util/net/protocol/http/http.go:295-340 | request line, query string, hand-over to the response line |
| HttpParser.Parser.ReadResponseLine | util/net/protocol/http/http.go:343-389 | status line |
| HttpParser.Parser.ReadHeaders | util/net/protocol/http/http.go:392-447 | header block, header fields of the message and choice of body strategy |
| HttpParser.Parser.CollectHeaders | util/net/protocol/http/http.go:405-424 | the scanner loop: trimmed, lower-case names, later values win, lines without colon skipped |
| HttpParser.Parser.ReadBody | util/net/protocol/http/http.go:450-477 | fixed-length body |
| HttpParser.Parser.ReadChunkedBody | util/net/protocol/http/http.go:480-541 | the chunk loop consumes a complete body or nothing |
| HttpParser.Parser.FinishMessage | util/net/protocol/http/http.go:669-678 | the reset between messages keeps the left-over bytes |
| HttpMachine.ParseNext | util/net/protocol/http/http.go:260-292 | consumes within the buffer, never changes it, and consumes nothing only when a message is completed and the state is reset |
| HttpTheorems.StepKeepsConsistent | util/net/protocol/http/http.go:260-541 | every step keeps the invariant that a message is being read behind its first line; a step without bytes delivers a message |
| HttpTheorems.SplitIndependence | util/net/protocol/http/http.go:221-541 | if the bytes so far parse, parsing them together with any more bytes equals going on from the state left: same messages and same final state, across all phases and pipelined messages |
| HttpTheorems.RunEqualsOneParse | util/net/protocol/http/http.go:221-541 | an accepted run of Parse calls delivers what one call on the whole delivers and leaves the same state |
| HttpTheorems.ChunksIgnoreLaterBytes | util/net/protocol/http/http.go:480-541 | a decided chunked body is decided by its own bytes |
| HttpLimits.EveryCutAccepted | util/net/protocol/http/http.go:295-447 | a stream one call accepts is accepted however it is cut if and only if every first line and header block stays within its limit |
| HttpChunked.SizeLineDeclares | util/net/protocol/http/http.go:493-502 | a hexadecimal size with or without an extension declares that size |
| HttpChunked.DecodeEncoded | util/net/protocol/http/http.go:480-541 | any encoded list of non-empty chunks, with any two bytes behind each, followed by anything, decodes to the concatenation and consumes exactly the encoding |
| HttpChunked.DecodedIsEncoded | util/net/protocol/http/http.go:480-541 | whatever is decoded is such an encoding of what was decoded, so a body is accepted if and only if it is one |
| HttpChunked.DecodePrefix | util/net/protocol/http/http.go:480-541 | on every strict prefix of a body nothing is decoded; with its end the result no longer changes |
| HttpChunked.ChunkedBodyIsRead | util/net/protocol/http/http.go:480-541 | the parser step on a whole encoding sets the body and consumes it; on a strict prefix it consumes nothing and changes no state |
| HttpBuilder.Builder.BuildRequest | util/net/protocol/http/builder.go:71-123 | the bytes of the request for any enumeration order of the header map |
| HttpBuilder.Builder.WriteHeaders | util/net/protocol/http/builder.go:110-113 | one line per header in enumeration order |
| HttpBuilder.Builder.BuildResponse | util/net/protocol/http/builder.go:126-181 | the bytes of the response for any enumeration order, with the filled-in code, text and headers; the date is a parameter |
| HttpText.PrintIntRoundTrip | util/net/protocol/http/builder.go:140-140 | printing and parsing agree on every signed 64-bit number |
| HttpResponses.StatusLineIsRead | util/net/protocol/http/http.go:318-389 | a printed status line is first taken for a request line and then read back |
| HttpResponses.ResponseIsRead | util/net/protocol/http/builder.go:126-181 | one response followed by anything: delivered, and parsing goes on behind it; a body over the limit is left in the stream |
| HttpResponses.ResponsePipelineRoundTrip | util/net/protocol/http/builder.go:126-181 | any list of well-formed responses printed back to back is read as the same responses in order with nothing left over |
| HttpResponses.AutomaticResponseLengthDeclares | util/net/protocol/http/builder.go:158-162 | the automatic Content-Length declares the body of a response |
| HttpFields.FirstLineDecides | util/net/protocol/http/http.go:295-389 | a first line of three words, the third of which may hold spaces, is a status line if the first word starts with HTTP/ and a request line otherwise, with these words as method, address and version, or as version, code and text; a code that is no number is refused |
| HttpFields.ShortLineIsRefused | util/net/protocol/http/http.go:309-316 | a first line of one or two words is refused |
| HttpFields.PathWithoutQuery | util/net/protocol/http/http.go:325-336 | without a question mark the path is the whole address and there is no query |
| HttpFields.PathAndQuery | util/net/protocol/http/http.go:333-336 | an address p?q with no question mark in p has path p, and for every list of items joined by ampersands to q the query is the map of the names in them, each with the value the last such item gives it |
| HttpFields.QueryIsRead | util/net/protocol/http/http.go:706-733 | the query string alone: empty items are skipped, an item without an equals sign has the empty value, later items win |
| HttpFields.ReceivedPath | util/net/protocol/http/http.go:325-336 | the request delivered for any printed one has that path and query |
| HttpFields.ReceivedFields | util/net/protocol/http/http.go:544-581 | and its host, connection, content type, upgrade and WebSocket fields are the values of the headers of those names, and its content length the length of its body |
| HttpFields.ResponseFields | util/net/protocol/http/http.go:583-613 | the same for a response: connection, content type, upgrade, accept and protocol fields and content length |
| HttpFields.HeadersChooseBody | util/net/protocol/http/http.go:616-628 | the body is chunked if and only if Transfer-Encoding is exactly chunked, and else of fixed length if and only if the declared length is from 1 to 10 MiB |
| HttpFields.ChunkedRequestIsRead | util/net/protocol/http/http.go:392-541 | a printed request that announces chunks, followed by any encoding of chunks and anything else, is delivered with the data of the chunks as its body, and parsing goes on behind them |
| HttpFields.LaterHeaderCounts | util/net/protocol/http/http.go:405-424 | of two headers with one name the later one counts, and no other name is touched |
| HttpFields.TrimTakesSpaces | util/net/protocol/http/http.go:421-422 | trimming takes the white space off both ends and nothing else |
| HttpFields.LowerHasNoCapitals | util/net/protocol/http/http.go:423-423 | lower-casing plain text changes capitals alone, by 32, and leaves none |
| HttpFields.NumbersAreDigits | util/net/protocol/http/http.go:366-366 | a number is decimal digits behind at most one sign and nothing else is; a leading zero or plus changes nothing |
| HttpFields.BadSizeIsRefused | util/net/protocol/http/http.go:493-510 | a chunk whose size, up to the first semicolon, is no number is refused |
| HttpFields.SizesIgnoreCase | util/net/protocol/http/http.go:493-502 | chunk sizes in capital and small letters are the same |
| HttpFields.SizesAreHexDigits | util/net/protocol/http/http.go:493-502 | a chunk size is hexadecimal digits behind at most one sign, and nothing else is |
| HttpFields.RequestHeadersSent | util/net/protocol/http/builder.go:86-113 | every header of the caller is sent with its value; the automatic ones only where the caller has none of that name, the length only for a body, and nothing else |
| HttpFields.ResponseHeadersSent | util/net/protocol/http/builder.go:139-172 | the same for a response: date, connection, server when it has a name, and length for a body |
| HttpFields.EmptyPartsFilledIn | util/net/protocol/http/builder.go:71-137 | what is filled in for an empty method, path, code and text, and only for empty ones |
| HttpRoundTrip.HeaderBlockIsRead | util/net/protocol/http/http.go:392-447 | a printed header block is read back as the lower-cased map, for every enumeration order |
| HttpRoundTrip.AsciiHeaderIsGood | util/net/protocol/http/http.go:416-423 | plain ASCII headers without surrounding white space meet the round trip's condition |
| HttpRoundTrip.RequestIsRead | util/net/protocol/http/builder.go:71-123 | one request followed by anything: delivered, and parsing goes on behind it; a body over the limit is left in the stream |
| HttpRoundTrip.PipelineRoundTrip | util/net/protocol/http/builder.go:71-123 | any list of well-formed requests printed back to back is read as the same requests in order with nothing left over |
| HttpRoundTrip.RoundTripIffBodyFits | util/net/protocol/http/http.go:616-628 | a single request round-trips if and only if its body is at most 10 MiB |
| HttpRoundTrip.AutomaticLengthDeclares | util/net/protocol/http/builder.go:103-107 | the automatic Content-Length declares the body |
| HttpRoundTrip.HeaderlessRequestWaits | util/net/protocol/http/http.go:392-403 | a request printed without headers and followed by nothing is not delivered yet |
| HttpPipeline.HeadedIsRead | util/net/protocol/http/builder.go:71-181 | one printed request or response with headers, followed by anything: delivered, or its oversized body left in the stream |
| HttpPipeline.HeadersDecide | util/net/protocol/http/http.go:392-447 | in any header phase: wait, too large, or on behind the block with the headers read there |
| HttpPipeline.BodyDecides | util/net/protocol/http/http.go:449-541 | behind any header block the message is delivered if and only if the body it declares has arrived |
| HttpPipeline.HeaderlessDecided | util/net/protocol/http/http.go:392-541 | a message printed without headers and followed by any bytes: the parser looks for headers in a line end and those bytes; it waits, gives up, or delivers the message if and only if an empty line and the body so declared are there |
| HttpPipeline.HeaderlessTakesNext | util/net/protocol/http/http.go:392-541 | a message without headers takes for its headers those found in the next first line, whatever it holds, and over them the headers of that message, and goes on at its body; when they declare that body, as they do if the line has none, it is delivered with them and the next message is lost |
| HttpPipeline.HeaderlessTakesLine | util/net/protocol/http/http.go:392-447 | behind a message without headers another one without headers is taken for its header block and lost, whatever its first line holds; without headers in that line the first message is delivered as sent |
| HttpPipeline.PlainLineHasNoHeaders | util/net/protocol/http/http.go:412-447 | a first line without a colon or line feed, under 64 KiB, holds no headers, so the next message is taken exactly as it was sent |
| HttpSuffixes.ReadPastEnd | util/net/protocol/http/http.go:221-541 | a parser that starts behind the first byte of a printed message and still delivers it first has read beyond its end |
| HttpChunkings.SuffixIsNotReadBack | util/net/protocol/http/http.go:221-541 | read from anywhere behind its first byte, a stream of printed messages never delivers what was sent |
| HttpChunkings.ReadBackIff | util/net/protocol/http/builder.go:71-181 | any list of printed requests and responses, with or without headers, is read back as it is if and only if every message has headers and a body within 10 MiB |
| HttpChunkings.StreamWithin | util/net/protocol/http/http.go:295-403 | the parser limits of a stream of printed messages, as lengths of first lines and header blocks |
| HttpChunkings.EveryCutReadBackIff | util/net/protocol/http/http.go:221-541 | such a list is read back however the stream is cut if and only if, besides, every first line and header block is within 8192 bytes |
| HttpLongLines.LongLineIsCut | util/net/protocol/http/http.go:295-306 | a message whose first line is over the limit is delivered in one piece and rejected when cut before the last byte of that line end |
| HttpLongLines.LongPathIsCut | util/net/protocol/http/http.go:295-306 | a GET of a path of 8193 bytes is delivered in one piece, and rejected at that cut |
| HttpPanics.OnlyChunksPanic | util/net/protocol/http/http.go:260-541 | from every reachable kind of state, a step panics if and only if it decodes a chunked body that does; so the fixed-length branch never does |
| HttpPanics.LoopPanicsInChunks | util/net/protocol/http/http.go:221-257 | a call that panics is in a chunked body |
| HttpPanics.SizeLineDecides | util/net/protocol/http/http.go:485-529 | behind complete chunks, a size line panics if and only if its size is bad (negative and past the length check, or wrapping when two is added) or the chunk it opens is complete and what follows panics |
| HttpPanics.BodyPanicsIff | util/net/protocol/http/http.go:480-541 | a chunked body panics if and only if a bad size stands behind complete chunks |
| HttpPanics.ChunkedRequestPanics | util/net/protocol/http/http.go:480-541 | a printed request that announces chunks, with such a body, makes Parse panic |
| HttpPanics.MinusOnePanics | util/net/protocol/http/http.go:517-524 | size -1 followed by one byte is such an input |
| RingBuffer.RingBuffer.Read | util/net/base/buffer/ring_buffer.go:100-117 | takes the oldest min(n, size) bytes out in order, leaves the rest of the target alone |
| RingBuffer.RingBuffer.Write | util/net/base/buffer/ring_buffer.go:120-139 | whenever the loop ends: bytes that fit after growing are appended, a full ring takes none, and any other write reports all bytes and leaves a ring at odds with its size |
| RingBuffer.RingBuffer.ReadAll | util/net/base/buffer/ring_buffer.go:142-155 | returns and removes the whole contents |
| RingBuffer.RingBuffer.Peek | util/net/base/buffer/ring_buffer.go:158-175 | returns the oldest bytes and changes nothing |
| RingBuffer.RingBuffer.Discard | util/net/base/buffer/ring_buffer.go:178-195 | drops the oldest bytes |
| RingBuffer.RingBuffer.ReadFrame | util/net/base/buffer/ring_buffer.go:310-327 | takes exactly the frame or nothing |
| RingBuffer.RingBuffer.Grow | util/net/base/buffer/ring_buffer.go:354-393 | a larger array with the same contents, or no change at the maximum |
| RingBuffer.RingBuffer.Shrink | util/net/base/buffer/ring_buffer.go:396-429 | gives capacity back, the contents stay |
| RingBuffer.RingBuffer.ReadToSlice | util/net/base/buffer/ring_buffer.go:433-474 | copies around the end of the array and moves head |
| RingBuffer.RingBuffer.WriteFromSlice | util/net/base/buffer/ring_buffer.go:477-527 | the loop with the stale size, turn by turn, whenever it ends |
| RingBuffer.RingBuffer.Turn | util/net/base/buffer/ring_buffer.go:488-524 | one turn of the loop, including the branch that never wraps the tail |
| RingBuffer.RingBuffer.PeekToSlice | util/net/base/buffer/ring_buffer.go:530-561 | copies the oldest bytes |
| RingBuffer.DropFront | util/net/base/buffer/ring_buffer.go:433-474 | moving head drops exactly the oldest bytes of the view |
| RingBuffer.AlternatingRun | util/net/base/buffer/ring_buffer.go:120-155 | every alternating Write/ReadAll run on a fresh ring returns what was written, for writes that fit the initial or maximum capacity |
| RingModel.AppendsIffFits | util/net/base/buffer/ring_buffer.go:477-527 | a write ends and appends if and only if the bytes fit: room, and the ring empty, or tail before head short of the very end, or room between tail and end |
| RingModel.FittingWriteAppends | util/net/base/buffer/ring_buffer.go:477-527 | how many turns a fitting write takes and what it leaves |
| RingModel.LoopEndsIff | util/net/base/buffer/ring_buffer.go:477-527 | the write loop ends if and only if the ring is empty or full, or tail is before head with head at the very end or room up to the end, or head is before tail with room up to the end |
| RingModel.EndsWith | util/net/base/buffer/ring_buffer.go:120-139 | a write that ends leaves a full ring alone; otherwise it reports all bytes, and the ring agrees with its size if and only if they fit; if not, the size exceeds the capacity or the ring looks empty |
| RingModel.OverfilledRing | util/net/base/buffer/ring_buffer.go:120-155 | five bytes into an empty ring of four that may not grow: all reported as written, size 5 |
| RingModel.StalledLoop | util/net/base/buffer/ring_buffer.go:518-523 | with data in one run and too many bytes for the room behind it, the loop spins at the end of the array forever |
| RingModel.LostWrite | util/net/base/buffer/ring_buffer.go:488-516 | a write that reaches the very end where head stands ends after one turn, reports all bytes and leaves an empty view |
| RingBuffer.LossIsReachable | util/net/base/buffer/ring_buffer.go:120-155 | such a loss comes after three ordinary writes and a read on a new ring of four bytes |
| RingModel.StallWithRoom | util/net/base/buffer/ring_buffer.go:518-523 | a concrete ring with room for three bytes on which writing two never ends |
| RingModel.FullRingUnchanged | util/net/base/buffer/ring_buffer.go:477-487 | a full ring is left alone |
| RingModel.MovedKeepsView | util/net/base/buffer/ring_buffer.go:354-393 | growing and shrinking keep the contents |
| RingModel.EmptyRingFits | util/net/base/buffer/ring_buffer.go:354-393 | what an empty ring can take |
| RingModel.GrownCapMakesRoom | util/net/base/buffer/ring_buffer.go:354-370 | growing at least doubles towards what is asked, and stops at the maximum |
| GlobalId.BuildIdWithSeq | message/idgen.go:112-135 | the overlapping word stores leave the documented layout |
| GlobalId.LayoutRoundTrip | message/idgen.go:112-190 | all six fields come back, login, sequence and custom modulo their widths, and the time if and only if it is from the epoch on and within 48 bits |
| GlobalId.LayoutAsNumber | message/idgen.go:112-135 | the ID as a 128-bit number: milliseconds since 2024 in 48 bits (all set when out of range), user and room in 32 bits each, login, sequence and custom in the last 16 |
| GlobalId.CompareIds | message/idgen.go:226-247 | the comparison loop computes Compare |
| GlobalId.CompareIsNumeric | message/idgen.go:226-247 | Compare is the bytewise lexicographic order and the order of the 128-bit numbers |
| GlobalId.CompareIsTotalOrder | message/idgen.go:226-247 | antisymmetric, transitive, zero only on equal IDs, refines the order of timestamps |
| GlobalId.LaterPairIsLarger | message/idgen.go:112-135 | later (time, sequence) pairs give larger IDs when the other fields agree |
| IdAllocator.TakeLowest | message/idgen.go:66-83 | on a mask of the form 2^k - 1 the bit trick takes bit k and keeps the form |
| IdAllocator.Generator.GenerateGlobalId | message/idgen.go:57-109 | the loop with its waits, per Allocate, for any clock readings |
| IdAllocator.AllocateAdvances | message/idgen.go:57-109 | one call keeps the mask form, hands out a pair not before any free one, and never moves the stored time back |
| IdAvailability.NextOfMillisecond | message/idgen.go:90-106 | with k of the 64 sequence numbers of the stored millisecond taken, a reading of that time hands out exactly (that time, k) |
| IdAvailability.FirstOfMillisecond | message/idgen.go:72-106 | a first reading later than the stored time hands out (it, 0) |
| IdAvailability.WaitsIff | message/idgen.go:57-109 | a call is left without an ID if and only if every reading is before the stored time, or all 64 of the stored millisecond are taken and no reading ends the wait for a later one; the inner wait uses up the later reading it sees, so one later reading behind one of the stored time is not enough |
| IdAvailability.SixtyFourToAMillisecond | message/idgen.go:57-109 | from a new generator, calls that each read the same time t > 0 get (t, 0), (t, 1) and so on: n calls get n IDs up to 64, and no more than 64 ever |
| IdAllocator.IdsAreUniqueAndOrdered | message/idgen.go:57-135 | over every serialised run with any clock, backward jumps and more than 64 calls a millisecond included: pairs strictly increase, IDs differ, and IDs with equal other fields increase under Compare |
| IdInterleavings.RunMovesForward | message/idgen.go:57-109 | with any number of callers whose atomic steps interleave freely: the stored time never goes back, and no ID has a later time than the stored one |
| IdInterleavings.DifferIffOneCaller | message/idgen.go:57-109 | no time and sequence number are handed out twice, in any interleaving, if and only if there is at most one caller |
| IdInterleavings.LateClearingDuplicates | message/idgen.go:72-81 | two callers that both see a new millisecond get the same pair when one clears the mask after the other has claimed |
| IdInterleavings.StaleMaskDuplicates | message/idgen.go:84-107 | the same pair is handed out twice even when clearing and swap are never separated: the mask is empty again a millisecond later |
| IdCalls.UninterruptedIsAllocate | message/idgen.go:57-109 | refinement: the atomic steps of a caller that nobody interrupts, in any surroundings, read the clock, hand out the pair and leave the fields exactly as Allocate does for the same readings |
| IdCalls.LaterCallsGetLaterTimes | message/idgen.go:57-109 | with any number of callers and any interleaving: a call that starts when an ID is out already gets no earlier time than that ID |
| IdCalls.NumbersInARow | message/idgen.go:84-107 | while no reading is later than the stored time, any number of callers, in any interleaving, get the sequence numbers of that millisecond one after the other from the first free one: none twice, none left out, none beyond 63 |
| IdCalls.LoserClaimsNext | message/idgen.go:84-107 | a caller that loses the race for a number takes the lowest free one left without reading the clock again |
| ReorderWindow.MessageProcessor.AddToBuffer | client/message_processor.go:92-112 | a full buffer loses its first message, the new one is added, the buffer is sorted; it panics if and only if the buffer size is zero |
| ReorderWindow.MessageProcessor.ProcessBuffered | client/message_processor.go:114-144 | releases the messages of the front that are 50 ms old and drops those without an ID |
| ReorderWindow.NothingIsLostOrDuplicated | client/message_processor.go:92-144 | in every run: added = buffered + released + evicted + dropped, as multisets |
| ReorderWindow.ReleaseInOrder | client/message_processor.go:114-144 | one tick releases a sorted batch up to its watermark and keeps only later messages |
| ReorderWindow.ReleasedInOrder | client/message_processor.go:92-144 | the concatenation of all released batches is sorted, when the clock never goes back and messages enter within 50 ms |
| ReorderWindow.LateMessageBreaksOrder | client/message_processor.go:92-144 | a run with a message that enters exactly 50 ms late and is released out of order |
| ReorderWindow.WindowIsExact | client/message_processor.go:114-144 | a delay bound guarantees order if and only if it is at most 50 ms |
| ReorderWindow.EvictedIsSmallest | client/message_processor.go:92-112 | a message pushes one out exactly when the buffer is full, and then one with the smallest ID there |
| ReorderWindow.BufferIsBounded | client/message_processor.go:92-112 | in every run the buffer stays sorted and within its size |
| ReorderWindow.LastOutIsReleased | client/message_processor.go:114-144 | what leaves in a tick ends with a released message, so a message without an ID leaves only in front of one |
| ReorderWindow.NoIdLeavesWithFirst | client/message_processor.go:92-144 | messages without an ID are sorted to the front, so the first tick that releases anything leaves none of them in the buffer |
| MessageKey.HexIsInjective | client/reliability.go:387-389 | different message IDs have different keys |
| AckQueues.ReliabilityManager.SendMessage | client/reliability.go:65-117 | registers and queues the message; a refused one is taken out again |
| AckQueues.ReliabilityManager.HandleAckEnvelope | client/reliability.go:147-196 | which pending message an acknowledgement confirms and the state it leaves |
| AckQueues.ReliabilityManager.GetOriginalMessageKey | client/reliability.go:410-455 | head of the allocation queue, popped, or head of the room queue, left in place |
| AckQueues.ReliabilityManager.RemovePendingMessage | client/reliability.go:476-530 | the message and its queue entry go; an emptied room queue is deleted |
| AckQueues.ReliabilityManager.CutOutInPlace | client/reliability.go:476-530 | the search-and-delete loop |
| AckQueues.ReliabilityManager.Cleanup | client/reliability.go:547-566 | every expired message is removed |
| AckTheorems.SendKeepsCoupledIff | client/reliability.go:65-145 | a successful send keeps queues and pending map in step, with nothing queued under the empty key, if and only if its key is new or not waiting in a queue and, to create a room or allocate a room number, its message has an ID |
| AckTheorems.FailedSendKeepsCoupledIff | client/reliability.go:100-117 | a refused send keeps them in step if and only if its key is new or not waiting in a queue, with or without an ID |
| AckTheorems.RoomAckConfirmsIff | client/reliability.go:147-168 | in step, an acknowledgement for a room with queued messages confirms one if and only if the empty key is not at the head of the queue, and otherwise changes nothing |
| AckTheorems.CreatingWithoutIdBlocks | client/reliability.go:65-145 | a room created by a message without an ID is blocked like that, also after later sends |
| AckTheorems.RemoveKeepsCoupled | client/reliability.go:476-530 | a removal, be it a failure or a confirmation, keeps them in step |
| AckTheorems.AckRemovesTarget | client/reliability.go:147-196 | in step, an acknowledgement removes exactly the message it is for, and that message is pending |
| AckTheorems.RunKeepsCoupled | client/reliability.go:65-566 | over every run whose sends use keys that may be used again and whose delivered messages have IDs where they create a room or allocate a number, each room queue is duplicate-free, non-empty when present and equal to the room's pending keys, the allocation queue likewise, and each fetch entry is pending |
| AckTheorems.RoomAckKeepsOrdered | client/reliability.go:432-455 | a room acknowledgement confirms the earliest message still queued for the room |
| AckTheorems.RunFromEmpty | client/reliability.go:65-566 | from a new manager on, under the same condition: queues in step, and the messages confirmed by room acknowledgements follow the order of sending room by room |
| AckRooms.SentToItsRoom | client/reliability.go:119-144 | said by the room in the ID and for every kind of room message: a delivered message with an ID built for room r is appended to the queue of r and to no other; a history fetch is recorded for r; nothing else changes |
| AckRooms.ConfirmedByItsRoom | client/reliability.go:165-175 | sent to a room where nothing waits, a message is exactly what the acknowledgement of its room confirms and removes; that of any other room leaves it pending |
| AckRooms.RoomAckConfirmsEarliest | client/reliability.go:432-455 | in step and in order, a room acknowledgement confirms a message if and only if one of that room is pending, and then the one sent first, and removes no other |
| AckRooms.AllocateAckConfirmsEarliest | client/reliability.go:410-430 | the same for the acknowledgement of an allocation, which names nothing |
| AckRooms.EarliestFromEmpty | client/reliability.go:65-566 | both hold after every run from a new manager whose sends use keys that may be used again |
| AckRooms.FetchResponseConfirms | client/reliability.go:180-196 | a history response confirms the fetch recorded last for its room, if there is one, and the record goes |
| AckRooms.OtherFetchesStay | client/reliability.go:476-530 | a message that leaves takes the record of its room's fetch along only if the record is its own |
| AckRooms.FetchAnswerDecides | client/reliability.go:348-368 | the answer about one message takes it out, and confirms it if and only if it exists |
| AckRooms.CleanupLeavesRecent | client/reliability.go:547-566 | after a cleanup exactly the messages sent within the last five minutes are pending, as they were |
| RouterReliability.RouterReliabilityManager.SendReliableMessage | router/reliability_manager.go:78-159 | registers the message, sends it, sets the timer, or takes it out again; an envelope that cannot be serialised changes nothing; both services |
| RouterReliability.RouterReliabilityManager.TimerFires | router/reliability_manager.go:109-113 | a firing timer runs its callback |
| RouterReliability.RouterReliabilityManager.HandleMessageTimeout | router/reliability_manager.go:191-247 | retry, switch, fetch or fail, with the retry count, target, timer and counters each leaves |
| RouterReliability.RouterReliabilityManager.AttemptNodeSwitch | router/reliability_manager.go:251-299 | the scan that moves its own target while it goes |
| RouterReliability.RouterReliabilityManager.AttemptFetchConfirmation | router/reliability_manager.go:302-347 | fetch timer, or failure when no request goes out |
| RouterReliability.RouterReliabilityManager.HandleACK | router/reliability_manager.go:162-188 | what an acknowledgement removes and counts |
| RouterReliability.RouterReliabilityManager.HandleMessageFetchResponse | router/reliability_manager.go:366-388 | confirmation, or removal that nothing counts |
| RouterReliability.RouterReliabilityManager.HandleMessageFailure | router/reliability_manager.go:391-404 | failure of a pending message is counted once |
| RouterReliability.RouterReliabilityManager.Cleanup | router/reliability_manager.go:484-512 | every expired message is removed and its timer stopped |
| RouterTheorems.SwitchSucceedsIff | router/reliability_manager.go:251-299 | the switch succeeds if and only if some candidate that differs from the one before it accepts, and settles on the first such |
| RouterTheorems.TimeoutDecides | router/reliability_manager.go:191-347 | a timeout sets a resend timer exactly when retries are left and the target or some tried candidate accepts; otherwise a fetch timer when the request goes out; otherwise the message fails: with the timer, delay and counters of each |
| RouterRecords.SendDecides | router/reliability_manager.go:78-159 | an accepted send files the message under its own ID with the target, service and time it was sent with and no retries, and sets its timer to messageTimeout for a node and to persistTimeout for a centre; a refused one leaves neither record nor timer |
| RouterRecords.TimeoutRecords | router/reliability_manager.go:191-347 | a timeout counts one retry and keeps ID, service and time of sending; a resend or switch sets the timer to the delay of the service and settles on the old target or the first tried candidate that accepts; a fetch sets it to fetchTimeout, with the last candidate as target if all refused |
| RouterRecords.CleanupLeavesRecent | router/reliability_manager.go:484-512 | after a cleanup exactly the messages sent within the limit are pending, as they were, the timers of the others are stopped, and neither counter has changed |
| RouterTheorems.SendKeepsTimedIff | router/reliability_manager.go:78-159 | a send keeps pending messages and running timers in one-to-one correspondence if and only if its key is not pending |
| RouterTheorems.FireKeepsTimed | router/reliability_manager.go:191-352 | a firing timer keeps the correspondence |
| RouterBounds.RunKeepsClocked | router/reliability_manager.go:78-512 | over every run, messages sent again or not, each pending message has a running timer of its own |
| RouterBounds.FiringLowersRank | router/reliability_manager.go:191-352 | each firing of a timer under the key of a pending message, its own or one left behind, lowers the message's rank or takes it out |
| RouterTheorems.RunKeepsTimed | router/reliability_manager.go:78-512 | the correspondence holds over every run of fresh sends |
| RouterBounds.ResolvedWithinBound | router/reliability_manager.go:191-352 | in every run of a manager whose pending messages each have their timer, also when messages are sent again while pending: timers fire for a message at most MaxRetries + 2 times and once more for each timer already running under its key, and after that many it is pending no more |
| RouterBounds.FirstSendResolved | router/reliability_manager.go:191-352 | so at most MaxRetries + 2 times when its key was not pending and timers and messages corresponded before, whatever is sent later |
| RouterBounds.BoundIsReached | router/reliability_manager.go:191-352 | the bound is reached, with any number of resend timers left behind, in any order of these |
| RouterBounds.SendingAgainFiresMore | router/reliability_manager.go:78-159 | from a new manager, a message sent n + 1 times while pending can have MaxRetries + 2 + n timers fire for the last one: the bound without the extra timers is false |
| RouterTheorems.RunAccounted | router/reliability_manager.go:78-512 | over every run each message is in exactly one place: pending, confirmed, failed or uncounted |
| RouterTheorems.CountedOnce | router/reliability_manager.go:162-404 | from a new manager: no message is counted twice or as both confirmed and failed |
| RouterTheorems.AckConfirmsIff | router/reliability_manager.go:424-446 | a fetch response with the ID of a pending message confirms exactly that message; room, chat and heartbeat acknowledgements change nothing |
| RouterTheorems.WhatIsCounted | router/reliability_manager.go:162-404 | in each step confirmed grows exactly by a message a fetch response finds, and failed exactly by a message its firing timer gives up |
| RouterTheorems.NegativeAnswerIsNeverCounted | router/reliability_manager.go:384-388 | a message reported missing is never counted as failed, in any continuation |
| RouterTheorems.RunFromEmpty | router/reliability_manager.go:78-512 | from a new manager, when no message is sent again while pending: one timer per message, and every message under the key of its own ID |
| HashRing.LoadBalancer.UpdateHashRing | router/load_balancer.go:230-252 | the ring built from the healthy nodes in enumeration order |
| HashRing.LoadBalancer.AddNodeToRing | router/load_balancer.go:255-262 | the node claims its points |
| HashRing.LoadBalancer.RemoveNodeFromRing | router/load_balancer.go:265-279 | points and keys of the node go, in place |
| HashRing.LoadBalancer.SelectByConsistentHash | router/load_balancer.go:157-190 | the first healthy node the ring names, and the round robin exactly when it names none of them or is empty |
| HashRing.LoadBalancer.Search | router/load_balancer.go:169-176 | binary search finds the first key not below the hash |
| HashRing.LoadBalancer.SelectByRoundRobin | router/load_balancer.go:127-134 | the counter wraps as a 32-bit number and picks the node, or indexes with a negative number |
| HashRingTheorems.TurnsAreFair | router/load_balancer.go:127-134 | until the counter wraps, any n turns in a row among n nodes give each exactly one |
| HashRingTheorems.TurnsAfterWrap | router/load_balancer.go:127-134 | behind the largest 32-bit number a turn is the first node's if the number of nodes divides the counter, and indexes with a negative number otherwise |
| HashRingTheorems.NodeOfHash | router/load_balancer.go:157-190 | a hash goes to a node that has the nearest point at or above it, or the smallest point of all if none is: of several such nodes to the one enumerated last; points are hashes of name, number sign and a number below replicas |
| HashRingTheorems.BuildIsOrderIndependent | router/load_balancer.go:230-252 | the built ring is the same for every enumeration order if and only if no two nodes share a point |
| HashRingTheorems.JoiningMovesOnlyToNewNode | router/load_balancer.go:255-262 | when a node joins, every hash keeps its node or moves to the new one, whatever the enumeration orders before and after, if and only if no two of the old nodes share a point |
| HashRingTheorems.LeavingEqualsRebuild | router/load_balancer.go:265-279 | removal in place equals a rebuild without the node if and only if the node shares no point with another |
| HashRingTheorems.PointsAreHashes | router/load_balancer.go:255-262 | the points of a node are the hashes of its name, a number sign and the numbers from 0 on |
| HashRingTheorems.VirtualKeysDiffer | router/load_balancer.go:255-258 | no two points, of one node or of two, are hashed from the same text, also when names hold number signs |
| Timers.TimerWheel.AddTimer | util/net/base/timer/timer.go:96-113 | a new numbered timer; heap order and contents kept |
| Timers.TimerWheel.CancelTimer | util/net/base/timer/timer.go:81-93 | marks the queued timer cancelled; reports whether it was queued |
| Timers.TimerWheel.ProcessTick | util/net/base/timer/timer.go:133-163 | ends; runs the callbacks of exactly the due timers not cancelled, once each, in deadline order; re-queues repeating ones at now + interval; leaves only later deadlines |
| Timers.TimerWheel.Pop | util/net/base/timer/timer.go:175-181 | takes the root out and restores heap order |
| Timers.Up | util/net/base/timer/timer.go:167-173 | sifting up restores heap order and keeps the contents |
| Timers.Down | util/net/base/timer/timer.go:167-181 | sifting down restores heap order and keeps the contents |
| Timers.RootIsLeast | util/net/base/timer/timer.go:168-181 | the root has the earliest deadline |
| TimerTheorems.CancelledNeverFires | util/net/base/timer/timer.go:81-93 | a timer cancelled while queued never fires in any run that follows |
| TimerTheorems.CancelledIsFoundUntilDue | util/net/base/timer/timer.go:81-93 | a cancelled timer is only marked: it is still found by a second cancelling until the first tick at or after its deadline, and not after |
| TimerTheorems.OneShotFiresOnce | util/net/base/timer/timer.go:133-163 | a one-shot timer fires at the first tick at or after its deadline and at no other |
| TimerTheorems.RepeatingFires | util/net/base/timer/timer.go:156-161 | a repeating timer fires at the first due tick and then one interval after each firing; missed intervals are not made up |
| TimerTheorems.FiringsAreSpaced | util/net/base/timer/timer.go:133-163 | with or without cancellation, firings are at least an interval apart and none is early; a one-shot fires at most once |
| TimerTheorems.AddedTimerFires | util/net/base/timer/timer.go:71-113 | a timer added at a time with a delay and not cancelled is due that delay later: once, or if it repeats at the first tick due and an interval after each firing; the other timers are as they were |
| Membership.MemoryMemberManager.AddMember | connection/live_room_manager.go:411-458 | joining and joining again: which fields change, counters, both indexes |
| Membership.MemoryMemberManager.RemoveMember | connection/live_room_manager.go:461-499 | leaving, and the two errors that change nothing |
| Membership.MemoryMemberManager.CutOutInPlace | connection/live_room_manager.go:480-486 | the search-and-delete loop |
| Membership.MemoryMemberManager.GetMemberCount | connection/live_room_manager.go:502-510 | the number of members of the room, as a 32-bit number |
| Membership.AddKeepsIndexed | connection/live_room_manager.go:411-458 | joining keeps both indexes and all counters in step |
| Membership.RemoveKeepsIndexed | connection/live_room_manager.go:461-499 | leaving keeps them in step |
| Membership.HistoryKeepsIndexed | connection/live_room_manager.go:411-499 | they are in step after every history |
| Membership.HistoryDecides | connection/live_room_manager.go:411-499 | after every history a user is a member of exactly the rooms joined last and not left since, and exactly those are in the user's list, once each |
| Membership.HistoryDecidesRecord | connection/live_room_manager.go:437-448 | after every history a record has role, join time and permissions of the first joining since the last leaving, and login, connection and last-seen time of the latest |
| Membership.HistoryDecidesRemoval | connection/live_room_manager.go:461-499 | leaving succeeds exactly when the last thing that happened is that the user joined the room; a room nobody ever joined is not found, in any other the user is not; both change nothing |
| Membership.HistoryDecidesDate | connection/live_room_manager.go:411-499 | a room is dated by the last joining, joining again or leaving in it; an attempt to leave that fails does not count |
| Membership.TotalIsSum | connection/live_room_manager.go:411-499 | totalMembers is the sum of the sizes of all rooms |

## Left out

- RingBuffer.RingBuffer.Write: asks for writes whose loop ends, on the condition of RingModel.LoopEndsIff, because on all others the source spins forever.
- HttpTheorems.SplitIndependence: starts from a first part that parses; when a cut makes a first part fail is the subject of HttpLimits.EveryCutAccepted.
- RingBuffer.RingBuffer.WriteFromSlice: asks for the same as Write.
- IdAllocator.IdsAreUniqueAndOrdered: one call at a time; IdInterleavings has the others.
- IdAllocator.Generator.GenerateGlobalId: stops with no ID when the given clock readings run out, where the source goes on waiting.
- AckQueues.ReliabilityManager.SendMessage: the retry timer, the statistics and the event callback are left out.
- AckTheorems.RunKeepsCoupled: the client's retry timers are not modelled, because its failure path locks a mutex it already holds; the timeout machine is modelled on the router.
- RouterBounds.ResolvedWithinBound: bounds firings, not time; that timers eventually fire is the runtime's part.
- Timers.TimerWheel.ProcessTick: timers are values in the heap instead of shared objects, and callbacks are only listed, not run.
- Membership.MemoryMemberManager.AddMember: members and member sets are values, so a record shared by two rooms is not modelled; room type and the Redis copy are left out.
- Membership.HistoryDecidesRecord: holds for records that are values; a record whose pointer is passed for two rooms would carry a later joining over.
- RouterReliability.RouterReliabilityManager.HandleMessageTimeout: the pending record is a value in the map, not a shared object; the outcomes of sends, the healthy nodes and the fetch are parameters.
- Unicode case folding and white space outside ASCII are a parameter of the HTTP parser; UTF-8 validity is modelled exactly.
- Reading lines with bufio.Scanner includes its limit of 64 KiB a line; other parts of the Go library are modelled only as far as they are used.
- Feed, Clone, Reset and the convenience builders of both protocols, among them the WebSocket upgrade response with its hash.
- Readv, Writev and PrepareIovecs of the ring buffer, which use unsafe pointers.
- Mutexes: each public operation or timer callback is one atomic step; only the ID generator, which has none, is interleaved.
- The bypass of the reorder window when its channel is full, and the duplicate filter in front of it.
- CRC32 (the ring's hash), random mask keys and the clock are parameters; least connections are left out.
- Counters and timer numbers are unbounded, except the member counters, which wrap as 32-bit and 64-bit numbers.
- The near copies of the two reliability managers in connection/ and msgcenter/.
- Sockets, event loops, Redis, MySQL, Kafka, configuration, logging and generated message code.

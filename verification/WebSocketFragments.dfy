/**
 Fragmented messages (RFC 6455, section 5.4): the frames BuildFragmentedFrames cuts a message into,
 with control frames sent in between, reach the peer as those control messages and the one message.
 */
module WebSocketFragments {
  import opened Bytes
  import opened WebSocketFrame
  import opened WebSocketTheorems
  import opened Wrappers
  import opened Sequences

  /** A control frame the sender puts on the wire between fragments. */
  datatype Control = Control(opCode: byte, payload: bytes, key: MaskKey) {
    predicate Valid() {
      IsValidOpCode(opCode) && IsControl(opCode) && |payload| <= 125
    }
  }

  /** The frame BuildFragmentedFrames makes of the chunk at offset i. */
  function FragmentAt(isServer: bool, key: MaskKey, opCode: byte, data: bytes, size: nat, i: nat): bytes
    requires size > 0 && i < |data|
  {
    var end := Min(i + size, |data|);
    Frame(isServer, key, if i == 0 then opCode else OP_CONTINUATION, data[i..end], end == |data|)
  }

  /** The frames from offset i on; keys(i) is the mask key drawn for the frame at offset i. */
  function FragmentsFrom(isServer: bool, keys: nat -> MaskKey, opCode: byte, data: bytes, size: nat, i: nat): seq<bytes>
    requires size > 0
    decreases |data| - i
  {
    if i >= |data| then []
    else [FragmentAt(isServer, keys(i), opCode, data, size, i)]
         + FragmentsFrom(isServer, keys, opCode, data, size, i + size)
  }

  function ControlBytes(isServer: bool, controls: seq<Control>): bytes {
    if controls == [] then []
    else Frame(isServer, controls[0].key, controls[0].opCode, controls[0].payload, true)
         + ControlBytes(isServer, controls[1..])
  }

  function ControlMessage(isServer: bool, c: Control): Message {
    FrameMessage(c.opCode, !isServer, WireKey(isServer, c.key), true, c.payload)
  }

  function ControlMessages(isServer: bool, controls: seq<Control>): seq<Message> {
    if controls == [] then []
    else [ControlMessage(isServer, controls[0])] + ControlMessages(isServer, controls[1..])
  }

  /** What goes on the wire: before the frame at offset i, the control frames between(i). */
  function Interleaved(frames: seq<bytes>, isServer: bool, between: nat -> seq<Control>, size: nat, i: nat): bytes
    decreases |frames|
  {
    if frames == [] then []
    else ControlBytes(isServer, between(i)) + frames[0] + Interleaved(frames[1..], isServer, between, size, i + size)
  }

  /** The control messages sent before the frames from offset i on, in order. */
  function ControlsFrom(isServer: bool, between: nat -> seq<Control>, length: nat, size: nat, i: nat): seq<Message>
    requires size > 0
    decreases length - i
  {
    if i >= length then []
    else ControlMessages(isServer, between(i)) + ControlsFrom(isServer, between, length, size, i + size)
  }

  // The offset of the last frame from offset i on.
  function LastOffset(length: nat, size: nat, i: nat): (last: nat)
    requires size > 0 && i < length
    decreases length - i
  {
    if i + size >= length then i else LastOffset(length, size, i + size)
  }

  /** The one data message; its mask key is that of the last frame. */
  function WholeMessage(isServer: bool, keys: nat -> MaskKey, opCode: byte, data: bytes, size: nat): Message
    requires size > 0 && |data| > 0
  {
    DataMessage(isServer, keys(LastOffset(|data|, size, 0)), opCode, data)
  }

  /** When the peer accepts the fragments of a message. */
  predicate Reassembles(opCode: byte, data: bytes, size: nat) {
    && Min(size, |data|) <= 65536
    && |data| <= 1048576
    && (opCode == OP_TEXT ==> Utf8Valid(data) && Utf8Valid(data[..Min(size, |data|)]))
  }

  // ----- Control frames -----

  lemma {:induction false} ControlsAreRead(isServer: bool, controls: seq<Control>, more: bytes, frag: Fragment)
    requires forall c :: c in controls ==> c.Valid()
    ensures ParseBuffer(!isServer, ControlBytes(isServer, controls) + more, frag) ==
            Prepend(ControlMessages(isServer, controls), ParseBuffer(!isServer, more, frag))
    decreases |controls|
  {
    hide Frame, ParseBuffer, ControlMessage;
    if controls == [] {
      assert ControlBytes(isServer, controls) + more == more;
      PrependNothing(ParseBuffer(!isServer, more, frag));
    } else {
      var c := controls[0];
      var f := Frame(isServer, c.key, c.opCode, c.payload, true);
      var rest := ControlBytes(isServer, controls[1..]) + more;
      assert c in controls;
      assert ControlBytes(isServer, controls) + more == f + rest;
      ControlThen(isServer, c, rest, frag);
      ControlsAreRead(isServer, controls[1..], more, frag);
      PrependTwice([ControlMessage(isServer, c)], ControlMessages(isServer, controls[1..]), ParseBuffer(!isServer, more, frag));
    }
  }

  lemma ControlThen(isServer: bool, c: Control, more: bytes, frag: Fragment)
    requires c.Valid()
    ensures ParseBuffer(!isServer, Frame(isServer, c.key, c.opCode, c.payload, true) + more, frag) ==
            Prepend([ControlMessage(isServer, c)], ParseBuffer(!isServer, more, frag))
  {
    hide Frame, ParseBuffer, AcceptFrame, ControlMessage;
    var f := Frame(isServer, c.key, c.opCode, c.payload, true);
    ControlAccepted(isServer, c, |f|, frag);
    FrameThen(isServer, c.key, c.opCode, c.payload, true, more, frag);
  }

  lemma ControlAccepted(isServer: bool, c: Control, total: nat, frag: Fragment)
    requires c.Valid()
    ensures AcceptFrame(c.opCode, c.payload, true, !isServer, WireKey(isServer, c.key), total, frag) ==
            Done(Some(ControlMessage(isServer, c)), total, frag)
  {
  }

  // One frame at the front of the buffer: the parse goes on behind it, or stops there.
  lemma FrameThen(isServer: bool, key: MaskKey, opCode: byte, payload: bytes, fin: bool, more: bytes, frag: Fragment)
    requires IsValidOpCode(opCode) && Fits(payload)
    ensures var f := Frame(isServer, key, opCode, payload, fin);
            var r := AcceptFrame(opCode, payload, fin, !isServer, WireKey(isServer, key), |f|, frag);
            var o := ParseBuffer(!isServer, f + more, frag);
            if |payload| > MAX_FRAME_SIZE || r.Failed? then o.Rejected?
            else o == Prepend(Emitted(r.msg), ParseBuffer(!isServer, more, r.frag))
  {
    hide AcceptFrame, Frame, ParseFrame;
    var f := Frame(isServer, key, opCode, payload, fin);
    FrameIsRead(isServer, key, opCode, payload, fin, more, frag);
    assert (f + more)[|f|..] == more;
  }

  // ----- Fragments -----

  function DataMessage(isServer: bool, key: MaskKey, opCode: byte, data: bytes): Message {
    Message(opCode, MessageType(opCode), !isServer, WireKey(isServer, key), true, data, 0, [])
  }

  predicate TextOk(opCode: byte, data: bytes) {
    opCode == OP_TEXT ==> Utf8Valid(data)
  }

  lemma ContinuationAccepted(isServer: bool, key: MaskKey, opCode: byte, before: bytes, chunk: bytes, fin: bool, total: nat)
    ensures var data := before + chunk;
            var r := AcceptFrame(OP_CONTINUATION, chunk, fin, !isServer, WireKey(isServer, key), total, Fragment(before, opCode));
            if |data| > MAX_MSG_SIZE || (fin && !TextOk(opCode, data)) then r.Failed?
            else if fin then r == Done(Some(DataMessage(isServer, key, opCode, data)), total, NO_FRAGMENT)
            else r == Done(None, total, Fragment(data, opCode))
  {
    hide Utf8Valid;
  }

  lemma OpeningAccepted(opCode: byte, chunk: bytes, masked: bool, maskKey: bytes, total: nat, frag: Fragment)
    requires opCode in {OP_CONTINUATION, OP_TEXT, OP_BINARY}
    requires |chunk| <= MAX_FRAME_SIZE && frag.data == [] && (opCode == OP_CONTINUATION ==> frag.opCode == 0)
    ensures var r := AcceptFrame(opCode, chunk, false, masked, maskKey, total, frag);
            if TextOk(opCode, chunk) then r == Done(None, total, Fragment(chunk, opCode)) else r.Failed?
  {
    hide Utf8Valid;
    assert frag.data + chunk == chunk;
  }

  lemma OnlyAccepted(isServer: bool, key: MaskKey, opCode: byte, data: bytes, total: nat, frag: Fragment)
    requires opCode in {OP_CONTINUATION, OP_TEXT, OP_BINARY}
    requires |data| <= MAX_FRAME_SIZE && frag.data == [] && (opCode == OP_CONTINUATION ==> frag.opCode == 0)
    ensures var r := AcceptFrame(opCode, data, true, !isServer, WireKey(isServer, key), total, frag);
            var frag' := if opCode == OP_CONTINUATION then NO_FRAGMENT else frag;
            if TextOk(opCode, data) then r == Done(Some(DataMessage(isServer, key, opCode, data)), total, frag')
            else r.Failed?
  {
    hide Utf8Valid;
    assert frag.data + data == data;
  }

  // A continuation frame that ends at offset end, behind its control frames.
  lemma ContinuationStep(
      isServer: bool, key: MaskKey, opCode: byte, before: bytes, chunk: bytes, fin: bool,
      controls: seq<Control>, rest: bytes)
    requires forall c :: c in controls ==> c.Valid()
    requires |chunk| <= MAX_FRAME_SIZE
    ensures var f := Frame(isServer, key, OP_CONTINUATION, chunk, fin);
            var data := before + chunk;
            var ctl := ControlMessages(isServer, controls);
            var o := ParseBuffer(!isServer, ControlBytes(isServer, controls) + (f + rest), Fragment(before, opCode));
            if |data| > MAX_MSG_SIZE || (fin && !TextOk(opCode, data)) then o.Rejected?
            else if fin then
              o == Prepend(ctl + [DataMessage(isServer, key, opCode, data)], ParseBuffer(!isServer, rest, NO_FRAGMENT))
            else
              o == Prepend(ctl, ParseBuffer(!isServer, rest, Fragment(data, opCode)))
  {
    var f := Frame(isServer, key, OP_CONTINUATION, chunk, fin);
    var frag := Fragment(before, opCode);
    ContinuationAccepted(isServer, key, opCode, before, chunk, fin, |f|);
    hide ParseBuffer, Frame, AcceptFrame, Utf8Valid, ControlBytes, ControlMessages, DataMessage;
    ControlsAreRead(isServer, controls, f + rest, frag);
    FrameThen(isServer, key, OP_CONTINUATION, chunk, fin, rest, frag);
    var ctl := ControlMessages(isServer, controls);
    PrependNothing(ParseBuffer(!isServer, rest, Fragment(before + chunk, opCode)));
    PrependTwice(ctl, [DataMessage(isServer, key, opCode, before + chunk)], ParseBuffer(!isServer, rest, NO_FRAGMENT));
  }

  // The wire content from offset i on is the control frames, the frame at i and the rest.
  lemma WireFrom(
      isServer: bool, keys: nat -> MaskKey, opCode: byte, data: bytes, size: nat,
      between: nat -> seq<Control>, i: nat, more: bytes)
    requires 0 < size && i < |data|
    ensures var frames := FragmentsFrom(isServer, keys, opCode, data, size, i);
            var tail := FragmentsFrom(isServer, keys, opCode, data, size, i + size);
            Interleaved(frames, isServer, between, size, i) + more ==
            ControlBytes(isServer, between(i))
            + (FragmentAt(isServer, keys(i), opCode, data, size, i)
               + (Interleaved(tail, isServer, between, size, i + size) + more))
  {
    hide FragmentAt, ControlBytes;
    var f := FragmentAt(isServer, keys(i), opCode, data, size, i);
    var tail := FragmentsFrom(isServer, keys, opCode, data, size, i + size);
    var frames := FragmentsFrom(isServer, keys, opCode, data, size, i);
    assert frames[0] == f && frames[1..] == tail;
    var ctl := ControlBytes(isServer, between(i));
    var rest := Interleaved(tail, isServer, between, size, i + size);
    assert Interleaved(frames, isServer, between, size, i) == ctl + f + rest;
    assert ctl + f + rest + more == ctl + (f + (rest + more));
  }

  // The state before the frame at offset i > 0: everything up to i has been collected.
  lemma {:induction false} RemainingFragments(
      isServer: bool, keys: nat -> MaskKey, opCode: byte, data: bytes, size: nat,
      between: nat -> seq<Control>, i: nat, more: bytes)
    requires 0 < size <= MAX_FRAME_SIZE && 0 < i < |data|
    requires forall j: nat, c :: c in between(j) ==> c.Valid()
    ensures var frames := FragmentsFrom(isServer, keys, opCode, data, size, i);
            var o := ParseBuffer(!isServer, Interleaved(frames, isServer, between, size, i) + more, Fragment(data[..i], opCode));
            if |data| <= MAX_MSG_SIZE && TextOk(opCode, data) then
              var msgs := ControlsFrom(isServer, between, |data|, size, i)
                          + [DataMessage(isServer, keys(LastOffset(|data|, size, i)), opCode, data)];
              o == Prepend(msgs, ParseBuffer(!isServer, more, NO_FRAGMENT))
            else o.Rejected?
    decreases |data| - i
  {
    hide ParseBuffer, Frame, Utf8Valid, ControlBytes, ControlMessages;
    var end := Min(i + size, |data|);
    var tail := FragmentsFrom(isServer, keys, opCode, data, size, i + size);
    var rest := Interleaved(tail, isServer, between, size, i + size) + more;
    WireFrom(isServer, keys, opCode, data, size, between, i, more);
    assert data[..i] + data[i..end] == data[..end];
    ContinuationStep(isServer, keys(i), opCode, data[..i], data[i..end], end == |data|, between(i), rest);
    var ctl := ControlMessages(isServer, between(i));
    if end < |data| {
      RemainingFragments(isServer, keys, opCode, data, size, between, end, more);
      var later := ControlsFrom(isServer, between, |data|, size, end);
      var last := [DataMessage(isServer, keys(LastOffset(|data|, size, end)), opCode, data)];
      PrependTwice(ctl, later + last, ParseBuffer(!isServer, more, NO_FRAGMENT));
      assert ctl + (later + last) == ctl + later + last;
    } else {
      assert data[..end] == data;
      assert rest == more;
      assert ControlsFrom(isServer, between, |data|, size, i) == ctl + [];
    }
  }

  // The first frame of a message that takes several: it opens the fragment state.
  lemma OpeningStep(
      isServer: bool, key: MaskKey, opCode: byte, chunk: bytes,
      controls: seq<Control>, rest: bytes, frag: Fragment)
    requires opCode in {OP_CONTINUATION, OP_TEXT, OP_BINARY}
    requires forall c :: c in controls ==> c.Valid()
    requires Fits(chunk) && frag.data == [] && (opCode == OP_CONTINUATION ==> frag.opCode == 0)
    ensures var f := Frame(isServer, key, opCode, chunk, false);
            var ctl := ControlMessages(isServer, controls);
            var o := ParseBuffer(!isServer, ControlBytes(isServer, controls) + (f + rest), frag);
            if |chunk| > MAX_FRAME_SIZE || !TextOk(opCode, chunk) then o.Rejected?
            else o == Prepend(ctl, ParseBuffer(!isServer, rest, Fragment(chunk, opCode)))
  {
    var f := Frame(isServer, key, opCode, chunk, false);
    hide ParseBuffer, Frame, AcceptFrame, Utf8Valid, ControlBytes, ControlMessages;
    if |chunk| <= MAX_FRAME_SIZE {
      OpeningAccepted(opCode, chunk, !isServer, WireKey(isServer, key), |f|, frag);
    }
    ControlsAreRead(isServer, controls, f + rest, frag);
    FrameThen(isServer, key, opCode, chunk, false, rest, frag);
    PrependNothing(ParseBuffer(!isServer, rest, Fragment(chunk, opCode)));
  }

  // A message that fits into one frame.
  lemma OnlyStep(
      isServer: bool, key: MaskKey, opCode: byte, data: bytes,
      controls: seq<Control>, rest: bytes, frag: Fragment)
    requires opCode in {OP_CONTINUATION, OP_TEXT, OP_BINARY}
    requires forall c :: c in controls ==> c.Valid()
    requires Fits(data) && frag.data == [] && (opCode == OP_CONTINUATION ==> frag.opCode == 0)
    ensures var f := Frame(isServer, key, opCode, data, true);
            var ctl := ControlMessages(isServer, controls);
            var o := ParseBuffer(!isServer, ControlBytes(isServer, controls) + (f + rest), frag);
            if |data| > MAX_FRAME_SIZE || !TextOk(opCode, data) then o.Rejected?
            else
              var frag' := if opCode == OP_CONTINUATION then NO_FRAGMENT else frag;
              o == Prepend(ctl + [DataMessage(isServer, key, opCode, data)], ParseBuffer(!isServer, rest, frag'))
  {
    var f := Frame(isServer, key, opCode, data, true);
    hide ParseBuffer, Frame, AcceptFrame, Utf8Valid, ControlBytes, ControlMessages, DataMessage;
    if |data| <= MAX_FRAME_SIZE {
      OnlyAccepted(isServer, key, opCode, data, |f|, frag);
    }
    ControlsAreRead(isServer, controls, f + rest, frag);
    FrameThen(isServer, key, opCode, data, true, rest, frag);
    var frag' := if opCode == OP_CONTINUATION then NO_FRAGMENT else frag;
    PrependTwice(ControlMessages(isServer, controls), [DataMessage(isServer, key, opCode, data)],
                 ParseBuffer(!isServer, rest, frag'));
  }

  /** The fragment state behind a message in full: a single frame that is no continuation leaves it alone. */
  function FragmentLeft(opCode: byte, data: bytes, size: nat, frag: Fragment): Fragment {
    if |data| <= size && opCode != OP_CONTINUATION then frag else NO_FRAGMENT
  }

  /** One fragmented message, whatever follows it: delivered whole, or the end of the connection. */
  lemma FragmentsAreRead(
      isServer: bool, keys: nat -> MaskKey, opCode: byte, data: bytes, size: nat,
      between: nat -> seq<Control>, frag: Fragment, more: bytes)
    requires opCode in {OP_CONTINUATION, OP_TEXT, OP_BINARY}
    requires |data| > 0 && size > 0 && Fits(data)
    requires forall j: nat, c :: c in between(j) ==> c.Valid()
    requires frag.data == [] && (opCode == OP_CONTINUATION ==> frag.opCode == 0)
    ensures var wire := Interleaved(FragmentsFrom(isServer, keys, opCode, data, size, 0), isServer, between, size, 0);
            var o := ParseBuffer(!isServer, wire + more, frag);
            if Reassembles(opCode, data, size) then
              o == Prepend(ControlsFrom(isServer, between, |data|, size, 0)
                           + [WholeMessage(isServer, keys, opCode, data, size)],
                           ParseBuffer(!isServer, more, FragmentLeft(opCode, data, size, frag)))
            else o.Rejected?
  {
    hide ParseBuffer, Frame, Utf8Valid, ControlBytes, ControlMessages;
    var end := Min(size, |data|);
    var tail := FragmentsFrom(isServer, keys, opCode, data, size, size);
    var rest := Interleaved(tail, isServer, between, size, size) + more;
    WireFrom(isServer, keys, opCode, data, size, between, 0, more);
    var ctl := ControlMessages(isServer, between(0));
    if end == |data| {
      assert data[0..end] == data && data[..end] == data;
      assert rest == more;
      OnlyStep(isServer, keys(0), opCode, data, between(0), rest, frag);
      assert ControlsFrom(isServer, between, |data|, size, 0) == ctl + [];
    } else {
      assert data[0..end] == data[..end];
      OpeningStep(isServer, keys(0), opCode, data[..end], between(0), rest, frag);
      if size <= MAX_FRAME_SIZE {
        RemainingFragments(isServer, keys, opCode, data, size, between, size, more);
        var later := ControlsFrom(isServer, between, |data|, size, size);
        var last := [WholeMessage(isServer, keys, opCode, data, size)];
        PrependTwice(ctl, later + last, ParseBuffer(!isServer, more, NO_FRAGMENT));
        assert ctl + (later + last) == ctl + later + last;
      }
    }
  }

  /**
   Fragmentation round trip, in both directions: for non-empty data, any chunk size, any mask keys and any valid
   control frames before each fragment and after the last, the peer delivers exactly the control messages in order
   and one message with the original opcode and data if and only if the message reassembles within the limits;
   for text this needs the first chunk to be valid UTF-8 on its own.
   */
  lemma FragmentationRoundTrip(
      isServer: bool, keys: nat -> MaskKey, opCode: byte, data: bytes, size: nat,
      between: nat -> seq<Control>, after: seq<Control>, frag: Fragment)
    requires opCode in {OP_CONTINUATION, OP_TEXT, OP_BINARY}
    requires |data| > 0 && size > 0 && Fits(data)
    requires forall j: nat, c :: c in between(j) ==> c.Valid()
    requires forall c :: c in after ==> c.Valid()
    requires frag.data == [] && (opCode == OP_CONTINUATION ==> frag.opCode == 0)
    ensures var frames := FragmentsFrom(isServer, keys, opCode, data, size, 0);
            var wire := Interleaved(frames, isServer, between, size, 0) + ControlBytes(isServer, after);
            var o := ParseBuffer(!isServer, wire, frag);
            if Reassembles(opCode, data, size) then
              && o.Parsed? && o.buffer == [] && o.frag.data == []
              && o.messages == ControlsFrom(isServer, between, |data|, size, 0)
                               + [WholeMessage(isServer, keys, opCode, data, size)]
                               + ControlMessages(isServer, after)
            else o.Rejected?
  {
    hide ParseBuffer, Reassembles, Interleaved, ControlBytes, ControlMessages, ControlsFrom, WholeMessage;
    FragmentsAreRead(isServer, keys, opCode, data, size, between, frag, ControlBytes(isServer, after));
    ControlsAlone(isServer, after, FragmentLeft(opCode, data, size, frag));
  }

  lemma ControlsAlone(isServer: bool, controls: seq<Control>, frag: Fragment)
    requires forall c :: c in controls ==> c.Valid()
    ensures ParseBuffer(!isServer, ControlBytes(isServer, controls), frag) ==
            Parsed(ControlMessages(isServer, controls), [], frag)
  {
    ControlsAreRead(isServer, controls, [], frag);
    assert ControlBytes(isServer, controls) + [] == ControlBytes(isServer, controls);
    assert ControlMessages(isServer, controls) + [] == ControlMessages(isServer, controls);
  }

  /**
   Text cut inside a character is lost: 'a' and a two-byte character in chunks of two bytes are valid
   UTF-8 as a whole, but the peer rejects the first frame.
   */
  lemma TextCutInsideCharacterIsRejected(key: MaskKey)
    ensures var data: bytes := [0x61, 0xC3, 0xA9];
            var frames := FragmentsFrom(false, _ => key, OP_TEXT, data, 2, 0);
            Utf8Valid(data) && ParseBuffer(true, Interleaved(frames, false, _ => [], 2, 0), NO_FRAGMENT).Rejected?
  {
    var data: bytes := [0x61, 0xC3, 0xA9];
    var frames := FragmentsFrom(false, _ => key, OP_TEXT, data, 2, 0);
    assert data[1..] == [0xC3, 0xA9] && data[..2][1..] == [0xC3];
    assert RuneLength(data[1..]) == 2 && data[1..][2..] == [];
    assert !Utf8Valid(data[..2]);
    FragmentationRoundTrip(false, _ => key, OP_TEXT, data, 2, _ => [], [], NO_FRAGMENT);
    var wire := Interleaved(frames, false, _ => [], 2, 0);
    assert wire + ControlBytes(false, []) == wire;
  }
}

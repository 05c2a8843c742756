/** The WebSocket frame builder object, proved against Frame and FragmentsFrom. */
module WebSocketBuilder {
  import opened Bytes
  import opened WebSocketFrame
  import opened WebSocketTheorems
  import opened WebSocketFragments
  import opened Sequences

  datatype BuildError = BadOpCode | ControlTooLarge | CannotFragment

  datatype Built<T> = Ok(value: T) | Err(error: BuildError)

  lemma FragmentsUnfold(isServer: bool, keys: nat -> MaskKey, opCode: byte, data: bytes, size: nat, i: nat)
    requires size > 0
    ensures FragmentsFrom(isServer, keys, opCode, data, size, i) ==
            if i >= |data| then []
            else [FragmentAt(isServer, keys(i), opCode, data, size, i)]
                 + FragmentsFrom(isServer, keys, opCode, data, size, i + size)
  {
  }

  class Builder {
    const isServer: bool

    constructor (isServer: bool)
      ensures this.isServer == isServer
    {
      this.isServer := isServer;
    }

    /** buildFrame: fills the frame byte by byte; key is the mask key drawn for a client frame. */
    method BuildFrame(opCode: byte, payload: bytes, fin: bool, key: MaskKey) returns (r: Built<bytes>)
      requires Fits(payload)
      ensures r == if !IsValidOpCode(opCode) then Err(BadOpCode)
                   else if IsControl(opCode) && |payload| > 125 then Err(ControlTooLarge)
                   else Ok(Frame(isServer, key, opCode, payload, fin))
    {
      if !IsValidOpCode(opCode) {
        return Err(BadOpCode);
      }
      if IsControl(opCode) {
        if |payload| > 125 {
          return Err(ControlTooLarge);
        }
      }
      hide IsValidOpCode, IsControl, FrameHeader, Mask, LengthField;
      var headerLen := HeaderLength(opCode, |payload|, fin, key);
      var frame := new byte[headerLen + |payload|](_ => 0);
      var offset := PutHeader(frame, opCode, |payload|, fin, key);
      PutPayload(frame, offset, payload, key);
      assert frame[..] == frame[..offset] + frame[offset..];
      r := Ok(frame[..]);
    }

    // The payload, masked when it is a client's.
    method PutPayload(frame: array<byte>, offset: nat, payload: bytes, key: MaskKey)
      requires offset + |payload| == frame.Length
      modifies frame
      ensures frame[..offset] == old(frame[..offset])
      ensures frame[offset..] == if isServer then payload else Mask(payload, key)
    {
      if |payload| > 0 {
        Put(frame, offset, payload);
        if !isServer {
          MaskTail(frame, offset, payload, key);
        }
      }
    }

    method HeaderLength(ghost opCode: byte, payloadLen: nat, ghost fin: bool, ghost key: MaskKey) returns (n: nat)
      ensures n == |FrameHeader(isServer, key, opCode, payloadLen, fin)|
    {
      n := 2;
      if payloadLen >= 65536 {
        n := n + 8;
      } else if payloadLen >= 126 {
        n := n + 2;
      }
      if !isServer {
        n := n + 4;
      }
    }

    // The first two bytes, the extended length and the mask key.
    method PutHeader(frame: array<byte>, opCode: byte, payloadLen: nat, fin: bool, key: MaskKey) returns (offset: nat)
      requires frame.Length >= |FrameHeader(isServer, key, opCode, payloadLen, fin)|
      requires forall i :: 0 <= i < frame.Length ==> frame[i] == 0
      modifies frame
      ensures offset <= frame.Length
      ensures frame[..offset] == FrameHeader(isServer, key, opCode, payloadLen, fin)
    {
      hide Or8, BigEndian;
      frame[0] := opCode;
      if fin {
        frame[0] := Or8(frame[0], 0x80);
      }
      if !isServer {
        frame[1] := 0x80;
      }
      offset := 2;
      ghost var first := frame[0];
      ghost var length := LengthField(payloadLen);
      ghost var second := if isServer then length[0] else Or8(0x80, length[0]);
      OrTopBit(length[0]);
      if payloadLen >= 65536 {
        frame[1] := Or8(frame[1], 127);
        assert frame[..2] == [first, second];
        Put(frame, offset, BigEndian(payloadLen, 8));
        offset := offset + 8;
      } else if payloadLen >= 126 {
        frame[1] := Or8(frame[1], 126);
        assert frame[..2] == [first, second];
        Put(frame, offset, BigEndian(payloadLen, 2));
        offset := offset + 2;
      } else {
        frame[1] := Or8(frame[1], payloadLen);
        assert frame[..2] == [first, second];
      }
      assert frame[..offset] == [first, second] + length[1..];
      if !isServer {
        Put(frame, offset, key);
        offset := offset + 4;
      }
    }

    // copy(frame[offset:], data) and binary.BigEndian.Put*.
    static method Put(frame: array<byte>, offset: nat, data: bytes)
      requires offset + |data| <= frame.Length
      modifies frame
      ensures frame[..offset] == old(frame[..offset])
      ensures frame[..offset + |data|] == old(frame[..offset]) + data
      ensures frame[offset..offset + |data|] == data
      ensures frame[offset + |data|..] == old(frame[offset + |data|..])
    {
      forall i | 0 <= i < |data| {
        frame[offset + i] := data[i];
      }
    }

    // The loop that masks the payload where it stands.
    static method MaskTail(frame: array<byte>, offset: nat, payload: bytes, key: MaskKey)
      requires offset + |payload| == frame.Length && frame[offset..] == payload
      modifies frame
      ensures frame[..offset] == old(frame[..offset])
      ensures frame[offset..] == Mask(payload, key)
    {
      assert forall j :: 0 <= j < |payload| ==> frame[offset + j] == frame[offset..][j];
      var i := 0;
      while i < |payload|
        invariant 0 <= i <= |payload|
        invariant frame[..offset] == old(frame[..offset])
        invariant forall j :: 0 <= j < i ==> frame[offset + j] == Xor8(payload[j], key[j % 4])
        invariant forall j :: i <= j < |payload| ==> frame[offset + j] == payload[j]
      {
        frame[offset + i] := Xor8(frame[offset + i], key[i % 4]);
        i := i + 1;
      }
    }

    /** BuildFragmentedFrames: a chunk size that is not positive means 32768. */
    method BuildFragmentedFrames(opCode: byte, data: bytes, maxFrameSize: int, keys: nat -> MaskKey)
      returns (r: Built<seq<bytes>>)
      requires Fits(data)
      ensures var size := if maxFrameSize <= 0 then 32768 else maxFrameSize;
              if opCode in {OP_CONTINUATION, OP_TEXT, OP_BINARY}
              then r.Ok? && r.value == FragmentsFrom(isServer, keys, opCode, data, size, 0)
              else r == Err(CannotFragment)
    {
      hide FragmentAt, FragmentsFrom;
      var size := maxFrameSize;
      if size <= 0 {
        size := 32768;
      }
      if !IsValidOpCode(opCode) || IsControl(opCode) {
        return Err(CannotFragment);
      }
      var frames: seq<bytes> := [];
      var i := 0;
      while i < |data|
        invariant 0 <= i
        invariant frames + FragmentsFrom(isServer, keys, opCode, data, size, i) ==
                  FragmentsFrom(isServer, keys, opCode, data, size, 0)
        decreases |data| - i
      {
        FragmentsUnfold(isServer, keys, opCode, data, size, i);
        var frame := BuildFragment(opCode, data, size, i, keys(i));
        ghost var rest := FragmentsFrom(isServer, keys, opCode, data, size, i + size);
        ConcatAssoc(frames, [frame], rest);
        frames := frames + [frame];
        i := i + size;
      }
      FragmentsUnfold(isServer, keys, opCode, data, size, i);
      assert frames + [] == frames;
      r := Ok(frames);
    }

    // One turn of the loop: the chunk at offset i becomes a frame.
    method BuildFragment(opCode: byte, data: bytes, size: nat, i: nat, key: MaskKey) returns (frame: bytes)
      requires opCode in {OP_CONTINUATION, OP_TEXT, OP_BINARY}
      requires size > 0 && i < |data| && Fits(data)
      ensures frame == FragmentAt(isServer, key, opCode, data, size, i)
    {
      hide Frame;
      var end := i + size;
      if end > |data| {
        end := |data|;
      }
      var frameOpCode := OP_CONTINUATION;
      var fin := false;
      if i == 0 {
        frameOpCode := opCode;
      }
      if end == |data| {
        fin := true;
      }
      var r := BuildFrame(frameOpCode, data[i..end], fin, key);
      frame := r.value;
    }

    method BuildCloseFrame(code: nat, reason: bytes, key: MaskKey) returns (r: Built<bytes>)
      requires code < 65536 && Fits(ClosePayload(code, reason))
      ensures r == if |reason| > 123 then Err(ControlTooLarge)
                   else Ok(Frame(isServer, key, OP_CLOSE, ClosePayload(code, reason), true))
    {
      r := BuildFrame(OP_CLOSE, ClosePayload(code, reason), true, key);
    }
  }
}

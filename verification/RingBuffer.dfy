/** The circular byte buffer object: an array updated in place that behaves as a sequence of bytes. */
module RingBuffer {
  import opened Bytes
  import opened RingModel
  import opened Sequences
  import opened Words

  const DEFAULT_CAPACITY := 4096
  const DEFAULT_MAX := 1048576

  class RingBuffer {
    var buf: array<byte>
    var head: nat
    var tail: nat
    var size: nat
    const initialCapacity: nat
    const maxCapacity: nat

    ghost function Snapshot(): Ring
      reads this, buf
    {
      Ring(buf[..], head, tail, size)
    }

    ghost predicate Valid()
      reads this, buf
    {
      RingModel.Valid(Snapshot()) && 0 < initialCapacity
    }

    /** The bytes written and not yet read, oldest first. */
    ghost function Contents(): (c: bytes)
      reads this, buf
      requires Valid()
      ensures |c| == size
    {
      ViewSize(Snapshot());
      View(Snapshot())
    }

    /** NewRingBufferWithCapacity; values that are not positive mean the defaults. */
    constructor (initial: int, max: int)
      ensures Valid() && fresh(buf) && Contents() == []
      ensures buf.Length == initialCapacity == if initial <= 0 then 4096 else initial
      ensures maxCapacity == if max <= 0 then 1048576 else max
    {
      var capacity := if initial <= 0 then DEFAULT_CAPACITY else initial;
      buf := new byte[capacity](_ => 0);
      head, tail, size := 0, 0, 0;
      initialCapacity := capacity;
      maxCapacity := if max <= 0 then DEFAULT_MAX else max;
    }

    /** Moves bytes out: at most as many as there are, in order, into the front of data. */
    method Read(data: array<byte>) returns (n: nat)
      requires Valid() && data != buf
      modifies `head, `size, data
      ensures Valid() && n == Min(data.Length, old(size))
      ensures data[..n] == old(Contents())[..n] && data[n..] == old(data[n..])
      ensures Contents() == old(Contents())[n..]
    {
      if size == 0 || data.Length == 0 {
        return 0;
      }
      n := ReadToSlice(data, Min(data.Length, size));
      assert data[..n] == data[..][..n] && data[n..] == data[..][n..];
      size := size - n;
    }

    method ReadAll() returns (data: bytes)
      requires Valid()
      modifies `head, `size
      ensures Valid() && data == old(Contents()) && Contents() == []
    {
      if size == 0 {
        return [];
      }
      var dst := new byte[size](_ => 0);
      var n := ReadToSlice(dst, size);
      size := 0;
      data := dst[..];
    }

    /** Copies up to n bytes without taking them out. */
    method Peek(n: int) returns (data: bytes)
      requires Valid()
      ensures data == if n <= 0 then [] else Contents()[..Min(n, size)]
    {
      if size == 0 || n <= 0 {
        return [];
      }
      data := PeekToSlice(Min(n, size));
    }

    method Discard(n: int)
      requires Valid()
      modifies `head, `size
      ensures Valid() && Contents() == old(Contents())[if n <= 0 then 0 else Min(n, old(size))..]
    {
      if size == 0 || n <= 0 {
        return;
      }
      var k := Min(n, size);
      Wrap(head + k, buf.Length);
      DropFront(Snapshot(), k, (head + k) % buf.Length);
      hide View;
      head := (head + k) % buf.Length;
      size := size - k;
    }

    /** Takes out exactly frameLen bytes, or nothing if there are fewer. */
    method ReadFrame(frameLen: int) returns (frame: bytes, ok: bool)
      requires Valid()
      modifies `head, `size
      ensures Valid() && ok == (0 < frameLen <= old(size))
      ensures frame == if ok then old(Contents())[..frameLen] else []
      ensures Contents() == if ok then old(Contents())[frameLen..] else old(Contents())
    {
      if size < frameLen || frameLen <= 0 {
        return [], false;
      }
      var dst := new byte[frameLen](_ => 0);
      var read := ReadToSlice(dst, frameLen);
      if read == frameLen {
        size := size - read;
        return dst[..], true;
      }
      return [], false;
    }

    /**
     Writes data, growing first if it does not fit. Asked for is that the loop ends at all, on the writes
     RingModel.LoopEndsIff describes; bytes that fit are appended, a ring that stays full takes nothing, and any other
     write leaves a ring that has lost its bytes.
     */
    method Write(data: bytes) returns (n: nat)
      requires Valid()
      requires data != [] ==> Ends(BeforeWrite(Snapshot(), |data|, maxCapacity), |data|)
      modifies this, buf
      ensures buf == old(buf) || fresh(buf)
      ensures var r := old(BeforeWrite(Snapshot(), |data|, maxCapacity));
              && n == (if r.size == |r.buf| then 0 else |data|)
              && buf.Length == (if data == [] then old(buf.Length) else |r.buf|)
              && (Valid() <==> data == [] || Fits(r, |data|) || r.size == |r.buf|)
              && (data == [] ==> Snapshot() == old(Snapshot()))
              && (data != [] ==> LoopLeft(r, data, Snapshot(), n))
      ensures Valid() ==> Contents() == old(Contents()) + data[..n]
    {
      if |data| == 0 {
        assert old(Contents()) + data[..0] == old(Contents());
        return 0;
      }
      ghost var r := BeforeWrite(Snapshot(), |data|, maxCapacity);
      if size + |data| > buf.Length {
        Grow(|data|);
      }
      assert Snapshot() == r;
      hide *;
      n := WriteFromSlice(data);
      size := size + n;
      LeftIs(r, data, Snapshot(), n);
    }

    /** grow: a larger array with the same contents, unless the maximum does not allow it. */
    method Grow(additional: nat)
      requires Valid()
      modifies `buf, `head, `tail
      ensures Valid() && Contents() == old(Contents()) && (buf == old(buf) || fresh(buf))
      ensures var cap := GrownCap(old(buf.Length), size, additional, maxCapacity);
              buf.Length == cap && Snapshot() == if cap > old(buf.Length) then Moved(old(Snapshot()), cap) else old(Snapshot())
    {
      var currentCap := buf.Length;
      var newCap := currentCap * 2;
      if newCap < currentCap + size + additional {
        newCap := currentCap + size + additional;
      }
      if newCap > maxCapacity {
        newCap := maxCapacity;
      }
      if newCap <= currentCap {
        return;
      }
      ViewSize(Snapshot());
      MovedKeepsView(Snapshot(), newCap);
      buf := CopyInto(newCap);
      head, tail := 0, size;
    }

    /** Gives memory back when less than a quarter is used; the contents stay. */
    method Shrink()
      requires Valid()
      modifies `buf, `head, `tail
      ensures Valid() && Contents() == old(Contents()) && (buf == old(buf) || fresh(buf))
      ensures buf.Length == if size < old(buf.Length) / 4 && old(buf.Length) > initialCapacity
                            then (if old(buf.Length) / 2 < initialCapacity then initialCapacity else old(buf.Length) / 2)
                            else old(buf.Length)
    {
      var currentCap := buf.Length;
      if size < currentCap / 4 && currentCap > initialCapacity {
        var newCap := currentCap / 2;
        if newCap < initialCapacity {
          newCap := initialCapacity;
        }
        ViewSize(Snapshot());
        MovedKeepsView(Snapshot(), newCap);
        buf := CopyInto(newCap);
        head, tail := 0, size;
      }
    }

    // The contents at the front of a new array.
    method CopyInto(newCap: nat) returns (newBuf: array<byte>)
      requires Valid() && size <= newCap
      ensures fresh(newBuf) && newBuf[..] == Moved(old(Snapshot()), newCap).buf
    {
      ghost var r := Snapshot();
      ViewSize(r);
      newBuf := new byte[newCap](_ => 0);
      ghost var zeros := newBuf[..];
      assert zeros[size..] == seq(newCap - size, _ => 0) && View(r)[..size] == View(r);
      hide View, RingModel.Valid;
      if size > 0 {
        CopyFront(newBuf, size);
      } else {
        assert View(r) + zeros[0..] == zeros;
      }
    }

    // readToSlice: copies n bytes to the front of dst and moves head; size is left to the caller.
    method ReadToSlice(dst: array<byte>, n: nat) returns (copied: nat)
      requires Valid() && 0 < n <= size && n <= dst.Length && dst != buf
      modifies `head, dst
      ensures copied == n && dst[..] == old(Contents())[..n] + old(dst[..])[n..]
      ensures RingModel.Valid(Snapshot().(size := size - n))
      ensures View(Snapshot().(size := size - n)) == old(Contents())[n..]
    {
      ghost var r := Snapshot();
      DropFront(r, n, DroppedHead(r, n));
      assert head <= buf.Length;
      hide View, RingModel.Valid;
      CopyFront(dst, n);
      copied := n;
      if head < tail {
        head := head + n;
      } else {
        var firstPart := buf.Length - head;
        if n <= firstPart {
          head := head + n;
          if head == buf.Length {
            head := 0;
          }
        } else {
          head := n - firstPart;
        }
      }
      assert head == DroppedHead(r, n);
    }

    // The copying that readToSlice and peekToSlice have in common: one piece, or two around the end of the array.
    method CopyFront(dst: array<byte>, n: nat)
      requires Valid() && 0 < n <= size && n <= dst.Length && dst != buf
      modifies dst
      ensures dst[..] == old(Contents())[..n] + old(dst[..])[n..]
    {
      ghost var r, d := Snapshot(), dst[..];
      FrontCopied(r, d, n);
      hide *;
      CopyPieces(dst, n);
    }

    method CopyPieces(dst: array<byte>, n: nat)
      requires CanCopy(Snapshot(), n) && n <= dst.Length && dst != buf
      modifies dst
      ensures dst[..] == Copied(old(Snapshot()), old(dst[..]), n)
    {
      hide Blit;
      var firstPart := buf.Length - head;
      if head < tail || n <= firstPart {
        CopyOut(dst, 0, head, n);
      } else {
        CopyOut(dst, 0, head, firstPart);
        CopyOut(dst, firstPart, 0, n - firstPart);
      }
    }

    // copy(dst[at:], rb.buf[from:from+count])
    method CopyOut(dst: array<byte>, at: nat, from: nat, count: nat)
      requires dst != buf && at + count <= dst.Length && from + count <= buf.Length
      modifies dst
      ensures buf[..] == old(buf[..]) && dst[..] == Blit(old(dst[..]), at, old(buf[..])[from..from + count])
    {
      forall i | 0 <= i < count {
        dst[at + i] := buf[from + i];
      }
    }

    // peekToSlice.
    method PeekToSlice(n: nat) returns (data: bytes)
      requires Valid() && 0 < n <= size
      ensures data == Contents()[..n]
    {
      var dst := new byte[n](_ => 0);
      CopyFront(dst, n);
      data := dst[..];
    }

    // writeFromSlice; size is left to the caller.
    method WriteFromSlice(src: bytes) returns (written: nat)
      requires Valid() && src != [] && Ends(Snapshot(), |src|)
      modifies `tail, buf
      ensures written == if size == buf.Length then 0 else |src|
      ensures LoopLeft(old(Snapshot()), src, Snapshot().(size := size + written), written)
    {
      ghost var r := Snapshot();
      ghost var turns := TurnsToEnd(r, src);
      written := WriteTurns(src, turns);
      LeftByLoop(r, src, turns, Snapshot().(size := size + written), written);
    }

    // Its loop, which ends after the given number of turns.
    method WriteTurns(src: bytes, ghost turns: nat) returns (written: nat)
      requires head <= buf.Length && tail <= buf.Length && size <= buf.Length && Ended(Snapshot(), src, 0, turns)
      modifies `tail, buf
      ensures tail <= buf.Length && (Snapshot(), written) == WriteLoop(old(Snapshot()), src, 0, turns)
    {
      ghost var r, left := Snapshot(), turns;
      ghost var end := WriteLoop(r, src, 0, turns);
      assert EndsAs(r, src, 0, turns, end);
      hide EndsAs, WriteLoop, WriteOnce, Ended, Over;
      written := 0;
      while written < |src|
        invariant written <= |src| && head <= buf.Length && tail <= buf.Length
        invariant r == Snapshot() && EndsAs(r, src, written, left, end)
        decreases left
      {
        hide EndsAs, WriteLoop, WriteOnce;
        LoopTurn(r, src, written, left, end);
        var available := buf.Length - size;
        if available == 0 {
          break;
        }
        written := Turn(src, written, available);
        r, left := Snapshot(), left - 1;
      }
      hide EndsAs, WriteLoop, WriteOnce;
      LoopTurn(r, src, written, left, end);
    }

    // One turn of the loop.
    method Turn(src: bytes, written: nat, available: nat) returns (now: nat)
      requires head <= buf.Length && tail <= buf.Length && size < buf.Length && written < |src|
      requires available == buf.Length - size
      modifies `tail, buf
      ensures (Snapshot(), now) == WriteOnce(old(Snapshot()), src, written)
    {
      hide Blit;
      now := written;
      var toWrite := |src| - now;
      if toWrite > available {
        toWrite := available;
      }
      if tail < head || (tail >= head && size == 0) {
        var endSpace := buf.Length - tail;
        if toWrite <= endSpace {
          Copy(tail, src[now..now + toWrite]);
          tail := tail + toWrite;
          if tail == buf.Length {
            tail := 0;
          }
          now := now + toWrite;
        } else {
          now := TurnAround(src, now, toWrite);
        }
      } else {
        var copied := Min(buf.Length - tail, toWrite);
        Copy(tail, src[now..now + copied]);
        tail := tail + copied;
        now := now + copied;
      }
    }

    // The branch of a turn that fills the end of the array and goes on at its start.
    method TurnAround(src: bytes, written: nat, toWrite: nat) returns (now: nat)
      requires head <= buf.Length && tail <= buf.Length && size < buf.Length && written < |src|
      requires toWrite == Min(|src| - written, buf.Length - size) && toWrite > buf.Length - tail
      requires tail < head || size == 0
      modifies `tail, buf
      ensures (Snapshot(), now) == WriteOnce(old(Snapshot()), src, written)
    {
      hide Blit;
      var endSpace := buf.Length - tail;
      Copy(tail, src[written..written + endSpace]);
      tail := 0;
      now := written + endSpace;
      var remaining := toWrite - endSpace;
      if remaining > 0 && head > 0 {
        var copied2 := Min(remaining, head);
        Copy(0, src[now..now + copied2]);
        tail := tail + copied2;
        now := now + copied2;
      } else {
        BlitNothing(buf[..], src, now);
      }
    }

    // copy(rb.buf[at:], data)
    method Copy(at: nat, data: bytes)
      requires at + |data| <= buf.Length
      modifies buf
      ensures buf[..] == Blit(old(buf[..]), at, data)
    {
      forall i | 0 <= i < |data| {
        buf[at + i] := data[i];
      }
    }
  }

  /** The ring is what the loop leaves when it has ended, with n bytes reported. */
  ghost predicate LoopLeft(r: Ring, src: bytes, r': Ring, n: nat)
    requires r.head <= |r.buf| && r.tail <= |r.buf|
  {
    exists turns: nat :: Ended(r, src, 0, turns) && r' == Finished(WriteLoop(r, src, 0, turns))
                         && n == WriteLoop(r, src, 0, turns).1
  }

  lemma TurnsToEnd(r: Ring, src: bytes) returns (turns: nat)
    requires RingModel.Valid(r) && src != [] && Ends(r, |src|)
    ensures r.head <= |r.buf| && r.tail <= |r.buf| && r.size <= |r.buf| && Ended(r, src, 0, turns)
    ensures var o := WriteLoop(r, src, 0, turns);
            (o.1 >= |src| || o.0.size >= |o.0.buf|) && o.1 == if r.size == |r.buf| then 0 else |src|
  {
    LoopEndsIff(r, src);
    turns :| Ended(r, src, 0, turns);
    EndsWith(r, src, turns);
    ViewSize(r);
    hide WriteLoop, RingModel.Valid, Fits, Ends;
  }

  // The loop ends as given, after at most the given number of turns.
  predicate EndsAs(r: Ring, src: bytes, written: nat, turns: nat, end: (Ring, nat)) {
    && r.head <= |r.buf| && r.tail <= |r.buf| && written <= |src|
    && end == WriteLoop(r, src, written, turns) && Over(end.0, src, end.1)
  }

  // What a loop that ended has left of a ring.
  lemma LeftIs(r: Ring, src: bytes, r': Ring, n: nat)
    requires RingModel.Valid(r) && src != [] && LoopLeft(r, src, r', n)
    ensures n == if r.size == |r.buf| then 0 else |src|
    ensures |r'.buf| == |r.buf| && (RingModel.Valid(r') <==> Fits(r, |src|) || r.size == |r.buf|)
    ensures n <= |src| && (RingModel.Valid(r') ==> View(r') == View(r) + src[..n])
  {
    assert r.head <= |r.buf| && r.tail <= |r.buf|;
    hide RingModel.Valid, Fits, View, WriteLoop;
    var turns: nat :| Ended(r, src, 0, turns) && r' == Finished(WriteLoop(r, src, 0, turns)) && n == WriteLoop(r, src, 0, turns).1;
    EndsWith(r, src, turns);
    hide Ended, LoopLeft;
    assert src[..n] == if r.size == |r.buf| then [] else src;
    assert View(r) + [] == View(r);
  }

  lemma LeftByLoop(r: Ring, src: bytes, turns: nat, r': Ring, n: nat)
    requires r.head <= |r.buf| && r.tail <= |r.buf| && Ended(r, src, 0, turns)
    requires var o := WriteLoop(r, src, 0, turns); n == o.1 && r' == o.0.(size := o.0.size + o.1)
    ensures LoopLeft(r, src, r', n)
  {
  }

  // While the loop goes on, the turns to its end are not used up.
  lemma LoopTurn(r: Ring, src: bytes, written: nat, turns: nat, end: (Ring, nat))
    requires EndsAs(r, src, written, turns, end)
    ensures if written >= |src| || r.size >= |r.buf| then end == (r, written)
            else turns > 0 && r.head <= |r.buf| && r.tail <= |r.buf|
                 && var next := WriteOnce(r, src, written); EndsAs(next.0, src, next.1, turns - 1, end)
  {
  }

  lemma BlitNothing(b: bytes, src: bytes, i: nat)
    requires i <= |src|
    ensures src[i..i + 0] == [] && Blit(b, 0, []) == b
  {
  }

  lemma OnePiece(d: bytes, piece: bytes)
    requires |piece| <= |d|
    ensures Blit(d, 0, piece) == piece + d[|piece|..]
  {
  }

  lemma TwoPieces(d: bytes, first: bytes, second: bytes)
    requires |first| + |second| <= |d|
    ensures Blit(Blit(d, 0, first), |first|, second) == (first + second) + d[|first + second|..]
  {
    BlitTwice(d, 0, first, second);
    OnePiece(d, first + second);
    hide Blit;
  }

  predicate CanCopy(r: Ring, n: nat) {
    && r.head <= |r.buf| && r.tail <= |r.buf|
    && (if r.head < r.tail then r.head + n <= |r.buf| else n <= |r.buf| - r.head + r.tail)
  }

  // The array d with n bytes copied to its front, in one piece or in two.
  function Copied(r: Ring, d: bytes, n: nat): bytes
    requires CanCopy(r, n) && n <= |d|
  {
    var first := |r.buf| - r.head;
    if r.head < r.tail || n <= first then Blit(d, 0, r.buf[r.head..r.head + n])
    else Blit(Blit(d, 0, r.buf[r.head..r.head + first]), first, r.buf[0..0 + (n - first)])
  }

  lemma FrontOfView(r: Ring, n: nat)
    requires RingModel.Valid(r) && 0 < n <= r.size
    ensures CanCopy(r, n) && n <= |View(r)|
    ensures var first := |r.buf| - r.head;
            View(r)[..n] == if r.head < r.tail || n <= first then r.buf[r.head..r.head + n]
                            else r.buf[r.head..r.head + first] + r.buf[0..0 + (n - first)]
  {
    ViewSize(r);
    var first := |r.buf| - r.head;
    if r.head >= r.tail {
      assert View(r) == r.buf[r.head..] + r.buf[..r.tail];
      if n <= first {
        assert View(r)[..n] == r.buf[r.head..][..n];
      } else {
        assert View(r)[..n] == r.buf[r.head..] + r.buf[..r.tail][..n - first];
      }
    }
  }

  lemma FrontCopied(r: Ring, d: bytes, n: nat)
    requires RingModel.Valid(r) && 0 < n <= r.size && n <= |d|
    ensures CanCopy(r, n) && n <= |View(r)| && Copied(r, d, n) == View(r)[..n] + d[n..]
  {
    FrontOfView(r, n);
    CopiedPieces(r, d, n);
    hide *;
  }

  lemma CopiedPieces(r: Ring, d: bytes, n: nat)
    requires CanCopy(r, n) && n <= |d|
    ensures r.head < r.tail || n <= |r.buf| - r.head ==> Copied(r, d, n) == r.buf[r.head..r.head + n] + d[n..]
    ensures var first := |r.buf| - r.head;
            !(r.head < r.tail || n <= first) ==>
              Copied(r, d, n) == r.buf[r.head..r.head + first] + r.buf[0..0 + (n - first)] + d[n..]
  {
    hide Blit;
    var first := |r.buf| - r.head;
    if r.head < r.tail || n <= first {
      OnePiece(d, r.buf[r.head..r.head + n]);
    } else {
      TwoPieces(d, r.buf[r.head..r.head + first], r.buf[0..0 + (n - first)]);
    }
  }

  // Where head stands once n bytes are taken out.
  function DroppedHead(r: Ring, n: nat): nat
    requires RingModel.Valid(r) && n <= r.size
  {
    if r.head < r.tail || r.head + n < |r.buf| then r.head + n else r.head + n - |r.buf|
  }

  /** Moving head by n, with or without wrapping at the very end, drops the n oldest bytes. */
  lemma DropFront(r: Ring, n: nat, h: nat)
    requires RingModel.Valid(r) && 0 < n <= r.size
    requires || h == DroppedHead(r, n)
             || (r.head + n == |r.buf| && h == 0)
             || (r.head + n == 2 * |r.buf| && h == 0)
    ensures var d := r.(head := h, size := r.size - n);
            RingModel.Valid(d) && View(d) == View(r)[n..]
  {
    ViewSize(r);
    DroppedIsValid(r, n, h);
    var d := r.(head := h, size := r.size - n);
    if n == r.size {
      assert View(r)[n..] == [];
    } else if r.head < r.tail {
      ViewStraight(r);
      ViewStraight(d);
      hide View, RingModel.Valid;
      assert r.buf[r.head..r.tail][n..] == r.buf[r.head + n..r.tail];
    } else {
      DropAround(r.buf, r.head, r.tail, n);
      ViewAround(r);
      if h < r.tail {
        ViewStraight(d);
      } else {
        ViewAround(d);
      }
      hide View, RingModel.Valid;
    }
  }

  lemma DroppedIsValid(r: Ring, n: nat, h: nat)
    requires RingModel.Valid(r) && 0 < n <= r.size
    requires || h == DroppedHead(r, n)
             || (r.head + n == |r.buf| && h == 0)
             || (r.head + n == 2 * |r.buf| && h == 0)
    ensures RingModel.Valid(r.(head := h, size := r.size - n))
  {
  }

  lemma ViewAround(r: Ring)
    requires r.tail <= r.head <= |r.buf| && r.size > 0
    ensures View(r) == r.buf[r.head..] + r.buf[..r.tail]
  {
  }

  lemma ViewStraight(r: Ring)
    requires r.head < r.tail <= |r.buf| && r.size > 0
    ensures View(r) == r.buf[r.head..r.tail]
    ensures r.head == 0 ==> View(r) == r.buf[..r.tail]
  {
  }

  // Dropping n bytes of a view that runs around the end of the array.
  lemma DropAround(b: bytes, head: nat, tail: nat, n: nat)
    requires tail <= head <= |b| && n <= |b| - head + tail
    ensures var around := b[head..] + b[..tail];
            && (n <= |b| - head ==> around[n..] == b[head + n..] + b[..tail])
            && (n >= |b| - head ==> around[n..] == b[n - (|b| - head)..tail])
            && (n == |b| - head ==> around[n..] == b[..tail])
  {
  }

  /** What the ring holds once src has been written, on writes that fit. */
  function Written(r: Ring, src: bytes): Ring
    requires r.head <= |r.buf| && r.tail <= |r.buf|
  {
    Finished(WriteLoop(r, src, 0, Turns(r)))
  }

  /**
   A write that loses everything comes after ordinary calls: on a capacity of four, write two, write two, read four and
   write two, all of which fit and work; then writing two more, for which there is room, leaves an empty view.
   */
  lemma LossIsReachable(x: bytes, y: bytes, z: bytes, w: bytes)
    requires |x| == |y| == |z| == |w| == 2
    ensures var r0 := Ring([0, 0, 0, 0], 0, 0, 0);
            var r1 := Written(r0, x);
            var r2 := Written(r1, y);
            && RingModel.Valid(r0) && RingModel.Valid(r1) && RingModel.Valid(r2) && Fits(r0, 2) && Fits(r1, 2)
            && View(r1) == x && View(r2) == x + y
            && var r3 := r2.(head := DroppedHead(r2, 4), size := 0);
               var r4 := Written(r3, z);
               && RingModel.Valid(r3) && RingModel.Valid(r4) && Fits(r3, 2) && View(r4) == z
               && r4.size + 2 <= |r4.buf| && !Fits(r4, 2)
               && var o := WriteLoop(r4, w, 0, 1);
                  Over(o.0, w, o.1) && o.1 == 2 && View(Finished(o)) == []
  {
    var r0 := Ring([0, 0, 0, 0], 0, 0, 0);
    var r1 := FirstTwo(r0, x);
    var r2 := SecondTwo(r1, y);
    var r3 := r2.(head := 4, size := 0);
    DropFront(r2, 4, 4);
    var r4 := WrappedTwo(r3, z);
    hide View, WriteLoop, WriteOnce;
    LostWrite(r4, w, 1);
  }

  lemma FirstTwo(r: Ring, src: bytes) returns (r': Ring)
    requires |r.buf| == 4 && r.head == 0 && r.tail == 0 && r.size == 0 && |src| == 2
    ensures RingModel.Valid(r) && Fits(r, 2) && r' == Written(r, src)
    ensures RingModel.Valid(r') && View(r') == src && |r'.buf| == 4 && r'.head == 0 && r'.tail == 2 && r'.size == 2
  {
    FittingWriteAppends(r, src);
    r' := Written(r, src);
    assert [] + src == src && src[0..2] == src;
  }

  lemma SecondTwo(r: Ring, src: bytes) returns (r': Ring)
    requires |r.buf| == 4 && r.head == 0 && r.tail == 2 && r.size == 2 && |src| == 2
    ensures RingModel.Valid(r) && Fits(r, 2) && r' == Written(r, src)
    ensures RingModel.Valid(r') && View(r') == View(r) + src && |r'.buf| == 4 && r'.head == 0 && r'.tail == 4 && r'.size == 4
  {
    FittingWriteAppends(r, src);
    r' := Written(r, src);
  }

  lemma WrappedTwo(r: Ring, src: bytes) returns (r': Ring)
    requires |r.buf| == 4 && r.head == 4 && r.tail == 4 && r.size == 0 && |src| == 2
    ensures RingModel.Valid(r) && Fits(r, 2) && r' == Written(r, src)
    ensures RingModel.Valid(r') && View(r') == src && |r'.buf| == 4 && r'.head == 4 && r'.tail == 2 && r'.size == 2
  {
    FittingWriteAppends(r, src);
    r' := Written(r, src);
    assert [] + src == src;
  }

  lemma Wrap(p: nat, cap: nat)
    requires 0 < cap && p <= 2 * cap
    ensures p % cap == if p == 2 * cap then 0 else if p >= cap then p - cap else p
  {
    var q := if p == 2 * cap then 2 else if p >= cap then 1 else 0;
    var d := p / cap - q;
    assert d * cap == (p / cap) * cap - q * cap;
    Multiples(d, cap);
  }

  // One write that fits an empty ring or its maximum, and the read that empties the ring again.
  method WriteThenRead(ring: RingBuffer, w: bytes) returns (data: bytes)
    requires ring.Valid() && ring.Contents() == [] && (|w| <= ring.buf.Length || |w| <= ring.maxCapacity)
    modifies ring, ring.buf
    ensures ring.buf == old(ring.buf) || fresh(ring.buf)
    ensures ring.Valid() && ring.Contents() == [] && ring.buf.Length >= old(ring.buf.Length) && data == w
  {
    hide RingModel.Valid, View, Fits, Ends, LoopLeft;
    ghost var r := ring.Snapshot();
    if w != [] {
      EmptyRingFits(r, |w|, ring.maxCapacity);
    }
    hide BeforeWrite;
    var n := ring.Write(w);
    assert [] + w[..n] == w;
    data := ring.ReadAll();
  }

  /**
   Alternating writes and complete reads on a fresh ring return exactly what was written, as long as
   each write fits the capacity the ring starts with or may grow to.
   */
  method AlternatingRun(initial: int, max: int, writes: seq<bytes>) returns (results: seq<bytes>)
    requires var cap := if initial <= 0 then DEFAULT_CAPACITY else initial;
             var limit := if max <= 0 then DEFAULT_MAX else max;
             forall w :: w in writes ==> |w| <= cap || |w| <= limit
    ensures results == writes
  {
    var ring := new RingBuffer(initial, max);
    ghost var cap := ring.buf.Length;
    results := [];
    for i := 0 to |writes|
      invariant ring.Valid() && fresh(ring) && fresh(ring.buf) && ring.Contents() == []
      invariant ring.maxCapacity == if max <= 0 then DEFAULT_MAX else max
      invariant ring.buf.Length >= cap
      invariant results == writes[..i]
    {
      hide RingModel.Valid, View;
      assert writes[i] in writes;
      var data := WriteThenRead(ring, writes[i]);
      results := results + [data];
    }
  }
}

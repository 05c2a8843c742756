/**
 The ring buffer on values: what its fields represent, and what the write loop does turn by turn.
 The loop reads a size that it only updates once it is over, and one of its branches never wraps the
 tail; which writes append, and which lose data or never end, is decided here.
 */
module RingModel {
  import opened Bytes
  import opened Sequences

  /** The fields of RingBuffer that operations change. */
  datatype Ring = Ring(buf: bytes, head: nat, tail: nat, size: nat)

  /** The bytes the ring holds, oldest first. */
  function View(r: Ring): (v: bytes)
    requires r.head <= |r.buf| && r.tail <= |r.buf|
    ensures |v| <= |r.buf|
  {
    if r.size == 0 then []
    else if r.head < r.tail then r.buf[r.head..r.tail]
    else r.buf[r.head..] + r.buf[..r.tail]
  }

  /** The states the operations keep: the size agrees with the positions. */
  predicate Valid(r: Ring) {
    && 0 < |r.buf| && r.head <= |r.buf| && r.tail <= |r.buf|
    && (r.size == 0 ==> r.head == r.tail || (r.head == 0 && r.tail == |r.buf|))
    && (r.size > 0 ==> r.size == if r.head < r.tail then r.tail - r.head else |r.buf| - r.head + r.tail)
  }

  lemma ViewSize(r: Ring)
    requires Valid(r)
    ensures |View(r)| == r.size
  {
  }

  // copy(b[at:], data) for data that fits.
  function Blit(b: bytes, at: nat, data: bytes): (r: bytes)
    requires at + |data| <= |b|
    ensures |r| == |b|
  {
    b[..at] + data + b[at + |data|..]
  }

  /** One turn of the loop of writeFromSlice, entered with some space available. */
  function WriteOnce(r: Ring, src: bytes, written: nat): (o: (Ring, nat))
    requires r.head <= |r.buf| && r.tail <= |r.buf| && r.size < |r.buf| && written < |src|
    ensures |o.0.buf| == |r.buf| && o.0.head == r.head && o.0.tail <= |r.buf| && o.0.size == r.size
    ensures written <= o.1 <= |src|
  {
    var cap := |r.buf|;
    var toWrite := Min(|src| - written, cap - r.size);
    if r.tail < r.head || r.size == 0 then
      var endSpace := cap - r.tail;
      if toWrite <= endSpace then
        var tail := r.tail + toWrite;
        (r.(buf := Blit(r.buf, r.tail, src[written..written + toWrite]), tail := if tail == cap then 0 else tail),
         written + toWrite)
      else
        var b := Blit(r.buf, r.tail, src[written..written + endSpace]);
        var remaining := Min(toWrite - endSpace, r.head);
        (r.(buf := Blit(b, 0, src[written + endSpace..written + endSpace + remaining]), tail := remaining),
         written + endSpace + remaining)
    else
      var copied := Min(cap - r.tail, toWrite);
      (r.(buf := Blit(r.buf, r.tail, src[written..written + copied]), tail := r.tail + copied), written + copied)
  }

  // The loop is over: everything is written, or no space is left.
  predicate Over(r: Ring, src: bytes, written: nat) {
    written >= |src| || r.size >= |r.buf|
  }

  /** The loop after the given number of turns, if it does not end before. */
  function WriteLoop(r: Ring, src: bytes, written: nat, turns: nat): (o: (Ring, nat))
    requires r.head <= |r.buf| && r.tail <= |r.buf| && written <= |src|
    ensures |o.0.buf| == |r.buf| && o.0.head == r.head && o.0.tail <= |r.buf| && o.0.size == r.size
    ensures written <= o.1 <= |src|
    decreases turns
  {
    if turns == 0 || Over(r, src, written) then (r, written)
    else
      var next := WriteOnce(r, src, written);
      WriteLoop(next.0, src, next.1, turns - 1)
  }

  // The state Write leaves once the loop is over.
  function Finished(o: (Ring, nat)): Ring {
    o.0.(size := o.0.size + o.1)
  }

  /** The loop ends, reports all of src written, and the ring then holds its old bytes followed by src. */
  ghost predicate Appends(r: Ring, src: bytes)
    requires Valid(r)
  {
    exists turns: nat ::
      var o := WriteLoop(r, src, 0, turns);
      Over(o.0, src, o.1) && o.1 == |src| && View(Finished(o)) == View(r) + src
  }

  /** The loop is over after the given number of turns. */
  predicate Ended(r: Ring, src: bytes, written: nat, turns: nat)
    requires r.head <= |r.buf| && r.tail <= |r.buf| && written <= |src|
  {
    var o := WriteLoop(r, src, written, turns);
    Over(o.0, src, o.1)
  }

  /** What a caller can check before writing n bytes. */
  predicate Fits(r: Ring, n: nat) {
    && r.size + n <= |r.buf|
    && (|| r.size == 0
        || (r.tail < r.head && !(r.head == |r.buf| && r.tail + n == |r.buf|))
        || (r.head < r.tail && r.tail + n <= |r.buf|))
  }

  // ----- Writes that fit -----

  lemma BlitParts(b: bytes, at: nat, data: bytes)
    requires at + |data| <= |b|
    ensures var r := Blit(b, at, data);
            && r[..at] == b[..at] && r[at..at + |data|] == data && r[at + |data|..] == b[at + |data|..]
            && r[..at + |data|] == b[..at] + data
  {
  }

  lemma BlitTwice(b: bytes, at: nat, first: bytes, second: bytes)
    requires at + |first| + |second| <= |b|
    ensures Blit(Blit(b, at, first), at + |first|, second) == Blit(b, at, first + second)
  {
    BlitParts(b, at, first);
    assert first + second == first + second[..];
  }

  lemma OneTurnAppends(r: Ring, src: bytes)
    requires Valid(r) && Fits(r, |src|) && src != [] && !(r.size == 0 && r.head != r.tail)
    ensures var o := WriteOnce(r, src, 0);
            o.1 == |src| && Valid(Finished(o)) && View(Finished(o)) == View(r) + src
  {
    assert src[0..|src|] == src;
    if r.size > 0 {
      BlitParts(r.buf, r.tail, src);
      hide Blit;
      AppendBehindTail(r, src);
    } else if |src| <= |r.buf| - r.tail {
      BlitParts(r.buf, r.tail, src);
      hide Blit;
      assert View(r) == [];
    } else {
      WrappingWrite(r, src);
    }
  }

  lemma AppendBehindTail(r: Ring, src: bytes)
    requires Valid(r) && Fits(r, |src|) && src != [] && r.size > 0
    ensures var o := WriteOnce(r, src, 0);
            o.1 == |src| && Valid(Finished(o)) && View(Finished(o)) == View(r) + src
  {
    assert src[0..|src|] == src;
    BlitParts(r.buf, r.tail, src);
    var b := Blit(r.buf, r.tail, src);
    hide Blit, View;
    if r.tail < r.head {
      GapView(r, b, src);
    } else {
      RunView(r, b, src);
    }
  }

  // The contents run around the end of the array, and src goes into the gap behind them.
  lemma GapView(r: Ring, b: bytes, src: bytes)
    requires r.tail < r.head <= |r.buf| && r.size > 0 && r.tail + |src| <= r.head && src != [] && |b| == |r.buf|
    requires b[..r.tail + |src|] == r.buf[..r.tail] + src && b[r.tail + |src|..] == r.buf[r.tail + |src|..]
    requires r.tail + |src| < |b|
    ensures View(Ring(b, r.head, r.tail + |src|, r.size + |src|)) == View(r) + src
  {
    SameTail(r.buf, b, r.tail + |src|, r.head);
    assert r.buf[r.head..] + (r.buf[..r.tail] + src) == (r.buf[r.head..] + r.buf[..r.tail]) + src;
  }

  // The contents are one run, and src goes behind it.
  lemma RunView(r: Ring, b: bytes, src: bytes)
    requires r.head < r.tail <= |r.buf| && r.size > 0 && r.tail + |src| <= |r.buf| && |b| == |r.buf|
    requires b[..r.tail + |src|] == r.buf[..r.tail] + src
    ensures View(Ring(b, r.head, r.tail + |src|, r.size + |src|)) == View(r) + src
  {
    assert b[r.head..r.tail + |src|] == b[..r.tail + |src|][r.head..];
    assert r.buf[r.head..r.tail] == r.buf[..r.tail][r.head..];
    assert (r.buf[..r.tail] + src)[r.head..] == r.buf[..r.tail][r.head..] + src;
  }

  lemma SameTail(b: bytes, c: bytes, i: nat, j: nat)
    requires i <= j <= |b| && j <= |c| && c[i..] == b[i..]
    ensures c[j..] == b[j..]
  {
    assert c[j..] == c[i..][j - i..] && b[j..] == b[i..][j - i..];
  }

  lemma ViewOf(r: Ring)
    requires r.head <= |r.buf| && r.tail <= |r.buf| && r.size > 0 && r.tail <= r.head
    ensures View(r) == r.buf[r.head..] + r.buf[..r.tail]
  {
  }

  lemma WrappingWrite(r: Ring, src: bytes)
    requires Valid(r) && r.size == 0 && r.head == r.tail && |r.buf| - r.tail < |src| <= |r.buf|
    ensures var o := WriteOnce(r, src, 0);
            o.1 == |src| && Valid(Finished(o)) && View(Finished(o)) == src
  {
    var endSpace := |r.buf| - r.tail;
    var first, second := src[..endSpace], src[endSpace..];
    assert src[0..endSpace] == first && src[endSpace..endSpace + |second|] == second;
    assert first + second == src;
    BlitParts(r.buf, r.tail, first);
    var b := Blit(r.buf, r.tail, first);
    BlitParts(b, 0, second);
    var c := Blit(b, 0, second);
    hide Blit;
    assert c[..|second|] == second by {
      assert c[0..0 + |second|] == second;
    }
    SameTail(b, c, |second|, r.head);
    assert b[r.tail..r.tail + |first|] == b[r.head..];
    assert c[r.head..] == first;
    hide View;
    ViewOf(Ring(c, r.head, |second|, |src|));
    assert WriteOnce(r, src, 0) == (r.(buf := c, tail := |second|), |src|);
  }

  // Empty with the tail at the end of the array: the first turn only moves the tail to the front.
  lemma FirstTurnWraps(r: Ring, src: bytes)
    requires Valid(r) && r.size == 0 && r.head != r.tail && src != []
    ensures WriteOnce(r, src, 0) == (r.(tail := 0), 0)
  {
    assert r.head == 0 && r.tail == |r.buf|;
    assert src[0..0] == [];
    assert Blit(r.buf, |r.buf|, []) == r.buf;
    assert Blit(r.buf, 0, []) == r.buf;
  }

  function Turns(r: Ring): nat {
    if r.size == 0 && r.head != r.tail then 2 else 1
  }

  lemma FittingWriteAppends(r: Ring, src: bytes)
    requires Valid(r) && Fits(r, |src|) && src != []
    ensures var o := WriteLoop(r, src, 0, Turns(r));
            Over(o.0, src, o.1) && o.1 == |src| && Valid(Finished(o)) && View(Finished(o)) == View(r) + src
    ensures Appends(r, src)
  {
    hide WriteOnce, View;
    if r.size == 0 && r.head != r.tail {
      FirstTurnWraps(r, src);
      var r1 := r.(tail := 0);
      OneTurnAppends(r1, src);
      EmptyView(r);
      EmptyView(r1);
      var next := WriteOnce(r1, src, 0);
      assert WriteLoop(r1, src, 0, 1) == WriteLoop(next.0, src, next.1, 0) == next;
      assert WriteLoop(r, src, 0, 2) == WriteLoop(r1, src, 0, 1);
    } else {
      OneTurnAppends(r, src);
      var next := WriteOnce(r, src, 0);
      assert WriteLoop(r, src, 0, 1) == WriteLoop(next.0, src, next.1, 0) == next;
    }
  }

  lemma EmptyView(r: Ring)
    requires Valid(r) && r.size == 0
    ensures View(r) == []
  {
  }

  // ----- Writes that do not -----

  // The bytes do not fit between tail and end: the tail stops at the end of the array and the loop spins there.
  lemma {:induction false} StalledLoop(r: Ring, src: bytes, written: nat, turns: nat)
    requires 0 < r.size < |r.buf| && r.head <= r.tail <= |r.buf| && written < |src|
    requires |src| - written > |r.buf| - r.tail
    ensures var o := WriteLoop(r, src, written, turns); !Over(o.0, src, o.1)
    decreases turns
  {
    if turns > 0 {
      var next := WriteOnce(r, src, written);
      StalledLoop(next.0, src, next.1, turns - 1);
    }
  }

  /** Reaching the very end of the array with head there ends the loop at once and makes the ring look empty. */
  lemma LostWrite(r: Ring, src: bytes, turns: nat)
    requires Valid(r) && r.size > 0 && src != [] && r.size + |src| <= |r.buf|
    requires r.tail < r.head && r.head == |r.buf| && r.tail + |src| == |r.buf|
    ensures turns == 0 ==> !Over(WriteLoop(r, src, 0, turns).0, src, WriteLoop(r, src, 0, turns).1)
    ensures var o := WriteLoop(r, src, 0, turns);
            turns > 0 ==> Over(o.0, src, o.1) && o.1 == |src| && View(Finished(o)) == []
  {
    if turns > 0 {
      var next := WriteOnce(r, src, 0);
      assert next.1 == |src| && next.0.tail == 0;
      assert WriteLoop(next.0, src, next.1, turns - 1) == next;
      assert next.0.buf[|r.buf|..] + next.0.buf[..0] == [];
    }
  }

  /**
   A write of n > 0 bytes ends and appends exactly when they fit; otherwise the loop never ends,
   or it ends with the ring no longer holding its old bytes followed by the new ones.
   */
  lemma AppendsIffFits(r: Ring, src: bytes)
    requires Valid(r) && src != []
    ensures Appends(r, src) <==> Fits(r, |src|)
  {
    if Fits(r, |src|) {
      FittingWriteAppends(r, src);
    } else {
      ViewSize(r);
      hide WriteLoop, WriteOnce;
      forall turns: nat
        ensures var o := WriteLoop(r, src, 0, turns);
                !(Over(o.0, src, o.1) && o.1 == |src| && View(Finished(o)) == View(r) + src)
      {
        var o := WriteLoop(r, src, 0, turns);
        if r.size + |src| > |r.buf| {
          assert |View(Finished(o))| <= |r.buf| < |View(r) + src|;
        } else if r.tail < r.head {
          LostWrite(r, src, turns);
        } else {
          StalledLoop(r, src, 0, turns);
        }
      }
    }
  }

  /**
   Room alone is not enough: four bytes of capacity with one byte stored at index 2 have room for three more,
   but the loop that should append two bytes never ends.
   */
  lemma StallWithRoom(a: byte, b: byte, turns: nat)
    ensures var r := Ring([0, 0, 7, 0], 2, 3, 1);
            var o := WriteLoop(r, [a, b], 0, turns);
            Valid(r) && r.size + 2 <= |r.buf| && !Over(o.0, [a, b], o.1)
  {
    StalledLoop(Ring([0, 0, 7, 0], 2, 3, 1), [a, b], 0, turns);
  }

  /** A full ring is left alone: the loop ends at once with nothing written. */
  lemma FullRingUnchanged(r: Ring, src: bytes, turns: nat)
    requires Valid(r) && r.size == |r.buf|
    ensures WriteLoop(r, src, 0, turns) == (r, 0)
  {
  }

  // ----- When the loop ends, and with what -----

  /** What a caller can check to know that writing n bytes ends at all. */
  predicate Ends(r: Ring, n: nat) {
    || r.size == 0 || r.size == |r.buf|
    || (r.tail < r.head && (r.head == |r.buf| || r.tail + n <= |r.buf|))
    || (r.head < r.tail && r.tail + n <= |r.buf|)
  }

  // With the size at 0, or head at the end of the array, every turn writes, over bytes already written if need be.
  lemma {:induction false} GoingAroundEnds(r: Ring, src: bytes, written: nat) returns (turns: nat)
    requires 0 < |r.buf| && r.head <= |r.buf| && r.tail <= |r.buf| && r.size < |r.buf| && written <= |src|
    requires r.size == 0 || (r.tail < r.head && r.head == |r.buf|)
    ensures Ended(r, src, written, turns)
    decreases |src| - written, r.tail
  {
    if Over(r, src, written) {
      turns := 0;
    } else {
      var next := WriteOnce(r, src, written);
      AroundTurn(r, src, written);
      hide WriteOnce;
      turns := GoingAroundEnds(next.0, src, next.1);
      turns := turns + 1;
    }
  }

  lemma AroundTurn(r: Ring, src: bytes, written: nat)
    requires 0 < |r.buf| && r.head <= |r.buf| && r.tail <= |r.buf| && r.size < |r.buf| && written < |src|
    requires r.size == 0 || (r.tail < r.head && r.head == |r.buf|)
    ensures var next := WriteOnce(r, src, written);
            && (next.1 > written || (next.1 == written && next.0.tail < r.tail))
            && (r.size == 0 || next.0.tail < r.head)
  {
    hide Blit;
  }

  // The bytes that are left fit between tail and end.
  lemma {:induction false} StraightEnds(r: Ring, src: bytes, written: nat) returns (turns: nat)
    requires r.head <= |r.buf| && r.tail <= |r.buf| && 0 < r.size < |r.buf| && written <= |src|
    requires written < |src| ==> r.tail + |src| - written <= |r.buf|
    ensures Ended(r, src, written, turns)
    decreases |src| - written
  {
    if Over(r, src, written) {
      turns := 0;
    } else {
      var next := WriteOnce(r, src, written);
      StraightTurn(r, src, written);
      hide WriteOnce;
      turns := StraightEnds(next.0, src, next.1);
      turns := turns + 1;
    }
  }

  lemma StraightTurn(r: Ring, src: bytes, written: nat)
    requires r.head <= |r.buf| && r.tail <= |r.buf| && 0 < r.size < |r.buf| && written < |src|
    requires r.tail + |src| - written <= |r.buf|
    ensures var next := WriteOnce(r, src, written);
            next.1 > written && (next.1 < |src| ==> next.0.tail + |src| - next.1 <= |r.buf|)
  {
    hide Blit;
  }

  // The bytes do not fit behind the tail and head is in front of the end: the tail runs into head, and on to the end.
  lemma StalledBehindHead(r: Ring, src: bytes, turns: nat)
    requires Valid(r) && 0 < r.size && r.tail < r.head < |r.buf| && r.tail + |src| > |r.buf|
    ensures !Ended(r, src, 0, turns)
  {
    if turns > 0 {
      var next := WriteOnce(r, src, 0);
      assert next.0.tail == r.head && next.1 == r.head - r.tail;
      hide WriteOnce;
      StalledLoop(next.0, src, next.1, turns - 1);
    }
  }

  /** The write loop ends exactly on the rings and lengths of Ends. */
  lemma LoopEndsIff(r: Ring, src: bytes)
    requires Valid(r) && src != []
    ensures (exists turns: nat :: Ended(r, src, 0, turns)) <==> Ends(r, |src|)
  {
    hide WriteLoop, WriteOnce;
    if r.size == |r.buf| {
      FullRingUnchanged(r, src, 0);
      assert Ended(r, src, 0, 0);
    } else if Ends(r, |src|) {
      var turns;
      if r.size == 0 || (r.tail < r.head && r.head == |r.buf|) {
        turns := GoingAroundEnds(r, src, 0);
      } else {
        turns := StraightEnds(r, src, 0);
      }
    } else {
      forall turns: nat
        ensures !Ended(r, src, 0, turns)
      {
        if r.tail < r.head {
          StalledBehindHead(r, src, turns);
        } else {
          StalledLoop(r, src, 0, turns);
        }
      }
    }
  }

  lemma {:induction false} EndIsUnique(r: Ring, src: bytes, written: nat, turns: nat, turns': nat)
    requires r.head <= |r.buf| && r.tail <= |r.buf| && written <= |src|
    requires Ended(r, src, written, turns) && Ended(r, src, written, turns')
    ensures WriteLoop(r, src, written, turns) == WriteLoop(r, src, written, turns')
    decreases turns
  {
    if turns > 0 && turns' > 0 && !Over(r, src, written) {
      var next := WriteOnce(r, src, written);
      hide WriteOnce;
      EndIsUnique(next.0, src, next.1, turns - 1, turns' - 1);
    }
  }

  /**
   What a write that ends leaves: a full ring as it was; otherwise all bytes are reported as written, and the ring still
   agrees with its size exactly when they fit. If they do not, the size exceeds the capacity, or the ring looks empty.
   */
  lemma EndsWith(r: Ring, src: bytes, turns: nat)
    requires Valid(r) && src != [] && Ended(r, src, 0, turns)
    ensures var o := WriteLoop(r, src, 0, turns);
            if r.size == |r.buf| then o == (r, 0)
            else
              && o.1 == |src| && (Valid(Finished(o)) <==> Fits(r, |src|))
              && (Fits(r, |src|) ==> View(Finished(o)) == View(r) + src)
              && (!Fits(r, |src|) ==> Finished(o).size > |r.buf| || View(Finished(o)) == [])
  {
    LoopEndsIff(r, src);
    hide WriteOnce, WriteLoop;
    if r.size == |r.buf| {
      FullRingUnchanged(r, src, turns);
    } else if Fits(r, |src|) {
      FittingWriteAppends(r, src);
      EndIsUnique(r, src, 0, turns, Turns(r));
    } else if r.size + |src| <= |r.buf| {
      LostWrite(r, src, turns);
    }
  }

  /** More bytes than the maximum are all reported as written, and the ring is left with a size beyond its capacity. */
  lemma OverfilledRing(src: bytes)
    requires |src| == 5
    ensures var r := Ring([0, 0, 0, 0], 0, 0, 0);
            && Valid(r) && BeforeWrite(r, 5, 4) == r && Ended(r, src, 0, 2)
            && var o := WriteLoop(r, src, 0, 2);
               o.1 == 5 && Finished(o).size == 5 && Finished(o).head == 0 && Finished(o).tail == 1 && !Valid(Finished(o))
  {
    hide Blit;
    var r := Ring([0, 0, 0, 0], 0, 0, 0);
    var r1 := WriteOnce(r, src, 0);
    assert r1.1 == 4 && r1.0.tail == 0;
    var r2 := WriteOnce(r1.0, src, 4);
    assert r2.1 == 5 && r2.0.tail == 1;
    hide WriteOnce;
    assert WriteLoop(r2.0, src, 5, 0) == r2;
    assert WriteLoop(r1.0, src, 4, 1) == r2;
  }

  // ----- Growing and shrinking -----

  /** The capacity grow settles for. */
  function GrownCap(cap: nat, size: nat, additional: nat, max: nat): nat {
    var wanted := if cap * 2 < cap + size + additional then cap + size + additional else cap * 2;
    var bounded := if wanted > max then max else wanted;
    if bounded <= cap then cap else bounded
  }

  /**
   The capacity never falls and never grows beyond the maximum; it is at least doubled and leaves room for the contents and
   the additional bytes over and above the old capacity, unless the maximum stands in the way.
   */
  lemma GrownCapMakesRoom(cap: nat, size: nat, additional: nat, max: nat)
    ensures var r := GrownCap(cap, size, additional, max);
            && r >= cap && (r > cap ==> r <= max)
            && ((r >= 2 * cap && r >= cap + size + additional) || r == max || (r == cap && max <= cap))
            && (r == cap || r == max || r == 2 * cap || r == cap + size + additional)
  {
  }

  // The same bytes at the front of a new array.
  function Moved(r: Ring, cap: nat): (m: Ring)
    requires Valid(r) && r.size <= cap
    ensures |m.buf| == cap
  {
    Ring(View(r) + seq(cap - |View(r)|, _ => 0), 0, r.size, r.size)
  }

  lemma MovedKeepsView(r: Ring, cap: nat)
    requires Valid(r) && r.size <= cap && 0 < cap
    ensures Valid(Moved(r, cap)) && View(Moved(r, cap)) == View(r)
  {
    ViewSize(r);
  }

  /** The ring Write works on: grown first when the bytes do not fit. */
  function BeforeWrite(r: Ring, n: nat, max: nat): Ring
    requires Valid(r)
  {
    var cap := GrownCap(|r.buf|, r.size, n, max);
    if r.size + n > |r.buf| && cap > |r.buf| && r.size <= cap then Moved(r, cap) else r
  }

  /** An empty ring takes whatever its capacity, or the capacity it may grow to, can hold. */
  lemma EmptyRingFits(r: Ring, n: nat, max: nat)
    requires Valid(r) && r.size == 0
    ensures Fits(BeforeWrite(r, n, max), n) <==> n <= |r.buf| || n <= max
    ensures Ends(BeforeWrite(r, n, max), n) && BeforeWrite(r, n, max).size == 0 && |BeforeWrite(r, n, max).buf| >= |r.buf|
  {
  }
}

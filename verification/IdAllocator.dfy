/**
 The ID generator, one call at a time: whatever the clock does, including going backwards and staying on one
 millisecond for more than 64 calls, the (time, sequence) pairs it hands out strictly increase.
 */
module IdAllocator {
  import opened Bytes
  import opened GlobalId
  import opened Wrappers

  const ALL_ONES: bv64 := 0xFFFF_FFFF_FFFF_FFFF

  /** bits.TrailingZeros64, looking at no more than n bits. */
  function TrailingZeros(b: bv64, n: nat): nat {
    if n == 0 || b & 1 == 1 then 0 else 1 + TrailingZeros(b >> 1, n - 1)
  }

  /** The lowest zero bit of the mask. */
  function LowestFree(mask: bv64): bv64 {
    !mask & (mask + 1)
  }

  // Exactly the sequence numbers below k are taken.
  predicate Taken(mask: bv64, k: bv64) {
    if k < 64 then mask == (1 << k) - 1 else k == 64 && mask == ALL_ONES
  }

  // The lowest free bit of a mask with k bits taken is bit k, and taking it leaves k + 1 taken.
  lemma TakeLowest(mask: bv64, k: bv64)
    requires Taken(mask, k) && k < 64
    ensures LowestFree(mask) == 1 << k
    ensures Taken(mask | LowestFree(mask), k + 1)
  {
  }

  lemma ShiftRight(k: bv64)
    requires 0 < k < 64
    ensures ((1 as bv64) << k) >> 1 == (1 as bv64) << (k - 1)
    ensures ((1 as bv64) << k) & 1 == 0
  {
  }

  // A small bit vector as a number.
  ghost function Num(k: bv64): nat {
    k as nat
  }

  lemma PredecessorAsNumber(k: bv64)
    requires 0 < k < 64
    ensures Num(k - 1) == Num(k) - 1
  {
  }

  lemma BitZero()
    ensures Num(0) == 0 && (1 as bv64) << (0 as bv64) == 1 && (1 as bv64) & 1 == 1
  {
  }

  lemma {:induction false} TrailingZerosOfBit(k: bv64, n: nat)
    requires k < 64 && n > Num(k)
    ensures TrailingZeros((1 as bv64) << k, n) == Num(k)
    decreases n
  {
    hide Num;
    if k == 0 {
      BitZero();
    } else {
      ShiftRight(k);
      PredecessorAsNumber(k);
      TrailingZerosOfBit(k - 1, n - 1);
    }
  }

  lemma SuccessorAsNumber(k: bv64)
    requires k < 64
    ensures Num(k) < 64 && Num(k + 1) == Num(k) + 1
  {
  }

  /** The fields of GlobalIDGenerator. */
  datatype Gen = Gen(lastTimestamp: int, seqMask: bv64)

  const NEW_GEN := Gen(0, 0)

  /** One call: still waiting when the clock readings run out, or a pair handed out. */
  datatype Outcome = Waiting(gen: Gen) | Given(now: int, seqNo: nat, gen: Gen)

  /** The readings left once one later than now has been seen. */
  function AfterLater(clock: seq<int>, now: int): (rest: seq<int>)
    ensures |rest| <= |clock|
  {
    if clock == [] then [] else if clock[0] > now then clock[1..] else AfterLater(clock[1..], now)
  }

  /** The sequence number of the lowest free bit, and the mask with that bit taken. */
  function TakeBit(mask: bv64): (nat, bv64) {
    var bit := LowestFree(mask);
    (TrailingZeros(bit, 64), mask | bit)
  }

  /** One turn of the outer loop: the call goes on with the readings left, or hands out a pair. */
  datatype Turn = Again(gen: Gen, rest: seq<int>) | Hand(now: int, seqNo: nat, gen: Gen)

  function TakeTurn(gen: Gen, clock: seq<int>): (t: Turn)
    requires clock != []
    ensures t.Again? ==> |t.rest| < |clock|
  {
    var now := clock[0];
    var mask := if now > gen.lastTimestamp then 0 else gen.seqMask;
    if now < gen.lastTimestamp then Again(gen, clock[1..])
    else if mask == ALL_ONES then Again(Gen(now, mask), AfterLater(clock[1..], now))
    else
      var (seqNo, mask') := TakeBit(mask);
      Hand(now, seqNo, Gen(now, mask'))
  }

  /** GenerateGlobalID as far as the generator's state goes; clock is what time.Now will return, reading by reading. */
  function Allocate(gen: Gen, clock: seq<int>): Outcome
    decreases |clock|
  {
    if clock == [] then Waiting(gen)
    else
      match TakeTurn(gen, clock)
      case Again(gen', rest) => Allocate(gen', rest)
      case Hand(now, seqNo, gen') => Given(now, seqNo, gen')
  }

  class Generator {
    var lastTimestamp: int
    var seqMask: bv64

    constructor ()
      ensures State() == NEW_GEN
    {
      lastTimestamp, seqMask := 0, 0;
    }

    function State(): Gen
      reads this
    {
      Gen(lastTimestamp, seqMask)
    }

    /** The loop with its waits; no ID is returned while the readings given do not let the call finish. */
    method GenerateGlobalId(clock: seq<int>, userId: nat, roomId: nat, loginId: byte, custom: byte) returns (id: Option<Id>)
      requires userId < 0x1_0000_0000 && roomId < 0x1_0000_0000
      modifies this
      ensures var o := Allocate(old(State()), clock);
              && State() == o.gen
              && (o.Given? ==> id == Some(Layout(Fields(o.now, userId, roomId, loginId, o.seqNo, custom))))
              && (o.Waiting? ==> id == None)
    {
      var rest := clock;
      ghost var start := Allocate(State(), clock);
      hide LowestFree, TrailingZeros, Layout, AfterLater;
      while rest != []
        invariant Allocate(State(), rest) == start
        decreases |rest|
      {
        ghost var turn := TakeTurn(State(), rest);
        var now := rest[0];
        rest := rest[1..];
        if now < lastTimestamp {
          continue;
        }
        if now > lastTimestamp {
          seqMask := 0;
          lastTimestamp := now;
        }
        if seqMask == ALL_ONES {
          rest := SpinUntilLater(rest, now);
          assert turn == Again(State(), rest);
          continue;
        }
        var bit := LowestFree(seqMask);
        seqMask := seqMask | bit;
        var seqNo := TrailingZeros(bit, 64);
        TrailingZerosBound(bit, 64);
        assert turn == Hand(now, seqNo, State());
        var f := BuildIdWithSeq(Fields(now, userId, roomId, loginId, seqNo, custom));
        return Some(f);
      }
      return None;
    }

    // The inner wait on an exhausted millisecond.
    method SpinUntilLater(clock: seq<int>, now: int) returns (rest: seq<int>)
      ensures rest == AfterLater(clock, now)
    {
      rest := clock;
      while rest != []
        invariant AfterLater(rest, now) == AfterLater(clock, now)
        decreases |rest|
      {
        var reading := rest[0];
        rest := rest[1..];
        if reading > now {
          return;
        }
      }
    }
  }

  lemma {:induction false} TrailingZerosBound(b: bv64, n: nat)
    ensures TrailingZeros(b, n) <= n
  {
    if n > 0 && b & 1 != 1 {
      TrailingZerosBound(b >> 1, n - 1);
    }
  }

  // ----- Whole runs -----

  predicate Before(t1: int, s1: int, t2: int, s2: int) {
    t1 < t2 || (t1 == t2 && s1 < s2)
  }

  lemma MaskStep(mask: bv64, k: bv64) returns (k': bv64)
    requires Taken(mask, k) && k < 64
    ensures TakeBit(mask).0 == Num(k) < 64
    ensures Taken(TakeBit(mask).1, k') && Num(k') == Num(k) + 1
  {
    k' := k + 1;
    hide Num, TrailingZeros, Taken;
    TakeLowest(mask, k);
    SuccessorAsNumber(k);
    TrailingZerosOfBit(k, 64);
  }

  lemma EmptyMask() returns (k: bv64)
    ensures Taken(0, k) && Num(k) == 0
  {
    k := 0;
  }

  lemma NotFull(mask: bv64, k: bv64)
    requires Taken(mask, k) && mask != ALL_ONES
    ensures k < 64
  {
  }

  // One turn, from a mask with exactly the k lowest bits taken.
  lemma TurnAdvances(gen: Gen, clock: seq<int>, k: bv64) returns (k': bv64)
    requires Taken(gen.seqMask, k) && clock != []
    ensures var t := TakeTurn(gen, clock);
            && Taken(t.gen.seqMask, k') && gen.lastTimestamp <= t.gen.lastTimestamp
            && (t.Again? ==>
                  && !Before(t.gen.lastTimestamp, Num(k'), gen.lastTimestamp, Num(k))
                  && forall x :: x in t.rest ==> x in clock)
            && (t.Hand? ==>
                  && t.now in clock && t.seqNo < 64
                  && !Before(t.now, t.seqNo, gen.lastTimestamp, Num(k))
                  && t.gen.lastTimestamp == t.now && Num(k') == t.seqNo + 1)
  {
    hide TakeBit, Taken, Num, AfterLater, ALL_ONES;
    k' := k;
    var now := clock[0];
    if now >= gen.lastTimestamp {
      var mask, taken := gen.seqMask, k;
      if now > gen.lastTimestamp {
        mask := 0;
        taken := EmptyMask();
      }
      LaterFromClock(clock[1..], now);
      if mask == ALL_ONES {
        k' := taken;
      } else {
        NotFull(mask, taken);
        k' := MaskStep(mask, taken);
      }
    }
  }

  /**
   One call, from a mask with exactly the k lowest bits taken: the mask keeps that form, the pair handed out is not
   before anything still free, only later pairs stay free, and the time stored never goes back.
   */
  lemma {:induction false} AllocateAdvances(gen: Gen, clock: seq<int>, k: bv64) returns (k': bv64)
    requires Taken(gen.seqMask, k)
    ensures var o := Allocate(gen, clock);
            && Taken(o.gen.seqMask, k') && gen.lastTimestamp <= o.gen.lastTimestamp
            && (o.Waiting? ==> !Before(o.gen.lastTimestamp, Num(k'), gen.lastTimestamp, Num(k)))
            && (o.Given? ==>
                  && o.now in clock && o.seqNo < 64
                  && !Before(o.now, o.seqNo, gen.lastTimestamp, Num(k))
                  && o.gen.lastTimestamp == o.now && Num(k') == o.seqNo + 1)
    decreases |clock|
  {
    hide TakeTurn, Taken, Num;
    k' := k;
    if clock != [] {
      k' := TurnAdvances(gen, clock, k);
      var t := TakeTurn(gen, clock);
      if t.Again? {
        k' := AllocateAdvances(t.gen, t.rest, k');
      }
    }
  }

  lemma {:induction false} LaterFromClock(clock: seq<int>, now: int)
    ensures forall t :: t in AfterLater(clock, now) ==> t in clock
  {
    if clock != [] && clock[0] <= now {
      LaterFromClock(clock[1..], now);
    }
  }

  /** A request: what the clock will read during the call, and the fields the caller passes. */
  datatype Request = Request(clock: seq<int>, userId: nat, roomId: nat, loginId: byte, custom: byte) {
    function Fields(now: int, seqNo: nat): GlobalId.Fields {
      GlobalId.Fields(now, userId, roomId, loginId, seqNo, custom)
    }
  }

  /** The fields of the IDs a run of requests returns, in order. */
  function Run(gen: Gen, requests: seq<Request>): seq<Fields>
    decreases |requests|
  {
    if requests == [] then []
    else
      var o := Allocate(gen, requests[0].clock);
      (if o.Given? then [requests[0].Fields(o.now, o.seqNo)] else []) + Run(o.gen, requests[1..])
  }

  predicate ReadingsInRange(requests: seq<Request>) {
    forall r :: r in requests ==>
      r.userId < 0x1_0000_0000 && r.roomId < 0x1_0000_0000
      && forall t :: t in r.clock ==> EPOCH <= t <= EPOCH + MAX_TIMESTAMP
  }

  // Usable IDs, none before the pair (t, s).
  predicate AllFrom(ids: seq<Fields>, t: int, s: int) {
    forall i :: 0 <= i < |ids| ==>
      && !Before(ids[i].now, ids[i].seqNo, t, s)
      && ids[i].Typed() && ids[i].seqNo < 64 && EPOCH <= ids[i].now <= EPOCH + MAX_TIMESTAMP
  }

  predicate Increasing(ids: seq<Fields>) {
    forall i, j :: 0 <= i < j < |ids| ==> Before(ids[i].now, ids[i].seqNo, ids[j].now, ids[j].seqNo)
  }

  // Everything a run hands out comes from the free pairs of its first state, in range and in order.
  lemma {:induction false} RunAdvances(gen: Gen, requests: seq<Request>, k: bv64)
    requires Taken(gen.seqMask, k) && ReadingsInRange(requests)
    ensures AllFrom(Run(gen, requests), gen.lastTimestamp, Num(k)) && Increasing(Run(gen, requests))
    decreases |requests|
  {
    hide Allocate, Taken, Num;
    if requests != [] {
      var r := requests[0];
      assert r in requests;
      var k' := AllocateAdvances(gen, r.clock, k);
      var o := Allocate(gen, r.clock);
      RunAdvances(o.gen, requests[1..], k');
      var rest := Run(o.gen, requests[1..]);
      hide AllFrom, Increasing;
      FromLater(rest, o.gen.lastTimestamp, Num(k'), gen.lastTimestamp, Num(k));
      if o.Given? {
        PutFirst(r.Fields(o.now, o.seqNo), rest, gen.lastTimestamp, Num(k));
      } else {
        assert [] + rest == rest;
      }
    }
  }

  lemma FromLater(ids: seq<Fields>, t': int, s': int, t: int, s: int)
    requires AllFrom(ids, t', s') && !Before(t', s', t, s)
    ensures AllFrom(ids, t, s)
  {
  }

  lemma PutFirst(f: Fields, rest: seq<Fields>, t: int, s: int)
    requires AllFrom(rest, f.now, f.seqNo + 1) && AllFrom(rest, t, s) && Increasing(rest)
    requires AllFrom([f], t, s)
    ensures AllFrom([f] + rest, t, s) && Increasing([f] + rest)
  {
    assert [f][0] == f;
  }

  /**
   Over any run of a new generator, for any clock readings in range: the pairs strictly increase, all IDs differ,
   and IDs with the same user, room, login and custom fields increase under Compare.
   */
  lemma IdsAreUniqueAndOrdered(requests: seq<Request>, i: nat, j: nat)
    requires ReadingsInRange(requests)
    requires i < j < |Run(NEW_GEN, requests)|
    ensures var f, g := Run(NEW_GEN, requests)[i], Run(NEW_GEN, requests)[j];
            && Before(f.now, f.seqNo, g.now, g.seqNo)
            && Layout(f) != Layout(g)
            && (f.userId == g.userId && f.roomId == g.roomId && f.loginId == g.loginId && f.custom == g.custom ==>
                  Compare(Layout(f), Layout(g)) == -1)
  {
    hide Layout, ExtractTimestamp, ExtractSequence, Allocate, Num, Compare;
    var k := EmptyMask();
    RunAdvances(NEW_GEN, requests, k);
    var f, g := Run(NEW_GEN, requests)[i], Run(NEW_GEN, requests)[j];
    LayoutRoundTrip(f);
    LayoutRoundTrip(g);
    if f.userId == g.userId && f.roomId == g.roomId && f.loginId == g.loginId && f.custom == g.custom {
      LaterPairIsLarger(f, g);
    }
  }
}

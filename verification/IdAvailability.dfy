/**
 When a call of the ID generator hands out an ID and which one, one call at a time: the next free sequence number of the
 stored millisecond or the first of a later one, 64 to a millisecond; and exactly which clock readings leave it waiting.
 */
module IdAvailability {
  import opened GlobalId
  import opened IdAllocator

  /** With sequence numbers left in the stored millisecond, a reading of that time hands out the lowest of them. */
  lemma NextOfMillisecond(gen: Gen, clock: seq<int>, k: bv64) returns (k': bv64)
    requires Taken(gen.seqMask, k) && Num(k) < 64 && clock != [] && clock[0] == gen.lastTimestamp
    ensures var o := Allocate(gen, clock);
            o.Given? && o.now == gen.lastTimestamp && o.seqNo == Num(k)
            && o.gen.lastTimestamp == gen.lastTimestamp && Taken(o.gen.seqMask, k') && Num(k') == Num(k) + 1
  {
    SmallNumber(k);
    NotAllTaken(gen.seqMask, k);
    hide TakeBit, Taken, Num, AfterLater, ALL_ONES;
    k' := MaskStep(gen.seqMask, k);
  }

  /** A later reading hands out the first sequence number of its millisecond, however many were taken before. */
  lemma FirstOfMillisecond(gen: Gen, clock: seq<int>) returns (k': bv64)
    requires clock != [] && clock[0] > gen.lastTimestamp
    ensures var o := Allocate(gen, clock);
            o.Given? && o.now == clock[0] && o.seqNo == 0
            && o.gen.lastTimestamp == clock[0] && Taken(o.gen.seqMask, k') && Num(k') == 1
  {
    var k := EmptyMask();
    NothingTaken();
    hide TakeBit, Taken, Num, AfterLater, ALL_ONES;
    k' := MaskStep(0, k);
  }

  lemma SmallNumber(k: bv64)
    requires Num(k) < 64
    ensures k < 64
  {
    if k >= 64 {
      AtLeast64(k);
    }
  }

  lemma AtLeast64(k: bv64)
    requires k >= 64
    ensures Num(k) >= 64
  {
  }

  lemma NotAllTaken(mask: bv64, k: bv64)
    requires Taken(mask, k) && k < 64
    ensures mask != ALL_ONES
  {
  }

  lemma NothingTaken()
    ensures 0 != ALL_ONES
  {
  }

  lemma AllTaken(mask: bv64, k: bv64)
    requires Taken(mask, k) && Num(k) == 64
    ensures mask == ALL_ONES
  {
    if k < 64 {
      LessThan64(k);
    }
  }

  lemma LessThan64(k: bv64)
    requires k < 64
    ensures Num(k) < 64
  {
    SuccessorAsNumber(k);
  }

  // ----- Waiting -----

  /**
   Reading i ends the wait for a new millisecond: it is later than the stored time, and of the readings before it that are
   not before the stored time, the last one, if there is any, is later too. The inner loop that waits for the clock uses up
   the reading it waited for.
   */
  predicate EndsWait(clock: seq<int>, last: int, i: nat) {
    && i < |clock| && clock[i] > last
    && (|| (forall j :: 0 <= j < i ==> clock[j] < last)
        || (exists j :: 0 <= j < i && clock[j] > last && forall m :: j < m < i ==> clock[m] < last))
  }

  /** Some reading ends the wait. */
  ghost predicate WaitEnds(clock: seq<int>, last: int) {
    exists i: nat :: EndsWait(clock, last, i)
  }

  lemma {:induction false} AfterLaterIs(clock: seq<int>, now: int) returns (d: nat)
    ensures d <= |clock| && forall j :: 0 <= j < d ==> clock[j] <= now
    ensures if d == |clock| then AfterLater(clock, now) == [] else clock[d] > now && AfterLater(clock, now) == clock[d + 1..]
    decreases |clock|
  {
    if clock == [] || clock[0] > now {
      d := 0;
    } else {
      var d' := AfterLaterIs(clock[1..], now);
      d := d' + 1;
    }
  }

  lemma EarlierReading(clock: seq<int>, last: int)
    requires clock != [] && clock[0] < last
    ensures WaitEnds(clock, last) <==> WaitEnds(clock[1..], last)
  {
    var rest := clock[1..];
    if i: nat :| EndsWait(clock, last, i) {
      if j :| 0 <= j < i && clock[j] > last && forall m :: j < m < i ==> clock[m] < last {
        assert rest[j - 1] > last && forall m :: j - 1 < m < i - 1 ==> rest[m] == clock[m + 1];
      }
      assert EndsWait(rest, last, i - 1);
    }
    if i: nat :| EndsWait(rest, last, i) {
      if j :| 0 <= j < i && rest[j] > last && forall m :: j < m < i ==> rest[m] < last {
        assert clock[j + 1] > last && forall m :: j + 1 < m < i + 1 ==> clock[m] == rest[m - 1];
      } else {
        assert forall j :: 0 <= j < i + 1 ==> clock[j] == if j == 0 then clock[0] else rest[j - 1];
      }
      assert EndsWait(clock, last, i + 1);
    }
  }

  // Behind a reading of the stored time, the first later one is used up by the inner loop.
  lemma UsedUp(clock: seq<int>, last: int, d: nat)
    requires clock != [] && clock[0] == last && 0 < d < |clock| && clock[d] > last
    requires forall j :: 0 <= j < d ==> clock[j] <= last
    ensures WaitEnds(clock, last) <==> WaitEnds(clock[d + 1..], last)
  {
    var rest := clock[d + 1..];
    if i: nat :| EndsWait(clock, last, i) {
      UsedUpForward(clock, last, d, i);
    }
    if i: nat :| EndsWait(rest, last, i) {
      UsedUpBack(clock, last, d, i);
    }
  }

  lemma UsedUpForward(clock: seq<int>, last: int, d: nat, i: nat)
    requires clock != [] && clock[0] == last && 0 < d < |clock| && clock[d] > last
    requires (forall j :: 0 <= j < d ==> clock[j] <= last) && EndsWait(clock, last, i)
    ensures i > d && EndsWait(clock[d + 1..], last, i - d - 1)
  {
    var rest := clock[d + 1..];
    assert i > 0 && !(clock[0] < last);
    var j :| 0 <= j < i && clock[j] > last && forall m :: j < m < i ==> clock[m] < last;
    assert j >= d;
    assert forall m :: 0 <= m < |rest| ==> rest[m] == clock[m + d + 1];
    if j > d {
      assert rest[j - d - 1] > last;
    }
  }

  lemma UsedUpBack(clock: seq<int>, last: int, d: nat, i: nat)
    requires clock != [] && 0 < d < |clock| && clock[d] > last && EndsWait(clock[d + 1..], last, i)
    ensures EndsWait(clock, last, i + d + 1)
  {
    var rest := clock[d + 1..];
    assert forall m :: d < m < |clock| ==> clock[m] == rest[m - d - 1];
    if j :| 0 <= j < i && rest[j] > last && forall m :: j < m < i ==> rest[m] < last {
      assert clock[j + d + 1] > last;
    } else {
      assert clock[d] > last;
    }
  }

  // All taken: the call waits until a reading ends the wait.
  lemma {:induction false} FullWaitsIff(gen: Gen, clock: seq<int>)
    requires gen.seqMask == ALL_ONES
    ensures Allocate(gen, clock).Waiting? <==> !WaitEnds(clock, gen.lastTimestamp)
    decreases |clock|
  {
    NothingTaken();
    hide TakeBit, ALL_ONES;
    var last := gen.lastTimestamp;
    if clock != [] {
      if clock[0] < last {
        EarlierReading(clock, last);
        FullWaitsIff(gen, clock[1..]);
      } else if clock[0] > last {
        assert EndsWait(clock, last, 0);
      } else {
        var d' := AfterLaterIs(clock[1..], last);
        var d := d' + 1;
        if d == |clock| {
          assert forall i :: 0 <= i < |clock| ==> clock[i] <= last;
        } else {
          assert clock[1..][d' + 1..] == clock[d + 1..];
          UsedUp(clock, last, d);
          FullWaitsIff(gen, clock[d + 1..]);
        }
      }
    }
  }

  lemma {:induction false} FreeWaitsIff(gen: Gen, clock: seq<int>)
    requires gen.seqMask != ALL_ONES
    ensures Allocate(gen, clock).Waiting? <==> forall i :: 0 <= i < |clock| ==> clock[i] < gen.lastTimestamp
    decreases |clock|
  {
    NothingTaken();
    hide TakeBit, ALL_ONES;
    if clock != [] && clock[0] < gen.lastTimestamp {
      FreeWaitsIff(gen, clock[1..]);
      assert forall i :: 0 < i < |clock| ==> clock[i] == clock[1..][i - 1];
    }
  }

  /**
   A call waits if and only if every reading is before the stored time, or the 64 sequence numbers of the stored
   millisecond are taken and no reading ends the wait for a later one.
   */
  lemma WaitsIff(gen: Gen, clock: seq<int>, k: bv64)
    requires Taken(gen.seqMask, k)
    ensures Allocate(gen, clock).Waiting? <==>
            || (forall i :: 0 <= i < |clock| ==> clock[i] < gen.lastTimestamp)
            || (Num(k) == 64 && !WaitEnds(clock, gen.lastTimestamp))
  {
    AtMost64(gen.seqMask, k);
    if Num(k) == 64 {
      AllTaken(gen.seqMask, k);
      hide *;
      FullWaitsIff(gen, clock);
      NoneLater(clock, gen.lastTimestamp);
    } else {
      SmallNumber(k);
      NotAllTaken(gen.seqMask, k);
      hide *;
      FreeWaitsIff(gen, clock);
    }
  }

  lemma AtMost64(mask: bv64, k: bv64)
    requires Taken(mask, k)
    ensures Num(k) <= 64
  {
    if k < 64 {
      LessThan64(k);
    } else {
      Is64(k);
    }
  }

  lemma Is64(k: bv64)
    requires k == 64
    ensures Num(k) == 64
  {
  }

  lemma NoneLater(clock: seq<int>, last: int)
    ensures (forall i :: 0 <= i < |clock| ==> clock[i] < last) ==> !WaitEnds(clock, last)
  {
  }

  // ----- 64 to a millisecond -----

  /** Every call of the run reads the clock once, at the same time. */
  predicate AllAt(requests: seq<Request>, t: int) {
    forall i :: 0 <= i < |requests| ==> requests[i].clock == [t]
  }

  lemma {:induction false} RestOfMillisecond(gen: Gen, requests: seq<Request>, k: bv64)
    requires Taken(gen.seqMask, k) && AllAt(requests, gen.lastTimestamp)
    ensures var ids := Run(gen, requests);
            && |ids| == (if |requests| + Num(k) <= 64 then |requests| else 64 - Num(k))
            && forall i :: 0 <= i < |ids| ==> ids[i].now == gen.lastTimestamp && ids[i].seqNo == Num(k) + i
    decreases |requests|
  {
    hide *;
    AtMost64(gen.seqMask, k);
    if requests == [] {
      NoRequests(gen);
    } else {
      var t := gen.lastTimestamp;
      OneRequest(gen, requests, t);
      if Num(k) < 64 {
        var k' := NextOfMillisecond(gen, [t], k);
        RestOfMillisecond(Allocate(gen, [t]).gen, requests[1..], k');
      } else {
        NoMoreAt(gen, t, k);
        RestOfMillisecond(gen, requests[1..], k);
      }
    }
  }

  lemma NoRequests(gen: Gen)
    ensures Run(gen, []) == []
  {
  }

  // The first call of a run, and the others.
  lemma OneRequest(gen: Gen, requests: seq<Request>, t: int)
    requires requests != [] && AllAt(requests, t)
    ensures AllAt(requests[1..], t)
    ensures var o := Allocate(gen, [t]);
            var rest := Run(o.gen, requests[1..]);
            if o.Given? then
              |Run(gen, requests)| == |rest| + 1
              && Run(gen, requests)[0].now == o.now && Run(gen, requests)[0].seqNo == o.seqNo
              && forall i :: 0 < i < |rest| + 1 ==> Run(gen, requests)[i] == rest[i - 1]
            else Run(gen, requests) == rest
  {
    hide Allocate;
    assert requests[0].clock == [t];
    var o := Allocate(gen, [t]);
    assert [] + Run(o.gen, requests[1..]) == Run(o.gen, requests[1..]);
  }

  lemma NoMoreAt(gen: Gen, t: int, k: bv64)
    requires Taken(gen.seqMask, k) && Num(k) == 64 && t == gen.lastTimestamp
    ensures Allocate(gen, [t]) == Waiting(gen)
  {
    AllTaken(gen.seqMask, k);
    hide ALL_ONES, TakeBit;
    assert Allocate(gen, []) == Waiting(gen);
  }

  /** In one millisecond a new generator hands out the sequence numbers 0 to 63 in order, and then no more. */
  lemma SixtyFourToAMillisecond(requests: seq<Request>, t: int)
    requires AllAt(requests, t) && t > 0
    ensures var ids := Run(NEW_GEN, requests);
            && |ids| == (if |requests| <= 64 then |requests| else 64)
            && forall i :: 0 <= i < |ids| ==> ids[i].now == t && ids[i].seqNo == i
  {
    hide Allocate, Taken, Num;
    if requests != [] {
      assert requests[0].clock == [t];
      var k := FirstOfMillisecond(NEW_GEN, [t]);
      RestOfMillisecond(Allocate(NEW_GEN, [t]).gen, requests[1..], k);
    }
  }
}

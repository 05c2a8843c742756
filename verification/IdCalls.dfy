/**
 Calls of the ID generator among others. A call that nobody interrupts does what Allocate says; a call that starts later gets
 no earlier time; a caller that loses the race for a sequence number takes the next one; and callers that stay within one
 millisecond, however their steps interleave, get its sequence numbers one after the other.
 */
module IdCalls {
  import opened IdAllocator
  import opened IdAvailability
  import opened IdInterleavings

  predicate ReadsClock(pc: Pc) {
    pc.Start? || pc.Exhausted?
  }

  /** The clock readings among the steps of one caller. */
  function Readings(w: World, i: nat, turns: seq<IdInterleavings.Turn>): seq<int>
    decreases |turns|
  {
    if turns == [] || i >= |w.callers| then []
    else (if ReadsClock(w.callers[i]) then [turns[0].clock] else []) + Readings(Step(w, i, turns[0].clock), i, turns[1..])
  }

  /** The steps, all of one caller, lead from one world to another and read these clock values. */
  ghost predicate Leads(w: World, i: nat, turns: seq<IdInterleavings.Turn>, readings: seq<int>, w': World) {
    && i < |w.callers| && (forall t :: t in turns ==> t.caller == i)
    && IdInterleavings.Run(w, turns) == w' && Readings(w, i, turns) == readings
  }

  lemma NoSteps(w: World, i: nat)
    requires i < |w.callers|
    ensures Leads(w, i, [], [], w)
  {
  }

  lemma OneStep(w: World, i: nat, clock: int, pc: Pc) returns (w': World)
    requires i < |w.callers| && w.callers[i] == pc
    ensures w' == Step(w, i, clock)
    ensures Leads(w, i, [IdInterleavings.Turn(i, clock)], if ReadsClock(pc) then [clock] else [], w')
  {
    hide Step, ReadsClock;
    w' := Step(w, i, clock);
    var turns := [IdInterleavings.Turn(i, clock)];
    assert turns[0] == IdInterleavings.Turn(i, clock) && turns[1..] == [];
    assert IdInterleavings.Run(w', []) == w' && Readings(w', i, []) == [];
  }

  lemma StepKeepsCallers(w: World, i: nat, clock: int)
    requires i < |w.callers|
    ensures |Step(w, i, clock).callers| == |w.callers|
  {
    hide TakeBit, ALL_ONES;
  }

  lemma {:induction false} ThenLeads(
      w: World, i: nat, a: seq<IdInterleavings.Turn>, ra: seq<int>, w1: World, b: seq<IdInterleavings.Turn>, rb: seq<int>, w2: World)
    requires Leads(w, i, a, ra, w1) && Leads(w1, i, b, rb, w2)
    ensures Leads(w, i, a + b, ra + rb, w2)
    decreases |a|
  {
    hide Step, ReadsClock;
    if a == [] {
      assert a + b == b && ra + rb == rb;
    } else {
      var next := Step(w, i, a[0].clock);
      StepKeepsCallers(w, i, a[0].clock);
      assert a[0] in a && forall t :: t in a[1..] ==> t in a;
      var rest := Readings(next, i, a[1..]);
      assert Leads(next, i, a[1..], rest, w1);
      ThenLeads(next, i, a[1..], rest, w1, b, rb, w2);
      assert (a + b)[1..] == a[1..] + b && (a + b)[0] == a[0];
      var first := if ReadsClock(w.callers[i]) then [a[0].clock] else [];
      assert first + (rest + rb) == (first + rest) + rb;
    }
  }

  // ----- The pieces of a call -----

  // A step of one caller that changes nothing but its place, and perhaps the fields.
  lemma GoesOn(w: World, i: nat, clock: int, pc: Pc, w': World)
    requires i < |w.callers| && w.callers[i] == pc && w' == Step(w, i, clock)
    ensures Leads(w, i, [IdInterleavings.Turn(i, clock)], if ReadsClock(pc) then [clock] else [], w')
  {
    hide Step, ReadsClock;
    var w1 := OneStep(w, i, clock, pc);
  }

  lemma TwoSteps(w: World, i: nat, clock: int, w1: World, w2: World)
    requires i < |w.callers| && w1 == Step(w, i, clock) && |w1.callers| == |w.callers| && w2 == Step(w1, i, clock)
    requires !ReadsClock(w1.callers[i])
    ensures Leads(w, i, [IdInterleavings.Turn(i, clock), IdInterleavings.Turn(i, clock)],
                  if ReadsClock(w.callers[i]) then [clock] else [], w2)
  {
    hide Step, ReadsClock, Leads;
    GoesOn(w, i, clock, w.callers[i], w1);
    GoesOn(w1, i, clock, w1.callers[i], w2);
    var t := IdInterleavings.Turn(i, clock);
    var r := if ReadsClock(w.callers[i]) then [clock] else [];
    ThenLeads(w, i, [t], r, w1, [t], [], w2);
    assert [t] + [t] == [t, t] && r + [] == r;
  }

  // A reading before the stored time leads back to the start.
  lemma TooEarly(w: World, i: nat, now: int) returns (turns: seq<IdInterleavings.Turn>)
    requires i < |w.callers| && w.callers[i] == Start && now < w.last
    ensures Leads(w, i, turns, [now], w)
  {
    var w1 := Step(w, i, now);
    assert w1 == w.(callers := w.callers[i := Timed(now)]);
    var w2 := Step(w1, i, now);
    assert w2 == w by {
      assert w2.callers == w.callers;
    }
    hide Step, Leads;
    turns := [IdInterleavings.Turn(i, now), IdInterleavings.Turn(i, now)];
    TwoSteps(w, i, now, w1, w2);
  }

  // Any other reading leads to the check of the stored time, which is then the time read.
  lemma Arrives(w: World, i: nat, now: int) returns (turns: seq<IdInterleavings.Turn>)
    requires i < |w.callers| && w.callers[i] == Start && now >= w.last
    ensures Leads(w, i, turns, [now],
                  World(now, if now > w.last then 0 else w.mask, w.callers[i := ToCheck(now)], w.given))
  {
    var w1 := Step(w, i, now);
    var w2 := Step(w1, i, now);
    turns := [IdInterleavings.Turn(i, now), IdInterleavings.Turn(i, now)];
    assert w1 == w.(callers := w.callers[i := Timed(now)]);
    if now == w.last {
      assert w2.callers == w.callers[i := ToCheck(now)];
      hide Step, Leads;
      TwoSteps(w, i, now, w1, w2);
    } else {
      assert w2.callers == w.callers[i := ToClear(now, w.last)];
      var w3 := Step(w2, i, now);
      var w4 := Step(w3, i, now);
      assert w3.callers == w.callers[i := ToSwap(now, w.last)];
      assert w4 == World(now, 0, w.callers[i := ToCheck(now)], w.given) by {
        assert w4.callers == w.callers[i := ToCheck(now)];
      }
      hide Step, Leads;
      TwoSteps(w, i, now, w1, w2);
      TwoSteps(w2, i, now, w3, w4);
      ThenLeads(w, i, turns, [now], w2, turns, [], w4);
      turns := turns + turns;
      assert [now] + [] == [now];
    }
  }

  // From there on the caller claims the lowest free bit.
  lemma Claims(w: World, i: nat, now: int) returns (turns: seq<IdInterleavings.Turn>)
    requires i < |w.callers| && w.callers[i] == ToCheck(now) && now == w.last && w.mask != ALL_ONES
    ensures Leads(w, i, turns, [],
                  World(now, TakeBit(w.mask).1, w.callers[i := Start], w.given + [Pair(now, TakeBit(w.mask).0)]))
  {
    hide TakeBit, ALL_ONES;
    var w1 := Step(w, i, now);
    var w2 := Step(w1, i, now);
    var w3 := Step(w2, i, now);
    assert w1.callers == w.callers[i := ToLoad(now)];
    assert w2.callers == w.callers[i := ToClaim(now, w.mask)];
    assert w3.callers == w.callers[i := Start];
    hide Step, Leads;
    var t := IdInterleavings.Turn(i, now);
    TwoSteps(w, i, now, w1, w2);
    GoesOn(w2, i, now, ToClaim(now, w.mask), w3);
    ThenLeads(w, i, [t, t], [], w2, [t], [], w3);
    turns := [t, t] + [t];
    NothingRead();
  }

  lemma NothingRead()
    ensures var none: seq<int> := []; none + none == none
  {
  }

  // Or it finds the mask full.
  lemma FindsFull(w: World, i: nat, now: int) returns (turns: seq<IdInterleavings.Turn>)
    requires i < |w.callers| && w.callers[i] == ToCheck(now) && now == w.last && w.mask == ALL_ONES
    ensures Leads(w, i, turns, [], w.(callers := w.callers[i := Exhausted(now)]))
  {
    hide TakeBit, ALL_ONES;
    var w1 := Step(w, i, now);
    var w2 := Step(w1, i, now);
    assert w1.callers == w.callers[i := ToLoad(now)];
    assert w2.callers == w.callers[i := Exhausted(now)];
    hide Step, Leads;
    TwoSteps(w, i, now, w1, w2);
    turns := [IdInterleavings.Turn(i, now), IdInterleavings.Turn(i, now)];
  }

  // The wait for a later reading, which is used up.
  lemma {:induction false} Spins(w: World, i: nat, now: int, clock: seq<int>)
    returns (turns: seq<IdInterleavings.Turn>, readings: seq<int>, w': World)
    requires i < |w.callers| && w.callers[i] == Exhausted(now)
    ensures Leads(w, i, turns, readings, w') && clock == readings + AfterLater(clock, now)
    ensures w' == w.(callers := w.callers[i := Start]) || (w' == w && AfterLater(clock, now) == [])
    decreases |clock|
  {
    if clock == [] {
      NoSteps(w, i);
      turns, readings, w' := [], [], w;
    } else {
      var w1 := Step(w, i, clock[0]);
      assert w1.callers == w.callers[i := if clock[0] <= now then Exhausted(now) else Start];
      hide Step, Leads;
      GoesOn(w, i, clock[0], Exhausted(now), w1);
      var t := IdInterleavings.Turn(i, clock[0]);
      if clock[0] > now {
        turns, readings, w' := [t], [clock[0]], w1;
      } else {
        var later, read, end := Spins(w1, i, now, clock[1..]);
        ThenLeads(w, i, [t], [clock[0]], w1, later, read, end);
        turns, readings, w' := [t] + later, [clock[0]] + read, end;
        assert w1.callers == w.callers;
      }
    }
  }

  // With all sequence numbers of the stored millisecond taken, one turn ends with the wait for a later reading.
  lemma FullTurn(w: World, i: nat, clock: seq<int>)
    returns (turns: seq<IdInterleavings.Turn>, readings: seq<int>, w': World)
    requires i < |w.callers| && w.callers[i] == Start && clock != [] && clock[0] == w.last && w.mask == ALL_ONES
    ensures Leads(w, i, turns, readings, w') && clock == readings + AfterLater(clock[1..], clock[0])
    ensures w' == w || (w' == w.(callers := w.callers[i := Exhausted(w.last)]) && AfterLater(clock[1..], clock[0]) == [])
  {
    hide TakeBit, ALL_ONES, Step, Leads;
    var now := clock[0];
    var there := Arrives(w, i, now);
    var w1 := w.(callers := w.callers[i := ToCheck(now)]);
    var full := FindsFull(w1, i, now);
    var w2 := w1.(callers := w1.callers[i := Exhausted(now)]);
    ThenLeads(w, i, there, [now], w1, full, [], w2);
    var spin, read, w3 := Spins(w2, i, now, clock[1..]);
    ThenLeads(w, i, there + full, [now] + [], w2, spin, read, w3);
    turns, readings, w' := there + full + spin, [now] + [] + read, w3;
    assert w2.callers == w.callers[i := Exhausted(now)];
    assert w2.callers[i := Start] == w.callers;
    assert clock == [now] + clock[1..];
  }

  // ----- Whole calls -----

  /**
   A call that nobody interrupts, whatever the other callers are about to do, hands out the pair and leaves the fields that
   Allocate gives for the same readings; if they do not let it finish, it has read them all and is about to read the clock.
   */
  lemma {:induction false} UninterruptedIsAllocate(w: World, i: nat, clock: seq<int>)
    returns (turns: seq<IdInterleavings.Turn>, readings: seq<int>, w': World)
    requires i < |w.callers| && w.callers[i] == Start
    ensures Leads(w, i, turns, readings, w') && readings <= clock
    ensures var o := Allocate(Gen(w.last, w.mask), clock);
            && Gen(w'.last, w'.mask) == o.gen
            && (o.Given? ==> w'.callers == w.callers && w'.given == w.given + [Pair(o.now, o.seqNo)])
            && (o.Waiting? ==>
                  && w'.given == w.given && readings == clock
                  && |w'.callers| == |w.callers| && ReadsClock(w'.callers[i]))
    decreases |clock|
  {
    NothingTaken();
    hide TakeBit, ALL_ONES, Step, Leads;
    if clock == [] {
      NoSteps(w, i);
      turns, readings, w' := [], [], w;
    } else if clock[0] < w.last {
      var early := TooEarly(w, i, clock[0]);
      var later, read, end := UninterruptedIsAllocate(w, i, clock[1..]);
      ThenLeads(w, i, early, [clock[0]], w, later, read, end);
      turns, readings, w' := early + later, [clock[0]] + read, end;
    } else {
      var now := clock[0];
      var mask := if now > w.last then 0 else w.mask;
      var there := Arrives(w, i, now);
      var w1 := World(now, mask, w.callers[i := ToCheck(now)], w.given);
      if mask != ALL_ONES {
        var claim := Claims(w1, i, now);
        w' := World(now, TakeBit(mask).1, w1.callers[i := Start], w.given + [Pair(now, TakeBit(mask).0)]);
        ThenLeads(w, i, there, [now], w1, claim, [], w');
        turns, readings := there + claim, [now] + [];
        assert w'.callers == w.callers && clock[..1] == readings;
      } else {
        var spun, read, w2 := FullTurn(w, i, clock);
        turns, readings, w' := spun, read, w2;
        if w2 == w {
          var rest := AfterLater(clock[1..], now);
          var later, more, end := UninterruptedIsAllocate(w, i, rest);
          ThenLeads(w, i, spun, read, w, later, more, end);
          turns, readings, w' := spun + later, read + more, end;
        }
      }
    }
  }

  /** A caller whose compare-and-swap fails, because another was faster, takes the next number without reading the clock. */
  lemma LoserClaimsNext(w: World, i: nat, now: int, mask: bv64) returns (turns: seq<IdInterleavings.Turn>)
    requires i < |w.callers| && w.callers[i] == ToClaim(now, mask)
    requires w.mask != mask && w.mask != ALL_ONES && w.last == now
    ensures Leads(w, i, turns, [],
                  World(now, TakeBit(w.mask).1, w.callers[i := Start], w.given + [Pair(now, TakeBit(w.mask).0)]))
  {
    hide TakeBit, ALL_ONES;
    var w1 := Step(w, i, now);
    assert w1 == w.(callers := w.callers[i := ToCheck(now)]);
    hide Step, Leads;
    GoesOn(w, i, now, ToClaim(now, mask), w1);
    var claim := Claims(w1, i, now);
    var w2 := World(now, TakeBit(w.mask).1, w1.callers[i := Start], w.given + [Pair(now, TakeBit(w.mask).0)]);
    ThenLeads(w, i, [IdInterleavings.Turn(i, now)], [], w1, claim, [], w2);
    turns := [IdInterleavings.Turn(i, now)] + claim;
    NothingRead();
    assert w1.callers[i := Start] == w.callers[i := Start];
  }

  // ----- Calls one after the other -----

  /** The pairs a caller is handed during a run. */
  function GivenTo(w: World, i: nat, turns: seq<IdInterleavings.Turn>): seq<Pair>
    decreases |turns|
  {
    if turns == [] then []
    else
      var (caller, clock) := (turns[0].caller, turns[0].clock);
      var w' := if caller < |w.callers| then Step(w, caller, clock) else w;
      (if caller == i && |w'.given| > |w.given| then w'.given[|w.given|..] else []) + GivenTo(w', i, turns[1..])
  }

  // Once the stored time has been checked, it is the caller's own.
  predicate NotBefore(pc: Pc, t: int) {
    match pc
    case ToLoad(now) => now >= t
    case ToClaim(now, _) => now >= t
    case _ => true
  }

  lemma StepNotBefore(w: World, j: nat, clock: int, i: nat, t: int)
    requires i < |w.callers| && j < |w.callers| && NotBefore(w.callers[i], t) && w.last >= t
    ensures var w' := Step(w, j, clock);
            && |w'.callers| == |w.callers| && NotBefore(w'.callers[i], t)
  {
    hide TakeBit, ALL_ONES, NotBefore;
    if i == j {
      OwnStepNotBefore(w, i, clock, t);
    }
  }

  lemma OwnStepNotBefore(w: World, i: nat, clock: int, t: int)
    requires i < |w.callers| && NotBefore(w.callers[i], t) && w.last >= t
    ensures NotBefore(Step(w, i, clock).callers[i], t)
  {
    hide TakeBit, ALL_ONES;
  }

  // A step hands out one pair at most, with the time the caller has checked.
  lemma StepGives(w: World, i: nat, clock: int, t: int)
    requires i < |w.callers| && NotBefore(w.callers[i], t)
    ensures var given := Step(w, i, clock).given;
            given == w.given || exists p: Pair :: given == w.given + [p] && p.now >= t
  {
    hide TakeBit, ALL_ONES;
    var given := Step(w, i, clock).given;
    if w.callers[i].ToClaim? && w.mask == w.callers[i].mask {
      assert given == w.given + [Pair(w.callers[i].now, TakeBit(w.mask).0)];
    }
  }

  lemma {:induction false} LaterTimes(w: World, i: nat, turns: seq<IdInterleavings.Turn>, t: int)
    requires NotAhead(w) && i < |w.callers| && NotBefore(w.callers[i], t) && w.last >= t
    ensures forall p :: p in GivenTo(w, i, turns) ==> p.now >= t
    decreases |turns|
  {
    hide Step, NotAhead, NotBefore;
    if turns != [] {
      var (j, clock) := (turns[0].caller, turns[0].clock);
      if j < |w.callers| {
        StepNotBefore(w, j, clock, i, t);
        if j == i {
          StepGives(w, i, clock, t);
        }
        StepMovesForward(w, j, clock);
        LaterTimes(Step(w, j, clock), i, turns[1..], t);
      } else {
        LaterTimes(w, i, turns[1..], t);
      }
    }
  }

  /** Whatever the interleaving, a call that starts when an ID is out already gets no earlier time than that ID. */
  lemma LaterCallsGetLaterTimes(n: nat, before: seq<IdInterleavings.Turn>, i: nat, after: seq<IdInterleavings.Turn>)
    requires i < |IdInterleavings.Run(NewWorld(n), before).callers|
    requires IdInterleavings.Run(NewWorld(n), before).callers[i] == Start
    ensures var w := IdInterleavings.Run(NewWorld(n), before);
            forall p, q :: p in w.given && q in GivenTo(w, i, after) ==> p.now <= q.now
  {
    var w := IdInterleavings.Run(NewWorld(n), before);
    assert NotAhead(NewWorld(n));
    RunMovesForward(NewWorld(n), before);
    LaterTimes(w, i, after, w.last);
    hide IdInterleavings.Run, GivenTo;
  }

  // ----- Within one millisecond -----

  // Every caller is at the start, or has read the stored time; nobody is about to clear the mask.
  predicate Settled(pc: Pc, last: int) {
    match pc
    case Start => true
    case Timed(now) => now <= last
    case ToClear(_, _) => false
    case ToSwap(_, _) => false
    case ToCheck(now) => now == last
    case ToLoad(now) => now == last
    case Exhausted(now) => now == last
    case ToClaim(now, mask) => now == last && mask != ALL_ONES
  }

  predicate AllSettled(w: World) {
    forall i :: 0 <= i < |w.callers| ==> Settled(w.callers[i], w.last)
  }

  lemma SettledStep(w: World, i: nat, clock: int, k: bv64) returns (k': bv64)
    requires AllSettled(w) && i < |w.callers| && clock <= w.last && Taken(w.mask, k)
    ensures var w' := Step(w, i, clock);
            && AllSettled(w') && w'.last == w.last && Taken(w'.mask, k')
            && if w'.given == w.given then k' == k
               else Num(k') == Num(k) + 1 && w'.given == w.given + [Pair(w.last, Num(k))]
  {
    hide TakeBit, Taken, Num, ALL_ONES;
    k' := k;
    match w.callers[i]
    case ToClaim(now, mask) =>
      if w.mask == mask {
        NotFull(mask, k);
        k' := MaskStep(mask, k);
      }
    case _ =>
  }

  /**
   While no reading is later than the stored time, any number of callers, in any interleaving, are handed the sequence numbers
   of that millisecond from the first free one on, one after the other: none twice, none left out, and none beyond 63.
   */
  lemma {:induction false} NumbersInARow(w: World, turns: seq<IdInterleavings.Turn>, k: bv64)
    requires AllSettled(w) && Taken(w.mask, k) && forall t :: t in turns ==> t.clock <= w.last
    ensures var given := IdInterleavings.Run(w, turns).given;
            && w.given <= given && Num(k) + |given| - |w.given| <= 64
            && forall j :: |w.given| <= j < |given| ==> given[j] == Pair(w.last, Num(k) + j - |w.given|)
    decreases |turns|
  {
    hide AllSettled, Step, Taken, Num;
    AtMost64(w.mask, k);
    if turns != [] {
      assert turns[0] in turns && forall t :: t in turns[1..] ==> t in turns;
      if turns[0].caller < |w.callers| {
        var k' := SettledStep(w, turns[0].caller, turns[0].clock, k);
        NumbersInARow(Step(w, turns[0].caller, turns[0].clock), turns[1..], k');
      } else {
        NumbersInARow(w, turns[1..], k);
      }
    }
  }
}

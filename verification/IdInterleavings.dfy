/**
 The ID generator with several callers at once: each load, store, compare-and-swap and clock reading of a call is one
 step, and the steps of different callers interleave freely.
 */
module IdInterleavings {
  import opened IdAllocator

  /** Where a caller is in GenerateGlobalID, with the local variables it still needs. */
  datatype Pc =
    | Start
    | Timed(now: int)
    | ToClear(now: int, last: int)
    | ToSwap(now: int, last: int)
    | ToCheck(now: int)
    | ToLoad(now: int)
    | Exhausted(now: int)
    | ToClaim(now: int, mask: bv64)

  /** A time and sequence number handed out. */
  datatype Pair = Pair(now: int, seqNo: nat)

  /** The generator's two fields, its callers, and what was handed out so far. */
  datatype World = World(last: int, mask: bv64, callers: seq<Pc>, given: seq<Pair>)

  function NewWorld(n: nat): World {
    World(0, 0, seq(n, _ => Start), [])
  }

  // The caller goes on at another place.
  function At(w: World, i: nat, pc: Pc): World
    requires i < |w.callers|
  {
    w.(callers := w.callers[i := pc])
  }

  /** The next step of one caller; clock is what time.Now returns if the step reads it. A caller that is done starts again. */
  function Step(w: World, i: nat, clock: int): World
    requires i < |w.callers|
  {
    match w.callers[i]
    case Start => At(w, i, Timed(clock))
    case Timed(now) =>
      At(w, i, if now < w.last then Start else if now > w.last then ToClear(now, w.last) else ToCheck(now))
    case ToClear(now, last) => At(w, i, ToSwap(now, last)).(mask := 0)
    case ToSwap(now, last) =>
      if w.last == last then At(w, i, ToCheck(now)).(last := now) else At(w, i, Start)
    case ToCheck(now) => At(w, i, if w.last != now then Start else ToLoad(now))
    case ToLoad(now) => At(w, i, if w.mask == ALL_ONES then Exhausted(now) else ToClaim(now, w.mask))
    case Exhausted(now) => At(w, i, if clock <= now then Exhausted(now) else Start)
    case ToClaim(now, mask) =>
      if w.mask == mask then
        At(w, i, Start).(mask := TakeBit(mask).1, given := w.given + [Pair(now, TakeBit(mask).0)])
      else At(w, i, ToCheck(now))
  }

  datatype Turn = Turn(caller: nat, clock: int)

  /** The steps in the order in which they happen; a number that is no caller's does nothing. */
  function Run(w: World, turns: seq<Turn>): World
    decreases |turns|
  {
    if turns == [] then w
    else Run(if turns[0].caller < |w.callers| then Step(w, turns[0].caller, turns[0].clock) else w, turns[1..])
  }

  /** No pair is handed out twice. */
  predicate AllDiffer(given: seq<Pair>) {
    forall i, j :: 0 <= i < j < |given| ==> given[i] != given[j]
  }

  // ----- What every interleaving keeps -----

  // A caller about to swap has read an earlier time; one about to claim has seen its own time stored.
  predicate Sensible(pc: Pc, last: int) {
    match pc
    case ToClear(now, l) => now > l
    case ToSwap(now, l) => now > l
    case ToCheck(now) => now <= last
    case ToLoad(now) => now <= last
    case ToClaim(now, _) => now <= last
    case _ => true
  }

  predicate NotAhead(w: World) {
    && (forall i :: 0 <= i < |w.callers| ==> Sensible(w.callers[i], w.last))
    && (forall j :: 0 <= j < |w.given| ==> w.given[j].now <= w.last)
  }

  lemma StepMovesForward(w: World, i: nat, clock: int)
    requires NotAhead(w) && i < |w.callers|
    ensures var w' := Step(w, i, clock);
            NotAhead(w') && w.last <= w'.last && |w'.callers| == |w.callers| && w.given <= w'.given
  {
    hide TakeBit, ALL_ONES, Sensible;
    assert Sensible(w.callers[i], w.last);
    NextIsSensible(w, i, clock);
    NextIsGiven(w, i, clock);
    var w' := Step(w, i, clock);
    forall j | 0 <= j < |w'.callers|
      ensures Sensible(w'.callers[j], w'.last)
    {
      LaterIsSensible(w.callers[j], w.last, w'.last);
    }
  }

  lemma NextIsSensible(w: World, i: nat, clock: int)
    requires i < |w.callers| && Sensible(w.callers[i], w.last)
    ensures var w' := Step(w, i, clock);
            && |w'.callers| == |w.callers| && Sensible(w'.callers[i], w'.last) && w.last <= w'.last
            && forall j :: 0 <= j < |w.callers| && j != i ==> w'.callers[j] == w.callers[j]
  {
    hide TakeBit, ALL_ONES, Sensible, At;
    var pc := NextPlace(w, i, clock);
    AtChangesOne(w, i, pc);
  }

  // Where the caller goes on; the other callers stay where they are.
  lemma NextPlace(w: World, i: nat, clock: int) returns (pc: Pc)
    requires i < |w.callers| && Sensible(w.callers[i], w.last)
    ensures Step(w, i, clock).callers == At(w, i, pc).callers
    ensures Sensible(pc, Step(w, i, clock).last) && w.last <= Step(w, i, clock).last
  {
    hide TakeBit, ALL_ONES;
    match w.callers[i]
    case Start => pc := Timed(clock);
    case Timed(now) => pc := if now < w.last then Start else if now > w.last then ToClear(now, w.last) else ToCheck(now);
    case ToClear(now, last) => pc := ToSwap(now, last);
    case ToSwap(now, last) => pc := if w.last == last then ToCheck(now) else Start;
    case ToCheck(now) => pc := if w.last != now then Start else ToLoad(now);
    case ToLoad(now) => pc := if w.mask == ALL_ONES then Exhausted(now) else ToClaim(now, w.mask);
    case Exhausted(now) => pc := if clock <= now then Exhausted(now) else Start;
    case ToClaim(now, mask) => pc := if w.mask == mask then Start else ToCheck(now);
  }

  lemma AtChangesOne(w: World, i: nat, pc: Pc)
    requires i < |w.callers|
    ensures var w' := At(w, i, pc);
            |w'.callers| == |w.callers| && w'.callers[i] == pc && forall j :: 0 <= j < |w.callers| && j != i ==> w'.callers[j] == w.callers[j]
  {
  }

  lemma NextIsGiven(w: World, i: nat, clock: int)
    requires i < |w.callers| && Sensible(w.callers[i], w.last)
    ensures var w' := Step(w, i, clock);
            w'.given == w.given || (w.callers[i].ToClaim? && exists n :: w'.given == w.given + [Pair(w.callers[i].now, n)])
    ensures w.callers[i].ToClaim? ==> w.callers[i].now <= w.last
  {
    hide TakeBit, ALL_ONES;
  }

  lemma LaterIsSensible(pc: Pc, last: int, last': int)
    requires Sensible(pc, last) && last <= last'
    ensures Sensible(pc, last')
  {
  }

  /** However many callers there are: the stored time never goes back, and no ID carries a later time than the stored one. */
  lemma {:induction false} RunMovesForward(w: World, turns: seq<Turn>)
    requires NotAhead(w)
    ensures var w' := Run(w, turns); NotAhead(w') && w.last <= w'.last && w.given <= w'.given
    decreases |turns|
  {
    hide Step, NotAhead;
    if turns != [] {
      var t := turns[0];
      if t.caller < |w.callers| {
        StepMovesForward(w, t.caller, t.clock);
      }
      RunMovesForward(if t.caller < |w.callers| then Step(w, t.caller, t.clock) else w, turns[1..]);
    }
  }

  // ----- One caller -----

  // The pairs increase, and all come before the given one.
  predicate AllBefore(given: seq<Pair>, t: int, n: nat) {
    && (forall i, j :: 0 <= i < j < |given| ==> Before(given[i].now, given[i].seqNo, given[j].now, given[j].seqNo))
    && (forall i :: 0 <= i < |given| ==> Before(given[i].now, given[i].seqNo, t, n))
  }

  lemma StillBefore(given: seq<Pair>, t: int, n: nat, t': int, n': nat)
    requires AllBefore(given, t, n) && !Before(t', n', t, n)
    ensures AllBefore(given, t', n')
  {
  }

  lemma OneMoreBefore(given: seq<Pair>, t: int, n: nat)
    requires AllBefore(given, t, n)
    ensures AllBefore(given + [Pair(t, n)], t, n + 1)
  {
  }

  // The pairs come before the first free one of the stored time; once the mask is cleared for a new time, before that time.
  ghost predicate Alone(w: World, k: bv64) {
    && |w.callers| <= 1 && Taken(w.mask, k)
    && (if |w.callers| == 1 && w.callers[0].ToSwap? then AllBefore(w.given, w.last + 1, 0)
        else AllBefore(w.given, w.last, Num(k)))
    && (|w.callers| == 1 ==> AtHome(w, w.callers[0]))
  }

  predicate AtHome(w: World, pc: Pc) {
    match pc
    case ToClear(now, last) => last == w.last && now > w.last
    case ToSwap(now, last) => last == w.last && now > w.last && w.mask == 0
    case ToCheck(now) => now == w.last
    case ToLoad(now) => now == w.last
    case ToClaim(now, mask) => now == w.last && mask == w.mask && mask != ALL_ONES
    case _ => true
  }

  lemma StepAlone(w: World, clock: int, k: bv64) returns (k': bv64)
    requires |w.callers| == 1 && Alone(w, k)
    ensures Alone(Step(w, 0, clock), k')
  {
    hide TakeBit, Taken, Num, ALL_ONES, AllBefore;
    k' := k;
    match w.callers[0]
    case ToClear(_, _) =>
      k' := EmptyMask();
      StillBefore(w.given, w.last, Num(k), w.last + 1, 0);
    case ToSwap(now, _) =>
      k' := EmptyMask();
      StillBefore(w.given, w.last + 1, 0, now, 0);
    case ToClaim(now, mask) =>
      NotFull(mask, k);
      k' := MaskStep(mask, k);
      OneMoreBefore(w.given, now, Num(k));
    case _ =>
  }

  lemma {:induction false} RunAlone(w: World, turns: seq<Turn>, k: bv64)
    requires Alone(w, k)
    ensures AllDiffer(Run(w, turns).given)
    decreases |turns|
  {
    if turns != [] {
      hide Alone, Step;
      var k' := k;
      if turns[0].caller < |w.callers| {
        OnlyCaller(w, k);
        k' := StepAlone(w, turns[0].clock, k);
        RunAlone(Step(w, 0, turns[0].clock), turns[1..], k');
      } else {
        RunAlone(w, turns[1..], k);
      }
    }
  }

  lemma OnlyCaller(w: World, k: bv64)
    requires Alone(w, k)
    ensures |w.callers| <= 1
  {
  }

  // ----- Two callers -----

  /** One caller takes n steps, with the clock standing at one time. */
  function Steps(i: nat, clock: int, n: nat): seq<Turn> {
    if n == 0 then [] else [Turn(i, clock)] + Steps(i, clock, n - 1)
  }

  lemma FirstStep(w: World, i: nat, clock: int, n: nat)
    requires i < |w.callers|
    ensures Run(w, Steps(i, clock, n)) == if n == 0 then w else Run(Step(w, i, clock), Steps(i, clock, n - 1))
  {
    hide Step;
    if n > 0 {
      assert Steps(i, clock, n)[1..] == Steps(i, clock, n - 1);
    }
  }

  lemma {:induction false} RunOn(w: World, turns: seq<Turn>, more: seq<Turn>)
    ensures Run(w, turns + more) == Run(Run(w, turns), more)
    decreases |turns|
  {
    hide Step;
    if turns == [] {
      assert turns + more == more;
    } else {
      var t := turns[0];
      assert (turns + more)[1..] == turns[1..] + more;
      RunOn(if t.caller < |w.callers| then Step(w, t.caller, t.clock) else w, turns[1..], more);
    }
  }

  lemma FirstBit()
    ensures TakeBit(0).0 == 0 && 0 != ALL_ONES
  {
    hide TakeBit;
    var k := EmptyMask();
    var k' := MaskStep(0, k);
  }

  // A caller that finds a new millisecond, up to the point where it is about to clear the mask.
  lemma SeesNewTime(w: World, i: nat, clock: int)
    requires i < |w.callers| && w.callers[i] == Start && clock > w.last
    ensures Run(w, Steps(i, clock, 2)) == w.(callers := w.callers[i := ToClear(clock, w.last)])
  {
    var w1 := Step(w, i, clock);
    var w2 := Step(w1, i, clock);
    FirstStep(w, i, clock, 2);
    FirstStep(w1, i, clock, 1);
    FirstStep(w2, i, clock, 0);
    assert w2.callers == w.callers[i := ToClear(clock, w.last)];
  }

  // A caller that has checked the time claims the first bit of an empty mask.
  lemma ClaimsFirst(w: World, i: nat, clock: int)
    requires i < |w.callers| && w.callers[i] == ToCheck(clock) && clock == w.last && w.mask == 0
    ensures Run(w, Steps(i, clock, 3)) ==
            World(clock, TakeBit(0).1, w.callers[i := Start], w.given + [Pair(clock, 0)])
  {
    hide TakeBit;
    FirstBit();
    var w1 := Step(w, i, clock);
    var w2 := Step(w1, i, clock);
    var w3 := Step(w2, i, clock);
    FirstStep(w, i, clock, 3);
    FirstStep(w1, i, clock, 2);
    FirstStep(w2, i, clock, 1);
    FirstStep(w3, i, clock, 0);
    assert w2.callers == w.callers[i := ToClaim(clock, 0)];
    assert w3.callers == w.callers[i := Start];
  }

  // A caller about to clear does so; its swap succeeds when the time it read is still stored, and it claims in either case.
  lemma ClearsAndClaims(w: World, i: nat, clock: int, last: int)
    requires i < |w.callers| && w.callers[i] == ToClear(clock, last) && clock > last && w.last in {last, clock}
    ensures Run(w, Steps(i, clock, if w.last == last then 5 else 7)) ==
            World(clock, TakeBit(0).1, w.callers[i := Start], w.given + [Pair(clock, 0)])
  {
    var w1 := Step(w, i, clock);
    var w2 := Step(w1, i, clock);
    var n := if w.last == last then 5 else 7;
    FirstStep(w, i, clock, n);
    FirstStep(w1, i, clock, n - 1);
    if w.last == last {
      ClaimsFirst(w2, i, clock);
      assert w2.callers[i := Start] == w.callers[i := Start];
    } else {
      var w3 := Step(w2, i, clock);
      var w4 := Step(w3, i, clock);
      FirstStep(w2, i, clock, 5);
      FirstStep(w3, i, clock, 4);
      ClaimsFirst(w4, i, clock);
      assert w4.callers[i := Start] == w.callers[i := Start];
    }
  }

  /** Both callers see that the millisecond is new; the second clears, swaps and claims, then the first clears and claims. */
  function LateClear(clock: int): seq<Turn> {
    Steps(0, clock, 2) + Steps(1, clock, 2) + Steps(1, clock, 5) + Steps(0, clock, 7)
  }

  /** Two callers get the same pair when one clears the mask after the other has claimed from it. */
  lemma LateClearingDuplicates(n: nat, clock: int)
    requires n >= 2 && clock > 0
    ensures Run(NewWorld(n), LateClear(clock)).given == [Pair(clock, 0), Pair(clock, 0)]
  {
    hide Step, Run, Steps, TakeBit;
    var w := NewWorld(n);
    SeesNewTime(w, 0, clock);
    var w1 := Run(w, Steps(0, clock, 2));
    SeesNewTime(w1, 1, clock);
    var w2 := Run(w1, Steps(1, clock, 2));
    ClearsAndClaims(w2, 1, clock, 0);
    var w3 := Run(w2, Steps(1, clock, 5));
    ClearsAndClaims(w3, 0, clock, 0);
    RunOn(w, Steps(0, clock, 2), Steps(1, clock, 2));
    RunOn(w, Steps(0, clock, 2) + Steps(1, clock, 2), Steps(1, clock, 5));
    RunOn(w, Steps(0, clock, 2) + Steps(1, clock, 2) + Steps(1, clock, 5), Steps(0, clock, 7));
  }

  /**
   A caller about to claim from an empty mask, while the other claims the same bit, and then clears the mask for the next
   millisecond and swaps: the compare-and-swap finds the empty mask again.
   */
  function StaleMask(clock: int): seq<Turn> {
    Steps(0, clock, 2) + Steps(0, clock, 4) + Steps(1, clock, 5) + Steps(1, clock + 1, 2) + Steps(1, clock + 1, 2)
    + Steps(0, clock, 1)
  }

  /** The same pair is handed out twice even when no other step comes between a caller's clearing and its swap. */
  lemma StaleMaskDuplicates(n: nat, clock: int)
    requires n >= 2 && clock > 0
    ensures Run(NewWorld(n), StaleMask(clock)).given == [Pair(clock, 0), Pair(clock, 0)]
  {
    hide Step, Run, Steps, TakeBit;
    var w := NewWorld(n);
    SeesNewTime(w, 0, clock);
    var w1 := Run(w, Steps(0, clock, 2));
    ClearsAndLoads(w1, 0, clock);
    var w2 := Run(w1, Steps(0, clock, 4));
    JoinsAndClaims(w2, 1, clock);
    var w3 := Run(w2, Steps(1, clock, 5));
    SeesNewTime(w3, 1, clock + 1);
    var w4 := Run(w3, Steps(1, clock + 1, 2));
    ClearsAndSwaps(w4, 1, clock + 1);
    var w5 := Run(w4, Steps(1, clock + 1, 2));
    ClaimsStale(w5, 0, clock);
    var t1 := Steps(0, clock, 2) + Steps(0, clock, 4);
    RunOn(w, Steps(0, clock, 2), Steps(0, clock, 4));
    RunOn(w, t1, Steps(1, clock, 5));
    RunOn(w, t1 + Steps(1, clock, 5), Steps(1, clock + 1, 2));
    RunOn(w, t1 + Steps(1, clock, 5) + Steps(1, clock + 1, 2), Steps(1, clock + 1, 2));
    RunOn(w, t1 + Steps(1, clock, 5) + Steps(1, clock + 1, 2) + Steps(1, clock + 1, 2), Steps(0, clock, 1));
  }

  lemma ClearsAndSwaps(w: World, i: nat, clock: int)
    requires i < |w.callers| && w.callers[i] == ToClear(clock, w.last)
    ensures Run(w, Steps(i, clock, 2)) == World(clock, 0, w.callers[i := ToCheck(clock)], w.given)
  {
    var w1 := Step(w, i, clock);
    var w2 := Step(w1, i, clock);
    FirstStep(w, i, clock, 2);
    FirstStep(w1, i, clock, 1);
    FirstStep(w2, i, clock, 0);
    assert w2.callers == w.callers[i := ToCheck(clock)];
  }

  lemma ClearsAndLoads(w: World, i: nat, clock: int)
    requires i < |w.callers| && w.callers[i] == ToClear(clock, w.last)
    ensures Run(w, Steps(i, clock, 4)) == World(clock, 0, w.callers[i := ToClaim(clock, 0)], w.given)
  {
    var w1 := Step(w, i, clock);
    var w2 := Step(w1, i, clock);
    var w3 := Step(w2, i, clock);
    var w4 := Step(w3, i, clock);
    FirstStep(w, i, clock, 4);
    FirstStep(w1, i, clock, 3);
    FirstStep(w2, i, clock, 2);
    FirstStep(w3, i, clock, 1);
    FirstStep(w4, i, clock, 0);
    assert w4.callers == w.callers[i := ToClaim(clock, 0)];
  }

  // A caller that starts in the stored millisecond, with the mask still empty.
  lemma JoinsAndClaims(w: World, i: nat, clock: int)
    requires i < |w.callers| && w.callers[i] == Start && clock == w.last && w.mask == 0
    ensures Run(w, Steps(i, clock, 5)) ==
            World(clock, TakeBit(0).1, w.callers[i := Start], w.given + [Pair(clock, 0)])
  {
    var w1 := Step(w, i, clock);
    var w2 := Step(w1, i, clock);
    FirstStep(w, i, clock, 5);
    FirstStep(w1, i, clock, 4);
    ClaimsFirst(w2, i, clock);
    assert w2.callers[i := Start] == w.callers[i := Start];
  }

  lemma ClaimsStale(w: World, i: nat, clock: int)
    requires i < |w.callers| && w.callers[i] == ToClaim(clock, 0) && w.mask == 0
    ensures Run(w, Steps(i, clock, 1)).given == w.given + [Pair(clock, 0)]
  {
    hide TakeBit;
    FirstBit();
    FirstStep(w, i, clock, 1);
    FirstStep(Step(w, i, clock), i, clock, 0);
  }

  /** No pair is ever handed out twice if and only if there is at most one caller at a time. */
  lemma DifferIffOneCaller(n: nat)
    ensures (forall turns :: AllDiffer(Run(NewWorld(n), turns).given)) <==> n <= 1
  {
    hide Run;
    if n <= 1 {
      NewWorldIsAlone(n);
      forall turns
        ensures AllDiffer(Run(NewWorld(n), turns).given)
      {
        RunAlone(NewWorld(n), turns, 0);
      }
    } else {
      LateClearingDuplicates(n, 1);
      var given := Run(NewWorld(n), LateClear(1)).given;
      assert given[0] == given[1];
    }
  }

  lemma NewWorldIsAlone(n: nat)
    requires n <= 1
    ensures Alone(NewWorld(n), 0)
  {
    hide Num;
  }
}

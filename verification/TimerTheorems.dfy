/** What the callbacks of one timer do over whole runs of the timer wheel. */
module TimerTheorems {
  import opened Timers

  datatype Event = AddEvent(now: int, delay: int, repeat: int) | CancelEvent(id: nat) | TickEvent(now: int)

  function Apply(s: State, e: Event): State {
    match e
    case AddEvent(now, delay, repeat) => Add(s, now, delay, repeat)
    case CancelEvent(id) => Cancel(s, id)
    case TickEvent(now) => Tick(s, now)
  }

  /** The ticks of the run at which the timer's callback runs. */
  function Firings(s: State, events: seq<Event>, id: nat): seq<int>
    decreases |events|
  {
    if events == [] then []
    else
      (if events[0].TickEvent? && id in Fires(s.timers, events[0].now) then [events[0].now] else [])
      + Firings(Apply(s, events[0]), events[1..], id)
  }

  /** Every number given out is below the next one. */
  ghost predicate Numbered(s: State) {
    forall id :: id in s.timers ==> id < s.nextId
  }

  lemma ApplyKeepsNumbered(s: State, e: Event)
    requires Numbered(s)
    ensures Numbered(Apply(s, e)) && s.nextId <= Apply(s, e).nextId
  {
  }

  // No callback of the timer is left to run.
  predicate Silent(s: State, id: nat) {
    id < s.nextId && (id in s.timers ==> s.timers[id].canceled)
  }

  /** A timer that is cancelled, or gone, never fires in any run that follows. */
  lemma {:induction false} SilentStaysSilent(s: State, events: seq<Event>, id: nat)
    requires Silent(s, id)
    ensures Firings(s, events, id) == []
    decreases |events|
  {
    if events != [] {
      assert Silent(Apply(s, events[0]), id);
      SilentStaysSilent(Apply(s, events[0]), events[1..], id);
    }
  }

  /** A timer cancelled while it is queued never fires again. */
  lemma CancelledNeverFires(s: State, id: nat, events: seq<Event>)
    requires Numbered(s) && id in s.timers
    ensures Firings(Cancel(s, id), events, id) == []
  {
    SilentStaysSilent(Cancel(s, id), events, id);
  }

  /** The state after a run. */
  function Ran(s: State, events: seq<Event>): State
    decreases |events|
  {
    if events == [] then s else Ran(Apply(s, events[0]), events[1..])
  }

  /** The first tick of the run at or after the deadline, if there is one. */
  function FirstDueTick(events: seq<Event>, deadline: int): seq<int>
    decreases |events|
  {
    if events == [] then []
    else if events[0].TickEvent? && events[0].now >= deadline then [events[0].now]
    else FirstDueTick(events[1..], deadline)
  }

  /** A one-shot timer that nobody cancels fires at the first tick it is due at, and at no other. */
  lemma {:induction false} OneShotFiresOnce(s: State, events: seq<Event>, id: nat)
    requires Numbered(s) && id in s.timers && !s.timers[id].canceled && s.timers[id].repeat <= 0
    requires CancelEvent(id) !in events
    ensures Firings(s, events, id) == FirstDueTick(events, s.timers[id].deadline)
    decreases |events|
  {
    if events != [] {
      var s1 := Apply(s, events[0]);
      ApplyKeepsNumbered(s, events[0]);
      assert events[0] in events && forall e :: e in events[1..] ==> e in events;
      if events[0].TickEvent? && events[0].now >= s.timers[id].deadline {
        SilentStaysSilent(s1, events[1..], id);
      } else {
        OneShotFiresOnce(s1, events[1..], id);
      }
    }
  }

  /** The firings are at least the given time apart, and none is before the deadline. */
  predicate Spaced(firings: seq<int>, deadline: int, repeat: int) {
    && (forall i :: 0 <= i < |firings| ==> firings[i] >= deadline)
    && (forall i :: 0 < i < |firings| ==> firings[i] >= firings[i - 1] + repeat)
  }

  /**
   A repeating timer fires at the first tick it is due at, and from then on as a timer due one interval later: missed
   intervals are not made up for, so its firings are at least an interval apart.
   */
  lemma {:induction false} RepeatingFires(s: State, events: seq<Event>, id: nat)
    requires Numbered(s) && id in s.timers && !s.timers[id].canceled && s.timers[id].repeat > 0
    requires CancelEvent(id) !in events
    ensures Firings(s, events, id) == RepeatedTicks(events, s.timers[id].deadline, s.timers[id].repeat)
    decreases |events|
  {
    if events != [] {
      ApplyKeepsNumbered(s, events[0]);
      assert events[0] in events && forall e :: e in events[1..] ==> e in events;
      RepeatingFires(Apply(s, events[0]), events[1..], id);
    }
  }

  /** The ticks a repeating timer is due at. */
  function RepeatedTicks(events: seq<Event>, deadline: int, repeat: int): seq<int>
    decreases |events|
  {
    if events == [] then []
    else if events[0].TickEvent? && events[0].now >= deadline then
      [events[0].now] + RepeatedTicks(events[1..], events[0].now + repeat, repeat)
    else RepeatedTicks(events[1..], deadline, repeat)
  }

  lemma {:induction false} RepeatedTicksAreSpaced(events: seq<Event>, deadline: int, repeat: int)
    requires repeat > 0
    ensures Spaced(RepeatedTicks(events, deadline, repeat), deadline, repeat)
    decreases |events|
  {
    if events != [] {
      if events[0].TickEvent? && events[0].now >= deadline {
        RepeatedTicksAreSpaced(events[1..], events[0].now + repeat, repeat);
      } else {
        RepeatedTicksAreSpaced(events[1..], deadline, repeat);
      }
    }
  }

  /** Whether or not somebody cancels it, a timer's firings are spaced by its interval, and a one-shot's are at most one. */
  lemma {:induction false} FiringsAreSpaced(s: State, events: seq<Event>, id: nat)
    requires Numbered(s) && id in s.timers
    ensures s.timers[id].repeat > 0 ==> Spaced(Firings(s, events, id), s.timers[id].deadline, s.timers[id].repeat)
    ensures s.timers[id].repeat <= 0 ==> |Firings(s, events, id)| <= 1
    decreases |events|
  {
    if events != [] {
      var s1 := Apply(s, events[0]);
      ApplyKeepsNumbered(s, events[0]);
      if id in s1.timers {
        FiringsAreSpaced(s1, events[1..], id);
      } else {
        SilentStaysSilent(s1, events[1..], id);
      }
    }
  }

  /**
   A timer that is added and not cancelled: due the given delay after the time it was added, once, or if it repeats at the
   first tick due and an interval after each firing. The other timers are as they were.
   */
  lemma AddedTimerFires(s: State, now: int, delay: int, repeat: int, events: seq<Event>)
    requires Numbered(s) && CancelEvent(s.nextId) !in events
    ensures var s1 := Add(s, now, delay, repeat);
            && Numbered(s1) && s1.nextId == s.nextId + 1
            && Firings(s1, events, s.nextId) == (if repeat > 0 then RepeatedTicks(events, now + delay, repeat)
                                                 else FirstDueTick(events, now + delay))
            && forall id :: id in s.timers ==> id in s1.timers && s1.timers[id] == s.timers[id]
  {
    var s1 := Add(s, now, delay, repeat);
    hide Firings, RepeatedTicks, FirstDueTick;
    if repeat > 0 {
      RepeatingFires(s1, events, s.nextId);
    } else {
      OneShotFiresOnce(s1, events, s.nextId);
    }
  }

  /**
   A timer that will not fire again leaves the queue at the first tick it is due at, and not before: a cancelled timer is
   only marked, so until then cancelling it once more finds it again.
   */
  lemma {:induction false} QueuedUntilDue(s: State, events: seq<Event>, id: nat)
    requires Numbered(s) && id in s.timers && (s.timers[id].canceled || s.timers[id].repeat <= 0)
    ensures id in Ran(s, events).timers <==> FirstDueTick(events, s.timers[id].deadline) == []
    decreases |events|
  {
    if events != [] {
      var s1 := Apply(s, events[0]);
      ApplyKeepsNumbered(s, events[0]);
      if events[0].TickEvent? && events[0].now >= s.timers[id].deadline {
        GoneStaysGone(s1, events[1..], id);
      } else {
        QueuedUntilDue(s1, events[1..], id);
      }
    }
  }

  lemma {:induction false} GoneStaysGone(s: State, events: seq<Event>, id: nat)
    requires id < s.nextId && id !in s.timers
    ensures id !in Ran(s, events).timers
    decreases |events|
  {
    if events != [] {
      GoneStaysGone(Apply(s, events[0]), events[1..], id);
    }
  }

  /** A cancelled timer, whatever its interval, is found again by a second cancelling until its deadline's tick. */
  lemma CancelledIsFoundUntilDue(s: State, id: nat, events: seq<Event>)
    requires Numbered(s) && id in s.timers
    ensures id in Ran(Cancel(s, id), events).timers <==> FirstDueTick(events, s.timers[id].deadline) == []
  {
    QueuedUntilDue(Cancel(s, id), events, id);
  }

  function Additions(events: seq<Event>): nat
    decreases |events|
  {
    if events == [] then 0 else (if events[0].AddEvent? then 1 else 0) + Additions(events[1..])
  }

  /** A new wheel numbers its timers from one on and never gives a number twice, also when timers have gone. */
  lemma {:induction false} NumbersCountUp(s: State, events: seq<Event>)
    ensures Ran(s, events).nextId == s.nextId + Additions(events) && EMPTY_STATE.nextId == 1
    decreases |events|
  {
    if events != [] {
      NumbersCountUp(Apply(s, events[0]), events[1..]);
    }
  }
}

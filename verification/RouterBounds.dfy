/**
 How often the timers of one message fire before it is resolved, whatever is sent meanwhile: a message that is sent again
 while it is pending leaves its former timer running, and that timer still fires for its successor.
 */
module RouterBounds {
  import opened Bytes
  import opened MessageKey
  import opened RouterReliability
  import opened RouterTheorems
  import opened Sequences
  import opened Wrappers

  // ----- Every pending message runs a timer -----

  /** The timers that run under a key: the one of the message pending there, and those of the messages it replaced. */
  function ArmedFor(s: State, key: Key): map<nat, Armed> {
    map t | t in s.armed && s.armed[t].key == key :: s.armed[t]
  }

  /** Every pending message has a running timer of its own; no timer number is used ahead of time. */
  ghost predicate Clocked(cfg: Config, s: State) {
    && (forall k :: k in s.pending ==> HasTimer(cfg, s, k))
    && (forall t :: t in s.armed ==> t < s.nextTimer)
  }

  // The same, while the timer of one message has fired or is not yet set.
  ghost predicate ClockedBut(cfg: Config, s: State, key: Key) {
    && (forall k :: k in s.pending && k != key ==> HasTimer(cfg, s, k))
    && (forall t :: t in s.armed ==> t < s.nextTimer)
    && (key in s.pending && s.pending[key].timer.Some? && s.pending[key].timer.value in s.armed ==>
          s.armed[s.pending[key].timer.value].key == key)
  }

  // The key is in the same situation: the same message, if any, and the same timers.
  predicate SameFor(s: State, s': State, k: Key) {
    && (k in s.pending <==> k in s'.pending)
    && (k in s.pending ==> s.pending[k] == s'.pending[k])
    && ArmedFor(s, k) == ArmedFor(s', k)
  }

  lemma TimedIsClocked(cfg: Config, s: State)
    requires Timed(cfg, s)
    ensures Clocked(cfg, s)
  {
    assert forall t :: t in s.armed ==> IsOwned(s, t);
  }

  lemma ClockedIsClockedBut(cfg: Config, s: State, key: Key)
    requires Clocked(cfg, s)
    ensures ClockedBut(cfg, s, key)
  {
    assert key in s.pending ==> HasTimer(cfg, s, key);
  }

  lemma LeftIsClocked(cfg: Config, s: State, key: Key, how: Outcome)
    requires ClockedBut(cfg, s, key)
    ensures Clocked(cfg, Leave(s, key, how))
    ensures forall k :: k != key ==> SameFor(s, Leave(s, key, how), k)
  {
    var s' := Leave(s, key, how);
    forall k | k in s'.pending
      ensures HasTimer(cfg, s', k)
    {
      assert HasTimer(cfg, s, k);
    }
  }

  lemma ArmedIsClocked(cfg: Config, s: State, key: Key, action: Action, delay: int)
    requires ClockedBut(cfg, s, key) && key in s.pending && (action.Resend? ==> s.pending[key].retries <= Bound(cfg))
    ensures Clocked(cfg, Arm(s, key, action, delay))
    ensures forall k :: k != key ==> SameFor(s, Arm(s, key, action, delay), k)
  {
    var s' := Arm(s, key, action, delay);
    forall k | k in s'.pending && k != key
      ensures HasTimer(cfg, s', k)
    {
      assert HasTimer(cfg, s, k);
    }
  }

  lemma SameForTrans(s: State, s1: State, s2: State, k: Key)
    requires SameFor(s, s1, k) && SameFor(s1, s2, k)
    ensures SameFor(s, s2, k)
  {
  }

  lemma SendKeepsClocked(cfg: Config, s: State, id: bytes, service: Service, target: nat, now: int, accepted: bool)
    requires Clocked(cfg, s)
    ensures Clocked(cfg, Send(cfg, s, id, service, target, now, accepted))
    ensures forall k :: k != Hex(id) ==> SameFor(s, Send(cfg, s, id, service, target, now, accepted), k)
  {
    hide Hex;
    var key := Hex(id);
    var s1 := Put(s, key, id, service, target, now);
    forall k | k in s1.pending && k != key
      ensures HasTimer(cfg, s1, k)
    {
      assert HasTimer(cfg, s, k);
    }
    assert ClockedBut(cfg, s1, key);
    assert forall k :: k != key ==> SameFor(s, s1, k);
    hide Put, Arm, Leave, SameFor, ClockedBut;
    if accepted {
      assert s1.pending[key].retries <= Bound(cfg) && key in s1.pending by { PutIsNew(s, key, id, service, target, now); }
      ArmedIsClocked(cfg, s1, key, Resend, ResendDelay(cfg, s1.pending[key]));
    } else {
      LeftIsClocked(cfg, s1, key, Uncounted);
    }
    var s' := Send(cfg, s, id, service, target, now, accepted);
    forall k | k != key
      ensures SameFor(s, s', k)
    {
      SameForTrans(s, s1, s', k);
    }
  }

  lemma PutIsNew(s: State, key: Key, id: bytes, service: Service, target: nat, now: int)
    ensures var s1 := Put(s, key, id, service, target, now);
            key in s1.pending && s1.pending[key].retries == 0 && s1.pending[key].token == s.sends
  {
  }

  lemma FiredIsClockedBut(cfg: Config, s: State, timer: nat)
    requires Clocked(cfg, s) && timer in s.armed
    ensures var s1 := s.(armed := s.armed - {timer});
            && ClockedBut(cfg, s1, s.armed[timer].key)
            && forall k :: k != s.armed[timer].key ==> SameFor(s, s1, k)
  {
    var s1 := s.(armed := s.armed - {timer});
    forall k | k in s1.pending
      ensures k != s.armed[timer].key ==> HasTimer(cfg, s1, k)
    {
      assert HasTimer(cfg, s, k);
    }
    assert s.armed[timer].key in s.pending ==> HasTimer(cfg, s, s.armed[timer].key);
  }

  lemma TouchedIsClockedBut(cfg: Config, s: State, mid: State, key: Key)
    requires ClockedBut(cfg, s, key) && Touched(s, mid, key)
    ensures ClockedBut(cfg, mid, key)
    ensures forall k :: k != key ==> SameFor(s, mid, k)
  {
    forall k | k in mid.pending && k != key
      ensures HasTimer(cfg, mid, k)
    {
      assert HasTimer(cfg, s, k);
    }
  }

  // Of an unknown key, a timeout does nothing.
  lemma TimeoutKeepsClocked(cfg: Config, s: State, key: Key, w: World)
    requires ClockedBut(cfg, s, key)
    ensures Clocked(cfg, MessageTimeout(cfg, s, key, w))
    ensures forall k :: k != key ==> SameFor(s, MessageTimeout(cfg, s, key, w), k)
  {
    hide Arm, Leave, Switch, SameFor;
    if key in s.pending {
      var mid := TimeoutEnds(cfg, s, key, w);
      TouchedIsClockedBut(cfg, s, mid, key);
      LeftIsClocked(cfg, mid, key, Failed);
      ArmedIsClocked(cfg, mid, key, GiveUpFetch, cfg.fetchTimeout);
      if mid.pending[key].retries <= cfg.maxRetries {
        ArmedIsClocked(cfg, mid, key, Resend, ResendDelay(cfg, mid.pending[key]));
      }
      var s' := MessageTimeout(cfg, s, key, w);
      hide *;
      forall k | k != key
        ensures SameFor(s, s', k)
      {
        SameForTrans(s, mid, s', k);
      }
    } else {
      SameForAll(s);
    }
  }

  lemma SameForAll(s: State)
    ensures forall k :: SameFor(s, s, k)
  {
  }

  lemma FireKeepsClocked(cfg: Config, s: State, timer: nat, w: World)
    requires Clocked(cfg, s) && timer in s.armed
    ensures Clocked(cfg, Fire(cfg, s, timer, w))
    ensures forall k :: k != s.armed[timer].key ==> SameFor(s, Fire(cfg, s, timer, w), k)
  {
    hide MessageTimeout, Leave, SameFor, Clocked, ClockedBut;
    FiredIsClockedBut(cfg, s, timer);
    var s1, key := s.(armed := s.armed - {timer}), s.armed[timer].key;
    var s' := Fire(cfg, s, timer, w);
    TimeoutKeepsClocked(cfg, s1, key, w);
    LeftIsClocked(cfg, s1, key, Failed);
    forall k | k != key
      ensures SameFor(s, s', k)
    {
      SameForTrans(s, s1, s', k);
    }
  }

  lemma {:induction false} LeaveAllKeepsClocked(cfg: Config, s: State, keys: seq<Key>, k: Key)
    requires Clocked(cfg, s)
    ensures Clocked(cfg, LeaveAll(s, keys))
    ensures k !in LeaveAll(s, keys).pending || SameFor(s, LeaveAll(s, keys), k)
    decreases |keys|
  {
    hide Clocked, ClockedBut, SameFor;
    if keys == [] {
      SameForAll(s);
    } else {
      var s1 := Leave(s, keys[0], Uncounted);
      ClockedIsClockedBut(cfg, s, keys[0]);
      LeftIsClocked(cfg, s, keys[0], Uncounted);
      LeaveAllKeepsClocked(cfg, s1, keys[1..], k);
      if k in LeaveAll(s, keys).pending {
        LeaveAllOnlyRemoves(s1, keys[1..], k);
        SameForTrans(s, s1, LeaveAll(s, keys), k);
      }
    }
  }

  /** Every step keeps a timer running for each pending message, sent again or not. */
  lemma ApplyKeepsClocked(cfg: Config, s: State, e: Event)
    requires Clocked(cfg, s)
    ensures Clocked(cfg, Apply(cfg, s, e))
  {
    hide Clocked, ClockedBut, Leave, Fire, Send, LeaveAll, Hex, AckKey, SameFor;
    match e
    case SendEvent(id, service, target, now, accepted) => SendKeepsClocked(cfg, s, id, service, target, now, accepted);
    case TimerEvent(timer, w) =>
      if timer in s.armed {
        FireKeepsClocked(cfg, s, timer, w);
      }
    case AckEvent(m, id) =>
      ClockedIsClockedBut(cfg, s, AckKey(m, id));
      LeftIsClocked(cfg, s, AckKey(m, id), Confirmed);
    case FetchEvent(id, stored) =>
      ClockedIsClockedBut(cfg, s, Hex(id));
      LeftIsClocked(cfg, s, Hex(id), if stored then Confirmed else Uncounted);
    case CleanupEvent(expired) => LeaveAllKeepsClocked(cfg, s, expired, "");
  }

  /** In every run, messages sent again or not, each pending message has a running timer of its own. */
  lemma {:induction false} RunKeepsClocked(cfg: Config, s: State, events: seq<Event>)
    requires Clocked(cfg, s)
    ensures Clocked(cfg, Run(cfg, s, events))
    decreases |events|
  {
    hide Clocked, Apply;
    if events != [] {
      ApplyKeepsClocked(cfg, s, events[0]);
      RunKeepsClocked(cfg, Apply(cfg, s, events[0]), events[1..]);
    }
  }

  // ----- Each firing counts -----

  predicate FiresFor(s: State, e: Event, key: Key) {
    e.TimerEvent? && e.timer in s.armed && s.armed[e.timer].key == key
  }

  /** How many timers fire for the message while it is pending. */
  function Firings(cfg: Config, s: State, events: seq<Event>, key: Key, token: nat): nat
    decreases |events|
  {
    if events == [] then 0
    else
      (if IsAt(s, key, token) && FiresFor(s, events[0], key) then 1 else 0)
      + Firings(cfg, Apply(cfg, s, events[0]), events[1..], key, token)
  }

  /** How many more firings the message can live through. */
  function Rank(cfg: Config, s: State, key: Key): int
    requires key in s.pending
  {
    |ArmedFor(s, key).Keys| - 1 + Bound(cfg) + 2 - Min(s.pending[key].retries, Bound(cfg) + 1)
  }

  lemma RankIsPositive(cfg: Config, s: State, key: Key)
    requires Clocked(cfg, s) && key in s.pending
    ensures Rank(cfg, s, key) >= 1
  {
    assert HasTimer(cfg, s, key) && s.pending[key].timer.value in ArmedFor(s, key).Keys;
  }

  // A timer fires and a message's own timer is set anew: at most as many run as before, fewer when they were two.
  lemma ArmedAnew(s: State, mid: State, key: Key, timer: nat, action: Action, delay: int)
    requires timer in s.armed && s.armed[timer].key == key && s.nextTimer !in s.armed
    requires Touched(s.(armed := s.armed - {timer}), mid, key) && s.pending[key].timer.Some?
    requires s.pending[key].timer.value in s.armed && s.armed[s.pending[key].timer.value].key == key
    ensures var n := |ArmedFor(s, key).Keys|;
            |ArmedFor(Arm(mid, key, action, delay), key).Keys| == if timer == s.pending[key].timer.value then n else n - 1
  {
    var own := s.pending[key].timer.value;
    TimersAnew(s, mid, key, timer, action, delay);
    hide Arm;
    var before := ArmedFor(s, key).Keys;
    assert timer in before && own in before && s.nextTimer !in before;
    hide ArmedFor;
    SwapCount(before, timer, own, s.nextTimer);
  }

  lemma TimersAnew(s: State, mid: State, key: Key, timer: nat, action: Action, delay: int)
    requires timer in s.armed && s.armed[timer].key == key && s.nextTimer !in s.armed
    requires Touched(s.(armed := s.armed - {timer}), mid, key) && s.pending[key].timer.Some?
    ensures ArmedFor(Arm(mid, key, action, delay), key).Keys
         == ArmedFor(s, key).Keys - {timer} - {s.pending[key].timer.value} + {s.nextTimer}
  {
  }

  lemma SwapCount(s: set<nat>, a: nat, b: nat, c: nat)
    requires a in s && b in s && c !in s
    ensures |s - {a} - {b} + {c}| == if a == b then |s| else |s| - 1
  {
    if a == b {
      assert s - {a} - {b} == s - {a};
    }
  }

  /** Each firing of a timer that runs under a pending message's key lowers the message's rank, or takes it out. */
  lemma FiringLowersRank(cfg: Config, s: State, timer: nat, w: World)
    requires Clocked(cfg, s) && timer in s.armed && s.armed[timer].key in s.pending
    ensures var (s', key) := (Fire(cfg, s, timer, w), s.armed[timer].key);
            key in s'.pending ==>
              s'.pending[key].token == s.pending[key].token && Rank(cfg, s', key) < Rank(cfg, s, key)
  {
    hide MessageTimeout;
    var key := s.armed[timer].key;
    assert HasTimer(cfg, s, key);
    if s.armed[timer].action.Resend? {
      var s1 := s.(armed := s.armed - {timer});
      var mid := TimeoutEnds(cfg, s1, key, w);
      ArmedAnew(s, mid, key, timer, GiveUpFetch, cfg.fetchTimeout);
      ArmedAnew(s, mid, key, timer, Resend, ResendDelay(cfg, mid.pending[key]));
      hide ArmedFor, Clocked;
    }
  }

  // Everything but the timers under its key leaves a message and its timers as they are, or takes it out.
  lemma OtherEventsAreLocal(cfg: Config, s: State, e: Event, key: Key, token: nat)
    requires Clocked(cfg, s) && IsAt(s, key, token) && !FiresFor(s, e, key) && token < s.sends
    ensures !IsAt(Apply(cfg, s, e), key, token) || SameFor(s, Apply(cfg, s, e), key)
  {
    hide Clocked, ClockedBut, Fire, LeaveAll, Hex, AckKey, SameFor;
    SameForAll(s);
    match e
    case SendEvent(id, service, target, now, accepted) =>
      SendKeepsClocked(cfg, s, id, service, target, now, accepted);
    case TimerEvent(timer, w) =>
      if timer in s.armed {
        FireKeepsClocked(cfg, s, timer, w);
      }
    case AckEvent(m, id) =>
      ClockedIsClockedBut(cfg, s, AckKey(m, id));
      LeftIsClocked(cfg, s, AckKey(m, id), Confirmed);
    case FetchEvent(id, stored) =>
      ClockedIsClockedBut(cfg, s, Hex(id));
      LeftIsClocked(cfg, s, Hex(id), if stored then Confirmed else Uncounted);
    case CleanupEvent(expired) => LeaveAllKeepsClocked(cfg, s, expired, key);
  }

  // Each step of a run lowers the rank of a message that stays pending by at least the firings it uses.
  lemma StepLowersRank(cfg: Config, s: State, e: Event, key: Key, token: nat)
    requires Clocked(cfg, s) && IsAt(s, key, token) && token < s.sends && IsAt(Apply(cfg, s, e), key, token)
    ensures Rank(cfg, Apply(cfg, s, e), key) + (if FiresFor(s, e, key) then 1 else 0) <= Rank(cfg, s, key)
  {
    hide Clocked, Fire, Send, LeaveAll, Leave, Hex, AckKey;
    if FiresFor(s, e, key) {
      FiringLowersRank(cfg, s, e.timer, e.world);
    } else {
      OtherEventsAreLocal(cfg, s, e, key, token);
    }
  }

  lemma {:induction false} LeaveAllKeepsSends(s: State, keys: seq<Key>)
    ensures LeaveAll(s, keys).sends == s.sends
    decreases |keys|
  {
    if keys != [] {
      LeaveAllKeepsSends(Leave(s, keys[0], Uncounted), keys[1..]);
    }
  }

  // A token that is not pending under the key does not come back: new messages have new tokens.
  lemma StepBringsOnlyNew(cfg: Config, s: State, e: Event, key: Key, token: nat)
    requires token < s.sends && !IsAt(s, key, token)
    ensures var s' := Apply(cfg, s, e); token < s'.sends && !IsAt(s', key, token)
  {
    hide Hex, AckKey, MessageTimeout, LeaveAll;
    match e
    case TimerEvent(timer, w) =>
      if timer in s.armed && s.armed[timer].action.Resend? && s.armed[timer].key in s.pending {
        var mid := TimeoutEnds(cfg, s.(armed := s.armed - {timer}), s.armed[timer].key, w);
      }
      assert timer in s.armed && s.armed[timer].key !in s.pending ==>
          MessageTimeout(cfg, s.(armed := s.armed - {timer}), s.armed[timer].key, w) == s.(armed := s.armed - {timer}) by {
        TimeoutOfNothing(cfg, s, timer, w);
      }
    case CleanupEvent(expired) =>
      LeaveAllKeepsSends(s, expired);
      if key in LeaveAll(s, expired).pending {
        LeaveAllOnlyRemoves(s, expired, key);
      }
    case _ =>
  }

  lemma SendsGrow(cfg: Config, s: State, e: Event)
    ensures Apply(cfg, s, e).sends >= s.sends
  {
    hide Hex, AckKey;
    if e.CleanupEvent? {
      LeaveAllKeepsSends(s, e.expired);
    }
  }

  lemma {:induction false} GoneStaysGone(cfg: Config, s: State, events: seq<Event>, key: Key, token: nat)
    requires token < s.sends && !IsAt(s, key, token)
    ensures !IsAt(Run(cfg, s, events), key, token) && Firings(cfg, s, events, key, token) == 0
    decreases |events|
  {
    hide Apply, IsAt, FiresFor;
    if events != [] {
      StepBringsOnlyNew(cfg, s, events[0], key, token);
      GoneStaysGone(cfg, Apply(cfg, s, events[0]), events[1..], key, token);
    }
  }

  lemma {:induction false} RankBoundsFirings(cfg: Config, s: State, events: seq<Event>, key: Key, token: nat)
    requires Clocked(cfg, s) && IsAt(s, key, token) && token < s.sends
    ensures var (s', n) := (Run(cfg, s, events), Firings(cfg, s, events, key, token));
            n <= Rank(cfg, s, key) && (n == Rank(cfg, s, key) ==> !IsAt(s', key, token))
    decreases |events|
  {
    RankIsPositive(cfg, s, key);
    hide Clocked, Apply, FiresFor, Rank;
    if events != [] {
      var s1 := Apply(cfg, s, events[0]);
      ApplyKeepsClocked(cfg, s, events[0]);
      SendsGrow(cfg, s, events[0]);
      if IsAt(s1, key, token) {
        StepLowersRank(cfg, s, events[0], key, token);
        RankBoundsFirings(cfg, s1, events[1..], key, token);
      } else {
        GoneStaysGone(cfg, s1, events[1..], key, token);
      }
    }
  }

  lemma SentRank(cfg: Config, s: State, id: bytes, service: Service, target: nat, now: int)
    requires Clocked(cfg, s)
    ensures var s1 := Send(cfg, s, id, service, target, now, true);
            && IsAt(s1, Hex(id), s.sends) && s.sends < s1.sends
            && Rank(cfg, s1, Hex(id)) == Bound(cfg) + 2 + |ArmedFor(s, Hex(id)).Keys|
  {
    hide Hex;
    var s1 := Send(cfg, s, id, service, target, now, true);
    assert ArmedFor(s1, Hex(id)).Keys == ArmedFor(s, Hex(id)).Keys + {s.nextTimer};
  }

  /**
   After a successful send, timers fire for the message at most MaxRetries + 2 times and once more for each timer that was
   already running under its key; after that many it is pending no more. So it is in every run, whatever is sent, sent
   again, switched, fetched and acknowledged.
   */
  lemma ResolvedWithinBound(cfg: Config, s: State, id: bytes, service: Service, target: nat, now: int, events: seq<Event>)
    requires Clocked(cfg, s)
    ensures var s1 := Send(cfg, s, id, service, target, now, true);
            var (n, bound) := (Firings(cfg, s1, events, Hex(id), s.sends), Bound(cfg) + 2 + |ArmedFor(s, Hex(id)).Keys|);
            && n <= bound
            && (n == bound ==> !IsAt(Run(cfg, s1, events), Hex(id), s.sends))
  {
    SentRank(cfg, s, id, service, target, now);
    SendKeepsClocked(cfg, s, id, service, target, now, true);
    hide *;
    RankBoundsFirings(cfg, Send(cfg, s, id, service, target, now, true), events, Hex(id), s.sends);
  }

  /** A message whose key was not pending, in a run where nothing was sent again before it: MaxRetries + 2 firings. */
  lemma FirstSendResolved(cfg: Config, s: State, id: bytes, service: Service, target: nat, now: int, events: seq<Event>)
    requires Timed(cfg, s) && Hex(id) !in s.pending
    ensures var s1 := Send(cfg, s, id, service, target, now, true);
            var n := Firings(cfg, s1, events, Hex(id), s.sends);
            && n <= Bound(cfg) + 2
            && (n == Bound(cfg) + 2 ==> !IsAt(Run(cfg, s1, events), Hex(id), s.sends))
  {
    TimedIsClocked(cfg, s);
    NoTimerUnderKey(cfg, s, Hex(id));
    hide *;
    ResolvedWithinBound(cfg, s, id, service, target, now, events);
  }

  lemma NoTimerUnderKey(cfg: Config, s: State, key: Key)
    requires Timed(cfg, s) && key !in s.pending
    ensures |ArmedFor(s, key).Keys| == 0
  {
    assert forall t :: t in s.armed ==> IsOwned(s, t);
    assert ArmedFor(s, key).Keys == {};
  }

  // ----- The bound is reached -----

  // The network takes every message that is sent again and every fetch request.
  const TAKEN := World(true, [], Sent)

  /** The message's own timer, numbered first, fires n times, each time set anew; then the others, and then its own again. */
  function AllFire(first: nat, n: nat, others: seq<nat>): seq<Event>
    decreases n, |others|
  {
    if n > 0 then [TimerEvent(first, TAKEN)] + AllFire(first + 1, n - 1, others)
    else if others != [] then [TimerEvent(others[0], TAKEN)] + AllFire(first + 1, 0, others[1..])
    else [TimerEvent(first, TAKEN)]
  }

  // The message's timer is the last one set.
  predicate LastSet(s: State, key: Key, token: nat, action: Action) {
    && IsAt(s, key, token) && s.nextTimer > 0
    && s.pending[key].timer == Some(s.nextTimer - 1) && s.nextTimer - 1 in s.armed
    && s.armed[s.nextTimer - 1].key == key && s.armed[s.nextTimer - 1].action == action
  }

  /** Resend timers that run under the key, each listed once. */
  predicate RunningUnder(s: State, key: Key, others: seq<nat>) {
    && (forall t :: t in others ==> t in s.armed && t < s.nextTimer && s.armed[t].key == key && s.armed[t].action.Resend?)
    && (forall i, j :: 0 <= i < j < |others| ==> others[i] != others[j])
  }

  lemma OwnTimerFires(cfg: Config, s: State, key: Key, token: nat, others: seq<nat>)
    requires LastSet(s, key, token, Resend) && s.pending[key].retries <= Bound(cfg)
    requires RunningUnder(s, key, others) && s.nextTimer - 1 !in others
    ensures var s' := Apply(cfg, s, TimerEvent(s.nextTimer - 1, TAKEN));
            && s'.nextTimer == s.nextTimer + 1 && RunningUnder(s', key, others) && s.nextTimer !in others
            && LastSet(s', key, token, if s.pending[key].retries < cfg.maxRetries then Resend else GiveUpFetch)
            && s'.pending[key].retries == s.pending[key].retries + 1
  {
  }

  lemma OtherTimerFires(cfg: Config, s: State, key: Key, token: nat, others: seq<nat>)
    requires LastSet(s, key, token, GiveUpFetch) && s.pending[key].retries >= cfg.maxRetries
    requires RunningUnder(s, key, others) && s.nextTimer - 1 !in others && others != []
    ensures var s' := Apply(cfg, s, TimerEvent(others[0], TAKEN));
            && s'.nextTimer == s.nextTimer + 1 && RunningUnder(s', key, others[1..]) && s.nextTimer !in others[1..]
            && LastSet(s', key, token, GiveUpFetch) && s'.pending[key].retries == s.pending[key].retries + 1
    ensures FiresFor(s, TimerEvent(others[0], TAKEN), key)
  {
    assert others[0] in others;
    assert forall t :: t in others[1..] ==> t in others && t != others[0];
  }

  lemma {:induction false} AllFiringsUsed(cfg: Config, s: State, key: Key, token: nat, n: nat, others: seq<nat>)
    requires LastSet(s, key, token, if n > 0 then Resend else GiveUpFetch)
    requires if n > 0 then s.pending[key].retries + n == Bound(cfg) + 1 else s.pending[key].retries >= cfg.maxRetries
    requires RunningUnder(s, key, others) && s.nextTimer - 1 !in others
    ensures var events := AllFire(s.nextTimer - 1, n, others);
            Firings(cfg, s, events, key, token) == n + |others| + 1 && !IsAt(Run(cfg, s, events), key, token)
    decreases n, |others|
  {
    var events := AllFire(s.nextTimer - 1, n, others);
    var s1 := Apply(cfg, s, events[0]);
    if n > 0 {
      OwnTimerFires(cfg, s, key, token, others);
      assert events[1..] == AllFire(s.nextTimer, n - 1, others);
      hide Apply;
      AllFiringsUsed(cfg, s1, key, token, n - 1, others);
    } else if others != [] {
      OtherTimerFires(cfg, s, key, token, others);
      assert events[1..] == AllFire(s.nextTimer, 0, others[1..]);
      hide Apply;
      AllFiringsUsed(cfg, s1, key, token, 0, others[1..]);
    } else {
      assert events[1..] == [];
    }
  }

  /**
   The bound is reached: when the timers running under the key are resend timers, and the network takes everything, all of
   them fire, in any order, and the message's own ones MaxRetries + 2 times.
   */
  lemma BoundIsReached(
      cfg: Config, s: State, id: bytes, service: Service, target: nat, now: int, others: seq<nat>)
    requires Clocked(cfg, s) && RunningUnder(s, Hex(id), others)
    requires ArmedFor(s, Hex(id)).Keys == Elements(others)
    ensures var s1 := Send(cfg, s, id, service, target, now, true);
            var events := AllFire(s.nextTimer, Bound(cfg) + 1, others);
            && Firings(cfg, s1, events, Hex(id), s.sends) == Bound(cfg) + 2 + |ArmedFor(s, Hex(id)).Keys|
            && !IsAt(Run(cfg, s1, events), Hex(id), s.sends)
  {
    hide *;
    hide Elements;
    CountOfRunning(s, Hex(id), others);
    SentLast(cfg, s, id, service, target, now, others);
    AllFiringsUsed(cfg, Send(cfg, s, id, service, target, now, true), Hex(id), s.sends, Bound(cfg) + 1, others);
  }

  lemma CountOfRunning(s: State, key: Key, others: seq<nat>)
    requires RunningUnder(s, key, others)
    ensures |Elements(others)| == |others|
  {
    DistinctCount(others);
  }

  lemma SentLast(cfg: Config, s: State, id: bytes, service: Service, target: nat, now: int, others: seq<nat>)
    requires Clocked(cfg, s) && RunningUnder(s, Hex(id), others)
    ensures var s1 := Send(cfg, s, id, service, target, now, true);
            && LastSet(s1, Hex(id), s.sends, Resend) && s1.pending[Hex(id)].retries == 0
            && s1.nextTimer == s.nextTimer + 1 && RunningUnder(s1, Hex(id), others) && s.nextTimer !in others
  {
    hide Hex;
  }

  function Elements(q: seq<nat>): set<nat> {
    set t | t in q
  }

  lemma {:induction false} DistinctCount(q: seq<nat>)
    requires forall i, j :: 0 <= i < j < |q| ==> q[i] != q[j]
    ensures |Elements(q)| == |q|
    decreases |q|
  {
    if q != [] {
      DistinctCount(q[1..]);
      var whole, rest := Elements(q), Elements(q[1..]);
      assert q == [q[0]] + q[1..] && q[0] !in rest;
      assert whole == {q[0]} + rest;
    }
  }

  /** The manager after n sends of one message, one right after the other. */
  function SentTimes(cfg: Config, id: bytes, service: Service, target: nat, now: int, n: nat): State {
    if n == 0 then EMPTY_STATE
    else Send(cfg, SentTimes(cfg, id, service, target, now, n - 1), id, service, target, now, true)
  }

  function FirstNumbers(n: nat): seq<nat> {
    seq(n, i => i)
  }

  lemma LeftBehind(cfg: Config, s: State, id: bytes, service: Service, target: nat, now: int)
    requires Clocked(cfg, s)
    ensures var s1 := Send(cfg, s, id, service, target, now, true);
            && ArmedFor(s1, Hex(id)).Keys == ArmedFor(s, Hex(id)).Keys + {s.nextTimer}
            && s1.armed == s.armed[s.nextTimer := s1.armed[s.nextTimer]] && s1.armed[s.nextTimer].key == Hex(id)
            && s1.armed[s.nextTimer].action.Resend? && s1.nextTimer == s.nextTimer + 1 && s1.sends == s.sends + 1
  {
    hide Hex;
  }

  lemma {:induction false} TimersLeftBehind(cfg: Config, id: bytes, service: Service, target: nat, now: int, n: nat)
    ensures var s := SentTimes(cfg, id, service, target, now, n);
            && Clocked(cfg, s) && RunningUnder(s, Hex(id), FirstNumbers(n)) && s.nextTimer == n && s.sends == n
            && ArmedFor(s, Hex(id)).Keys == Elements(FirstNumbers(n))
    decreases n
  {
    hide *;
    hide FirstNumbers;
    if n == 0 {
      NothingLeftBehind(cfg, id, service, target, now);
    } else {
      var s := SentTimes(cfg, id, service, target, now, n - 1);
      TimersLeftBehind(cfg, id, service, target, now, n - 1);
      SendKeepsClocked(cfg, s, id, service, target, now, true);
      LeftBehind(cfg, s, id, service, target, now);
      NextSend(cfg, id, service, target, now, n);
      OneMore(s, SentTimes(cfg, id, service, target, now, n), Hex(id), FirstNumbers(n - 1), FirstNumbers(n));
    }
  }

  lemma NothingLeftBehind(cfg: Config, id: bytes, service: Service, target: nat, now: int)
    ensures var s := SentTimes(cfg, id, service, target, now, 0);
            && Clocked(cfg, s) && RunningUnder(s, Hex(id), FirstNumbers(0)) && s.nextTimer == 0 && s.sends == 0
            && ArmedFor(s, Hex(id)).Keys == Elements(FirstNumbers(0))
  {
    hide Hex;
  }

  lemma NextSend(cfg: Config, id: bytes, service: Service, target: nat, now: int, n: nat)
    requires n > 0
    ensures SentTimes(cfg, id, service, target, now, n)
         == Send(cfg, SentTimes(cfg, id, service, target, now, n - 1), id, service, target, now, true)
    ensures FirstNumbers(n) == FirstNumbers(n - 1) + [n - 1]
  {
    hide Send;
  }

  lemma OneMore(s: State, s1: State, key: Key, others: seq<nat>, all: seq<nat>)
    requires RunningUnder(s, key, others) && all == others + [s.nextTimer] && s1.nextTimer == s.nextTimer + 1
    requires s.nextTimer in s1.armed && s1.armed == s.armed[s.nextTimer := s1.armed[s.nextTimer]]
    requires s1.armed[s.nextTimer].key == key && s1.armed[s.nextTimer].action.Resend?
    ensures RunningUnder(s1, key, all) && Elements(all) == Elements(others) + {s.nextTimer}
  {
    assert forall i :: 0 <= i < |others| ==> others[i] in others;
  }

  /**
   MaxRetries + 2 is not a bound for a message that is sent again while it is pending: from a new manager, for each n there
   is a run in which it is sent n + 1 times and MaxRetries + 2 + n timers fire for the last one.
   */
  lemma SendingAgainFiresMore(cfg: Config, id: bytes, service: Service, target: nat, now: int, n: nat)
    ensures var s1 := SentTimes(cfg, id, service, target, now, n + 1);
            Firings(cfg, s1, AllFire(n, Bound(cfg) + 1, FirstNumbers(n)), Hex(id), n) == Bound(cfg) + 2 + n
  {
    TimersLeftBehind(cfg, id, service, target, now, n);
    var s := SentTimes(cfg, id, service, target, now, n);
    DistinctCount(FirstNumbers(n));
    assert SentTimes(cfg, id, service, target, now, n + 1) == Send(cfg, s, id, service, target, now, true);
    hide *;
    hide FirstNumbers;
    BoundIsReached(cfg, s, id, service, target, now, FirstNumbers(n));
    assert |FirstNumbers(n)| == n;
  }
}

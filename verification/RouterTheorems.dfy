/**
 The router's reliability manager over whole runs: every pending message has exactly one running timer, every message is
 given up after a bounded number of firings, and no message is counted twice.
 */
module RouterTheorems {
  import opened Bytes
  import opened MessageKey
  import opened RouterReliability
  import opened Wrappers

  // ----- The scan for another node -----

  /** The target the i-th candidate is compared with: the one before it in the list. */
  function Before(target: nat, candidates: seq<Candidate>, i: nat): nat
    requires i < |candidates|
  {
    if i == 0 then target else candidates[i - 1].target
  }

  predicate Tried(target: nat, candidates: seq<Candidate>, i: nat) {
    i < |candidates| && candidates[i].target != Before(target, candidates, i)
  }

  /**
   The switch succeeds exactly when some candidate differs from the one before it (the first: from the current target)
   and accepts the message; it settles on the first such candidate. So the node that just failed is tried again when it
   is not first in the list.
   */
  lemma {:induction false} SwitchSucceedsIff(target: nat, candidates: seq<Candidate>)
    ensures Switch(target, candidates).1 <==> exists i: nat :: Tried(target, candidates, i) && candidates[i].accepts
    ensures Switch(target, candidates).1 ==>
              exists i: nat :: Tried(target, candidates, i) && candidates[i].accepts
                && Switch(target, candidates).0 == candidates[i].target
                && forall j: nat :: j < i && Tried(target, candidates, j) ==> !candidates[j].accepts
    ensures !Switch(target, candidates).1 ==>
              Switch(target, candidates).0 == if candidates == [] then target else candidates[|candidates| - 1].target
    decreases |candidates|
  {
    if candidates == [] {
      return;
    }
    var first, rest := candidates[0], candidates[1..];
    if first.target != target && first.accepts {
      assert Tried(target, candidates, 0);
      return;
    }
    SwitchSucceedsIff(first.target, rest);
    assert Switch(target, candidates) == Switch(first.target, rest);
    forall i: nat
      ensures Tried(first.target, rest, i) <==> Tried(target, candidates, i + 1)
    {
    }
    if Switch(first.target, rest).1 {
      var i: nat :| Tried(first.target, rest, i) && rest[i].accepts
                && Switch(first.target, rest).0 == rest[i].target
                && forall j: nat :: j < i && Tried(first.target, rest, j) ==> !rest[j].accepts;
      assert Tried(target, candidates, i + 1) && candidates[i + 1].accepts;
      forall j: nat | j < i + 1 && Tried(target, candidates, j)
        ensures !candidates[j].accepts
      {
        if j > 0 {
          assert Tried(first.target, rest, j - 1);
        }
      }
    } else {
      forall i: nat | Tried(target, candidates, i)
        ensures !candidates[i].accepts
      {
        if i > 0 {
          assert Tried(first.target, rest, i - 1);
        }
      }
    }
  }

  // ----- One running timer for each pending message -----

  function Bound(cfg: Config): nat {
    if cfg.maxRetries < 0 then 0 else cfg.maxRetries
  }

  // The message's timer is running and is its own.
  predicate HasTimer(cfg: Config, s: State, key: Key)
    requires key in s.pending
  {
    var p := s.pending[key];
    && p.timer.Some? && p.timer.value in s.armed && s.armed[p.timer.value].key == key
    && (s.armed[p.timer.value].action.Resend? ==> p.retries <= Bound(cfg))
  }

  // The running timer is that of a pending message.
  predicate IsOwned(s: State, timer: nat)
    requires timer in s.armed
  {
    timer < s.nextTimer && s.armed[timer].key in s.pending && s.pending[s.armed[timer].key].timer == Some(timer)
  }

  /** Pending messages and running timers correspond one to one. */
  ghost predicate Timed(cfg: Config, s: State) {
    && (forall k :: k in s.pending ==> HasTimer(cfg, s, k))
    && (forall t :: t in s.armed ==> IsOwned(s, t))
  }

  // The same, while the timer of one message has fired or is not yet set.
  ghost predicate TimedBut(cfg: Config, s: State, key: Key) {
    && key in s.pending
    && (s.pending[key].timer.Some? ==> s.pending[key].timer.value !in s.armed)
    && (forall k :: k in s.pending && k != key ==> HasTimer(cfg, s, k))
    && (forall t :: t in s.armed ==> s.armed[t].key != key && IsOwned(s, t))
  }

  lemma FiredIsTimedBut(cfg: Config, s: State, timer: nat)
    requires Timed(cfg, s) && timer in s.armed
    ensures TimedBut(cfg, s.(armed := s.armed - {timer}), s.armed[timer].key)
  {
    assert IsOwned(s, timer);
    var s' := s.(armed := s.armed - {timer});
    var key := s.armed[timer].key;
    forall k | k in s'.pending && k != key
      ensures HasTimer(cfg, s', k)
    {
      assert HasTimer(cfg, s, k);
    }
    forall t | t in s'.armed
      ensures s'.armed[t].key != key && IsOwned(s', t)
    {
      assert IsOwned(s, t);
    }
  }

  lemma ArmedIsTimed(cfg: Config, s: State, key: Key, action: Action, delay: int)
    requires TimedBut(cfg, s, key) && (action.Resend? ==> s.pending[key].retries <= Bound(cfg))
    ensures Timed(cfg, Arm(s, key, action, delay))
  {
    var s' := Arm(s, key, action, delay);
    assert Stop(s.armed, s.pending[key].timer) == s.armed;
    forall k | k in s'.pending
      ensures HasTimer(cfg, s', k)
    {
      if k != key {
        assert HasTimer(cfg, s, k) && IsOwned(s, s.pending[k].timer.value);
      }
    }
    forall t | t in s'.armed
      ensures IsOwned(s', t)
    {
      assert t in s.armed ==> IsOwned(s, t);
    }
  }

  lemma LeftIsTimed(cfg: Config, s: State, key: Key, how: Outcome)
    requires TimedBut(cfg, s, key) || Timed(cfg, s)
    ensures Timed(cfg, Leave(s, key, how))
  {
    var s' := Leave(s, key, how);
    if key in s.pending {
      forall k | k in s'.pending
        ensures HasTimer(cfg, s', k)
      {
        assert HasTimer(cfg, s, k) && IsOwned(s, s.pending[k].timer.value);
      }
      forall t | t in s'.armed
        ensures IsOwned(s', t)
      {
        assert IsOwned(s, t);
      }
    }
  }

  lemma FreshPutIsTimedBut(cfg: Config, s: State, id: bytes, service: Service, target: nat, now: int)
    requires Timed(cfg, s) && Hex(id) !in s.pending
    ensures TimedBut(cfg, Put(s, Hex(id), id, service, target, now), Hex(id))
  {
    hide Hex;
    var key := Hex(id);
    var s' := Put(s, key, id, service, target, now);
    forall k | k in s'.pending && k != key
      ensures HasTimer(cfg, s', k)
    {
      assert HasTimer(cfg, s, k);
    }
    forall t | t in s'.armed
      ensures s'.armed[t].key != key && IsOwned(s', t)
    {
      assert IsOwned(s, t);
    }
  }

  lemma SendKeepsTimed(cfg: Config, s: State, id: bytes, service: Service, target: nat, now: int, accepted: bool)
    requires Timed(cfg, s) && Hex(id) !in s.pending
    ensures Timed(cfg, Send(cfg, s, id, service, target, now, accepted))
  {
    hide Hex, Timed, TimedBut, Arm, Leave;
    FreshPutIsTimedBut(cfg, s, id, service, target, now);
    var s1 := Put(s, Hex(id), id, service, target, now);
    if accepted {
      ArmedIsTimed(cfg, s1, Hex(id), Resend, ResendDelay(cfg, s1.pending[Hex(id)]));
    } else {
      LeftIsTimed(cfg, s1, Hex(id), Uncounted);
    }
  }

  // The timer of a message that is sent again while it is pending runs on, beside the new one.
  lemma ResendBreaksTimed(cfg: Config, s: State, id: bytes, service: Service, target: nat, now: int, accepted: bool)
    requires Timed(cfg, s) && Hex(id) in s.pending
    ensures !Timed(cfg, Send(cfg, s, id, service, target, now, accepted))
  {
    hide Hex;
    var key := Hex(id);
    assert HasTimer(cfg, s, key);
    var former := s.pending[key].timer.value;
    assert IsOwned(s, former);
    var s' := Send(cfg, s, id, service, target, now, accepted);
    assert former in s'.armed && s'.armed[former].key == key;
    assert !IsOwned(s', former);
  }

  /** A send keeps messages and timers in correspondence if and only if its key is not pending. */
  lemma SendKeepsTimedIff(cfg: Config, s: State, id: bytes, service: Service, target: nat, now: int, accepted: bool)
    requires Timed(cfg, s)
    ensures Timed(cfg, Send(cfg, s, id, service, target, now, accepted)) <==> Hex(id) !in s.pending
  {
    hide *;
    if Hex(id) in s.pending {
      ResendBreaksTimed(cfg, s, id, service, target, now, accepted);
    } else {
      SendKeepsTimed(cfg, s, id, service, target, now, accepted);
    }
  }

  // ----- A timer fires -----

  // What the callback changes before it sets a timer or gives up: one more retry, perhaps another target.
  ghost predicate Touched(s: State, mid: State, key: Key) {
    && key in s.pending && key in mid.pending
    && mid.pending[key] == s.pending[key].(retries := s.pending[key].retries + 1, target := mid.pending[key].target)
    && mid == s.(pending := s.pending[key := mid.pending[key]], retries := mid.retries, fetches := mid.fetches)
  }

  /** A message timeout ends in one of three ways: sent again with retries to spare, a fetch under way, or failed. */
  lemma TimeoutEnds(cfg: Config, s: State, key: Key, w: World) returns (mid: State)
    requires key in s.pending
    ensures Touched(s, mid, key)
    ensures var r := MessageTimeout(cfg, s, key, w);
            || r == Leave(mid, key, Failed)
            || r == Arm(mid, key, GiveUpFetch, cfg.fetchTimeout)
            || (mid.pending[key].retries <= cfg.maxRetries && r == ArmResend(cfg, mid, key))
  {
    hide Arm, Leave, Switch;
    var s1 := Retried(s, key);
    mid := s1;
    if s1.pending[key].retries > cfg.maxRetries {
      mid := s1.(fetches := s1.fetches + 1);
    } else if !w.resent {
      var (target, ok) := Switch(s1.pending[key].target, w.candidates);
      mid := Switched(s1, key, target);
      if !ok {
        mid := mid.(fetches := mid.fetches + 1);
      }
      assert mid.pending == s.pending[key := mid.pending[key]];
    }
  }

  /**
   When a message is sent again and when it is asked for: a resend timer is set exactly when retries are left and either
   the direct resend or some tried candidate accepts; otherwise a fetch timer is set when the request goes out, and the
   message fails when it does not.
   */
  lemma TimeoutDecides(cfg: Config, s: State, key: Key, w: World)
    requires key in s.pending
    ensures var (p, r) := (s.pending[key], MessageTimeout(cfg, s, key, w));
            var again := p.retries < cfg.maxRetries
              && (w.resent || exists i: nat :: Tried(p.target, w.candidates, i) && w.candidates[i].accepts);
            && (again ==>
                  && key in r.pending && r.fetches == s.fetches && r.failed == s.failed
                  && r.armed[s.nextTimer] == Armed(key, Resend, if p.service.Node? then cfg.messageTimeout else cfg.persistTimeout))
            && (!again && w.attempt.Sent? ==>
                  && key in r.pending && r.fetches == s.fetches + 1 && r.failed == s.failed
                  && r.armed[s.nextTimer] == Armed(key, GiveUpFetch, cfg.fetchTimeout))
            && (!again && !w.attempt.Sent? ==>
                  && key !in r.pending && r.fetches == s.fetches + 1 && r.failed == s.failed + [p.token])
            && r.retries == s.retries + 1
            && (key in r.pending ==>
                  && r.pending[key].retries == p.retries + 1 && r.pending[key].timer == Some(s.nextTimer)
                  && (p.retries >= cfg.maxRetries || w.resent ==> r.pending[key].target == p.target))
  {
    hide Switch;
    SwitchSucceedsIff(s.pending[key].target, w.candidates);
  }

  lemma TouchedIsTimedBut(cfg: Config, s: State, mid: State, key: Key)
    requires TimedBut(cfg, s, key) && Touched(s, mid, key)
    ensures TimedBut(cfg, mid, key)
  {
    forall k | k in mid.pending && k != key
      ensures HasTimer(cfg, mid, k)
    {
      assert HasTimer(cfg, s, k);
    }
    forall t | t in mid.armed
      ensures mid.armed[t].key != key && IsOwned(mid, t)
    {
      assert IsOwned(s, t);
    }
  }

  lemma FireKeepsTimed(cfg: Config, s: State, timer: nat, w: World)
    requires Timed(cfg, s) && timer in s.armed
    ensures Timed(cfg, Fire(cfg, s, timer, w))
  {
    hide Timed, TimedBut, Arm, Leave, MessageTimeout;
    FiredIsTimedBut(cfg, s, timer);
    var s1, key := s.(armed := s.armed - {timer}), s.armed[timer].key;
    LeftIsTimed(cfg, s1, key, Failed);
    TimedButIsPending(cfg, s1, key);
    if s.armed[timer].action.Resend? {
      var mid := TimeoutEnds(cfg, s1, key, w);
      TouchedIsTimedBut(cfg, s1, mid, key);
      LeftIsTimed(cfg, mid, key, Failed);
      ArmedIsTimed(cfg, mid, key, GiveUpFetch, cfg.fetchTimeout);
      if mid.pending[key].retries <= cfg.maxRetries {
        ArmedIsTimed(cfg, mid, key, Resend, ResendDelay(cfg, mid.pending[key]));
      }
    }
  }

  lemma TimedButIsPending(cfg: Config, s: State, key: Key)
    requires TimedBut(cfg, s, key)
    ensures key in s.pending
  {
  }

  // ----- Runs -----

  datatype Event =
    | SendEvent(id: bytes, service: Service, target: nat, now: int, accepted: bool)
    | TimerEvent(timer: nat, world: World)
    | AckEvent(message: Message, id: bytes)
    | FetchEvent(id: bytes, stored: bool)
    | CleanupEvent(expired: seq<Key>)

  /** One step; a timer that is not running does not fire. */
  function Apply(cfg: Config, s: State, e: Event): State {
    match e
    case SendEvent(id, service, target, now, accepted) => Send(cfg, s, id, service, target, now, accepted)
    case TimerEvent(timer, w) => if timer in s.armed then Fire(cfg, s, timer, w) else s
    case AckEvent(m, id) => Acknowledge(s, m, id)
    case FetchEvent(id, stored) => FetchResponse(s, id, stored)
    case CleanupEvent(expired) => LeaveAll(s, expired)
  }

  function Run(cfg: Config, s: State, events: seq<Event>): State
    decreases |events|
  {
    if events == [] then s else Run(cfg, Apply(cfg, s, events[0]), events[1..])
  }

  predicate FreshEvent(s: State, e: Event) {
    e.SendEvent? ==> Hex(e.id) !in s.pending
  }

  /** No message of the run is sent again while it is pending. */
  predicate Fresh(cfg: Config, s: State, events: seq<Event>)
    decreases |events|
  {
    events != [] ==> FreshEvent(s, events[0]) && Fresh(cfg, Apply(cfg, s, events[0]), events[1..])
  }

  lemma {:induction false} LeaveAllKeepsTimed(cfg: Config, s: State, keys: seq<Key>)
    requires Timed(cfg, s)
    ensures Timed(cfg, LeaveAll(s, keys))
    decreases |keys|
  {
    hide Timed, Leave;
    if keys != [] {
      LeftIsTimed(cfg, s, keys[0], Uncounted);
      LeaveAllKeepsTimed(cfg, Leave(s, keys[0], Uncounted), keys[1..]);
    }
  }

  lemma ApplyKeepsTimed(cfg: Config, s: State, e: Event)
    requires Timed(cfg, s) && FreshEvent(s, e)
    ensures Timed(cfg, Apply(cfg, s, e))
  {
    hide Timed, Leave, Fire, Send, LeaveAll, Hex, AckKey;
    match e
    case SendEvent(id, service, target, now, accepted) => SendKeepsTimed(cfg, s, id, service, target, now, accepted);
    case TimerEvent(timer, w) =>
      if timer in s.armed {
        FireKeepsTimed(cfg, s, timer, w);
      }
    case AckEvent(m, id) => LeftIsTimed(cfg, s, AckKey(m, id), Confirmed);
    case FetchEvent(id, stored) => LeftIsTimed(cfg, s, Hex(id), if stored then Confirmed else Uncounted);
    case CleanupEvent(expired) => LeaveAllKeepsTimed(cfg, s, expired);
  }

  /** Over every run of fresh sends, each pending message has one running timer and no other timer runs. */
  lemma {:induction false} RunKeepsTimed(cfg: Config, s: State, events: seq<Event>)
    requires Timed(cfg, s) && Fresh(cfg, s, events)
    ensures Timed(cfg, Run(cfg, s, events))
    decreases |events|
  {
    hide Timed, Apply, FreshEvent;
    if events != [] {
      ApplyKeepsTimed(cfg, s, events[0]);
      RunKeepsTimed(cfg, Apply(cfg, s, events[0]), events[1..]);
    }
  }

  // ----- Counting -----

  // The message numbered token is pending under the key.
  predicate IsAt(s: State, key: Key, token: nat) {
    key in s.pending && s.pending[key].token == token
  }

  lemma {:induction false} LeaveAllOnlyRemoves(s: State, keys: seq<Key>, k: Key)
    requires k in LeaveAll(s, keys).pending
    ensures k in s.pending && s.pending[k] == LeaveAll(s, keys).pending[k]
    decreases |keys|
  {
    if keys != [] {
      LeaveAllOnlyRemoves(Leave(s, keys[0], Uncounted), keys[1..], k);
    }
  }

  lemma TimeoutOfNothing(cfg: Config, s: State, timer: nat, w: World)
    ensures timer in s.armed && s.armed[timer].key !in s.pending ==>
          MessageTimeout(cfg, s.(armed := s.armed - {timer}), s.armed[timer].key, w) == s.(armed := s.armed - {timer})
  {
  }

  // The message numbered token is pending.
  ghost predicate IsPending(s: State, token: nat) {
    exists k :: IsAt(s, k, token)
  }

  /** In how many places the message is: counted as confirmed, counted as failed, left uncounted, or pending. */
  ghost function Tally(s: State, token: nat): nat {
    multiset(s.confirmed)[token] + multiset(s.failed)[token] + multiset(s.uncounted)[token]
    + if IsPending(s, token) then 1 else 0
  }

  /** Every message sent so far is in exactly one place. */
  ghost predicate Accounted(s: State) {
    && (forall t: nat :: Tally(s, t) == if t < s.sends then 1 else 0)
    && (forall j, k :: j in s.pending && k in s.pending && s.pending[j].token == s.pending[k].token ==> j == k)
  }

  lemma CountAppended(q: seq<nat>, x: nat)
    ensures multiset(q + [x]) == multiset(q) + multiset{x}
  {
  }

  // The same messages are pending, and the same were counted.
  ghost predicate SameTokens(s: State, s': State) {
    && s'.confirmed == s.confirmed && s'.failed == s.failed && s'.uncounted == s.uncounted && s'.sends == s.sends
    && s'.pending.Keys == s.pending.Keys && forall k :: k in s.pending ==> s'.pending[k].token == s.pending[k].token
  }

  lemma SameTokensAccounted(s: State, s': State)
    requires Accounted(s) && SameTokens(s, s')
    ensures Accounted(s')
  {
    forall t: nat
      ensures Tally(s', t) == Tally(s, t)
    {
      forall k
        ensures IsAt(s, k, t) <==> IsAt(s', k, t)
      {
      }
    }
  }

  lemma LeaveAccounted(s: State, key: Key, how: Outcome)
    requires Accounted(s)
    ensures Accounted(Leave(s, key, how))
  {
    if key in s.pending {
      var s' := Leave(s, key, how);
      var token := s.pending[key].token;
      CountAppended(s.confirmed, token);
      CountAppended(s.failed, token);
      CountAppended(s.uncounted, token);
      forall t: nat
        ensures Tally(s', t) == Tally(s, t)
      {
        assert IsAt(s, key, token);
        if t != token {
          forall k
            ensures IsAt(s, k, t) <==> IsAt(s', k, t)
          {
          }
        } else {
          assert !IsPending(s', t);
        }
      }
    }
  }

  lemma PutAccounted(s: State, key: Key, id: bytes, service: Service, target: nat, now: int)
    requires Accounted(s)
    ensures Accounted(Put(s, key, id, service, target, now))
  {
    LeaveAccounted(s, key, Uncounted);
    PutFresh(Leave(s, key, Uncounted), key, id, service, target, now);
    PutReplaces(s, key, id, service, target, now);
    SameTokensAccounted(Put(Leave(s, key, Uncounted), key, id, service, target, now), Put(s, key, id, service, target, now));
  }

  lemma PutReplaces(s: State, key: Key, id: bytes, service: Service, target: nat, now: int)
    ensures SameTokens(Put(Leave(s, key, Uncounted), key, id, service, target, now), Put(s, key, id, service, target, now))
  {
  }

  lemma PutFresh(s: State, key: Key, id: bytes, service: Service, target: nat, now: int)
    requires Accounted(s) && key !in s.pending
    ensures Accounted(Put(s, key, id, service, target, now))
  {
    var s' := Put(s, key, id, service, target, now);
    assert Tally(s, s.sends) == 0;
    forall j | j in s.pending
      ensures s.pending[j].token != s.sends
    {
      assert !IsAt(s, j, s.sends);
    }
    forall t: nat
      ensures Tally(s', t) == if t < s'.sends then 1 else 0
    {
      assert IsAt(s', key, s.sends);
      if t != s.sends {
        forall k
          ensures IsAt(s, k, t) <==> IsAt(s', k, t)
        {
        }
        assert Tally(s, t) == Tally(s', t);
      }
    }
  }

  lemma {:induction false} LeaveAllAccounted(s: State, keys: seq<Key>)
    requires Accounted(s)
    ensures Accounted(LeaveAll(s, keys))
    decreases |keys|
  {
    hide Accounted, Leave;
    if keys != [] {
      LeaveAccounted(s, keys[0], Uncounted);
      LeaveAllAccounted(Leave(s, keys[0], Uncounted), keys[1..]);
    }
  }

  lemma ArmSameTokens(s: State, key: Key, action: Action, delay: int)
    requires key in s.pending
    ensures SameTokens(s, Arm(s, key, action, delay))
  {
  }

  lemma FireAccounted(cfg: Config, s: State, timer: nat, w: World)
    requires Accounted(s) && timer in s.armed
    ensures Accounted(Fire(cfg, s, timer, w))
  {
    var s1, key := s.(armed := s.armed - {timer}), s.armed[timer].key;
    assert SameTokens(s, s1);
    hide Accounted, Arm, Leave;
    SameTokensAccounted(s, s1);
    if s.armed[timer].action.GiveUpFetch? {
      LeaveAccounted(s1, key, Failed);
    } else if key in s.pending {
      hide MessageTimeout;
      var mid := TimeoutEnds(cfg, s1, key, w);
      assert SameTokens(s1, mid);
      SameTokensAccounted(s1, mid);
      LeaveAccounted(mid, key, Failed);
      ArmSameTokens(mid, key, GiveUpFetch, cfg.fetchTimeout);
      ArmSameTokens(mid, key, Resend, ResendDelay(cfg, mid.pending[key]));
      hide SameTokens;
      SameTokensAccounted(mid, Arm(mid, key, GiveUpFetch, cfg.fetchTimeout));
      SameTokensAccounted(mid, ArmResend(cfg, mid, key));
    }
  }

  lemma SendAccounted(cfg: Config, s: State, id: bytes, service: Service, target: nat, now: int, accepted: bool)
    requires Accounted(s)
    ensures Accounted(Send(cfg, s, id, service, target, now, accepted))
  {
    hide Accounted, Arm, Leave, Hex;
    var s1 := Put(s, Hex(id), id, service, target, now);
    PutAccounted(s, Hex(id), id, service, target, now);
    if accepted {
      ArmSameTokens(s1, Hex(id), Resend, ResendDelay(cfg, s1.pending[Hex(id)]));
      SameTokensAccounted(s1, ArmResend(cfg, s1, Hex(id)));
    } else {
      LeaveAccounted(s1, Hex(id), Uncounted);
    }
  }

  lemma ApplyAccounted(cfg: Config, s: State, e: Event)
    requires Accounted(s)
    ensures Accounted(Apply(cfg, s, e))
  {
    hide Accounted, Leave, Fire, Send, LeaveAll, Hex, AckKey;
    match e
    case SendEvent(id, service, target, now, accepted) => SendAccounted(cfg, s, id, service, target, now, accepted);
    case TimerEvent(timer, w) =>
      if timer in s.armed {
        FireAccounted(cfg, s, timer, w);
      }
    case AckEvent(m, id) => LeaveAccounted(s, AckKey(m, id), Confirmed);
    case FetchEvent(id, stored) => LeaveAccounted(s, Hex(id), if stored then Confirmed else Uncounted);
    case CleanupEvent(expired) => LeaveAllAccounted(s, expired);
  }

  /**
   Over every run, fresh sends or not, each message sent is in exactly one place: pending, confirmed once, failed once,
   or uncounted. So nothing is counted twice, or as both confirmed and failed.
   */
  lemma {:induction false} RunAccounted(cfg: Config, s: State, events: seq<Event>)
    requires Accounted(s)
    ensures Accounted(Run(cfg, s, events))
    decreases |events|
  {
    hide Accounted, Apply;
    if events != [] {
      ApplyAccounted(cfg, s, events[0]);
      RunAccounted(cfg, Apply(cfg, s, events[0]), events[1..]);
    }
  }

  /** The same from a new manager, token by token. */
  lemma CountedOnce(cfg: Config, events: seq<Event>, token: nat)
    ensures var s := Run(cfg, EMPTY_STATE, events);
            && multiset(s.confirmed)[token] + multiset(s.failed)[token] <= 1
            && (token < s.sends <==> token in s.confirmed || token in s.failed || token in s.uncounted || IsPending(s, token))
  {
    hide Run;
    forall t: nat
      ensures Tally(EMPTY_STATE, t) == 0
    {
      assert !IsPending(EMPTY_STATE, t);
    }
    RunAccounted(cfg, EMPTY_STATE, events);
    var s := Run(cfg, EMPTY_STATE, events);
    assert Tally(s, token) == if token < s.sends then 1 else 0;
    assert forall q: seq<nat> :: token in q <==> token in multiset(q);
  }

  // ----- What an acknowledgement confirms -----

  /** Every message is pending under the key of its own ID. */
  ghost predicate KeyedById(s: State) {
    forall k :: k in s.pending ==> k == Hex(s.pending[k].messageId)
  }

  // An acknowledgement that names a room and not a message.
  predicate IsRoomAck(m: Message) {
    !m.MessageFetchResponse? && !m.RoomMessageFetchResponse? && !m.HeartbeatAck? && !m.NotAnAck?
  }

  lemma RoomKeysAreNotHex(m: Message, id: bytes, k: bytes)
    requires IsRoomAck(m)
    ensures AckKey(m, id) != Hex(k)
  {
    hide Hex, Decimal;
    var key := AckKey(m, id);
    assert key[4] == '_';
    if key == Hex(k) {
      HexHasOnlyDigits(k, '_');
    }
  }

  /**
   Only a fetch response whose envelope has the ID of a pending message confirms anything, and it confirms that message.
   Acknowledgements of allocating, creating, joining, leaving, closing and chatting are looked up under room keys no
   message is pending under.
   */
  lemma AckConfirmsIff(s: State, m: Message, id: bytes)
    requires KeyedById(s)
    ensures var s' := Acknowledge(s, m, id);
            if (m.MessageFetchResponse? || m.RoomMessageFetchResponse?) && id != [] && Hex(id) in s.pending then
              s'.confirmed == s.confirmed + [s.pending[Hex(id)].token] && s'.pending == s.pending - {Hex(id)}
              && s'.failed == s.failed
            else s' == s
  {
    AckKeyIs(m, id);
    hide Hex, AckKey;
    var key := AckKey(m, id);
    if IsRoomAck(m) && key in s.pending {
      RoomKeysAreNotHex(m, id, s.pending[key].messageId);
      assert false;
    }
  }

  lemma AckKeyIs(m: Message, id: bytes)
    ensures m.HeartbeatAck? ==> AckKey(m, id) == ""
    ensures !IsRoomAck(m) && !m.HeartbeatAck? ==> AckKey(m, id) == Hex(id)
    ensures Hex(id) == "" <==> id == []
  {
    hide Decimal;
  }

  // Whether the event takes a message out as confirmed.
  predicate ConfirmsOne(s: State, e: Event) {
    match e
    case AckEvent(m, id) =>
      (m.MessageFetchResponse? || m.RoomMessageFetchResponse?) && id != [] && Hex(id) in s.pending
    case FetchEvent(id, stored) => stored && Hex(id) in s.pending
    case _ => false
  }

  // Whether the event is a firing that takes its message out.
  predicate GivesUp(cfg: Config, s: State, e: Event) {
    e.TimerEvent? && e.timer in s.armed && s.armed[e.timer].key in s.pending
    && s.armed[e.timer].key !in Apply(cfg, s, e).pending
  }

  lemma {:induction false} LeaveAllCountsNothing(s: State, keys: seq<Key>)
    ensures LeaveAll(s, keys).confirmed == s.confirmed && LeaveAll(s, keys).failed == s.failed
    decreases |keys|
  {
    if keys != [] {
      LeaveAllCountsNothing(Leave(s, keys[0], Uncounted), keys[1..]);
    }
  }

  /**
   What the counters count: a message is counted as confirmed exactly by a fetch response that finds it, and as failed
   exactly by a firing timer that gives it up; it is the one message that leaves.
   */
  lemma WhatIsCounted(cfg: Config, s: State, e: Event)
    requires KeyedById(s)
    ensures var s' := Apply(cfg, s, e);
            && (if ConfirmsOne(s, e) then s'.confirmed == s.confirmed + [s.pending[Hex(e.id)].token] && Hex(e.id) !in s'.pending
                else s'.confirmed == s.confirmed)
            && (if GivesUp(cfg, s, e) then s'.failed == s.failed + [s.pending[s.armed[e.timer].key].token]
                else s'.failed == s.failed)
  {
    hide Hex, AckKey;
    match e
    case SendEvent(id, service, target, now, accepted) =>
    case TimerEvent(timer, w) =>
      if timer in s.armed && s.armed[timer].action.Resend? && s.armed[timer].key in s.pending {
        TimeoutDecides(cfg, s.(armed := s.armed - {timer}), s.armed[timer].key, w);
        hide MessageTimeout;
        var mid := TimeoutEnds(cfg, s.(armed := s.armed - {timer}), s.armed[timer].key, w);
      }
    case AckEvent(m, id) => AckConfirmsIff(s, m, id);
    case FetchEvent(id, stored) =>
    case CleanupEvent(expired) => LeaveAllCountsNothing(s, expired);
  }

  // However a firing ends, it leaves every token and message ID in place, gives its message up, or sets its timer anew.
  lemma FiringEnds(cfg: Config, s: State, timer: nat, w: World) returns (mid: State)
    requires timer in s.armed
    ensures var (key, r) := (s.armed[timer].key, Fire(cfg, s, timer, w));
            && SameTokens(s, mid)
            && (forall k :: k in s.pending ==> s.pending[k].messageId == mid.pending[k].messageId)
            && (r == mid || r == Leave(mid, key, Failed)
                || (key in mid.pending && exists a, d :: r == Arm(mid, key, a, d)))
  {
    hide Arm, Leave, MessageTimeout;
    var s1, key := s.(armed := s.armed - {timer}), s.armed[timer].key;
    mid := s1;
    TimeoutOfNothing(cfg, s, timer, w);
    if s.armed[timer].action.Resend? && key in s.pending {
      mid := TimeoutEnds(cfg, s1, key, w);
    }
  }

  lemma {:induction false} LeaveAllGrows(s: State, keys: seq<Key>)
    ensures s.uncounted <= LeaveAll(s, keys).uncounted
    decreases |keys|
  {
    if keys != [] {
      LeaveAllGrows(Leave(s, keys[0], Uncounted), keys[1..]);
    }
  }

  lemma ApplyKeepsKeyed(cfg: Config, s: State, e: Event)
    requires KeyedById(s)
    ensures KeyedById(Apply(cfg, s, e)) && s.uncounted <= Apply(cfg, s, e).uncounted
  {
    hide Hex, AckKey, Fire, LeaveAll;
    match e
    case TimerEvent(timer, w) =>
      if timer in s.armed {
        var mid := FiringEnds(cfg, s, timer, w);
      }
    case CleanupEvent(expired) =>
      LeaveAllGrows(s, expired);
      forall k | k in LeaveAll(s, expired).pending
        ensures k in s.pending && s.pending[k] == LeaveAll(s, expired).pending[k]
      {
        LeaveAllOnlyRemoves(s, expired, k);
      }
    case _ =>
  }

  lemma {:induction false} RunKeepsKeyed(cfg: Config, s: State, events: seq<Event>)
    requires KeyedById(s)
    ensures KeyedById(Run(cfg, s, events)) && s.uncounted <= Run(cfg, s, events).uncounted
    decreases |events|
  {
    hide KeyedById, Apply;
    if events != [] {
      ApplyKeepsKeyed(cfg, s, events[0]);
      RunKeepsKeyed(cfg, Apply(cfg, s, events[0]), events[1..]);
    }
  }

  /**
   A message the message centre reports as missing or failed is counted neither as failed nor as confirmed, in any run
   that follows, although the source goes on to report the failure: by then the message has left the pending map.
   */
  lemma NegativeAnswerIsNeverCounted(cfg: Config, s: State, id: bytes, events: seq<Event>)
    requires Accounted(s) && KeyedById(s) && Hex(id) in s.pending
    ensures var s' := Run(cfg, FetchResponse(s, id, false), events);
            s.pending[Hex(id)].token !in s'.failed && s.pending[Hex(id)].token !in s'.confirmed
  {
    hide Hex, Run, KeyedById;
    var token := s.pending[Hex(id)].token;
    var s1 := FetchResponse(s, id, false);
    var s' := Run(cfg, s1, events);
    LeaveAccounted(s, Hex(id), Uncounted);
    RunAccounted(cfg, s1, events);
    ApplyKeepsKeyed(cfg, s, FetchEvent(id, false));
    RunKeepsKeyed(cfg, s1, events);
    assert s1.uncounted[|s.uncounted|] == token && s'.uncounted[|s.uncounted|] == token;
    assert token in multiset(s'.uncounted);
    assert Tally(s', token) <= 1;
    assert forall q: seq<nat> :: token in q <==> token in multiset(q);
  }

  /** All of this holds from a new manager on. */
  lemma RunFromEmpty(cfg: Config, events: seq<Event>)
    requires Fresh(cfg, EMPTY_STATE, events)
    ensures Timed(cfg, Run(cfg, EMPTY_STATE, events)) && KeyedById(Run(cfg, EMPTY_STATE, events))
  {
    hide Run, Fresh;
    RunKeepsTimed(cfg, EMPTY_STATE, events);
    RunKeepsKeyed(cfg, EMPTY_STATE, events);
  }
}

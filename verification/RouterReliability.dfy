/**
 The router's reliability manager: messages waiting for a confirmation, the timers that make it send them again, switch
 to another node, ask the message centre, or give up. The functions say what one call or one firing timer does to
 the state; the class is proved against them.
 */
module RouterReliability {
  import opened Bytes
  import opened MessageKey
  import opened Wrappers

  datatype Config = Config(maxRetries: int, messageTimeout: int, persistTimeout: int, fetchTimeout: int, ttl: int)

  /** What a timer does when it fires. */
  datatype Action = Resend | GiveUpFetch

  datatype Armed = Armed(key: Key, action: Action, delay: int)

  /** A message goes to a connection node or to a message centre; targets are numbered. */
  datatype Service = Node | Center

  /** A pending message; token counts the sends, it is not part of the source's record. */
  datatype Pending = Pending(
    token: nat, messageId: bytes, service: Service, target: nat, sentTime: int, retries: nat, timer: Option<nat>)

  /**
   armed holds the timers that are running, by timer number. The three lists hold the tokens of the messages that were
   counted as confirmed, counted as failed, and that left the pending map without being counted.
   */
  datatype State = State(
    pending: map<Key, Pending>, armed: map<nat, Armed>, nextTimer: nat, sends: nat,
    confirmed: seq<nat>, failed: seq<nat>, uncounted: seq<nat>, retries: nat, fetches: nat)

  const EMPTY_STATE := State(map[], map[], 0, 0, [], [], [], 0, 0)

  datatype Outcome = Confirmed | Failed | Uncounted

  function Count(s: State, token: nat, how: Outcome): State {
    match how
    case Confirmed => s.(confirmed := s.confirmed + [token])
    case Failed => s.(failed := s.failed + [token])
    case Uncounted => s.(uncounted := s.uncounted + [token])
  }

  /** Stopping a timer; a timer that has fired, or was never set, is not running. */
  function Stop(armed: map<nat, Armed>, timer: Option<nat>): map<nat, Armed> {
    if timer.Some? then armed - {timer.value} else armed
  }

  /** A message leaves the pending map and its timer is stopped. */
  function Leave(s: State, key: Key, how: Outcome): State {
    if key in s.pending then
      var p := s.pending[key];
      Count(s.(pending := s.pending - {key}, armed := Stop(s.armed, p.timer)), p.token, how)
    else s
  }

  function ResendDelay(cfg: Config, p: Pending): int {
    if p.service.Center? then cfg.persistTimeout else cfg.messageTimeout
  }

  /** Stopping the message's timer and setting a new one. */
  function Arm(s: State, key: Key, action: Action, delay: int): State
    requires key in s.pending
  {
    var p := s.pending[key];
    s.(pending := s.pending[key := p.(timer := Some(s.nextTimer))],
       armed := Stop(s.armed, p.timer)[s.nextTimer := Armed(key, action, delay)],
       nextTimer := s.nextTimer + 1)
  }

  function ArmResend(cfg: Config, s: State, key: Key): State
    requires key in s.pending
  {
    Arm(s, key, Resend, ResendDelay(cfg, s.pending[key]))
  }

  /** A message put under a key takes the place of a message already there, whose timer keeps running. */
  function Put(s: State, key: Key, id: bytes, service: Service, target: nat, now: int): State {
    var s1 := if key in s.pending then Count(s, s.pending[key].token, Uncounted) else s;
    s1.(pending := s1.pending[key := Pending(s.sends, id, service, target, now, 0, None)], sends := s.sends + 1)
  }

  /** SendReliableMessage and SendReliableMessageToCenter. */
  function Send(cfg: Config, s: State, id: bytes, service: Service, target: nat, now: int, accepted: bool): State {
    var key := Hex(id);
    var s1 := Put(s, key, id, service, target, now);
    if accepted then ArmResend(cfg, s1, key) else Leave(s1, key, Uncounted)
  }

  /** A healthy node of the list, and whether it accepts the message when it is sent there. */
  datatype Candidate = Candidate(target: nat, accepts: bool)

  /** The scan for another node: it moves on from the current target, and the target moves with it. */
  function Switch(target: nat, candidates: seq<Candidate>): (r: (nat, bool))
    decreases |candidates|
  {
    if candidates == [] then (target, false)
    else if candidates[0].target == target then Switch(target, candidates[1..])
    else if candidates[0].accepts then (candidates[0].target, true)
    else Switch(candidates[0].target, candidates[1..])
  }

  datatype FetchAttempt = NoEnvelope | NoCenter | NotSent | Sent

  /** attemptFetchConfirmation. */
  function FetchConfirmation(cfg: Config, s: State, key: Key, attempt: FetchAttempt): State
    requires key in s.pending
  {
    var s1 := s.(fetches := s.fetches + 1);
    if attempt.Sent? then Arm(s1, key, GiveUpFetch, cfg.fetchTimeout) else Leave(s1, key, Failed)
  }

  /** What the network answers while a timer's callback runs. */
  datatype World = World(resent: bool, candidates: seq<Candidate>, attempt: FetchAttempt)

  function Retried(s: State, key: Key): State
    requires key in s.pending
  {
    var p := s.pending[key];
    s.(pending := s.pending[key := p.(retries := p.retries + 1)], retries := s.retries + 1)
  }

  function Switched(s: State, key: Key, target: nat): State
    requires key in s.pending
  {
    s.(pending := s.pending[key := s.pending[key].(target := target)])
  }

  /** handleMessageTimeout. */
  function MessageTimeout(cfg: Config, s: State, key: Key, w: World): State {
    if key !in s.pending then s
    else
      var s1 := Retried(s, key);
      if s1.pending[key].retries > cfg.maxRetries then FetchConfirmation(cfg, s1, key, w.attempt)
      else if w.resent then ArmResend(cfg, s1, key)
      else
        var (target, ok) := Switch(s1.pending[key].target, w.candidates);
        var s2 := Switched(s1, key, target);
        if ok then ArmResend(cfg, s2, key) else FetchConfirmation(cfg, s2, key, w.attempt)
  }

  /** A running timer fires: it is no longer running, and its callback runs. */
  function Fire(cfg: Config, s: State, timer: nat, w: World): State
    requires timer in s.armed
  {
    var s1 := s.(armed := s.armed - {timer});
    match s.armed[timer].action
    case Resend => MessageTimeout(cfg, s1, s.armed[timer].key, w)
    case GiveUpFetch => Leave(s1, s.armed[timer].key, Failed)
  }

  /** The kinds of envelope, as far as acknowledgements go. */
  datatype Message =
    | AllocateRoomIdAck(roomId: nat)
    | CreateRoomAck(roomId: nat)
    | JoinRoomAck(roomId: nat)
    | LeaveRoomAck(roomId: nat)
    | CloseRoomAck(roomId: nat)
    | ChatMessageAck(roomId: nat)
    | MessageFetchResponse
    | RoomMessageFetchResponse
    | HeartbeatAck
    | NotAnAck

  /** The key an acknowledgement is looked up under (getOriginalMessageKey). */
  function AckKey(m: Message, id: bytes): Key {
    match m
    case AllocateRoomIdAck(r) => "room_alloc_" + Decimal(r)
    case CreateRoomAck(r) => "room_create_" + Decimal(r)
    case JoinRoomAck(r) => "room_join_" + Decimal(r)
    case LeaveRoomAck(r) => "room_leave_" + Decimal(r)
    case CloseRoomAck(r) => "room_close_" + Decimal(r)
    case ChatMessageAck(r) => "chat_" + Decimal(r)
    case HeartbeatAck => ""
    case _ => Hex(id)
  }

  /** HandleACK. */
  function Acknowledge(s: State, m: Message, id: bytes): State {
    if m.NotAnAck? || AckKey(m, id) == "" then s else Leave(s, AckKey(m, id), Confirmed)
  }

  /** handleMessageFetchResponse: a negative answer takes the message out before it is reported as failed. */
  function FetchResponse(s: State, id: bytes, stored: bool): State {
    Leave(s, Hex(id), if stored then Confirmed else Uncounted)
  }

  predicate Expired(cfg: Config, s: State, now: int, key: Key) {
    key in s.pending && now - s.pending[key].sentTime > cfg.ttl
  }

  /** cleanup, for the expired keys in the order in which they are found. */
  function LeaveAll(s: State, keys: seq<Key>): State
    decreases |keys|
  {
    if keys == [] then s else LeaveAll(Leave(s, keys[0], Uncounted), keys[1..])
  }

  // ----- The object -----

  class RouterReliabilityManager {
    const config: Config
    var pendingMessages: map<Key, Pending>
    var totalRetries: nat
    var totalFetches: nat
    var totalFailed: nat
    var totalConfirmed: nat
    // The runtime's timers.
    var armed: map<nat, Armed>
    var nextTimer: nat
    // Numbers the sends; no decision depends on it.
    var sends: nat
    // Which messages the counters counted.
    ghost var confirmed: seq<nat>
    ghost var failed: seq<nat>
    ghost var uncounted: seq<nat>

    ghost predicate Valid()
      reads this
    {
      totalConfirmed == |confirmed| && totalFailed == |failed|
    }

    ghost function St(): State
      reads this
    {
      State(pendingMessages, armed, nextTimer, sends, confirmed, failed, uncounted, totalRetries, totalFetches)
    }

    constructor (config: Config)
      ensures Valid() && St() == EMPTY_STATE && this.config == config
    {
      this.config := config;
      pendingMessages, armed, nextTimer := map[], map[], 0;
      totalRetries, totalFetches, totalFailed, totalConfirmed := 0, 0, 0, 0;
      sends, confirmed, failed, uncounted := 0, [], [], [];
    }

    // ----- The pending map and the timers -----

    method RemovePendingMessage(key: Key) returns (p: Option<Pending>)
      modifies `pendingMessages
      ensures p == if key in old(pendingMessages) then Some(old(pendingMessages)[key]) else None
      ensures pendingMessages == if p.Some? then old(pendingMessages) - {key} else old(pendingMessages)
    {
      p := if key in pendingMessages then Some(pendingMessages[key]) else None;
      if p.Some? {
        pendingMessages := pendingMessages - {key};
      }
    }

    method StopTimer(timer: Option<nat>)
      modifies `armed
      ensures armed == Stop(old(armed), timer)
    {
      if timer.Some? {
        armed := armed - {timer.value};
      }
    }

    method SetTimer(key: Key, action: Action, delay: int)
      requires Valid() && key in pendingMessages
      modifies `pendingMessages, `armed, `nextTimer
      ensures Valid() && St() == Arm(old(St()), key, action, delay)
    {
      StopTimer(pendingMessages[key].timer);
      pendingMessages := pendingMessages[key := pendingMessages[key].(timer := Some(nextTimer))];
      armed := armed[nextTimer := Armed(key, action, delay)];
      nextTimer := nextTimer + 1;
    }

    // ----- Sending -----

    /** Nothing changes for an envelope that cannot be serialised; accepted says whether the connection takes the bytes. */
    method SendReliableMessage(
        id: bytes, serialized: bool, service: Service, target: nat, now: int, accepted: bool) returns (ok: bool)
      requires Valid()
      modifies this
      ensures Valid() && ok == (serialized && accepted)
      ensures St() == if serialized then Send(config, old(St()), id, service, target, now, accepted) else old(St())
    {
      if !serialized {
        return false;
      }
      var key := Hex(id);
      if key in pendingMessages {
        uncounted := uncounted + [pendingMessages[key].token];
      }
      pendingMessages := pendingMessages[key := Pending(sends, id, service, target, now, 0, None)];
      sends := sends + 1;
      if !accepted {
        var p := RemovePendingMessage(key);
        uncounted := uncounted + [p.value.token];
        return false;
      }
      SetTimer(key, Resend, ResendDelay(config, pendingMessages[key]));
      return true;
    }

    // ----- Timers firing -----

    method TimerFires(timer: nat, w: World)
      requires Valid() && timer in armed
      modifies this
      ensures Valid() && St() == Fire(config, old(St()), timer, w)
    {
      var t := armed[timer];
      armed := armed - {timer};
      match t.action
      case Resend => HandleMessageTimeout(t.key, w);
      case GiveUpFetch => HandleMessageFailure(t.key);
    }

    method HandleMessageTimeout(key: Key, w: World)
      requires Valid()
      modifies this
      ensures Valid() && St() == MessageTimeout(config, old(St()), key, w)
    {
      hide Arm, Leave, Switch;
      if key !in pendingMessages {
        return;
      }
      var p := pendingMessages[key];
      var retries := p.retries + 1;
      pendingMessages := pendingMessages[key := p.(retries := retries)];
      totalRetries := totalRetries + 1;
      assert St() == Retried(old(St()), key);
      if retries <= config.maxRetries {
        if !w.resent {
          var switched := AttemptNodeSwitch(key, w.candidates);
          if !switched {
            AttemptFetchConfirmation(key, w.attempt);
          }
        } else {
          SetTimer(key, Resend, if p.service.Center? then config.persistTimeout else config.messageTimeout);
        }
      } else {
        AttemptFetchConfirmation(key, w.attempt);
      }
    }

    method AttemptNodeSwitch(key: Key, candidates: seq<Candidate>) returns (ok: bool)
      requires Valid() && key in pendingMessages
      modifies `pendingMessages, `armed, `nextTimer
      ensures Valid()
      ensures var (target, switched) := Switch(old(pendingMessages[key].target), candidates);
              var s := Switched(old(St()), key, target);
              ok == switched && St() == if ok then ArmResend(config, s, key) else s
    {
      hide Arm;
      ghost var s0 := St();
      assert candidates[0..] == candidates;
      assert pendingMessages[key := pendingMessages[key].(target := pendingMessages[key].target)] == pendingMessages;
      for i := 0 to |candidates|
        invariant key in pendingMessages && Valid()
        invariant St() == Switched(s0, key, pendingMessages[key].target)
        invariant Switch(pendingMessages[key].target, candidates[i..]) == Switch(s0.pending[key].target, candidates)
      {
        assert candidates[i..][0] == candidates[i] && candidates[i..][1..] == candidates[i + 1..];
        var p := pendingMessages[key];
        if candidates[i].target != p.target {
          pendingMessages := pendingMessages[key := p.(target := candidates[i].target)];
          assert St() == Switched(s0, key, candidates[i].target);
          if candidates[i].accepts {
            SetTimer(key, Resend, if p.service.Node? then config.messageTimeout else config.persistTimeout);
            return true;
          }
        }
      }
      return false;
    }

    method AttemptFetchConfirmation(key: Key, attempt: FetchAttempt)
      requires Valid() && key in pendingMessages
      modifies this
      ensures Valid() && St() == FetchConfirmation(config, old(St()), key, attempt)
    {
      totalFetches := totalFetches + 1;
      match attempt
      case NoEnvelope => HandleMessageFailure(key);
      case NoCenter => HandleMessageFailure(key);
      case NotSent => HandleMessageFailure(key);
      case Sent => SetTimer(key, GiveUpFetch, config.fetchTimeout);
    }

    // ----- Messages leaving -----

    method HandleMessageFailure(key: Key)
      requires Valid()
      modifies this
      ensures Valid() && St() == Leave(old(St()), key, Failed)
    {
      var p := RemovePendingMessage(key);
      if p.Some? {
        StopTimer(p.value.timer);
        totalFailed := totalFailed + 1;
        failed := failed + [p.value.token];
      }
    }

    /** The result says whether the envelope was an acknowledgement. */
    method HandleACK(m: Message, id: bytes) returns (handled: bool)
      requires Valid()
      modifies this
      ensures Valid() && handled == !m.NotAnAck?
      ensures St() == Acknowledge(old(St()), m, id)
    {
      if m.NotAnAck? {
        return false;
      }
      var key := AckKey(m, id);
      if key == "" {
        return true;
      }
      var p := RemovePendingMessage(key);
      if p.Some? {
        StopTimer(p.value.timer);
        totalConfirmed := totalConfirmed + 1;
        confirmed := confirmed + [p.value.token];
      }
      return true;
    }

    method HandleMessageFetchResponse(id: bytes, stored: bool)
      requires Valid()
      modifies this
      ensures Valid() && St() == FetchResponse(old(St()), id, stored)
    {
      var key := Hex(id);
      var p := RemovePendingMessage(key);
      if p.None? {
        return;
      }
      StopTimer(p.value.timer);
      if stored {
        totalConfirmed := totalConfirmed + 1;
        confirmed := confirmed + [p.value.token];
      } else {
        // The message is gone already, so this finds nothing to count.
        uncounted := uncounted + [p.value.token];
        HandleMessageFailure(key);
      }
    }

    /** cleanup; keys is the order in which the runtime enumerates the expired messages. */
    method Cleanup(now: int, keys: seq<Key>)
      requires Valid()
      requires forall k :: k in keys <==> Expired(config, St(), now, k)
      modifies this
      ensures Valid() && St() == LeaveAll(old(St()), keys)
    {
      assert keys[0..] == keys;
      for i := 0 to |keys|
        invariant Valid()
        invariant LeaveAll(St(), keys[i..]) == LeaveAll(old(St()), keys)
      {
        assert keys[i..][0] == keys[i] && keys[i..][1..] == keys[i + 1..];
        ghost var before := St();
        var p := RemovePendingMessage(keys[i]);
        if p.Some? {
          StopTimer(p.value.timer);
          uncounted := uncounted + [p.value.token];
        }
        assert St() == Leave(before, keys[i], Uncounted);
      }
    }
  }
}

/**
 The queues and the pending map of the client's reliability manager stay in step over every run, and what room
 acknowledgements confirm follows the order of sending.
 */
module AckTheorems {
  import opened Bytes
  import opened MessageKey
  import opened AckQueues
  import opened Wrappers
  import opened Sequences

  predicate Distinct(q: seq<Key>) {
    forall i, j :: 0 <= i < j < |q| ==> q[i] != q[j]
  }

  // The message under the key waits in the slot.
  predicate Waits(s: State, key: Key, slot: Slot) {
    key in s.pending && SlotOf(s.pending[key].envelope) == slot
  }

  // The queue holds exactly the keys waiting in the slot, each once.
  ghost predicate Matches(s: State, q: seq<Key>, slot: Slot) {
    Distinct(q) && forall k :: k in q <==> Waits(s, k, slot)
  }

  /**
   Every room queue is present exactly when it has messages and holds exactly that room's pending keys, each once;
   so does the allocation queue; and every recorded room fetch is pending for that room.
   */
  ghost predicate InStep(s: State) {
    && (forall r :: r in s.roomQueues ==> s.roomQueues[r] != [])
    && (forall r :: Matches(s, Queue(s, r), RoomSlot(r)))
    && Matches(s, s.allocateQueue, AllocateSlot)
    && (forall r :: r in s.roomFetch ==> Waits(s, s.roomFetch[r], FetchSlot(r)))
  }

  /** In step, and no message waits in a queue under the empty key, which acknowledgements do not look for. */
  ghost predicate Coupled(s: State) {
    InStep(s) && ("" in s.pending ==> SlotOf(s.pending[""].envelope) == NoSlot)
  }

  // ----- Queues -----

  lemma {:induction false} CutOutIs(q: seq<Key>, key: Key)
    requires Distinct(q)
    ensures Distinct(CutOut(q, key))
    ensures forall k :: k in CutOut(q, key) <==> k in q && k != key
    decreases |q|
  {
    if q != [] {
      CutOutIs(q[1..], key);
      assert q == [q[0]] + q[1..];
      var rest := CutOut(q[1..], key);
      forall i | 0 <= i < |rest|
        ensures rest[i] != q[0]
      {
        assert rest[i] in q[1..];
      }
    }
  }

  lemma AppendIs(q: seq<Key>, key: Key)
    ensures Distinct(q + [key]) <==> Distinct(q) && key !in q
    ensures forall k :: k in q + [key] <==> k in q || k == key
  {
    var r := q + [key];
    if Distinct(r) {
      assert forall i :: 0 <= i < |q| ==> r[i] == q[i] && r[|q|] == key;
    }
  }

  // ----- Removing -----

  lemma MatchesWithout(s: State, s': State, q: seq<Key>, slot: Slot, key: Key)
    requires Matches(s, q, slot) && s'.pending == s.pending - {key}
    ensures Waits(s, key, slot) ==> Matches(s', CutOut(q, key), slot)
    ensures !Waits(s, key, slot) ==> Matches(s', q, slot)
  {
    hide SlotOf;
    CutOutIs(q, key);
  }

  lemma RemoveKeepsCoupled(s: State, key: Key)
    requires Coupled(s)
    ensures Coupled(Remove(s, key))
  {
    RemoveKeepsInStep(s, key);
    RemovedIsGone(s, key);
    hide Remove, InStep;
  }

  lemma RemoveKeepsInStep(s: State, key: Key)
    requires InStep(s)
    ensures InStep(Remove(s, key))
  {
    hide SlotOf, Matches, CutOut;
    if key in s.pending {
      var s' := Remove(s, key);
      forall r
        ensures Matches(s', Queue(s', r), RoomSlot(r))
      {
        MatchesWithout(s, s', Queue(s, r), RoomSlot(r), key);
      }
      MatchesWithout(s, s', s.allocateQueue, AllocateSlot, key);
    }
  }

  // ----- Sending -----

  /** Sending an envelope leaves the queues in step exactly in these cases; a new key is always fine. */
  predicate Resendable(s: State, e: Envelope) {
    var key := Hex(e.messageId);
    key in s.pending ==>
      match SlotOf(s.pending[key].envelope)
      case NoSlot => true
      case FetchSlot(r) => r in s.roomFetch && s.roomFetch[r] == key ==> SlotOf(e) == FetchSlot(r)
      case _ => false
  }

  lemma MatchesAfterSend(s: State, s': State, q: seq<Key>, slot: Slot, key: Key, p: Pending)
    requires Matches(s, q, slot) && s'.pending == s.pending[key := p]
    requires key in s.pending ==> SlotOf(s.pending[key].envelope) != slot
    ensures SlotOf(p.envelope) == slot ==> Matches(s', q + [key], slot)
    ensures SlotOf(p.envelope) != slot ==> Matches(s', q, slot)
  {
    hide SlotOf;
    AppendIs(q, key);
  }

  /** A message that waits in a queue whatever its ID has one; the others find no queue without it. */
  predicate IdIfQueued(e: Envelope) {
    e.kind.AllocateRoomId? || e.kind.CreateRoom? ==> e.messageId != []
  }

  lemma QueuedWithId(e: Envelope)
    ensures IdIfQueued(e) <==> e.messageId != [] || SlotOf(e) == NoSlot
  {
  }

  lemma SendKeepsCoupled(s: State, e: Envelope, now: int, ordinal: nat)
    requires Coupled(s) && IdIfQueued(e) && Resendable(s, e)
    ensures Coupled(Send(s, e, now, ordinal, true))
  {
    HexIsEmpty(e.messageId);
    QueuedWithId(e);
    SendKeepsInStep(s, e, now, ordinal);
    hide InStep, Hex, Resendable, SlotOf, IdIfQueued;
    if !e.kind.Heartbeat? {
      SentIsPending(s, e, now, ordinal);
    }
    hide Send;
  }

  lemma SendKeepsInStep(s: State, e: Envelope, now: int, ordinal: nat)
    requires InStep(s) && Resendable(s, e)
    ensures InStep(Send(s, e, now, ordinal, true))
  {
    hide SlotOf, Matches, Hex;
    if !e.kind.Heartbeat? {
      var key := Hex(e.messageId);
      var p := Pending(e, now, ordinal);
      var s' := Send(s, e, now, ordinal, true);
      forall r
        ensures Matches(s', Queue(s', r), RoomSlot(r))
      {
        MatchesAfterSend(s, s', Queue(s, r), RoomSlot(r), key, p);
      }
      MatchesAfterSend(s, s', s.allocateQueue, AllocateSlot, key, p);
    }
  }

  lemma HexIsEmpty(id: bytes)
    ensures Hex(id) == "" <==> id == []
  {
  }

  // What a send leaves of the queue its key was in: the key is there twice, or waits nowhere.
  lemma KeyStaysQueued(s: State, s': State, q: seq<Key>, q': seq<Key>, slot: Slot, key: Key)
    requires Matches(s, q, slot) && Waits(s, key, slot)
    requires Waits(s', key, slot) ==> q' == q + [key]
    requires q' == q || q' == q + [key] || q' == CutOut(q + [key], key)
    ensures !Matches(s', q', slot)
  {
    hide SlotOf, CutOut;
    AppendIs(q, key);
    StillThere(q, key);
  }

  // The same for what is enqueued and removed again.
  lemma QueuesAfterRemoval(s: State, key: Key, r: nat)
    requires key in s.pending
    ensures var (s', slot) := (Remove(s, key), SlotOf(s.pending[key].envelope));
            && s'.allocateQueue == (if slot.AllocateSlot? then CutOut(s.allocateQueue, key) else s.allocateQueue)
            && Queue(s', r) == (if slot == RoomSlot(r) then CutOut(Queue(s, r), key) else Queue(s, r))
            && (slot != FetchSlot(r) && r in s.roomFetch ==> r in s'.roomFetch && s'.roomFetch[r] == s.roomFetch[r])
  {
    hide SlotOf, CutOut;
  }

  lemma QueuesAfterEnqueue(s: State, slot: Slot, key: Key, r: nat)
    ensures var s' := Enqueue(s, slot, key);
            && s'.allocateQueue == (if slot.AllocateSlot? then s.allocateQueue + [key] else s.allocateQueue)
            && Queue(s', r) == (if slot == RoomSlot(r) then Queue(s, r) + [key] else Queue(s, r))
            && (slot != FetchSlot(r) && r in s.roomFetch ==> r in s'.roomFetch && s'.roomFetch[r] == s.roomFetch[r])
            && s'.pending == s.pending
  {
  }

  lemma QueuesAfterSend(s: State, e: Envelope, now: int, ordinal: nat, delivered: bool, r: nat)
    requires !e.kind.Heartbeat?
    ensures var (s', key) := (Send(s, e, now, ordinal, delivered), Hex(e.messageId));
            var (a, q) := (s.allocateQueue, Queue(s, r));
            && s'.allocateQueue == (if !SlotOf(e).AllocateSlot? then a
                                    else if delivered then a + [key] else CutOut(a + [key], key))
            && Queue(s', r) == (if SlotOf(e) != RoomSlot(r) then q
                                else if delivered then q + [key] else CutOut(q + [key], key))
            && (key in s'.pending <==> delivered) && (delivered ==> s'.pending[key].envelope == e)
    ensures var s' := Send(s, e, now, ordinal, delivered);
            SlotOf(e) != FetchSlot(r) && r in s.roomFetch ==> r in s'.roomFetch && s'.roomFetch[r] == s.roomFetch[r]
  {
    hide SlotOf, Hex, CutOut, Enqueue, Remove, Queue;
    var key := Hex(e.messageId);
    var s0 := s.(pending := s.pending[key := Pending(e, now, ordinal)]);
    SameQueue(s, s0, r);
    QueuesAfterEnqueue(s0, SlotOf(e), key, r);
    QueuesAfterRemoval(Enqueue(s0, SlotOf(e), key), key, r);
    RemovedIsGone(Enqueue(s0, SlotOf(e), key), key);
  }

  lemma SameQueue(s: State, s': State, r: nat)
    requires s.roomQueues == s'.roomQueues
    ensures Queue(s, r) == Queue(s', r)
  {
  }

  // A key sent again while it still waits in a queue is there twice, or in the wrong queue; refused, it stays there.
  lemma ResendBreaks(s: State, e: Envelope, now: int, ordinal: nat, delivered: bool)
    requires InStep(s) && !e.kind.Heartbeat? && !Resendable(s, e)
    ensures !InStep(Send(s, e, now, ordinal, delivered))
  {
    var key, slot := Hex(e.messageId), SlotOf(s.pending[Hex(e.messageId)].envelope);
    var s' := Send(s, e, now, ordinal, delivered);
    var r := match slot case RoomSlot(r) => r case FetchSlot(r) => r case _ => 0;
    QueuesAfterSend(s, e, now, ordinal, delivered, r);
    hide Send, SlotOf, Hex, Matches, CutOut;
    match slot
    case AllocateSlot => KeyStaysQueued(s, s', s.allocateQueue, s'.allocateQueue, slot, key);
    case RoomSlot(_) =>
      assert Matches(s, Queue(s, r), RoomSlot(r));
      KeyStaysQueued(s, s', Queue(s, r), Queue(s', r), slot, key);
    case FetchSlot(_) =>
      assert r in s'.roomFetch && s'.roomFetch[r] == key && !Waits(s', key, slot);
    case NoSlot =>
  }

  lemma {:induction false} StillThere(q: seq<Key>, key: Key)
    requires key in q
    ensures key in CutOut(q + [key], key)
    decreases |q|
  {
    var r := q + [key];
    assert r[1..] == q[1..] + [key] && r[0] == q[0];
    if q[0] != key {
      StillThere(q[1..], key);
    } else {
      assert r[1..][|q| - 1] == key;
    }
  }

  /**
   From a state in step, a successful send leaves everything in step if and only if its key may be used again and, to
   create a room or allocate a room number, its message has an ID.
   */
  lemma SendKeepsCoupledIff(s: State, e: Envelope, now: int, ordinal: nat)
    requires Coupled(s) && !e.kind.Heartbeat?
    ensures Coupled(Send(s, e, now, ordinal, true)) <==> Resendable(s, e) && IdIfQueued(e)
  {
    hide InStep, Resendable, SlotOf, IdIfQueued, Hex;
    if !Resendable(s, e) {
      ResendBreaks(s, e, now, ordinal, true);
    } else if IdIfQueued(e) {
      SendKeepsCoupled(s, e, now, ordinal);
    } else {
      QueuedWithId(e);
      HexIsEmpty(e.messageId);
      SentIsPending(s, e, now, ordinal);
      hide Send;
    }
  }

  /** A send the connection refuses leaves everything in step if and only if its key may be used again, ID or none. */
  lemma FailedSendKeepsCoupledIff(s: State, e: Envelope, now: int, ordinal: nat)
    requires Coupled(s) && !e.kind.Heartbeat?
    ensures Coupled(Send(s, e, now, ordinal, false)) <==> Resendable(s, e)
  {
    if Resendable(s, e) {
      SendKeepsInStep(s, e, now, ordinal);
    }
    hide InStep, Remove, Hex, Enqueue, Resendable, SlotOf;
    if Resendable(s, e) {
      var s1, key := Send(s, e, now, ordinal, true), Hex(e.messageId);
      RemoveKeepsInStep(s1, key);
      SentIsPending(s, e, now, ordinal);
      RemovedIsGone(s1, key);
    } else {
      ResendBreaks(s, e, now, ordinal, false);
    }
  }

  /**
   In step, an acknowledgement for a room with waiting messages confirms one if and only if the empty key is not at the
   head of its queue; if it is, nothing changes.
   */
  lemma RoomAckConfirmsIff(s: State, room: nat)
    requires InStep(s) && Queue(s, Uint32(room)) != []
    ensures Confirms(s, RoomAck(room)) <==> Queue(s, Uint32(room))[0] != ""
    ensures Queue(s, Uint32(room))[0] == "" ==> HandleAck(s, RoomAck(room)) == s
  {
    hide SlotOf;
    var r := Uint32(room);
    assert Matches(s, Queue(s, r), RoomSlot(r));
    assert Queue(s, r)[0] in Queue(s, r);
    assert Waits(s, Queue(s, r)[0], RoomSlot(r));
  }

  /** A room created by a message without an ID is blocked like that, and stays so whatever is sent behind it. */
  lemma CreatingWithoutIdBlocks(s: State, room: nat, now: int, ordinal: nat, e: Envelope, later: int, next: nat)
    requires Coupled(s) && Queue(s, Uint32(room)) == []
    ensures var s1 := Send(s, Envelope([], CreateRoom(room)), now, ordinal, true);
            var s2 := Send(s1, e, later, next, true);
            && Queue(s1, Uint32(room)) == [""] && HandleAck(s1, RoomAck(room)) == s1
            && HandleAck(s2, RoomAck(room)) == s2 && !Confirms(s2, RoomAck(room))
  {
    hide SlotOf;
    HexIsEmpty([]);
    var first := Envelope([], CreateRoom(room));
    assert SlotOf(first) == RoomSlot(Uint32(room)) by {
      CreatedSlot(first);
    }
    var s1 := Send(s, first, now, ordinal, true);
    var s2 := Send(s1, e, later, next, true);
    hide Hex;
    assert Queue(s1, Uint32(room)) == [""];
    assert Queue(s2, Uint32(room))[0] == "";
  }

  lemma CreatedSlot(e: Envelope)
    requires e.kind.CreateRoom?
    ensures SlotOf(e) == RoomSlot(Uint32(e.kind.roomId))
  {
  }

  // ----- Acknowledgements and cleaning up -----

  // Popping the front of a queue first and removing the message then is the same as removing it.
  lemma PopThenRemove(s: State, key: Key)
    requires Coupled(s) && s.allocateQueue != [] && key == s.allocateQueue[0]
    ensures Remove(s.(allocateQueue := s.allocateQueue[1..]), key) == Remove(s, key)
  {
    hide SlotOf;
    var q := s.allocateQueue;
    assert Waits(s, key, AllocateSlot);
    assert CutOut(q, key) == q[1..];
    assert key !in q[1..];
    NotThere(q[1..], key);
  }

  lemma FetchGoneThenRemove(s: State, room: nat)
    requires Coupled(s)
    ensures var s1 := s.(roomFetch := s.roomFetch - {room});
            && Coupled(s1)
            && (room in s.roomFetch ==> Remove(s1, s.roomFetch[room]) == Remove(s, s.roomFetch[room]))
  {
    hide SlotOf, Matches;
    var s1 := s.(roomFetch := s.roomFetch - {room});
    SamePendingMatches(s, s1, s.allocateQueue, AllocateSlot);
    forall r
      ensures Matches(s1, Queue(s1, r), RoomSlot(r))
    {
      SamePendingMatches(s, s1, Queue(s, r), RoomSlot(r));
    }
    if room in s.roomFetch {
      assert Waits(s, s.roomFetch[room], FetchSlot(room));
    }
  }

  lemma SamePendingMatches(s: State, s': State, q: seq<Key>, slot: Slot)
    requires Matches(s, q, slot) && s.pending == s'.pending
    ensures Matches(s', q, slot)
  {
    hide SlotOf;
  }

  // In step, an acknowledgement removes exactly the message it is for.
  lemma AckRemovesTarget(s: State, ack: Ack)
    requires Coupled(s)
    ensures var target := Target(s, ack);
            HandleAck(s, ack) == if target.Some? then Remove(s, target.value) else s
    ensures Target(s, ack).Some? && !ack.MessageFetchResponse? ==> Target(s, ack).value in s.pending
  {
    hide SlotOf, Hex;
    match ack
    case AllocateAck =>
      if s.allocateQueue != [] {
        assert Waits(s, s.allocateQueue[0], AllocateSlot);
        PopThenRemove(s, s.allocateQueue[0]);
      }
    case RoomFetchResponse(r) =>
      FetchGoneThenRemove(s, Uint32(r));
      if Uint32(r) !in s.roomFetch {
        assert s.roomFetch - {Uint32(r)} == s.roomFetch;
      }
    case RoomAck(r) =>
      var room := Uint32(r);
      assert Matches(s, Queue(s, room), RoomSlot(room));
      if Queue(s, room) != [] {
        assert Waits(s, Queue(s, room)[0], RoomSlot(room));
      }
    case _ =>
  }

  lemma AckKeepsCoupled(s: State, ack: Ack)
    requires Coupled(s)
    ensures Coupled(HandleAck(s, ack))
  {
    hide Coupled, Remove, HandleAck, Target;
    AckRemovesTarget(s, ack);
    if Target(s, ack).Some? {
      RemoveKeepsCoupled(s, Target(s, ack).value);
    }
  }

  lemma {:induction false} RemoveAllKeepsCoupled(s: State, keys: seq<Key>)
    requires Coupled(s)
    ensures Coupled(RemoveAll(s, keys))
    decreases |keys|
  {
    hide Coupled, Remove;
    if keys != [] {
      RemoveKeepsCoupled(s, keys[0]);
      RemoveAllKeepsCoupled(Remove(s, keys[0]), keys[1..]);
    }
  }

  // ----- Whole runs -----

  /** One call into the manager, or one of its timers giving a message up. */
  datatype Event =
    | SendEvent(envelope: Envelope, now: int, delivered: bool)
    | AckEvent(ack: Ack)
    | FailEvent(key: Key)
    | CleanupEvent(expired: seq<Key>)

  /** A room acknowledgement that confirmed a message: the room, and which send it was. */
  datatype Confirmed = Confirmed(room: nat, ordinal: nat)

  datatype Trace = Trace(s: State, sends: nat, log: seq<Confirmed>)

  const EMPTY_TRACE := Trace(EMPTY_STATE, 0, [])

  function Logged(s: State, ack: Ack): seq<Confirmed> {
    if ack.RoomAck? && Confirms(s, ack) then [Confirmed(Uint32(ack.roomId), s.pending[Target(s, ack).value].ordinal)] else []
  }

  function Apply(t: Trace, e: Event): Trace {
    match e
    case SendEvent(envelope, now, delivered) => Trace(Send(t.s, envelope, now, t.sends, delivered), t.sends + 1, t.log)
    case AckEvent(ack) => Trace(HandleAck(t.s, ack), t.sends, t.log + Logged(t.s, ack))
    case FailEvent(key) => t.(s := Remove(t.s, key))
    case CleanupEvent(expired) => t.(s := RemoveAll(t.s, expired))
  }

  function Run(t: Trace, events: seq<Event>): Trace
    decreases |events|
  {
    if events == [] then t else Run(Apply(t, events[0]), events[1..])
  }

  /** Every send of the run uses a key that is not pending at that moment, or may be used again, and has an ID where its message waits in any case. */
  predicate KeysAreFresh(t: Trace, events: seq<Event>)
    decreases |events|
  {
    events != [] ==>
      && (events[0].SendEvent? && !events[0].envelope.kind.Heartbeat? ==>
            Resendable(t.s, events[0].envelope) && (events[0].delivered ==> IdIfQueued(events[0].envelope)))
      && KeysAreFresh(Apply(t, events[0]), events[1..])
  }

  lemma ApplyKeepsCoupled(t: Trace, e: Event)
    requires Coupled(t.s)
    requires e.SendEvent? && !e.envelope.kind.Heartbeat? ==>
               Resendable(t.s, e.envelope) && (e.delivered ==> IdIfQueued(e.envelope))
    ensures Coupled(Apply(t, e).s)
  {
    hide Coupled, Remove, RemoveAll, HandleAck, Resendable;
    match e
    case SendEvent(envelope, now, delivered) =>
      if !envelope.kind.Heartbeat? {
        if delivered {
          SendKeepsCoupled(t.s, envelope, now, t.sends);
        } else {
          FailedSendKeepsCoupledIff(t.s, envelope, now, t.sends);
        }
      }
    case AckEvent(ack) => AckKeepsCoupled(t.s, ack);
    case FailEvent(key) => RemoveKeepsCoupled(t.s, key);
    case CleanupEvent(expired) => RemoveAllKeepsCoupled(t.s, expired);
  }

  lemma EmptyIsCoupled()
    ensures Coupled(EMPTY_STATE)
  {
    forall r
      ensures Matches(EMPTY_STATE, Queue(EMPTY_STATE, r), RoomSlot(r))
    {
    }
  }

  /** Queues and pending map stay in step over every run of sends, failed sends, acknowledgements, failures and cleanups. */
  lemma {:induction false} RunKeepsCoupled(t: Trace, events: seq<Event>)
    requires Coupled(t.s) && KeysAreFresh(t, events)
    ensures Coupled(Run(t, events).s)
    decreases |events|
  {
    hide Coupled, Apply;
    if events != [] {
      ApplyKeepsCoupled(t, events[0]);
      RunKeepsCoupled(Apply(t, events[0]), events[1..]);
    }
  }

  // ----- Order of confirmation -----

  // The keys are pending, in the order their messages were sent.
  predicate InOrder(s: State, q: seq<Key>) {
    && (forall k :: k in q ==> k in s.pending)
    && (forall i, j :: 0 <= i < j < |q| ==> s.pending[q[i]].ordinal < s.pending[q[j]].ordinal)
  }

  // The keys are pending and were sent after the n-th send.
  predicate AllAfter(s: State, q: seq<Key>, n: nat) {
    forall k :: k in q ==> k in s.pending && n < s.pending[k].ordinal
  }

  /** For each room, what its acknowledgements confirmed was confirmed in the order of sending. */
  predicate LogIncreases(log: seq<Confirmed>) {
    forall i, j :: 0 <= i < j < |log| && log[i].room == log[j].room ==> log[i].ordinal < log[j].ordinal
  }

  // Every room's queue follows the order of sending, and what the room's acknowledgements confirmed came before it.
  ghost predicate Ordered(t: Trace) {
    && (forall k :: k in t.s.pending ==> t.s.pending[k].ordinal < t.sends)
    && (forall i :: 0 <= i < |t.log| ==> t.log[i].ordinal < t.sends)
    && (forall r :: InOrder(t.s, Queue(t.s, r)))
    && (forall i :: 0 <= i < |t.log| ==> AllAfter(t.s, Queue(t.s, t.log[i].room), t.log[i].ordinal))
    && LogIncreases(t.log)
  }

  // Cutting a key out is leaving out one position.
  lemma {:induction false} CutOutAt(q: seq<Key>, key: Key) returns (i: nat)
    requires key in q
    ensures i < |q| && q[i] == key && CutOut(q, key) == q[..i] + q[i + 1..]
    decreases |q|
  {
    if q[0] == key {
      return 0;
    }
    assert q == [q[0]] + q[1..];
    var j := CutOutAt(q[1..], key);
    i := j + 1;
    assert q[1..][..j] == q[1..i] && q[1..][j + 1..] == q[i + 1..];
    assert [q[0]] + (q[1..i] + q[i + 1..]) == q[..i] + q[i + 1..];
  }

  lemma QueueAfterRemove(s: State, key: Key, r: nat)
    requires InStep(s)
    ensures Queue(Remove(s, key), r) == CutOut(Queue(s, r), key)
  {
    hide SlotOf, CutOut;
    assert Matches(s, Queue(s, r), RoomSlot(r));
    if !Waits(s, key, RoomSlot(r)) {
      NotThere(Queue(s, r), key);
    }
  }

  lemma CutOutInOrder(s: State, s': State, q: seq<Key>, key: Key)
    requires InOrder(s, q) && Distinct(q) && s'.pending == s.pending - {key}
    ensures InOrder(s', CutOut(q, key))
  {
    hide CutOut;
    CutOutIs(q, key);
    hide Distinct;
    var rest := CutOut(q, key);
    if key in q {
      var at := CutOutAt(q, key);
      forall i, j | 0 <= i < j < |rest|
        ensures s.pending[rest[i]].ordinal < s.pending[rest[j]].ordinal
      {
        LeftOut(q, at, i);
        LeftOut(q, at, j);
      }
    } else {
      NotThere(q, key);
    }
    assert InOrder(s, rest);
    SamePendingInOrder(s, s', rest);
  }

  lemma LeftOut(q: seq<Key>, at: nat, i: nat)
    requires at < |q| && i < |q| - 1
    ensures (q[..at] + q[at + 1..])[i] == q[if i < at then i else i + 1]
  {
  }

  lemma SamePendingInOrder(s: State, s': State, q: seq<Key>)
    requires InOrder(s, q)
    requires forall k :: k in q ==> k in s'.pending && s'.pending[k] == s.pending[k]
    ensures InOrder(s', q)
  {
    forall i, j | 0 <= i < j < |q|
      ensures s'.pending[q[i]].ordinal < s'.pending[q[j]].ordinal
    {
      assert q[i] in q && q[j] in q;
    }
  }

  lemma RemovedIsGone(s: State, key: Key)
    ensures Remove(s, key).pending == s.pending - {key}
  {
  }

  lemma RemoveKeepsOrdered(t: Trace, key: Key)
    requires InStep(t.s) && Ordered(t)
    ensures Ordered(t.(s := Remove(t.s, key)))
  {
    hide Remove, CutOut, InOrder, LogIncreases;
    var s' := Remove(t.s, key);
    RemovedIsGone(t.s, key);
    forall r
      ensures InOrder(s', Queue(s', r))
      ensures forall k :: k in Queue(s', r) ==> k in Queue(t.s, r) && k != key
    {
      assert Matches(t.s, Queue(t.s, r), RoomSlot(r));
      QueueAfterRemove(t.s, key, r);
      CutOutInOrder(t.s, s', Queue(t.s, r), key);
      CutOutIs(Queue(t.s, r), key);
    }
  }

  lemma QueueAfterSend(s: State, e: Envelope, now: int, ordinal: nat, r: nat)
    requires Coupled(s) && Resendable(s, e) && !e.kind.Heartbeat?
    ensures Hex(e.messageId) !in Queue(s, r)
    ensures Queue(Send(s, e, now, ordinal, true), r)
         == Queue(s, r) + if SlotOf(e) == RoomSlot(r) then [Hex(e.messageId)] else []
  {
    hide SlotOf, Hex;
    assert Matches(s, Queue(s, r), RoomSlot(r));
  }

  lemma LaterKeyInOrder(s: State, s': State, q: seq<Key>, key: Key, p: Pending)
    requires InOrder(s, q) && key !in q && s'.pending == s.pending[key := p]
    requires forall k :: k in s.pending ==> s.pending[k].ordinal < p.ordinal
    ensures InOrder(s', q) && InOrder(s', q + [key])
  {
  }

  lemma SendKeepsOrdered(t: Trace, e: Envelope, now: int)
    requires Coupled(t.s) && Ordered(t) && Resendable(t.s, e) && !e.kind.Heartbeat?
    ensures Ordered(Trace(Send(t.s, e, now, t.sends, true), t.sends + 1, t.log))
  {
    hide Coupled, Resendable, InOrder, Hex, SlotOf, LogIncreases;
    var s' := Send(t.s, e, now, t.sends, true);
    var key, p := Hex(e.messageId), Pending(e, now, t.sends);
    SentIsPending(t.s, e, now, t.sends);
    forall r
      ensures InOrder(s', Queue(s', r))
      ensures forall k :: k in Queue(s', r) ==> k == key || k in Queue(t.s, r)
    {
      QueueAfterSend(t.s, e, now, t.sends, r);
      LaterKeyInOrder(t.s, s', Queue(t.s, r), key, p);
    }
  }

  lemma SentIsPending(s: State, e: Envelope, now: int, ordinal: nat)
    requires !e.kind.Heartbeat?
    ensures Send(s, e, now, ordinal, true).pending == s.pending[Hex(e.messageId) := Pending(e, now, ordinal)]
  {
  }

  // The head of a room's queue was sent after everything the room confirmed and before the rest of the queue.
  lemma RoomAckKeepsOrdered(t: Trace, room: nat)
    requires Coupled(t.s) && Ordered(t) && Queue(t.s, room) != []
    ensures Queue(t.s, room)[0] in t.s.pending
    ensures var head := Queue(t.s, room)[0];
            Ordered(Trace(Remove(t.s, head), t.sends, t.log + [Confirmed(room, t.s.pending[head].ordinal)]))
  {
    hide Remove, CutOut;
    var q := Queue(t.s, room);
    var head := q[0];
    assert Matches(t.s, q, RoomSlot(room)) && InOrder(t.s, q);
    assert Waits(t.s, head, RoomSlot(room));
    var s' := Remove(t.s, head);
    RemoveKeepsOrdered(t, head);
    RemovedIsGone(t.s, head);
    QueueAfterRemove(t.s, head, room);
    CutOutIs(q, head);
    assert AllAfter(s', Queue(s', room), t.s.pending[head].ordinal);
    LogGrows(t, room, t.s.pending[head].ordinal);
  }

  lemma LogGrows(t: Trace, room: nat, ordinal: nat)
    requires LogIncreases(t.log)
    requires forall i :: 0 <= i < |t.log| && t.log[i].room == room ==> t.log[i].ordinal < ordinal
    ensures LogIncreases(t.log + [Confirmed(room, ordinal)])
  {
  }

  lemma AckKeepsOrdered(t: Trace, ack: Ack)
    requires Coupled(t.s) && Ordered(t)
    ensures Ordered(Apply(t, AckEvent(ack)))
  {
    hide InStep, Ordered, Remove, HandleAck;
    AckRemovesTarget(t.s, ack);
    if Logged(t.s, ack) == [] {
      assert t.log + [] == t.log;
      if Target(t.s, ack).Some? {
        RemoveKeepsOrdered(t, Target(t.s, ack).value);
      }
    } else {
      RoomAckKeepsOrdered(t, Uint32(ack.roomId));
    }
  }

  lemma {:induction false} RemoveAllKeepsOrdered(t: Trace, keys: seq<Key>)
    requires Coupled(t.s) && Ordered(t)
    ensures Ordered(t.(s := RemoveAll(t.s, keys)))
    decreases |keys|
  {
    hide InStep, Ordered, Remove;
    if keys != [] {
      RemoveKeepsCoupled(t.s, keys[0]);
      RemoveKeepsOrdered(t, keys[0]);
      RemoveAllKeepsOrdered(t.(s := Remove(t.s, keys[0])), keys[1..]);
    }
  }

  lemma SendEventKeepsOrdered(t: Trace, e: Envelope, now: int, delivered: bool)
    requires Coupled(t.s) && Ordered(t) && (!e.kind.Heartbeat? ==> Resendable(t.s, e))
    ensures Ordered(Trace(Send(t.s, e, now, t.sends, delivered), t.sends + 1, t.log))
  {
    hide InStep, Remove, Resendable, Hex, Enqueue, SlotOf;
    if !e.kind.Heartbeat? {
      SendKeepsOrdered(t, e, now);
      if !delivered {
        hide Ordered;
        SendKeepsInStep(t.s, e, now, t.sends);
        RemoveKeepsOrdered(Trace(Send(t.s, e, now, t.sends, true), t.sends + 1, t.log), Hex(e.messageId));
      }
    }
  }

  lemma ApplyKeepsOrdered(t: Trace, e: Event)
    requires Coupled(t.s) && Ordered(t)
    requires e.SendEvent? && !e.envelope.kind.Heartbeat? ==>
               Resendable(t.s, e.envelope) && (e.delivered ==> IdIfQueued(e.envelope))
    ensures Ordered(Apply(t, e))
  {
    hide InStep, Ordered, Remove, RemoveAll, HandleAck, Resendable, Send;
    match e
    case SendEvent(envelope, now, delivered) => SendEventKeepsOrdered(t, envelope, now, delivered);
    case AckEvent(ack) => AckKeepsOrdered(t, ack);
    case FailEvent(key) => RemoveKeepsOrdered(t, key);
    case CleanupEvent(expired) => RemoveAllKeepsOrdered(t, expired);
  }

  lemma {:induction false} RunKeepsOrdered(t: Trace, events: seq<Event>)
    requires Coupled(t.s) && Ordered(t) && KeysAreFresh(t, events)
    ensures Ordered(Run(t, events))
    decreases |events|
  {
    hide Coupled, Ordered, Apply;
    if events != [] {
      ApplyKeepsCoupled(t, events[0]);
      ApplyKeepsOrdered(t, events[0]);
      RunKeepsOrdered(Apply(t, events[0]), events[1..]);
    }
  }

  /** Over every run of a new manager the queues stay in step, and room acknowledgements confirm in the order of sending. */
  lemma RunFromEmpty(events: seq<Event>)
    requires KeysAreFresh(EMPTY_TRACE, events)
    ensures Coupled(Run(EMPTY_TRACE, events).s)
    ensures LogIncreases(Run(EMPTY_TRACE, events).log)
  {
    hide Run, KeysAreFresh;
    EmptyIsCoupled();
    RunKeepsCoupled(EMPTY_TRACE, events);
    assert Ordered(EMPTY_TRACE);
    RunKeepsOrdered(EMPTY_TRACE, events);
  }
}

/**
 Which message a room's acknowledgement is for, said by the rooms in the message IDs: the earliest one sent to that room
 that is still pending. The same for allocations and history fetches, and for what cleaning up leaves.
 */
module AckRooms {
  import opened Bytes
  import opened GlobalId
  import opened MessageKey
  import opened AckQueues
  import opened AckTheorems
  import opened Sequences
  import opened Wrappers

  /** The room a message was sent to: the number in a create message, bytes 10 to 13 of the ID of the other kinds. */
  predicate InRoom(e: Envelope, room: nat) {
    match e.kind
    case CreateRoom(r) => r % 0x1_0000_0000 == room
    case JoinRoom | LeaveRoom | CloseRoom | ChatMessage =>
      |e.messageId| == 16 && FromBigEndian(e.messageId[10..14]) == room
    case _ => false
  }

  predicate IsFetchOf(e: Envelope, room: nat) {
    e.kind.RoomMessageFetch? && |e.messageId| == 16 && FromBigEndian(e.messageId[10..14]) == room
  }

  lemma SlotIs(e: Envelope, room: nat)
    ensures SlotOf(e) == RoomSlot(room) <==> InRoom(e, room)
    ensures SlotOf(e) == FetchSlot(room) <==> IsFetchOf(e, room)
    ensures SlotOf(e) == AllocateSlot <==> e.kind.AllocateRoomId?
  {
    hide FromBigEndian;
  }

  // ----- Sending -----

  predicate IsRoomKind(kind: Kind) {
    kind.JoinRoom? || kind.LeaveRoom? || kind.CloseRoom? || kind.ChatMessage?
  }

  lemma LayoutIsInRoom(f: Fields, kind: Kind, room: nat)
    requires f.Typed() && -0x8000_0000_0000_0000 <= f.now - EPOCH < 0x8000_0000_0000_0000
    ensures IsRoomKind(kind) ==> (InRoom(Envelope(Layout(f), kind), room) <==> room == f.roomId)
    ensures kind.RoomMessageFetch? ==> (IsFetchOf(Envelope(Layout(f), kind), room) <==> room == f.roomId)
  {
    LayoutRoundTrip(f);
    hide Layout, FromBigEndian;
  }

  /**
   A delivered room message with an ID built for a room is queued behind that room's others and in no other queue; a
   history fetch is recorded for the room of its ID. Everything else stays as it was.
   */
  lemma SentToItsRoom(s: State, f: Fields, kind: Kind, now: int, ordinal: nat, room: nat)
    requires f.Typed() && -0x8000_0000_0000_0000 <= f.now - EPOCH < 0x8000_0000_0000_0000
    requires IsRoomKind(kind) || kind.RoomMessageFetch?
    ensures var (key, r) := (Hex(Layout(f)), Send(s, Envelope(Layout(f), kind), now, ordinal, true));
            && Queue(r, room) == Queue(s, room) + (if IsRoomKind(kind) && room == f.roomId then [key] else [])
            && r.roomFetch == (if kind.RoomMessageFetch? then s.roomFetch[f.roomId := key] else s.roomFetch)
            && r.allocateQueue == s.allocateQueue
            && key in r.pending && r.pending == s.pending[key := r.pending[key]]
  {
    var e := Envelope(Layout(f), kind);
    LayoutIsInRoom(f, kind, room);
    LayoutIsInRoom(f, kind, f.roomId);
    SlotIs(e, room);
    SlotIs(e, f.roomId);
    hide SlotOf, Hex, Layout, InRoom, IsFetchOf;
    assert Queue(s, room) + [] == Queue(s, room);
  }

  /**
   Sent to a room where nothing waits, a message is what the room's next acknowledgement confirms and removes; an
   acknowledgement for another room leaves it pending.
   */
  lemma ConfirmedByItsRoom(s: State, f: Fields, kind: Kind, now: int, ordinal: nat, other: nat)
    requires f.Typed() && -0x8000_0000_0000_0000 <= f.now - EPOCH < 0x8000_0000_0000_0000 && IsRoomKind(kind)
    requires Coupled(s) && Hex(Layout(f)) !in s.pending && Queue(s, f.roomId) == []
    requires other % 0x1_0000_0000 != f.roomId
    ensures var (key, r) := (Hex(Layout(f)), Send(s, Envelope(Layout(f), kind), now, ordinal, true));
            && Confirms(r, RoomAck(f.roomId)) && Target(r, RoomAck(f.roomId)) == Some(key)
            && HandleAck(r, RoomAck(f.roomId)).pending == s.pending
            && Target(r, RoomAck(other)) != Some(key) && key in HandleAck(r, RoomAck(other)).pending
  {
    var e := Envelope(Layout(f), kind);
    var key, r := Hex(e.messageId), Send(s, e, now, ordinal, true);
    SmallRoom(f);
    hide *;
    hide Fields.Typed;
    SentToItsRoom(s, f, kind, now, ordinal, f.roomId);
    SentToItsRoom(s, f, kind, now, ordinal, other % 0x1_0000_0000);
    LayoutHasKey(f);
    OthersQueued(s, other % 0x1_0000_0000, key);
    OnlyThis(key);
    AloneInQueue(s, r, f.roomId, other, key);
  }

  lemma SmallRoom(f: Fields)
    requires f.Typed()
    ensures f.roomId % 0x1_0000_0000 == f.roomId
  {
  }

  lemma LayoutHasKey(f: Fields)
    ensures Hex(Layout(f)) != ""
  {
    HexIsEmpty(Layout(f));
    hide Layout, Hex;
  }

  lemma OnlyThis(key: Key)
    ensures [] + [key] == [key]
  {
  }

  lemma AloneInQueue(s: State, r: State, room: nat, other: nat, key: Key)
    requires key !in s.pending && key in r.pending && r.pending == s.pending[key := r.pending[key]] && key != ""
    requires Queue(r, room % 0x1_0000_0000) == [key] && key !in Queue(r, other % 0x1_0000_0000)
    ensures Confirms(r, RoomAck(room)) && Target(r, RoomAck(room)) == Some(key)
    ensures HandleAck(r, RoomAck(room)).pending == s.pending
    ensures Target(r, RoomAck(other)) != Some(key) && key in HandleAck(r, RoomAck(other)).pending
  {
    RoomAckDoes(r, room);
    RoomAckDoes(r, other);
    hide *;
    assert s.pending[key := r.pending[key]] - {key} == s.pending;
    var q := Queue(r, other % 0x1_0000_0000);
    assert q != [] ==> q[0] in q;
  }

  lemma OthersQueued(s: State, room: nat, key: Key)
    requires Coupled(s) && key !in s.pending
    ensures key !in Queue(s, room)
    ensures Queue(s, room) + [] == Queue(s, room)
  {
    assert Matches(s, Queue(s, room), RoomSlot(room));
  }

  // What a room's acknowledgement does to the pending messages.
  lemma RoomAckDoes(s: State, room: nat)
    ensures var q := Queue(s, room % 0x1_0000_0000);
            && Target(s, RoomAck(room)) == (if q == [] then None else Some(q[0]))
            && HandleAck(s, RoomAck(room)).pending == (if q == [] || q[0] == "" then s.pending else s.pending - {q[0]})
            && (Confirms(s, RoomAck(room)) <==> q != [] && q[0] != "" && q[0] in s.pending)
  {
    if Queue(s, Uint32(room)) != [] {
      RemovedIsGone(s, Queue(s, Uint32(room))[0]);
    }
    hide Remove;
  }

  // ----- Acknowledgements -----

  /** Of the pending messages of the given kind, the key's is the one sent first. */
  ghost predicate EarliestOf(s: State, key: Key, chosen: Envelope -> bool) {
    && key in s.pending && chosen(s.pending[key].envelope)
    && forall k :: k in s.pending && chosen(s.pending[k].envelope) ==> s.pending[key].ordinal <= s.pending[k].ordinal
  }

  // The head of a queue in step and in order is the earliest of the messages that wait there.
  lemma HeadIsEarliest(s: State, q: seq<Key>, slot: Slot, chosen: Envelope -> bool)
    requires Matches(s, q, slot) && InOrder(s, q) && forall e :: chosen(e) <==> SlotOf(e) == slot
    ensures q != [] <==> exists k :: k in s.pending && chosen(s.pending[k].envelope)
    ensures q != [] ==> EarliestOf(s, q[0], chosen)
  {
    hide SlotOf;
    if q != [] {
      assert q[0] in q && Waits(s, q[0], slot);
      forall k | k in s.pending && chosen(s.pending[k].envelope)
        ensures s.pending[q[0]].ordinal <= s.pending[k].ordinal
      {
        assert Waits(s, k, slot) && k in q;
        var i :| 0 <= i < |q| && q[i] == k;
      }
    }
    if k :| k in s.pending && chosen(s.pending[k].envelope) {
      assert Waits(s, k, slot) && k in q;
    }
  }

  /**
   In step, and with the queues in the order of sending, a room's acknowledgement confirms a message if and only if one is
   pending for that room, and then the one sent first: that one is removed and no other.
   */
  lemma RoomAckConfirmsEarliest(t: Trace, room: nat)
    requires Coupled(t.s) && Ordered(t)
    ensures var (s, r) := (t.s, room % 0x1_0000_0000);
            && (Confirms(s, RoomAck(room)) <==> exists k :: k in s.pending && InRoom(s.pending[k].envelope, r))
            && if Confirms(s, RoomAck(room)) then
                 var target := Target(s, RoomAck(room));
                 && target.Some? && EarliestOf(s, target.value, e => InRoom(e, r))
                 && HandleAck(s, RoomAck(room)).pending == s.pending - {target.value}
               else HandleAck(s, RoomAck(room)).pending == s.pending
  {
    var s, r := t.s, room % 0x1_0000_0000;
    var q := Queue(s, r);
    forall e
      ensures SlotOf(e) == RoomSlot(r) <==> InRoom(e, r)
    {
      SlotIs(e, r);
    }
    assert Matches(s, q, RoomSlot(r)) && InOrder(s, q);
    if q != [] {
      HeadHasKey(s, q, RoomSlot(r));
    }
    RoomAckDoes(s, room);
    hide Ordered, Coupled, InRoom, SlotOf, Confirms, Target, HandleAck, Matches, InOrder, EarliestOf, Queue;
    var chosen := e => InRoom(e, r);
    HeadIsEarliest(s, q, RoomSlot(r), chosen);
    SameChoice(s, q, chosen, r);
  }

  lemma SameChoice(s: State, q: seq<Key>, chosen: Envelope -> bool, r: nat)
    requires chosen == (e => InRoom(e, r))
    ensures (exists k :: k in s.pending && chosen(s.pending[k].envelope)) <==>
            exists k :: k in s.pending && InRoom(s.pending[k].envelope, r)
  {
  }

  lemma HeadHasKey(s: State, q: seq<Key>, slot: Slot)
    requires Coupled(s) && Matches(s, q, slot) && slot != NoSlot && q != []
    ensures q[0] != "" && q[0] in s.pending
  {
    assert q[0] in q && Waits(s, q[0], slot);
  }

  // ----- Allocations -----

  // The allocation queue follows the order of sending.
  ghost predicate AllocationsOrdered(t: Trace) {
    && (forall k :: k in t.s.pending ==> t.s.pending[k].ordinal < t.sends)
    && InOrder(t.s, t.s.allocateQueue)
  }

  lemma RemoveKeepsAllocations(t: Trace, key: Key)
    requires InStep(t.s) && AllocationsOrdered(t)
    ensures AllocationsOrdered(t.(s := Remove(t.s, key)))
  {
    hide CutOut, InOrder, SlotOf;
    var s' := Remove(t.s, key);
    RemovedIsGone(t.s, key);
    if key in t.s.pending {
      QueuesAfterRemoval(t.s, key, 0);
      if !Waits(t.s, key, AllocateSlot) {
        NotThere(t.s.allocateQueue, key);
      }
      hide Remove;
      CutOutInOrder(t.s, s', t.s.allocateQueue, key);
    }
  }

  lemma SendKeepsAllocations(t: Trace, e: Envelope, now: int, delivered: bool)
    requires Coupled(t.s) && AllocationsOrdered(t) && (!e.kind.Heartbeat? ==> Resendable(t.s, e))
    ensures AllocationsOrdered(Trace(Send(t.s, e, now, t.sends, delivered), t.sends + 1, t.log))
  {
    hide InOrder, Hex, CutOut, SlotOf, Remove;
    if !e.kind.Heartbeat? {
      var key := Hex(e.messageId);
      var s1 := Send(t.s, e, now, t.sends, true);
      SentIsPending(t.s, e, now, t.sends);
      SendKeepsInStep(t.s, e, now, t.sends);
      QueuesAfterSend(t.s, e, now, t.sends, true, 0);
      assert key !in t.s.allocateQueue;
      LaterKeyInOrder(t.s, s1, t.s.allocateQueue, key, Pending(e, now, t.sends));
      var t1 := Trace(s1, t.sends + 1, t.log);
      assert AllocationsOrdered(t1);
      if !delivered {
        hide AllocationsOrdered;
        RemoveKeepsAllocations(t1, key);
        RefusedIsRemoved(t.s, e, now, t.sends);
      }
    }
  }

  lemma RefusedIsRemoved(s: State, e: Envelope, now: int, ordinal: nat)
    requires !e.kind.Heartbeat?
    ensures Send(s, e, now, ordinal, false) == Remove(Send(s, e, now, ordinal, true), Hex(e.messageId))
  {
    hide Remove, Enqueue, Hex;
  }

  lemma {:induction false} RemoveAllKeepsAllocations(t: Trace, keys: seq<Key>)
    requires Coupled(t.s) && AllocationsOrdered(t)
    ensures AllocationsOrdered(t.(s := RemoveAll(t.s, keys)))
    decreases |keys|
  {
    hide Coupled, AllocationsOrdered, Remove;
    if keys != [] {
      CoupledIsInStep(t.s);
      RemoveKeepsCoupled(t.s, keys[0]);
      RemoveKeepsAllocations(t, keys[0]);
      RemoveAllKeepsAllocations(t.(s := Remove(t.s, keys[0])), keys[1..]);
    }
  }

  lemma CoupledIsInStep(s: State)
    requires Coupled(s)
    ensures InStep(s)
  {
  }

  // What was confirmed before does not matter here.
  lemma LogIsNoMatter(t: Trace, log: seq<Confirmed>)
    requires AllocationsOrdered(t)
    ensures AllocationsOrdered(t.(log := log))
  {
  }

  lemma ApplyKeepsAllocations(t: Trace, e: Event)
    requires Coupled(t.s) && AllocationsOrdered(t)
    requires e.SendEvent? && !e.envelope.kind.Heartbeat? ==> Resendable(t.s, e.envelope)
    ensures AllocationsOrdered(Apply(t, e))
  {
    CoupledIsInStep(t.s);
    hide Coupled, InStep, AllocationsOrdered, Remove, RemoveAll, HandleAck, Resendable, Send, Target, Logged;
    match e
    case SendEvent(envelope, now, delivered) => SendKeepsAllocations(t, envelope, now, delivered);
    case AckEvent(ack) =>
      AckRemovesTarget(t.s, ack);
      if Target(t.s, ack).Some? {
        RemoveKeepsAllocations(t, Target(t.s, ack).value);
      }
      LogIsNoMatter(t.(s := HandleAck(t.s, ack)), t.log + Logged(t.s, ack));
    case FailEvent(key) => RemoveKeepsAllocations(t, key);
    case CleanupEvent(expired) => RemoveAllKeepsAllocations(t, expired);
  }

  lemma {:induction false} RunKeepsAllocations(t: Trace, events: seq<Event>)
    requires Coupled(t.s) && AllocationsOrdered(t) && KeysAreFresh(t, events)
    ensures AllocationsOrdered(Run(t, events))
    decreases |events|
  {
    hide Coupled, AllocationsOrdered, Apply;
    if events != [] {
      ApplyKeepsCoupled(t, events[0]);
      ApplyKeepsAllocations(t, events[0]);
      RunKeepsAllocations(Apply(t, events[0]), events[1..]);
    }
  }

  /** An allocation acknowledgement, which names nothing, confirms the earliest allocation that is pending, if there is one. */
  lemma AllocateAckConfirmsEarliest(t: Trace)
    requires Coupled(t.s) && AllocationsOrdered(t)
    ensures var s := t.s;
            && (Confirms(s, AllocateAck) <==> exists k :: k in s.pending && s.pending[k].envelope.kind.AllocateRoomId?)
            && if Confirms(s, AllocateAck) then
                 var target := Target(s, AllocateAck);
                 && target.Some? && EarliestOf(s, target.value, (e: Envelope) => e.kind.AllocateRoomId?)
                 && HandleAck(s, AllocateAck).pending == s.pending - {target.value}
               else HandleAck(s, AllocateAck).pending == s.pending
  {
    var s := t.s;
    var q, chosen := s.allocateQueue, (e: Envelope) => e.kind.AllocateRoomId?;
    assert Matches(s, q, AllocateSlot) && InOrder(s, q);
    forall e
      ensures SlotOf(e) == AllocateSlot <==> e.kind.AllocateRoomId?
    {
      SlotIs(e, 0);
    }
    if q != [] {
      HeadHasKey(s, q, AllocateSlot);
      RemovedIsGone(s, q[0]);
    }
    AckRemovesTarget(s, AllocateAck);
    hide Coupled, SlotOf, Remove, Matches, InOrder, HandleAck, EarliestOf;
    HeadIsEarliest(s, q, AllocateSlot, chosen);
  }

  /** From a new manager on, both hold in every run whose sends use keys that may be used again. */
  lemma EarliestFromEmpty(events: seq<Event>, room: nat)
    requires KeysAreFresh(EMPTY_TRACE, events)
    ensures var s := Run(EMPTY_TRACE, events).s;
            && (Confirms(s, RoomAck(room)) <==>
                  exists k :: k in s.pending && InRoom(s.pending[k].envelope, room % 0x1_0000_0000))
            && (Confirms(s, RoomAck(room)) ==>
                  && Target(s, RoomAck(room)).Some?
                  && EarliestOf(s, Target(s, RoomAck(room)).value, e => InRoom(e, room % 0x1_0000_0000)))
            && (Confirms(s, AllocateAck) <==> exists k :: k in s.pending && s.pending[k].envelope.kind.AllocateRoomId?)
            && (Confirms(s, AllocateAck) ==>
                  && Target(s, AllocateAck).Some?
                  && EarliestOf(s, Target(s, AllocateAck).value, (e: Envelope) => e.kind.AllocateRoomId?))
  {
    var t := Run(EMPTY_TRACE, events);
    EmptyIsCoupled();
    assert Ordered(EMPTY_TRACE) && AllocationsOrdered(EMPTY_TRACE);
    hide *;
    RunKeepsCoupled(EMPTY_TRACE, events);
    RunKeepsOrdered(EMPTY_TRACE, events);
    RunKeepsAllocations(EMPTY_TRACE, events);
    RoomAckConfirmsEarliest(t, room);
    AllocateAckConfirmsEarliest(t);
  }

  // ----- Fetches -----

  /** A room's history response confirms the fetch recorded last for the room, and the record goes with it. */
  lemma FetchResponseConfirms(s: State, room: nat)
    requires Coupled(s)
    ensures var (r, ack) := (room % 0x1_0000_0000, RoomFetchResponse(room));
            && (Confirms(s, ack) <==> r in s.roomFetch)
            && (r in s.roomFetch ==>
                  && Target(s, ack) == Some(s.roomFetch[r]) && s.roomFetch[r] in s.pending
                  && IsFetchOf(s.pending[s.roomFetch[r]].envelope, r)
                  && HandleAck(s, ack).pending == s.pending - {s.roomFetch[r]})
            && r !in HandleAck(s, ack).roomFetch
  {
    var r := Uint32(room);
    AckRemovesTarget(s, RoomFetchResponse(room));
    if r in s.roomFetch {
      var key := s.roomFetch[r];
      assert Waits(s, key, FetchSlot(r));
      SlotIs(s.pending[key].envelope, r);
      RemovedIsGone(s, key);
    }
    hide SlotOf, IsFetchOf;
  }

  /** A message that leaves takes the record of its room's fetch along only if the record is its own. */
  lemma OtherFetchesStay(s: State, key: Key, room: nat)
    ensures var r := Remove(s, key);
            && (room in r.roomFetch <==>
                  && room in s.roomFetch
                  && !(key in s.pending && IsFetchOf(s.pending[key].envelope, room) && s.roomFetch[room] == key))
            && (room in r.roomFetch ==> r.roomFetch[room] == s.roomFetch[room])
  {
    if key in s.pending {
      SlotIs(s.pending[key].envelope, room);
    }
    hide SlotOf, IsFetchOf, CutOut;
  }

  /** The answer to a question about one message takes it out of the pending ones, and confirms it if it exists. */
  lemma FetchAnswerDecides(s: State, id: bytes, exists_: bool)
    ensures var ack := MessageFetchResponse(id, exists_);
            && (Confirms(s, ack) <==> exists_ && Hex(id) in s.pending)
            && HandleAck(s, ack).pending == s.pending - {Hex(id)}
  {
    RemovedIsGone(s, Hex(id));
    hide Hex, Remove;
  }

  // ----- Cleaning up -----

  lemma {:induction false} RemoveAllRemoves(s: State, keys: seq<Key>)
    ensures var r := RemoveAll(s, keys);
            && (forall k :: k in r.pending <==> k in s.pending && k !in keys)
            && forall k :: k in r.pending ==> r.pending[k] == s.pending[k]
    decreases |keys|
  {
    if keys != [] {
      RemovedIsGone(s, keys[0]);
      assert keys == [keys[0]] + keys[1..];
      hide Remove;
      RemoveAllRemoves(Remove(s, keys[0]), keys[1..]);
    }
  }

  /** After a cleanup no message is pending that was sent more than five minutes ago, and every other one is, as it was. */
  lemma CleanupLeavesRecent(s: State, now: int, keys: seq<Key>)
    requires forall k :: k in keys <==> Expired(s, now, k)
    ensures var r := RemoveAll(s, keys);
            && (forall k :: k in r.pending <==> k in s.pending && now - s.pending[k].sentTime <= 300_000)
            && forall k :: k in r.pending ==> r.pending[k] == s.pending[k]
  {
    RemoveAllRemoves(s, keys);
  }
}

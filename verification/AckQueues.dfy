/**
 The client's reliability manager: the map of messages waiting for an acknowledgement, and the queues that say
 which of them the next acknowledgement is for, as functions of the state.
 */
module AckQueues {
  import opened Bytes
  import opened GlobalId
  import opened MessageKey
  import opened Wrappers
  import opened Sequences

  datatype Kind =
    | AllocateRoomId
    | RoomMessageFetch
    | CreateRoom(roomId: nat)
    | JoinRoom
    | LeaveRoom
    | CloseRoom
    | ChatMessage
    | Heartbeat
    | OtherKind

  datatype Envelope = Envelope(messageId: bytes, kind: Kind)

  /** Where a message waits for its acknowledgement. */
  datatype Slot = AllocateSlot | FetchSlot(room: nat) | RoomSlot(room: nat) | NoSlot

  function Uint32(n: nat): nat {
    n % 0x1_0000_0000
  }

  function RoomOfId(id: bytes): Option<nat> {
    match FromBytes(id)
    case Some(g) => Some(ExtractRoomId(g))
    case None => None
  }

  function SlotOf(e: Envelope): Slot {
    match e.kind
    case AllocateRoomId => AllocateSlot
    case RoomMessageFetch => (match RoomOfId(e.messageId) case Some(r) => FetchSlot(r) case None => NoSlot)
    case CreateRoom(r) => RoomSlot(Uint32(r))
    case JoinRoom | LeaveRoom | CloseRoom | ChatMessage =>
      (match RoomOfId(e.messageId) case Some(r) => RoomSlot(r) case None => NoSlot)
    case _ => NoSlot
  }

  /** A pending message; ordinal counts the sends, it is not part of the source's record. */
  datatype Pending = Pending(envelope: Envelope, sentTime: int, ordinal: nat)

  datatype State = State(
    pending: map<Key, Pending>, roomQueues: map<nat, seq<Key>>, allocateQueue: seq<Key>, roomFetch: map<nat, Key>)

  const EMPTY_STATE := State(map[], map[], [], map[])

  function Queue(s: State, room: nat): seq<Key> {
    if room in s.roomQueues then s.roomQueues[room] else []
  }

  /** enqueueForACKMatching. */
  function Enqueue(s: State, slot: Slot, key: Key): State {
    match slot
    case AllocateSlot => s.(allocateQueue := s.allocateQueue + [key])
    case FetchSlot(r) => s.(roomFetch := s.roomFetch[r := key])
    case RoomSlot(r) => s.(roomQueues := s.roomQueues[r := Queue(s, r) + [key]])
    case NoSlot => s
  }

  /** Taking a key out of the queue its message waits in. */
  function Unqueue(s: State, slot: Slot, key: Key): State {
    match slot
    case AllocateSlot => s.(allocateQueue := CutOut(s.allocateQueue, key))
    case FetchSlot(r) => if r in s.roomFetch && s.roomFetch[r] == key then s.(roomFetch := s.roomFetch - {r}) else s
    case RoomSlot(r) =>
      var q := CutOut(Queue(s, r), key);
      s.(roomQueues := if q == [] then s.roomQueues - {r} else s.roomQueues[r := q])
    case NoSlot => s
  }

  /** removePendingMessage. */
  function Remove(s: State, key: Key): State {
    if key in s.pending then
      Unqueue(s.(pending := s.pending - {key}), SlotOf(s.pending[key].envelope), key)
    else s
  }

  /** SendMessage; delivered says whether the connection took the bytes. */
  function Send(s: State, e: Envelope, now: int, ordinal: nat, delivered: bool): State {
    if e.kind.Heartbeat? then s
    else
      var key := Hex(e.messageId);
      var s1 := Enqueue(s.(pending := s.pending[key := Pending(e, now, ordinal)]), SlotOf(e), key);
      if delivered then s1 else Remove(s1, key)
  }

  /** What comes back from the server; acknowledgements of room messages only name the room. */
  datatype Ack =
    | AllocateAck
    | RoomAck(roomId: nat)
    | RoomFetchResponse(roomId: nat)
    | MessageFetchResponse(messageId: bytes, exists_: bool)
    | HeartbeatAck
    | NotAnAck

  /** The message an acknowledgement confirms or rejects, if any. */
  function Target(s: State, ack: Ack): Option<Key> {
    match ack
    case AllocateAck => if s.allocateQueue == [] then None else Some(s.allocateQueue[0])
    case RoomAck(r) => if Queue(s, Uint32(r)) == [] then None else Some(Queue(s, Uint32(r))[0])
    case RoomFetchResponse(r) => if Uint32(r) in s.roomFetch then Some(s.roomFetch[Uint32(r)]) else None
    case MessageFetchResponse(id, _) => Some(Hex(id))
    case HeartbeatAck => None
    case NotAnAck => None
  }

  /** HandleACK: the queue entry goes first where the source pops it first, then the pending message. */
  function HandleAck(s: State, ack: Ack): State {
    var target := Target(s, ack);
    var s1 :=
      match ack
      case AllocateAck => if target.Some? then s.(allocateQueue := s.allocateQueue[1..]) else s
      case RoomFetchResponse(r) => s.(roomFetch := s.roomFetch - {Uint32(r)})
      case _ => s;
    if target.Some? && (target.value != "" || ack.MessageFetchResponse?) then Remove(s1, target.value) else s1
  }

  /** Whether HandleACK reports the message delivered. */
  predicate Confirms(s: State, ack: Ack) {
    var target := Target(s, ack);
    && target.Some? && target.value in s.pending
    && (ack.MessageFetchResponse? ==> ack.exists_)
    && (!ack.MessageFetchResponse? ==> target.value != "")
  }

  /** cleanup: every expired key is removed in turn. */
  function RemoveAll(s: State, keys: seq<Key>): State
    decreases |keys|
  {
    if keys == [] then s else RemoveAll(Remove(s, keys[0]), keys[1..])
  }

  const MAX_AGE := 300_000

  predicate Expired(s: State, now: int, key: Key) {
    key in s.pending && now - s.pending[key].sentTime > MAX_AGE
  }

  // ----- The object -----

  class ReliabilityManager {
    var pendingMessages: map<Key, Pending>
    var roomPendingQueues: map<nat, seq<Key>>
    var allocateQueue: seq<Key>
    var roomFetchPending: map<nat, Key>

    constructor ()
      ensures St() == EMPTY_STATE
    {
      pendingMessages, roomPendingQueues, allocateQueue, roomFetchPending := map[], map[], [], map[];
    }

    function St(): State
      reads this
    {
      State(pendingMessages, roomPendingQueues, allocateQueue, roomFetchPending)
    }

    method SendMessage(e: Envelope, now: int, ordinal: nat, delivered: bool) returns (ok: bool)
      modifies this
      ensures St() == Send(old(St()), e, now, ordinal, delivered) && ok == delivered
    {
      if e.kind.Heartbeat? {
        return delivered;
      }
      var key := Hex(e.messageId);
      pendingMessages := pendingMessages[key := Pending(e, now, ordinal)];
      EnqueueForAckMatching(e, key);
      if !delivered {
        var p := RemovePendingMessage(key);
        return false;
      }
      return true;
    }

    method EnqueueForAckMatching(e: Envelope, key: Key)
      modifies this
      ensures St() == Enqueue(old(St()), SlotOf(e), key)
    {
      match SlotOf(e)
      case AllocateSlot => allocateQueue := allocateQueue + [key];
      case FetchSlot(r) => roomFetchPending := roomFetchPending[r := key];
      case RoomSlot(r) =>
        var queue := if r in roomPendingQueues then roomPendingQueues[r] else [];
        roomPendingQueues := roomPendingQueues[r := queue + [key]];
      case NoSlot =>
    }

    method RemovePendingMessage(key: Key) returns (p: Option<Pending>)
      modifies this
      ensures St() == Remove(old(St()), key)
      ensures p == if key in old(pendingMessages) then Some(old(pendingMessages)[key]) else None
    {
      if key !in pendingMessages {
        return None;
      }
      p := Some(pendingMessages[key]);
      pendingMessages := pendingMessages - {key};
      match SlotOf(p.value.envelope)
      case AllocateSlot =>
        allocateQueue := CutOutInPlace(allocateQueue, key);
      case FetchSlot(r) =>
        if r in roomFetchPending && roomFetchPending[r] == key {
          roomFetchPending := roomFetchPending - {r};
        }
      case RoomSlot(r) =>
        var queue := if r in roomPendingQueues then roomPendingQueues[r] else [];
        queue := CutOutInPlace(queue, key);
        if |queue| == 0 {
          roomPendingQueues := roomPendingQueues - {r};
        } else {
          roomPendingQueues := roomPendingQueues[r := queue];
        }
      case NoSlot =>
    }

    // The loop that finds the key and closes the gap.
    static method CutOutInPlace(queue: seq<Key>, key: Key) returns (r: seq<Key>)
      ensures r == CutOut(queue, key)
    {
      assert queue[0..] == queue && queue[..0] == [];
      var i := 0;
      while i < |queue|
        invariant 0 <= i <= |queue|
        invariant CutOut(queue, key) == queue[..i] + CutOut(queue[i..], key)
      {
        assert queue[i..][0] == queue[i] && queue[i..][1..] == queue[i + 1..];
        if queue[i] == key {
          return queue[..i] + queue[i + 1..];
        }
        assert queue[..i] + ([queue[i]] + CutOut(queue[i + 1..], key)) == queue[..i + 1] + CutOut(queue[i + 1..], key);
        i := i + 1;
      }
      assert queue[..i] + [] == queue;
      return queue;
    }

    /** The message confirmed, if any; the result says whether the envelope was an acknowledgement. */
    method HandleAckEnvelope(ack: Ack) returns (handled: bool, confirmed: Option<Key>)
      modifies this
      ensures handled == !ack.NotAnAck?
      ensures St() == HandleAck(old(St()), ack)
      ensures confirmed == if Confirms(old(St()), ack) then Target(old(St()), ack) else None
    {
      hide Remove, Hex;
      confirmed := None;
      if ack.NotAnAck? {
        return false, None;
      }
      if ack.MessageFetchResponse? {
        var key := Hex(ack.messageId);
        NothingToRemove(St(), key);
        if key !in pendingMessages {
          return true, None;
        }
        var p := RemovePendingMessage(key);
        if ack.exists_ {
          confirmed := Some(key);
        }
        return true, confirmed;
      }
      if ack.RoomFetchResponse? {
        var room := Uint32(ack.roomId);
        var key := if room in roomFetchPending then roomFetchPending[room] else "";
        roomFetchPending := roomFetchPending - {room};
        if key == "" {
          return true, None;
        }
        var p := RemovePendingMessage(key);
        if p.Some? {
          confirmed := Some(key);
        }
        return true, confirmed;
      }
      var key := GetOriginalMessageKey(ack);
      if key == "" {
        return true, None;
      }
      var p := RemovePendingMessage(key);
      if p.Some? {
        confirmed := Some(key);
      }
      return true, confirmed;
    }

    method GetOriginalMessageKey(ack: Ack) returns (key: Key)
      requires ack.AllocateAck? || ack.RoomAck? || ack.HeartbeatAck?
      modifies `allocateQueue
      ensures var target := Target(old(St()), ack);
              && key == (if target.Some? then target.value else "")
              && allocateQueue == if ack.AllocateAck? && target.Some? then old(allocateQueue)[1..] else old(allocateQueue)
    {
      if ack.AllocateAck? {
        if |allocateQueue| == 0 {
          return "";
        }
        key := allocateQueue[0];
        allocateQueue := allocateQueue[1..];
        return;
      }
      if ack.HeartbeatAck? {
        return "";
      }
      var room := Uint32(ack.roomId);
      var queue := if room in roomPendingQueues then roomPendingQueues[room] else [];
      if |queue| == 0 {
        return "";
      }
      return queue[0];
    }

    /** cleanup; keys is the order in which the runtime enumerates the expired messages. */
    method Cleanup(now: int, keys: seq<Key>)
      requires forall k :: k in keys <==> Expired(St(), now, k)
      modifies this
      ensures St() == RemoveAll(old(St()), keys)
    {
      assert keys[0..] == keys;
      for i := 0 to |keys|
        invariant RemoveAll(St(), keys[i..]) == RemoveAll(old(St()), keys)
      {
        assert keys[i..][0] == keys[i] && keys[i..][1..] == keys[i + 1..];
        var p := RemovePendingMessage(keys[i]);
      }
    }
  }

  lemma NothingToRemove(s: State, key: Key)
    ensures key !in s.pending ==> Remove(s, key) == s
  {
  }
}

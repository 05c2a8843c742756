/**
 The in-memory index of room members: from room to members and from user to rooms, with its counters.
 The functions say what one call does to the state; the class is proved against them.
 */
module Membership {
  import opened Sequences
  import opened Words

  datatype Details = Details(role: int, joinedAt: int, isViewer: bool, isPlayer: bool, permission: int)

  datatype LiveMember =
    LiveMember(userId: nat, loginId: nat, connId: string, lastSeen: int, online: bool, details: Details)

  datatype MemberSet = MemberSet(members: map<nat, LiveMember>, count: int, hot: set<nat>, lastUpdate: int)

  datatype State = State(rooms: map<nat, MemberSet>, userRooms: map<nat, seq<nat>>, totalMembers: int)

  const EMPTY_STATE := State(map[], map[], 0)

  datatype Removal = Removed | RoomNotFound | UserNotFound

  function Members(s: State, room: nat): map<nat, LiveMember> {
    if room in s.rooms then s.rooms[room].members else map[]
  }

  function RoomsOf(s: State, user: nat): seq<nat> {
    if user in s.userRooms then s.userRooms[user] else []
  }

  /** What joining again changes of a member. */
  function Rejoined(was: LiveMember, m: LiveMember): LiveMember {
    was.(loginId := m.loginId, connId := m.connId, lastSeen := m.lastSeen, online := true)
  }

  const EMPTY_ROOM := MemberSet(map[], 0, {}, 0)

  /** A user joins a room, or joins it again. */
  function Joined(r: MemberSet, m: LiveMember, now: int): MemberSet {
    var u := m.userId;
    if u in r.members then MemberSet(r.members[u := Rejoined(r.members[u], m)], r.count, r.hot + {u}, now)
    else MemberSet(r.members[u := m], Int32(r.count + 1), r.hot + {u}, now)
  }

  /** A member leaves a room. */
  function Left(r: MemberSet, user: nat, now: int): MemberSet {
    MemberSet(r.members - {user}, Int32(r.count - 1), r.hot - {user}, now)
  }

  /** AddMember. */
  function Add(s: State, room: nat, m: LiveMember, now: int): State {
    var u := m.userId;
    var before := if room in s.rooms then s.rooms[room] else EMPTY_ROOM;
    var s1 := s.(rooms := s.rooms[room := Joined(before, m, now)]);
    if u in before.members then s1
    else s1.(userRooms := s.userRooms[u := RoomsOf(s, u) + [room]], totalMembers := Int64(s.totalMembers + 1))
  }

  /** RemoveMember. */
  function Remove(s: State, room: nat, user: nat, now: int): (State, Removal) {
    if room !in s.rooms then (s, RoomNotFound)
    else if user !in s.rooms[room].members then (s, UserNotFound)
    else
      var q := RoomsOf(s, user);
      (State(s.rooms[room := Left(s.rooms[room], user, now)],
             if room in q then s.userRooms[user := CutOut(q, room)] else s.userRooms,
             Int64(s.totalMembers - 1)), Removed)
  }

  // ----- The object -----

  class MemoryMemberManager {
    var roomMembers: map<nat, MemberSet>
    var userRooms: map<nat, seq<nat>>
    var totalMembers: int

    constructor ()
      ensures St() == EMPTY_STATE
    {
      roomMembers, userRooms, totalMembers := map[], map[], 0;
    }

    function St(): State
      reads this
    {
      State(roomMembers, userRooms, totalMembers)
    }

    method AddMember(room: nat, member: LiveMember, now: int)
      modifies this
      ensures St() == Add(old(St()), room, member, now)
    {
      var memberSet := EMPTY_ROOM;
      if room in roomMembers {
        memberSet := roomMembers[room];
      }
      var u := member.userId;
      if u in memberSet.members {
        var existing := memberSet.members[u];
        existing := existing.(loginId := member.loginId);
        existing := existing.(connId := member.connId);
        existing := existing.(lastSeen := member.lastSeen);
        existing := existing.(online := true);
        memberSet := memberSet.(members := memberSet.members[u := existing]);
      } else {
        memberSet := memberSet.(members := memberSet.members[u := member], count := Int32(memberSet.count + 1));
        totalMembers := Int64(totalMembers + 1);
        var rooms := if u in userRooms then userRooms[u] else [];
        userRooms := userRooms[u := rooms + [room]];
      }
      memberSet := memberSet.(hot := memberSet.hot + {u}, lastUpdate := now);
      roomMembers := roomMembers[room := memberSet];
    }

    method RemoveMember(room: nat, user: nat, now: int) returns (r: Removal)
      modifies this
      ensures (St(), r) == Remove(old(St()), room, user, now)
    {
      if room !in roomMembers {
        return RoomNotFound;
      }
      var memberSet := roomMembers[room];
      if user !in memberSet.members {
        return UserNotFound;
      }
      memberSet := MemberSet(memberSet.members - {user}, Int32(memberSet.count - 1), memberSet.hot - {user}, now);
      totalMembers := Int64(totalMembers - 1);
      var rooms := if user in userRooms then userRooms[user] else [];
      var found, rest := CutOutInPlace(rooms, room);
      if found {
        userRooms := userRooms[user := rest];
      }
      roomMembers := roomMembers[room := memberSet];
      return Removed;
    }

    // The loop that finds the room in the user's list and closes the gap.
    static method CutOutInPlace(rooms: seq<nat>, room: nat) returns (found: bool, r: seq<nat>)
      ensures found == (room in rooms) && (found ==> r == CutOut(rooms, room))
    {
      assert rooms[0..] == rooms && rooms[..0] == [];
      for i := 0 to |rooms|
        invariant room !in rooms[..i]
        invariant CutOut(rooms, room) == rooms[..i] + CutOut(rooms[i..], room)
      {
        assert rooms[i..][0] == rooms[i] && rooms[i..][1..] == rooms[i + 1..];
        if rooms[i] == room {
          return true, rooms[..i] + rooms[i + 1..];
        }
        assert rooms[..i] + ([rooms[i]] + CutOut(rooms[i + 1..], room)) == rooms[..i + 1] + CutOut(rooms[i + 1..], room);
        assert rooms[..i + 1] == rooms[..i] + [rooms[i]];
      }
      assert rooms[..|rooms|] == rooms;
      return false, rooms;
    }

    /** On an index in step, the count is the number of members in the room, as a 32-bit number. */
    method GetMemberCount(room: nat) returns (count: int)
      requires Indexed(St())
      ensures count == Int32(|Members(St(), room)|)
    {
      if room in roomMembers {
        return roomMembers[room].count;
      }
      return 0;
    }
  }

  // ----- The invariant -----

  predicate IsMember(s: State, room: nat, user: nat) {
    user in Members(s, room)
  }

  function Memberships(s: State): set<(nat, nat)> {
    set room, user | room in s.rooms && user in s.rooms[room].members :: (room, user)
  }

  /** The room's count and set of active users agree with its members, who are filed under their own numbers. */
  predicate RoomInStep(r: MemberSet) {
    && r.count == Int32(|r.members|) && r.hot == r.members.Keys
    && forall u :: u in r.members ==> r.members[u].userId == u
  }

  /** A room is in a user's list exactly once if the user is in the room's members, and not at all otherwise. */
  ghost predicate ListsInStep(s: State) {
    forall room, user :: multiset(RoomsOf(s, user))[room] == if IsMember(s, room, user) then 1 else 0
  }

  /** The lists and the rooms are in step, and the total is the number of memberships, as a 64-bit number. */
  ghost predicate Indexed(s: State) {
    && ListsInStep(s)
    && (forall room :: room in s.rooms ==> RoomInStep(s.rooms[room]))
    && s.totalMembers == Int64(|Memberships(s)|)
  }

  lemma SizeAdded(m: map<nat, LiveMember>, u: nat, x: LiveMember)
    ensures |m[u := x]| == if u in m then |m| else |m| + 1
  {
    assert m[u := x].Keys == m.Keys + {u};
    assert |m[u := x].Keys| == |m[u := x]| && |m.Keys| == |m|;
  }

  lemma SizeRemoved(m: map<nat, LiveMember>, u: nat)
    requires u in m
    ensures |m - {u}| == |m| - 1
  {
    assert (m - {u}).Keys == m.Keys - {u};
    assert |(m - {u}).Keys| == |m - {u}| && |m.Keys| == |m|;
  }

  lemma JoinedInStep(r: MemberSet, m: LiveMember, now: int)
    requires RoomInStep(r)
    ensures RoomInStep(Joined(r, m, now))
  {
    hide Int32;
    SizeAdded(r.members, m.userId, if m.userId in r.members then Rejoined(r.members[m.userId], m) else m);
    Step32(|r.members|);
  }

  lemma LeftInStep(r: MemberSet, user: nat, now: int)
    requires RoomInStep(r) && user in r.members
    ensures RoomInStep(Left(r, user, now))
  {
    hide Int32;
    SizeRemoved(r.members, user);
    Step32(|r.members|);
  }

  lemma AddMemberships(s: State, room: nat, m: LiveMember, now: int)
    ensures Memberships(Add(s, room, m, now)) == Memberships(s) + {(room, m.userId)}
  {
  }

  lemma RemoveMemberships(s: State, room: nat, user: nat, now: int)
    ensures Memberships(Remove(s, room, user, now).0) == Memberships(s) - {(room, user)}
  {
  }

  lemma AddTouches(s: State, room: nat, m: LiveMember, now: int, r: nat, v: nat)
    ensures var s' := Add(s, room, m, now);
            && (IsMember(s', r, v) <==> IsMember(s, r, v) || (r == room && v == m.userId))
            && RoomsOf(s', v)
            == RoomsOf(s, v) + if v == m.userId && !IsMember(s, room, m.userId) then [room] else []
  {
    assert RoomsOf(s, v) + [] == RoomsOf(s, v);
  }

  lemma AddKeepsLists(s: State, room: nat, m: LiveMember, now: int)
    requires ListsInStep(s)
    ensures ListsInStep(Add(s, room, m, now))
  {
    hide Add, IsMember, RoomsOf;
    var u, s' := m.userId, Add(s, room, m, now);
    forall r, v
      ensures multiset(RoomsOf(s', v))[r] == if IsMember(s', r, v) then 1 else 0
    {
      AddTouches(s, room, m, now, r, v);
      assert multiset(RoomsOf(s, v) + [room]) == multiset(RoomsOf(s, v)) + multiset{room};
      assert RoomsOf(s, v) + [] == RoomsOf(s, v);
    }
  }

  lemma RemoveTouches(s: State, room: nat, user: nat, now: int, r: nat, v: nat)
    requires IsMember(s, room, user) && room in RoomsOf(s, user)
    ensures var s' := Remove(s, room, user, now).0;
            && (IsMember(s', r, v) <==> IsMember(s, r, v) && !(r == room && v == user))
            && RoomsOf(s', v) == if v == user then CutOut(RoomsOf(s, user), room) else RoomsOf(s, v)
  {
    hide CutOut;
  }

  lemma RemoveKeepsLists(s: State, room: nat, user: nat, now: int)
    requires ListsInStep(s)
    ensures ListsInStep(Remove(s, room, user, now).0)
  {
    hide CutOut, RoomsOf, ListsInStep;
    if !IsMember(s, room, user) {
      return;
    }
    hide Remove, IsMember;
    var q, s' := RoomsOf(s, user), Remove(s, room, user, now).0;
    OnceInList(s, room, user);
    CutOutLosesOne(q, room);
    forall r, v
      ensures multiset(RoomsOf(s', v))[r] == if IsMember(s', r, v) then 1 else 0
    {
      RemoveTouches(s, room, user, now, r, v);
      OnceInList(s, r, v);
    }
    AllOnceInList(s');
  }

  lemma OnceInList(s: State, room: nat, user: nat)
    requires ListsInStep(s)
    ensures multiset(RoomsOf(s, user))[room] == if IsMember(s, room, user) then 1 else 0
    ensures room in RoomsOf(s, user) <==> IsMember(s, room, user)
  {
    hide RoomsOf, IsMember;
    assert room in multiset(RoomsOf(s, user)) <==> room in RoomsOf(s, user);
  }

  lemma AllOnceInList(s: State)
    requires forall room, user :: multiset(RoomsOf(s, user))[room] == if IsMember(s, room, user) then 1 else 0
    ensures ListsInStep(s)
  {
  }

  lemma AddKeepsRooms(s: State, room: nat, m: LiveMember, now: int)
    requires forall r :: r in s.rooms ==> RoomInStep(s.rooms[r])
    ensures forall r :: r in Add(s, room, m, now).rooms ==> RoomInStep(Add(s, room, m, now).rooms[r])
  {
    hide RoomInStep, Joined;
    EmptyRoomInStep();
    JoinedInStep(if room in s.rooms then s.rooms[room] else EMPTY_ROOM, m, now);
    AddShape(s, room, m, now);
  }

  lemma AddKeepsTotal(s: State, room: nat, m: LiveMember, now: int)
    requires s.totalMembers == Int64(|Memberships(s)|)
    ensures Add(s, room, m, now).totalMembers == Int64(|Memberships(Add(s, room, m, now))|)
  {
    hide Int64, Memberships, Add;
    AddMemberships(s, room, m, now);
    AddShape(s, room, m, now);
    MembershipsAreMembers(s, room, m.userId);
    Step64(|Memberships(s)|);
  }

  lemma AddKeepsIndexed(s: State, room: nat, m: LiveMember, now: int)
    requires Indexed(s)
    ensures Indexed(Add(s, room, m, now))
  {
    hide ListsInStep, RoomInStep, Int64, Memberships, Add;
    AddKeepsLists(s, room, m, now);
    AddKeepsRooms(s, room, m, now);
    AddKeepsTotal(s, room, m, now);
  }

  lemma AddShape(s: State, room: nat, m: LiveMember, now: int)
    ensures Add(s, room, m, now).rooms
         == s.rooms[room := Joined(if room in s.rooms then s.rooms[room] else EMPTY_ROOM, m, now)]
    ensures Add(s, room, m, now).totalMembers
         == if IsMember(s, room, m.userId) then s.totalMembers else Int64(s.totalMembers + 1)
  {
  }

  lemma EmptyRoomInStep()
    ensures RoomInStep(EMPTY_ROOM)
  {
  }

  lemma RemoveKeepsIndexed(s: State, room: nat, user: nat, now: int)
    requires Indexed(s)
    ensures Indexed(Remove(s, room, user, now).0)
  {
    hide ListsInStep, RoomInStep, Int64, Left;
    RemoveKeepsLists(s, room, user, now);
    RemoveMemberships(s, room, user, now);
    Step64(|Memberships(s)|);
    MembershipsAreMembers(s, room, user);
    hide Memberships;
    if IsMember(s, room, user) {
      LeftInStep(s.rooms[room], user, now);
    }
  }

  lemma MembershipsAreMembers(s: State, room: nat, user: nat)
    ensures (room, user) in Memberships(s) <==> IsMember(s, room, user)
  {
  }

  // ----- Histories -----

  datatype Event = AddEvent(room: nat, member: LiveMember, now: int) | RemoveEvent(room: nat, user: nat, now: int)

  function Apply(s: State, e: Event): State {
    match e
    case AddEvent(room, m, now) => Add(s, room, m, now)
    case RemoveEvent(room, user, now) => Remove(s, room, user, now).0
  }

  /** The state after a history, which is read from its end. */
  function After(history: seq<Event>): State
    decreases |history|
  {
    if history == [] then EMPTY_STATE else Apply(After(history[..|history| - 1]), history[|history| - 1])
  }

  predicate Concerns(e: Event, room: nat, user: nat) {
    e.room == room && user == if e.AddEvent? then e.member.userId else e.user
  }

  /** The last thing the history says about the user and the room is that the user joined. */
  predicate LastJoined(history: seq<Event>, room: nat, user: nat)
    decreases |history|
  {
    history != [] &&
      var last := history[|history| - 1];
      if Concerns(last, room, user) then last.AddEvent? else LastJoined(history[..|history| - 1], room, user)
  }

  /** The index is in step after every history of joining and leaving. */
  lemma {:induction false} HistoryKeepsIndexed(history: seq<Event>)
    ensures Indexed(After(history))
    decreases |history|
  {
    hide Indexed, Add, Remove;
    if history == [] {
      EmptyIsIndexed();
    } else {
      var before := history[..|history| - 1];
      HistoryKeepsIndexed(before);
      match history[|history| - 1]
      case AddEvent(room, m, now) => AddKeepsIndexed(After(before), room, m, now);
      case RemoveEvent(room, user, now) => RemoveKeepsIndexed(After(before), room, user, now);
    }
  }

  lemma EmptyIsIndexed()
    ensures Indexed(EMPTY_STATE)
  {
    assert Memberships(EMPTY_STATE) == {};
  }

  /** After every history, a user is a member of exactly the rooms joined last and not left since, both ways round. */
  lemma {:induction false} HistoryDecides(history: seq<Event>, room: nat, user: nat)
    ensures IsMember(After(history), room, user) <==> LastJoined(history, room, user)
    ensures multiset(RoomsOf(After(history), user))[room] == if LastJoined(history, room, user) then 1 else 0
    decreases |history|
  {
    HistoryKeepsIndexed(history);
    hide Add, Remove, Memberships;
    if history != [] {
      var before := history[..|history| - 1];
      HistoryDecides(before, room, user);
      hide Indexed;
      MembershipsAreMembers(After(before), room, user);
      MembershipsAreMembers(After(history), room, user);
      match history[|history| - 1]
      case AddEvent(r, m, now) => AddMemberships(After(before), r, m, now);
      case RemoveEvent(r, u, now) => RemoveMemberships(After(before), r, u, now);
    }
  }

  // ----- What a member's record says -----

  /** The member passed by the user's first joining of the room since the user last left it, and by the latest one. */
  function Joinings(history: seq<Event>, room: nat, user: nat): (LiveMember, LiveMember)
    requires LastJoined(history, room, user)
    decreases |history|
  {
    var before, last := history[..|history| - 1], history[|history| - 1];
    if !Concerns(last, room, user) then Joinings(before, room, user)
    else if LastJoined(before, room, user) then (Joinings(before, room, user).0, last.member)
    else (last.member, last.member)
  }

  lemma RecordAfterAdd(s: State, room: nat, m: LiveMember, now: int, r: nat, u: nat)
    ensures var s' := Add(s, room, m, now);
            if r == room && u == m.userId then
              u in Members(s', r)
              && Members(s', r)[u] == if IsMember(s, r, u) then Rejoined(Members(s, r)[u], m) else m
            else IsMember(s, r, u) ==> IsMember(s', r, u) && Members(s', r)[u] == Members(s, r)[u]
  {
  }

  lemma RecordAfterRemove(s: State, room: nat, user: nat, now: int, r: nat, u: nat)
    ensures var s' := Remove(s, room, user, now).0;
            !(r == room && u == user) && IsMember(s, r, u) ==> IsMember(s', r, u) && Members(s', r)[u] == Members(s, r)[u]
  {
    hide CutOut;
  }

  /**
   After every history, a member's record carries role, join time and permissions of the first joining since the member
   last left, and login, connection and last-seen time of the latest; joining again puts the member online.
   */
  lemma {:induction false} HistoryDecidesRecord(history: seq<Event>, room: nat, user: nat)
    requires LastJoined(history, room, user)
    ensures IsMember(After(history), room, user)
    ensures var (record, (first, latest)) := (Members(After(history), room)[user], Joinings(history, room, user));
            && record.userId == user && record.details == first.details
            && record.loginId == latest.loginId && record.connId == latest.connId && record.lastSeen == latest.lastSeen
            && (record.online || record == first)
    decreases |history|
  {
    HistoryDecides(history, room, user);
    var before, last := history[..|history| - 1], history[|history| - 1];
    HistoryDecides(before, room, user);
    hide Add, Remove, IsMember;
    if LastJoined(before, room, user) {
      HistoryDecidesRecord(before, room, user);
    }
    match last
    case AddEvent(r, m, now) => RecordAfterAdd(After(before), r, m, now, room, user);
    case RemoveEvent(r, u, now) => RecordAfterRemove(After(before), r, u, now, room, user);
  }

  /** The times at which members joined the room, again or not, or left it. */
  function Changes(history: seq<Event>, room: nat): seq<int>
    decreases |history|
  {
    if history == [] then []
    else
      var before, last := history[..|history| - 1], history[|history| - 1];
      Changes(before, room)
      + (if last.room == room && (last.AddEvent? || LastJoined(before, room, last.user)) then [last.now] else [])
  }

  /** A room is dated by the last time somebody joined it or a member left it; an attempt that fails does not count. */
  lemma {:induction false} HistoryDecidesDate(history: seq<Event>, room: nat)
    ensures var (s, changes) := (After(history), Changes(history, room));
            if room in s.rooms then changes != [] && s.rooms[room].lastUpdate == changes[|changes| - 1] else changes == []
    decreases |history|
  {
    if history != [] {
      var before, last := history[..|history| - 1], history[|history| - 1];
      HistoryDecidesDate(before, room);
      DateAfter(After(before), last, room);
      if last.RemoveEvent? {
        HistoryDecides(before, room, last.user);
      }
      hide LastJoined, IsMember, Add, Remove;
    }
  }

  lemma DateAfter(s: State, e: Event, room: nat)
    ensures var s' := Apply(s, e);
            if e.room == room && (e.AddEvent? || IsMember(s, room, e.user)) then
              room in s'.rooms && s'.rooms[room].lastUpdate == e.now
            else (room in s'.rooms <==> room in s.rooms) && (room in s.rooms ==> s'.rooms[room] == s.rooms[room])
  {
    hide RoomsOf, CutOut, Rejoined;
  }

  // ----- The total as a sum -----

  /** The sum of the sizes of the rooms listed. */
  function SumOfSizes(s: State, rooms: seq<nat>): nat
    decreases |rooms|
  {
    if rooms == [] then 0 else |Members(s, rooms[0])| + SumOfSizes(s, rooms[1..])
  }

  function MembershipsIn(s: State, rooms: seq<nat>): set<(nat, nat)> {
    set room, user | room in rooms && user in Members(s, room) :: (room, user)
  }

  lemma {:induction false} SumIsMemberships(s: State, rooms: seq<nat>)
    requires forall i, j :: 0 <= i < j < |rooms| ==> rooms[i] != rooms[j]
    ensures |MembershipsIn(s, rooms)| == SumOfSizes(s, rooms)
    decreases |rooms|
  {
    if rooms != [] {
      SumIsMemberships(s, rooms[1..]);
      OneRoomSize(s, rooms[0]);
      MembershipsSplit(s, rooms[0], rooms[1..]);
      hide MembershipsIn, Members;
      assert rooms == [rooms[0]] + rooms[1..];
    } else {
      assert MembershipsIn(s, rooms) == {};
    }
  }

  lemma MembershipsSplit(s: State, room: nat, rest: seq<nat>)
    requires room !in rest
    ensures MembershipsIn(s, [room] + rest) == MembershipsIn(s, [room]) + MembershipsIn(s, rest)
    ensures MembershipsIn(s, [room]) !! MembershipsIn(s, rest)
  {
    hide Members;
  }

  lemma OneRoomSize(s: State, room: nat)
    ensures |MembershipsIn(s, [room])| == |Members(s, room)|
  {
    PairingSize(Members(s, room).Keys, room);
    assert MembershipsIn(s, [room]) == Pairing(Members(s, room).Keys, room);
  }

  function Pairing(users: set<nat>, room: nat): set<(nat, nat)> {
    set user | user in users :: (room, user)
  }

  lemma {:induction false} PairingSize(users: set<nat>, room: nat)
    ensures |Pairing(users, room)| == |users|
    decreases users
  {
    if users == {} {
      assert Pairing(users, room) == {};
    } else {
      var u :| u in users;
      PairingSize(users - {u}, room);
      assert Pairing(users, room) == Pairing(users - {u}, room) + {(room, u)};
    }
  }

  /** After every history the total is the sum of the sizes of the rooms, listed in any order. */
  lemma TotalIsSum(history: seq<Event>, rooms: seq<nat>)
    requires forall i, j :: 0 <= i < j < |rooms| ==> rooms[i] != rooms[j]
    requires forall r :: r in rooms <==> r in After(history).rooms
    ensures After(history).totalMembers == Int64(SumOfSizes(After(history), rooms))
  {
    hide SumOfSizes, After, Int64;
    var s := After(history);
    HistoryKeepsIndexed(history);
    SumIsMemberships(s, rooms);
    assert MembershipsIn(s, rooms) == Memberships(s);
  }

  // ----- What leaving answers -----

  /** Somebody has joined the room at some time. */
  predicate EverJoined(history: seq<Event>, room: nat) {
    exists i :: 0 <= i < |history| && history[i].AddEvent? && history[i].room == room
  }

  // A room stays once it is there.
  lemma {:induction false} HistoryDecidesRoom(history: seq<Event>, room: nat)
    ensures room in After(history).rooms <==> EverJoined(history, room)
    decreases |history|
  {
    hide Joined, Left, RoomsOf, CutOut, Int64;
    if history != [] {
      var before, last := history[..|history| - 1], history[|history| - 1];
      HistoryDecidesRoom(before, room);
      assert history == before + [last];
      if EverJoined(before, room) {
        var i :| 0 <= i < |before| && before[i].AddEvent? && before[i].room == room;
        assert history[i] == before[i];
      }
      if last.AddEvent? && last.room == room {
        assert history[|history| - 1] == last;
      }
    }
  }

  /**
   After every history, leaving a room succeeds exactly when the last thing that happened is that the user joined it; a room
   nobody ever joined is not found, and in any other it is the user who is not found.
   */
  lemma HistoryDecidesRemoval(history: seq<Event>, room: nat, user: nat, now: int)
    ensures Remove(After(history), room, user, now).1 ==
            if LastJoined(history, room, user) then Removed
            else if EverJoined(history, room) then UserNotFound else RoomNotFound
    ensures !LastJoined(history, room, user) ==> Remove(After(history), room, user, now).0 == After(history)
  {
    HistoryDecides(history, room, user);
    HistoryDecidesRoom(history, room);
    hide After, LastJoined, EverJoined, Left, CutOut, RoomsOf;
  }
}

/**
 The timer wheel: a binary heap of timers ordered by deadline. What the operations mean is said on the map from timer
 number to timer; the heap of the class is proved to hold exactly that map.
 */
module Timers {
  datatype Timer = Timer(id: nat, deadline: int, repeat: int, canceled: bool)

  /** The timers by number, and the next number. */
  datatype State = State(timers: map<nat, Timer>, nextId: nat)

  const EMPTY_STATE := State(map[], 1)

  function Add(s: State, now: int, delay: int, repeat: int): State {
    State(s.timers[s.nextId := Timer(s.nextId, now + delay, repeat, false)], s.nextId + 1)
  }

  function Cancel(s: State, id: nat): State {
    if id in s.timers then s.(timers := s.timers[id := s.timers[id].(canceled := true)]) else s
  }

  function Due(m: map<nat, Timer>, now: int): set<nat> {
    set id | id in m && m[id].deadline <= now
  }

  /** The timers whose callbacks a tick runs. */
  function Fires(m: map<nat, Timer>, now: int): set<nat> {
    set id | id in m && m[id].deadline <= now && !m[id].canceled
  }

  function FiredIds(fired: seq<Timer>): set<nat> {
    set t | t in fired :: t.id
  }

  predicate Renews(t: Timer) {
    !t.canceled && t.repeat > 0
  }

  /** The map when the given due timers have been handled. */
  function After(m: map<nat, Timer>, now: int, handled: set<nat>): map<nat, Timer> {
    map id | id in m && (id in handled ==> Renews(m[id])) ::
      if id in handled then m[id].(deadline := now + m[id].repeat) else m[id]
  }

  function Tick(s: State, now: int): State {
    s.(timers := After(s.timers, now, Due(s.timers, now)))
  }

  // ----- The heap -----

  function Parent(i: nat): nat
    requires i > 0
  {
    (i - 1) / 2
  }

  predicate HeapOrdered(h: seq<Timer>) {
    forall k :: 0 < k < |h| ==> h[Parent(k)].deadline <= h[k].deadline
  }

  // Ordered but for the element at j, which may have to move up.
  predicate OrderedBelow(h: seq<Timer>, j: nat) {
    && (forall k :: 0 < k < |h| && k != j ==> h[Parent(k)].deadline <= h[k].deadline)
    && (forall k :: 0 < k < |h| && Parent(k) == j && 0 < j ==> h[Parent(j)].deadline <= h[k].deadline)
  }

  // The first n are ordered but for the element at i, which may have to move down.
  predicate OrderedAbove(h: seq<Timer>, n: nat, i: nat)
    requires n <= |h|
  {
    && (forall k :: 0 < k < n && Parent(k) != i ==> h[Parent(k)].deadline <= h[k].deadline)
    && (forall k :: 0 < k < n && Parent(k) == i && 0 < i < n ==> h[Parent(i)].deadline <= h[k].deadline)
  }

  // The heap holds exactly the timers of the map, each once.
  ghost predicate Holds(h: seq<Timer>, m: map<nat, Timer>) {
    && (forall i :: 0 <= i < |h| ==> h[i].id in m && m[h[i].id] == h[i])
    && (forall i, j :: 0 <= i < j < |h| ==> h[i].id != h[j].id)
    && (forall id :: id in m ==> m[id] in h && m[id].id == id)
  }

  function Swapped(h: seq<Timer>, i: nat, j: nat): (r: seq<Timer>)
    requires i < |h| && j < |h|
  {
    h[i := h[j]][j := h[i]]
  }

  lemma SwappedHolds(h: seq<Timer>, i: nat, j: nat, m: map<nat, Timer>)
    requires i < |h| && j < |h| && Holds(h, m)
    ensures Holds(Swapped(h, i, j), m)
  {
    var r := Swapped(h, i, j);
    assert forall k :: 0 <= k < |h| ==> r[k] == h[if k == i then j else if k == j then i else k];
    forall id | id in m
      ensures m[id] in r
    {
      var k :| 0 <= k < |h| && h[k] == m[id];
      assert r[if k == i then j else if k == j then i else k] == m[id];
    }
  }

  lemma AppendedHolds(h: seq<Timer>, t: Timer, m: map<nat, Timer>)
    requires Holds(h, m) && t.id !in m
    ensures Holds(h + [t], m[t.id := t])
  {
    assert (h + [t])[|h|] == t;
  }

  lemma ShortenedHolds(h: seq<Timer>, m: map<nat, Timer>)
    requires Holds(h, m) && h != []
    ensures h[|h| - 1].id in m && Holds(h[..|h| - 1], m - {h[|h| - 1].id})
  {
    var n := |h| - 1;
    assert h[n] in h;
    forall id | id in m && id != h[n].id
      ensures m[id] in h[..n]
    {
      var k :| 0 <= k < |h| && h[k] == m[id];
      assert h[..n][k] == m[id];
    }
  }

  lemma {:induction false} RootIsLeast(h: seq<Timer>, i: nat)
    requires HeapOrdered(h) && i < |h|
    ensures h[0].deadline <= h[i].deadline
  {
    if i > 0 {
      RootIsLeast(h, Parent(i));
    }
  }

  lemma UpStep(h: seq<Timer>, j: nat)
    requires 0 < j < |h| && OrderedBelow(h, j) && h[j].deadline < h[Parent(j)].deadline
    ensures OrderedBelow(Swapped(h, Parent(j), j), Parent(j))
  {
    var i := Parent(j);
    var r := Swapped(h, i, j);
    forall k | 0 < k < |h| && k != i
      ensures r[Parent(k)].deadline <= r[k].deadline
    {
      assert k != j ==> h[Parent(k)].deadline <= h[k].deadline;
    }
    forall k | 0 < k < |h| && Parent(k) == i && 0 < i
      ensures r[Parent(i)].deadline <= r[k].deadline
    {
      assert h[Parent(i)].deadline <= h[i].deadline;
      assert k != j ==> h[i].deadline <= h[k].deadline;
    }
  }

  lemma UpEnds(h: seq<Timer>, j: nat)
    requires j < |h| && OrderedBelow(h, j) && (j > 0 ==> h[Parent(j)].deadline <= h[j].deadline)
    ensures HeapOrdered(h)
  {
  }

  method Up(h: seq<Timer>, j0: nat, ghost m: map<nat, Timer>) returns (r: seq<Timer>)
    requires j0 < |h| && OrderedBelow(h, j0) && Holds(h, m)
    ensures HeapOrdered(r) && Holds(r, m)
  {
    hide OrderedBelow, Holds, HeapOrdered;
    r := h;
    var j: nat := j0;
    while j > 0 && r[j].deadline < r[Parent(j)].deadline
      invariant j < |r| && OrderedBelow(r, j) && Holds(r, m)
    {
      var i := Parent(j);
      UpStep(r, j);
      SwappedHolds(r, i, j, m);
      r := Swapped(r, i, j);
      j := i;
    }
    UpEnds(r, j);
  }

  // The smaller of the children of i, which has one.
  predicate SmallerChild(h: seq<Timer>, n: nat, i: nat, j: nat)
    requires n <= |h|
  {
    && 0 < j < n && Parent(j) == i
    && forall k :: 0 < k < n && Parent(k) == i ==> h[j].deadline <= h[k].deadline
  }

  lemma DownStep(h: seq<Timer>, n: nat, i: nat, j: nat)
    requires i < n <= |h| && OrderedAbove(h, n, i) && SmallerChild(h, n, i, j) && h[j].deadline < h[i].deadline
    ensures OrderedAbove(Swapped(h, i, j), n, j)
  {
    var r := Swapped(h, i, j);
    assert i < j;
    forall k | 0 < k < n && Parent(k) != j
      ensures r[Parent(k)].deadline <= r[k].deadline
    {
      if k == i {
        assert Parent(j) == i;
      }
    }
  }

  lemma DownEnds(h: seq<Timer>, n: nat, i: nat)
    requires i <= n <= |h| && OrderedAbove(h, n, i)
    requires forall k :: 0 < k < n && Parent(k) == i ==> h[i].deadline <= h[k].deadline
    ensures HeapOrdered(h[..n])
  {
  }

  method Down(h: seq<Timer>, i0: nat, n: nat, ghost m: map<nat, Timer>) returns (r: seq<Timer>)
    requires i0 <= n <= |h| && OrderedAbove(h, n, i0) && Holds(h, m)
    ensures |r| == |h| && r[n..] == h[n..] && HeapOrdered(r[..n]) && Holds(r, m)
  {
    hide OrderedAbove, Holds, HeapOrdered;
    r := h;
    var i: nat := i0;
    while 2 * i + 1 < n
      invariant i <= n <= |r| && |r| == |h| && OrderedAbove(r, n, i) && Holds(r, m) && r[n..] == h[n..]
      decreases n - i
    {
      var j := 2 * i + 1;
      if j + 1 < n && r[j + 1].deadline < r[j].deadline {
        j := j + 1;
      }
      assert SmallerChild(r, n, i, j);
      if r[j].deadline >= r[i].deadline {
        break;
      }
      DownStep(r, n, i, j);
      SwappedHolds(r, i, j, m);
      r := Swapped(r, i, j);
      i := j;
    }
    DownEnds(r, n, i);
  }

  // The callbacks run so far: those of the handled timers not cancelled, by deadline, none later than what remains.
  ghost predicate IsFired(m: map<nat, Timer>, now: int, handled: set<nat>, fired: seq<Timer>) {
    && (forall i, j :: 0 <= i < j < |fired| ==> fired[i].deadline <= fired[j].deadline && fired[i].id != fired[j].id)
    && (forall t :: t in fired ==> t.id in m && m[t.id] == t && t.id in handled && !t.canceled)
    && (forall id :: id in handled && id in m && !m[id].canceled ==> m[id] in fired && m[id].id == id)
    && (forall t, id :: t in fired && id in m && id !in handled ==> t.deadline <= m[id].deadline)
  }

  lemma RootComesNext(h: seq<Timer>, m: map<nat, Timer>, now: int, handled: set<nat>, id: nat)
    requires h != [] && HeapOrdered(h) && Holds(h, After(m, now, handled))
    requires id in m && id !in handled
    ensures h[0].deadline <= m[id].deadline
  {
    assert id in After(m, now, handled) && m[id] in h;
    var k :| 0 <= k < |h| && h[k] == m[id];
    RootIsLeast(h, k);
  }

  lemma OneMoreFired(m: map<nat, Timer>, now: int, handled: set<nat>, fired: seq<Timer>, t: Timer)
    requires IsFired(m, now, handled, fired)
    requires t.id in m && t.id !in handled && m[t.id] == t
    requires forall id :: id in m && id !in handled ==> t.deadline <= m[id].deadline
    ensures IsFired(m, now, handled + {t.id}, if t.canceled then fired else fired + [t])
  {
    if !t.canceled {
      var fired' := fired + [t];
      forall i | 0 <= i < |fired|
        ensures fired[i].deadline <= t.deadline && fired[i].id != t.id
      {
        assert fired[i] in fired;
      }
      assert fired'[|fired|] == t;
      assert forall u :: u in fired' <==> u in fired || u == t;
    }
  }

  lemma NothingFired(m: map<nat, Timer>, now: int)
    ensures After(m, now, {}) == m && IsFired(m, now, {}, [])
  {
  }

  lemma RootIsUnhandled(h: seq<Timer>, m: map<nat, Timer>, now: int, handled: set<nat>)
    requires h != [] && Holds(h, After(m, now, handled)) && h[0].deadline <= now && handled <= Due(m, now)
    ensures h[0].id in m && h[0].id in Due(m, now) && h[0].id !in handled && m[h[0].id] == h[0]
  {
  }

  lemma HandledOneMore(m: map<nat, Timer>, now: int, handled: set<nat>, id: nat)
    requires id in m && id !in handled
    ensures After(m, now, handled + {id})
         == var rest := After(m, now, handled) - {id};
            if Renews(m[id]) then rest[id := m[id].(deadline := now + m[id].repeat)] else rest
  {
  }

  lemma RestIsLater(h: seq<Timer>, m: map<nat, Timer>, now: int, handled: set<nat>)
    requires HeapOrdered(h) && Holds(h, After(m, now, handled)) && handled <= Due(m, now)
    requires h != [] ==> h[0].deadline > now
    ensures handled == Due(m, now) && forall i :: 0 <= i < |h| ==> h[i].deadline > now
  {
    forall i | 0 <= i < |h|
      ensures h[i].deadline > now
    {
      RootIsLeast(h, i);
    }
    forall id | id in m && id !in handled
      ensures m[id].deadline > now
    {
      assert id in After(m, now, handled) && m[id] in h;
    }
  }

  lemma FiredIsAll(m: map<nat, Timer>, now: int, fired: seq<Timer>)
    requires IsFired(m, now, Due(m, now), fired)
    ensures forall i, j :: 0 <= i < j < |fired| ==> fired[i].deadline <= fired[j].deadline && fired[i].id != fired[j].id
    ensures forall t :: t in fired ==> t.id in m && t == m[t.id]
    ensures FiredIds(fired) == Fires(m, now)
  {
    forall id | id in Fires(m, now)
      ensures id in FiredIds(fired)
    {
      assert m[id] in fired;
    }
  }

  class TimerWheel {
    var heap: seq<Timer>
    var nextId: nat
    ghost var timers: map<nat, Timer>

    ghost predicate Valid()
      reads this
    {
      && HeapOrdered(heap) && Holds(heap, timers)
      && (forall id :: id in timers ==> id < nextId)
    }

    ghost function St(): State
      reads this
    {
      State(timers, nextId)
    }

    constructor ()
      ensures Valid() && St() == EMPTY_STATE
    {
      heap, nextId, timers := [], 1, map[];
    }

    method Push(t: Timer)
      requires HeapOrdered(heap) && Holds(heap, timers) && t.id !in timers
      modifies `heap, `timers
      ensures HeapOrdered(heap) && Holds(heap, timers) && timers == old(timers)[t.id := t]
    {
      AppendedHolds(heap, t, timers);
      timers := timers[t.id := t];
      heap := Up(heap + [t], |heap|, timers);
    }

    method Pop() returns (t: Timer)
      requires heap != [] && HeapOrdered(heap) && Holds(heap, timers)
      modifies `heap, `timers
      ensures HeapOrdered(heap) && Holds(heap, timers)
      ensures t == old(heap)[0] && timers == old(timers) - {t.id}
    {
      var n := |heap| - 1;
      SwappedHolds(heap, 0, n, timers);
      var h := Swapped(heap, 0, n);
      h := Down(h, 0, n, timers);
      assert h[n] == h[n..][0];
      t := h[n];
      ShortenedHolds(h, timers);
      timers := timers - {t.id};
      heap := h[..n];
    }

    /** addTimer: AddTimer passes no repetition. */
    method AddTimer(now: int, delay: int, repeat: int) returns (id: nat)
      requires Valid()
      modifies this
      ensures Valid() && id == old(nextId) && St() == Add(old(St()), now, delay, repeat)
    {
      id := nextId;
      nextId := nextId + 1;
      Push(Timer(id, now + delay, repeat, false));
    }

    method CancelTimer(id: nat) returns (found: bool)
      requires Valid()
      modifies this
      ensures Valid() && found == (id in old(timers)) && St() == Cancel(old(St()), id)
    {
      for i := 0 to |heap|
        invariant Valid() && St() == old(St())
        invariant forall k :: 0 <= k < i ==> heap[k].id != id
      {
        if heap[i].id == id {
          CanceledHolds(heap, i, timers);
          timers := timers[id := timers[id].(canceled := true)];
          heap := heap[i := heap[i].(canceled := true)];
          return true;
        }
      }
      return false;
    }

    /** One tick; the callbacks run are those of the timers listed, in the order of the list. */
    method ProcessTick(now: int) returns (fired: seq<Timer>)
      requires Valid()
      modifies this
      ensures Valid() && St() == Tick(old(St()), now)
      ensures forall i, j :: 0 <= i < j < |fired| ==> fired[i].deadline <= fired[j].deadline && fired[i].id != fired[j].id
      ensures forall t :: t in fired ==> t.id in old(timers) && t == old(timers)[t.id]
      ensures FiredIds(fired) == Fires(old(timers), now)
      ensures forall i :: 0 <= i < |heap| ==> heap[i].deadline > now
    {
      hide HeapOrdered, Holds, Fires, IsFired, After, FiredIds, Due;
      ghost var m0 := timers;
      ghost var handled: set<nat> := {};
      fired := [];
      NothingFired(m0, now);
      while |heap| > 0
        invariant Valid() && nextId == old(nextId)
        invariant handled <= Due(m0, now) && timers == After(m0, now, handled)
        invariant IsFired(m0, now, handled, fired)
        decreases |Due(m0, now) - handled|
      {
        var t := heap[0];
        if t.deadline > now {
          break;
        }
        RootIsUnhandled(heap, m0, now, handled);
        ghost var handled' := handled + {t.id};
        forall id | id in m0 && id !in handled
          ensures t.deadline <= m0[id].deadline
        {
          RootComesNext(heap, m0, now, handled, id);
        }
        OneMoreFired(m0, now, handled, fired, t);
        assert Due(m0, now) - handled' < Due(m0, now) - handled;
        HandledOneMore(m0, now, handled, t.id);
        var popped := Pop();
        handled := handled';
        if t.canceled {
          continue;
        }
        fired := fired + [t];
        if t.repeat > 0 {
          Push(t.(deadline := now + t.repeat, canceled := false));
        }
      }
      RestIsLater(heap, m0, now, handled);
      FiredIsAll(m0, now, fired);
    }
  }

  lemma CanceledHolds(h: seq<Timer>, i: nat, m: map<nat, Timer>)
    requires i < |h| && Holds(h, m) && HeapOrdered(h)
    ensures var t := h[i].(canceled := true); Holds(h[i := t], m[t.id := t]) && HeapOrdered(h[i := t])
  {
    var t := h[i].(canceled := true);
    var h' := h[i := t];
    assert h'[i] == t;
    forall id | id in m && id != t.id
      ensures m[id] in h'
    {
      var k :| 0 <= k < |h| && h[k] == m[id];
      assert h'[k] == m[id];
    }
  }
}

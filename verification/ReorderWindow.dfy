/**
 The client's reorder window: a bounded buffer kept sorted by message ID, whose messages are released in
 order once they are 50 ms old.
 */
module ReorderWindow {
  import opened Bytes
  import opened GlobalId
  import opened Wrappers

  const WINDOW := 50
  const ZERO_ID: Id := [0, 0, 0, 0, 0, 0, 0, 0, 0, 0, 0, 0, 0, 0, 0, 0]

  /** A message with its raw ID bytes; what else it carries does not matter to the window. */
  datatype Envelope = Envelope(messageId: bytes, content: bytes) {
    predicate HasId() {
      FromBytes(messageId).Some?
    }

    /** The ID the sort compares: all zero when the bytes are not an ID. */
    function SortId(): Id {
      if |messageId| == ID_LENGTH then messageId else ZERO_ID
    }

    function Time(): int {
      ExtractTimestamp(SortId())
    }
  }

  predicate Le(a: Envelope, b: Envelope) {
    Compare(a.SortId(), b.SortId()) <= 0
  }

  predicate Sorted(s: seq<Envelope>) {
    forall i, j :: 0 <= i < j < |s| ==> Le(s[i], s[j])
  }

  lemma LeTransitive(a: Envelope, b: Envelope, c: Envelope)
    requires Le(a, b) && Le(b, c)
    ensures Le(a, c)
  {
    CompareIsTotalOrder(a.SortId(), b.SortId(), c.SortId());
  }

  lemma EarlierIsLe(a: Envelope, b: Envelope)
    requires a.Time() < b.Time()
    ensures Le(a, b)
  {
    CompareIsTotalOrder(a.SortId(), b.SortId(), a.SortId());
  }

  lemma LeByTime(a: Envelope, b: Envelope)
    requires Le(a, b)
    ensures a.Time() <= b.Time()
  {
    CompareIsTotalOrder(b.SortId(), a.SortId(), b.SortId());
    CompareIsTotalOrder(a.SortId(), b.SortId(), a.SortId());
  }

  /** One addition: a full buffer loses its first message, and the sort may place equal IDs in any order. */
  ghost predicate Added(buf: seq<Envelope>, env: Envelope, max: nat, buf': seq<Envelope>, evicted: seq<Envelope>) {
    && evicted == (if |buf| >= max && buf != [] then [buf[0]] else [])
    && Sorted(buf')
    && multiset(buf') + multiset(evicted) == multiset(buf) + multiset{env}
  }

  /** The release loop: how many messages leave the front of the buffer, and which of them are handled. */
  function Release(buf: seq<Envelope>, now: int): (r: (nat, seq<Envelope>))
    ensures r.0 <= |buf|
    ensures r.0 == 0 ==> r.1 == []
  {
    if buf == [] then (0, [])
    else if !buf[0].HasId() then
      var rest := Release(buf[1..], now);
      (if rest.0 == 0 then 0 else rest.0 + 1, rest.1)
    else if now - buf[0].Time() < WINDOW then (0, [])
    else
      var rest := Release(buf[1..], now);
      (rest.0 + 1, [buf[0]] + rest.1)
  }

  /** The messages without an ID that leave the buffer without being handled. */
  function Dropped(s: seq<Envelope>): seq<Envelope> {
    if s == [] then [] else (if s[0].HasId() then [] else [s[0]]) + Dropped(s[1..])
  }

  class MessageProcessor {
    var messageBuffer: seq<Envelope>
    const maxBufferSize: nat

    constructor (bufferSize: nat)
      ensures messageBuffer == [] && maxBufferSize == bufferSize
    {
      messageBuffer := [];
      maxBufferSize := bufferSize;
    }

    /** addToBuffer; with a buffer size of zero the source slices an empty buffer and panics. */
    method AddToBuffer(env: Envelope) returns (panicked: bool, ghost evicted: seq<Envelope>)
      modifies this
      ensures panicked <==> maxBufferSize == 0 && old(messageBuffer) == []
      ensures if panicked then messageBuffer == old(messageBuffer)
              else Added(old(messageBuffer), env, maxBufferSize, messageBuffer, evicted)
    {
      panicked, evicted := false, [];
      if |messageBuffer| >= maxBufferSize {
        if |messageBuffer| == 0 {
          return true, [];
        }
        evicted := [messageBuffer[0]];
        assert messageBuffer == [messageBuffer[0]] + messageBuffer[1..];
        messageBuffer := messageBuffer[1..];
      }
      messageBuffer := Sort(messageBuffer + [env]);
    }

    /** processBufferedMessages; handled is the sequence of handleMessage calls it makes. */
    method ProcessBuffered(now: int) returns (handled: seq<Envelope>)
      modifies this
      ensures var (n, released) := Release(old(messageBuffer), now);
              handled == released && messageBuffer == old(messageBuffer)[n..]
    {
      var processed := 0;
      handled := [];
      var i := 0;
      ghost var whole := Release(messageBuffer, now);
      assert messageBuffer[0..] == messageBuffer;
      assert [] + whole.1 == whole.1;
      while i < |messageBuffer|
        invariant messageBuffer == old(messageBuffer)
        invariant 0 <= processed <= i <= |messageBuffer|
        invariant var rest := Release(messageBuffer[i..], now);
                  && whole.0 == (if rest.0 == 0 then processed else i + rest.0)
                  && whole.1 == handled + rest.1
      {
        var envelope := messageBuffer[i];
        assert messageBuffer[i..][1..] == messageBuffer[i + 1..];
        ghost var rest := Release(messageBuffer[i + 1..], now);
        if FromBytes(envelope.messageId).None? {
          i := i + 1;
          continue;
        }
        if now - envelope.Time() < WINDOW {
          break;
        }
        assert handled + ([envelope] + rest.1) == handled + [envelope] + rest.1;
        handled := handled + [envelope];
        i := i + 1;
        processed := i;
      }
      assert handled + [] == handled;
      if processed > 0 {
        messageBuffer := messageBuffer[processed..];
      }
    }
  }

  /** Any sort would do: only the order and the elements of the result are used. */
  method Sort(s: seq<Envelope>) returns (t: seq<Envelope>)
    ensures Sorted(t) && multiset(t) == multiset(s)
  {
    t := [];
    for i := 0 to |s|
      invariant Sorted(t) && multiset(t) == multiset(s[..i])
    {
      assert s[..i + 1] == s[..i] + [s[i]];
      t := Insert(t, s[i]);
    }
    assert s[..|s|] == s;
  }

  method Insert(s: seq<Envelope>, x: Envelope) returns (t: seq<Envelope>)
    requires Sorted(s)
    ensures Sorted(t) && multiset(t) == multiset(s) + multiset{x}
  {
    hide Le, Sorted;
    var k := |s|;
    while k > 0 && !Le(s[k - 1], x)
      invariant 0 <= k <= |s| && forall j :: k <= j < |s| ==> Le(x, s[j])
    {
      LeTotal(s[k - 1], x);
      k := k - 1;
    }
    t := s[..k] + [x] + s[k..];
    assert s == s[..k] + s[k..];
    InsertedIsSorted(s, k, x);
  }

  lemma InsertedIsSorted(s: seq<Envelope>, k: nat, x: Envelope)
    requires Sorted(s) && k <= |s|
    requires k > 0 ==> Le(s[k - 1], x)
    requires forall j :: k <= j < |s| ==> Le(x, s[j])
    ensures Sorted(s[..k] + [x] + s[k..])
  {
    hide Le;
    forall j | 0 <= j < k
      ensures Le(s[j], x)
    {
      if j < k - 1 {
        LeTransitive(s[j], s[k - 1], x);
      }
    }
    var t := s[..k] + [x] + s[k..];
    forall i, j | 0 <= i < j < |t|
      ensures Le(t[i], t[j])
    {
      assert t[i] == if i < k then s[i] else if i == k then x else s[i - 1];
      assert t[j] == if j < k then s[j] else if j == k then x else s[j - 1];
    }
  }

  lemma LeTotal(a: Envelope, b: Envelope)
    ensures Le(a, b) || Le(b, a)
  {
    CompareIsTotalOrder(a.SortId(), b.SortId(), a.SortId());
  }

  // ----- Whole runs -----

  /** A message enters the buffer, or the ticker fires; both at a clock reading. */
  datatype Event = Add(env: Envelope, now: int) | Tick(now: int)

  /** The buffer, and everything that ever entered it, was handled, evicted or dropped. */
  datatype Trace = Trace(
    buffer: seq<Envelope>, added: seq<Envelope>, released: seq<Envelope>, evicted: seq<Envelope>, dropped: seq<Envelope>)

  ghost predicate Step(t: Trace, e: Event, max: nat, t': Trace) {
    match e
    case Add(env, _) =>
      exists evicted ::
        && Added(t.buffer, env, max, t'.buffer, evicted)
        && t' == t.(buffer := t'.buffer, added := t.added + [env], evicted := t.evicted + evicted)
    case Tick(now) =>
      var (n, handled) := Release(t.buffer, now);
      t' == t.(buffer := t.buffer[n..], released := t.released + handled, dropped := t.dropped + Dropped(t.buffer[..n]))
  }

  const EMPTY_TRACE := Trace([], [], [], [], [])

  ghost predicate IsRun(events: seq<Event>, max: nat, states: seq<Trace>) {
    && |states| == |events| + 1 && states[0] == EMPTY_TRACE
    && forall i :: 0 <= i < |events| ==> Step(states[i], events[i], max, states[i + 1])
  }

  predicate ClockNeverGoesBack(events: seq<Event>) {
    forall i, j :: 0 <= i < j < |events| ==> events[i].now <= events[j].now
  }

  /** Every message with an ID enters the buffer less than the given time after the time in its ID. */
  predicate EntersWithin(events: seq<Event>, delay: int) {
    forall i :: 0 <= i < |events| && events[i].Add? && events[i].env.HasId() ==>
      events[i].now - events[i].env.Time() < delay
  }

  // ----- Eviction -----

  /** A message pushes another one out exactly when the buffer is full, and then one with the smallest ID in it. */
  lemma EvictedIsSmallest(buf: seq<Envelope>, env: Envelope, max: nat, buf': seq<Envelope>, evicted: seq<Envelope>)
    requires Sorted(buf) && Added(buf, env, max, buf', evicted) && max > 0
    ensures evicted == [] <==> |buf| < max
    ensures evicted != [] ==> |evicted| == 1 && evicted[0] in buf && forall e :: e in buf ==> Le(evicted[0], e)
    ensures |buf| <= max ==> |buf'| <= max
  {
    hide Le;
    SameSize(buf, env, buf', evicted);
    LeTotal(env, env);
    if evicted != [] {
      LeTotal(buf[0], buf[0]);
    }
  }

  lemma SameSize(buf: seq<Envelope>, env: Envelope, buf': seq<Envelope>, evicted: seq<Envelope>)
    requires multiset(buf') + multiset(evicted) == multiset(buf) + multiset{env}
    ensures |buf'| + |evicted| == |buf| + 1
  {
    assert |multiset(buf') + multiset(evicted)| == |buf'| + |evicted|;
    assert |multiset(buf) + multiset{env}| == |buf| + 1;
  }

  /** In every run the buffer stays sorted and within its size. */
  lemma {:induction false} BufferIsBounded(events: seq<Event>, max: nat, states: seq<Trace>, i: nat)
    requires IsRun(events, max, states) && i <= |events| && max > 0
    ensures Sorted(states[i].buffer) && |states[i].buffer| <= max
  {
    hide Le, Release;
    if i > 0 {
      var t, e, t' := states[i - 1], events[i - 1], states[i];
      BufferIsBounded(events, max, states, i - 1);
      assert Step(t, e, max, t');
      if e.Add? {
        var evicted :| Added(t.buffer, e.env, max, t'.buffer, evicted);
        EvictedIsSmallest(t.buffer, e.env, max, t'.buffer, evicted);
      }
    }
  }

  // ----- Conservation -----

  ghost predicate Conserved(t: Trace) {
    multiset(t.added) == multiset(t.buffer) + multiset(t.released) + multiset(t.evicted) + multiset(t.dropped)
  }

  lemma {:induction false} ReleaseSplits(buf: seq<Envelope>, now: int)
    ensures var (n, handled) := Release(buf, now);
            multiset(buf[..n]) == multiset(handled) + multiset(Dropped(buf[..n]))
    decreases |buf|
  {
    hide ExtractTimestamp, FromBytes, Dropped;
    var (n, handled) := Release(buf, now);
    if n == 0 {
      assert Dropped(buf[..0]) == [] by { NothingDropped(); }
    } else {
      ReleaseSplits(buf[1..], now);
      var (m, later) := Release(buf[1..], now);
      TakeOneMore(buf, m);
      var x, d := multiset{buf[0]}, multiset(Dropped(buf[1..][..m]));
      OnEitherSide(x, multiset(later), d);
      assert multiset([buf[0]] + later) == x + multiset(later);
    }
  }

  lemma NothingDropped()
    ensures Dropped([]) == []
  {
  }

  lemma OnEitherSide<T>(x: multiset<T>, l: multiset<T>, d: multiset<T>)
    ensures x + (l + d) == l + (x + d) == (x + l) + (multiset{} + d)
  {
  }

  lemma TakeOneMore(buf: seq<Envelope>, m: nat)
    requires m < |buf|
    ensures multiset(buf[..m + 1]) == multiset{buf[0]} + multiset(buf[1..][..m])
    ensures multiset(Dropped(buf[..m + 1])) ==
            (if buf[0].HasId() then multiset{} else multiset{buf[0]}) + multiset(Dropped(buf[1..][..m]))
  {
    assert buf[..m + 1] == [buf[0]] + buf[1..][..m];
    assert buf[..m + 1][1..] == buf[1..][..m];
  }

  lemma StepConserves(t: Trace, e: Event, max: nat, t': Trace)
    requires Conserved(t) && Step(t, e, max, t')
    ensures Conserved(t')
  {
    hide Sorted, Release, Dropped;
    if e.Tick? {
      var (n, handled) := Release(t.buffer, e.now);
      ReleaseSplits(t.buffer, e.now);
      assert t.buffer == t.buffer[..n] + t.buffer[n..];
      assert multiset(t.buffer) == multiset(t.buffer[..n]) + multiset(t.buffer[n..]);
    } else {
      var evicted :| Added(t.buffer, e.env, max, t'.buffer, evicted)
                     && t' == t.(buffer := t'.buffer, added := t.added + [e.env], evicted := t.evicted + evicted);
      Rebalance(multiset(t.buffer), multiset(t'.buffer), multiset(t.released), multiset(t.evicted), multiset(t.dropped),
                multiset(evicted), multiset{e.env});
    }
  }

  lemma Rebalance<T>(b: multiset<T>, b': multiset<T>, r: multiset<T>, e: multiset<T>, d: multiset<T>, out: multiset<T>, x: multiset<T>)
    requires b' + out == b + x
    ensures b + r + e + d + x == b' + r + (e + out) + d
  {
    forall y: T
      ensures (b + r + e + d + x)[y] == (b' + r + (e + out) + d)[y]
    {
      assert (b' + out)[y] == (b + x)[y];
    }
  }

  /** In every run, whatever the clock and the delays: added = buffered + released + evicted + dropped without an ID. */
  lemma {:induction false} NothingIsLostOrDuplicated(events: seq<Event>, max: nat, states: seq<Trace>, i: nat)
    requires IsRun(events, max, states) && i <= |events|
    ensures Conserved(states[i])
  {
    if i > 0 {
      NothingIsLostOrDuplicated(events, max, states, i - 1);
      StepConserves(states[i - 1], events[i - 1], max, states[i]);
    }
  }

  // ----- Order -----

  // Up to watermark w everything has been released, in order; everything buffered with an ID is later.
  predicate InOrder(t: Trace, w: int) {
    && Sorted(t.buffer) && Sorted(t.released)
    && (forall e :: e in t.released ==> e.Time() <= w)
    && (forall e :: e in t.buffer && e.HasId() ==> w < e.Time())
  }

  // Behind a message that is too new, everything is too new.
  lemma RestIsTooNew(buf: seq<Envelope>, now: int)
    requires Sorted(buf) && buf != [] && now - buf[0].Time() < 50
    ensures forall e :: e in buf ==> now - 50 < e.Time()
  {
    hide Le;
    forall e | e in buf
      ensures now - 50 < e.Time()
    {
      var j :| 0 <= j < |buf| && buf[j] == e;
      if j > 0 {
        LeByTime(buf[0], e);
      }
    }
  }

  lemma {:induction false} ReleaseInOrder(buf: seq<Envelope>, now: int)
    requires Sorted(buf)
    ensures var (n, handled) := Release(buf, now);
            && Sorted(handled)
            && (forall e :: e in handled ==> e in buf && e.HasId() && e.Time() <= now - 50)
            && (forall e :: e in buf[n..] && e.HasId() ==> now - 50 < e.Time())
    decreases |buf|
  {
    hide Le;
    if buf != [] {
      var first, rest := buf[0], buf[1..];
      assert buf == [first] + rest;
      if first.HasId() && now - first.Time() < 50 {
        RestIsTooNew(buf, now);
      } else {
        ReleaseInOrder(rest, now);
        var (n, handled) := Release(buf, now);
        var (m, later) := Release(rest, now);
        if n > 0 {
          assert n == m + 1 && buf[n..] == rest[m..];
        } else {
          assert m == 0 && buf[n..] == buf && rest[m..] == rest;
        }
        if first.HasId() {
          FirstIsLe(buf, later);
        }
      }
    }
  }

  /** What leaves the buffer ends with a released message, so messages without an ID only leave in front of one. */
  lemma {:induction false} LastOutIsReleased(buf: seq<Envelope>, now: int)
    ensures var (n, handled) := Release(buf, now);
            && (handled == [] <==> n == 0)
            && (n > 0 ==> buf[n - 1].HasId() && handled[|handled| - 1] == buf[n - 1])
            && |handled| + |Dropped(buf[..n])| == n
    decreases |buf|
  {
    hide ExtractTimestamp, FromBytes, Dropped;
    var (n, handled) := Release(buf, now);
    NothingDropped();
    if buf != [] {
      LastOutIsReleased(buf[1..], now);
      var (m, later) := Release(buf[1..], now);
      if n > 0 {
        DroppedInFront(buf, m);
        hide Release;
        assert m > 0 ==> buf[1..][m - 1] == buf[m];
        assert m == 0 ==> buf[1..][..m] == [];
      } else {
        assert buf[..0] == [];
      }
    } else {
      assert buf[..0] == [];
    }
  }

  lemma DroppedInFront(buf: seq<Envelope>, m: nat)
    requires m < |buf|
    ensures |Dropped(buf[..m + 1])| == (if buf[0].HasId() then 0 else 1) + |Dropped(buf[1..][..m])|
  {
    hide FromBytes;
    assert buf[..m + 1][1..] == buf[1..][..m] && buf[..m + 1][0] == buf[0];
  }

  /** A message without an ID is sorted in front of every other. */
  lemma NoIdComesFirst(e: Envelope, f: Envelope)
    requires !e.HasId()
    ensures Le(e, f) && (Le(f, e) ==> f.SortId() == ZERO_ID)
  {
    CompareIsNumeric(e.SortId(), f.SortId());
    CompareIsTotalOrder(f.SortId(), e.SortId(), f.SortId());
    ZeroIsLeast(ZERO_ID);
    assert e.SortId() == ZERO_ID;
    hide Compare, FromBigEndian;
  }

  lemma {:induction false} ZeroIsLeast(s: bytes)
    requires forall i :: 0 <= i < |s| ==> s[i] == 0
    ensures FromBigEndian(s) == 0
    decreases |s|
  {
    if s != [] {
      ZeroIsLeast(s[..|s| - 1]);
    }
  }

  /** So the first tick that releases anything also takes every message without an ID out of the buffer. */
  lemma NoIdLeavesWithFirst(buf: seq<Envelope>, now: int, i: nat)
    requires Sorted(buf) && forall e :: e in buf && e.HasId() ==> e.SortId() != ZERO_ID
    requires Release(buf, now).0 > 0 && Release(buf, now).0 <= i < |buf|
    ensures buf[i].HasId()
  {
    LastOutIsReleased(buf, now);
    var last := buf[Release(buf, now).0 - 1];
    hide Release, Le;
    assert last in buf && Le(last, buf[i]);
    if !buf[i].HasId() {
      NoIdComesFirst(buf[i], last);
    }
  }

  lemma FirstIsLe(buf: seq<Envelope>, later: seq<Envelope>)
    requires Sorted(buf) && buf != [] && Sorted(later) && forall e :: e in later ==> e in buf[1..]
    ensures Sorted([buf[0]] + later)
  {
    hide Le;
    forall e | e in later
      ensures Le(buf[0], e)
    {
      var j :| 0 <= j < |buf[1..]| && buf[1..][j] == e;
      assert buf[j + 1] == e;
    }
  }

  lemma TickInOrder(t: Trace, now: int, max: nat, t': Trace, w: int)
    requires InOrder(t, w) && w <= now - 50 && Step(t, Tick(now), max, t')
    ensures InOrder(t', now - 50)
  {
    hide Le, Release;
    var (n, handled) := Release(t.buffer, now);
    ReleaseInOrder(t.buffer, now);
    forall i, j | 0 <= i < j < |t'.released|
      ensures Le(t'.released[i], t'.released[j])
    {
      if i < |t.released| <= j {
        var a, b := t.released[i], handled[j - |t.released|];
        assert a in t.released && b in handled;
        EarlierIsLe(a, b);
      }
    }
  }

  lemma AddInOrder(t: Trace, env: Envelope, now: int, max: nat, t': Trace, w: int)
    requires InOrder(t, w) && Step(t, Add(env, now), max, t')
    requires env.HasId() ==> w < env.Time()
    ensures InOrder(t', w)
  {
    hide Le;
    var evicted :| Added(t.buffer, env, max, t'.buffer, evicted);
    forall e | e in t'.buffer
      ensures e in t.buffer || e == env
    {
      assert e in multiset(t'.buffer) + multiset(evicted);
      assert e in multiset(t.buffer) + multiset{env};
    }
  }

  lemma {:induction false} RunInOrder(events: seq<Event>, max: nat, states: seq<Trace>, i: nat) returns (w: int)
    requires IsRun(events, max, states) && i <= |events|
    requires ClockNeverGoesBack(events) && EntersWithin(events, 50)
    ensures InOrder(states[i], w)
    ensures i < |events| ==> w <= events[i].now - 50
  {
    hide Step, InOrder;
    if i == 0 {
      w := if events == [] then 0 else events[0].now - 50;
      EmptyInOrder(w);
    } else {
      var v := RunInOrder(events, max, states, i - 1);
      var e := events[i - 1];
      if e.Tick? {
        TickInOrder(states[i - 1], e.now, max, states[i], v);
        w := e.now - 50;
      } else {
        AddInOrder(states[i - 1], e.env, e.now, max, states[i], v);
        w := v;
      }
    }
  }

  lemma EmptyInOrder(w: int)
    ensures InOrder(EMPTY_TRACE, w)
  {
  }

  /**
   Everything released by all ticks of a run, put together, is sorted by message ID, when the clock never goes back
   and every message enters the buffer less than 50 ms after the time in its ID.
   */
  lemma ReleasedInOrder(events: seq<Event>, max: nat, states: seq<Trace>)
    requires IsRun(events, max, states)
    requires ClockNeverGoesBack(events) && EntersWithin(events, 50)
    ensures Sorted(states[|events|].released)
  {
    var w := RunInOrder(events, max, states, |events|);
  }

  // ----- The window is exact -----

  /** Every run whose messages enter within the delay releases in order. */
  ghost predicate DelayIsSafe(delay: int) {
    forall events: seq<Event>, max: nat, states: seq<Trace> ::
      IsRun(events, max, states) && ClockNeverGoesBack(events) && EntersWithin(events, delay)
      ==> Sorted(states[|events|].released)
  }

  function Sample(user: nat): Envelope
    requires user < 256
  {
    Envelope(Layout(Fields(EPOCH, user, 0, 0, 0, 0)), [])
  }

  lemma SampleOrder()
    ensures Sample(1).HasId() && Sample(0).HasId() && Sample(1).Time() == EPOCH && Sample(0).Time() == EPOCH
    ensures !Le(Sample(1), Sample(0))
  {
    var f, g := Fields(EPOCH, 1, 0, 0, 0, 0), Fields(EPOCH, 0, 0, 0, 0, 0);
    LayoutRoundTrip(f);
    LayoutRoundTrip(g);
    Parts(f);
    Parts(g);
    hide ExtractTimestamp, Layout, BigEndian, FromBigEndian, Compare;
    SameFrontByTail(Layout(f), Layout(g));
  }

  // IDs that agree in the time compare by what follows it.
  lemma SameFrontByTail(a: Id, b: Id)
    requires a[..6] == b[..6] && FromBigEndian(b[6..10]) < FromBigEndian(a[6..10])
    ensures Compare(a, b) == 1
  {
    CompareIsNumeric(a, b);
    SplitSix(a);
    SplitSix(b);
    assert a[6..] == a[6..10] + a[10..] && b[6..] == b[6..10] + b[10..];
    FromBigEndianConcat(a[6..10], a[10..]);
    FromBigEndianConcat(b[6..10], b[10..]);
    FromBigEndianBound(a[10..]);
    FromBigEndianBound(b[10..]);
    FirstDecides(FromBigEndian(b[6..10]), FromBigEndian(a[6..10]), FromBigEndian(b[10..]), FromBigEndian(a[10..]), Pow256(6));
  }

  lemma AddedAlone(m: Envelope, t: Trace, now: int)
    requires t.buffer == []
    ensures Step(t, Add(m, now), 10, t.(buffer := [m], added := t.added + [m]))
  {
    assert t.evicted + [] == t.evicted;
    assert Added(t.buffer, m, 10, [m], []);
  }

  lemma ReleasedAlone(m: Envelope, t: Trace, now: int)
    requires m.HasId() && t.buffer == [m] && now - m.Time() >= 50
    ensures Step(t, Tick(now), 10, t.(buffer := [], released := t.released + [m]))
  {
    hide ExtractTimestamp;
    assert t.buffer[1..] == [] && t.buffer[..1] == [m] && [m][1..] == [];
    assert Release([], now) == (0, []);
    assert Release(t.buffer, now) == (1, [m] + []);
    assert Dropped([m]) == [] + Dropped([]) == [];
    assert t.dropped + [] == t.dropped;
  }

  // Two messages of one millisecond, the larger ID released before the smaller one enters, 50 ms late.
  lemma LateMessageBreaksOrder(a: Envelope, b: Envelope, now: int) returns (events: seq<Event>, states: seq<Trace>)
    requires a.HasId() && b.HasId() && a.Time() == b.Time() == now - 50 && !Le(a, b)
    ensures IsRun(events, 10, states) && ClockNeverGoesBack(events) && EntersWithin(events, 51)
    ensures !Sorted(states[|events|].released)
  {
    hide Le, Step, ExtractTimestamp;
    var t0 := EMPTY_TRACE;
    var t1 := t0.(buffer := [a], added := t0.added + [a]);
    var t2 := t1.(buffer := [], released := t1.released + [a]);
    var t3 := t2.(buffer := [b], added := t2.added + [b]);
    var t4 := t3.(buffer := [], released := t3.released + [b]);
    AddedAlone(a, t0, now);
    ReleasedAlone(a, t1, now);
    AddedAlone(b, t2, now);
    ReleasedAlone(b, t3, now);
    events := [Add(a, now), Tick(now), Add(b, now), Tick(now)];
    states := [t0, t1, t2, t3, t4];
    var r := t4.released;
    assert r == [a, b];
    assert !Le(r[0], r[1]);
  }

  /** 50 ms is the exact bound: messages that enter within a given delay are released in order iff it is at most 50 ms. */
  lemma WindowIsExact(delay: int)
    ensures DelayIsSafe(delay) <==> delay <= 50
  {
    if delay <= 50 {
      forall events: seq<Event>, max: nat, states: seq<Trace> |
        IsRun(events, max, states) && ClockNeverGoesBack(events) && EntersWithin(events, delay)
        ensures Sorted(states[|events|].released)
      {
        ReleasedInOrder(events, max, states);
      }
    } else {
      SampleOrder();
      hide Sample, ExtractTimestamp, Step, Sorted, Le;
      var events, states := LateMessageBreaksOrder(Sample(1), Sample(0), EPOCH + 50);
    }
  }
}

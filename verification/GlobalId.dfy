/** 128-bit message IDs: their layout in 16 bytes and their order. */
module GlobalId {
  import opened Bytes
  import opened Wrappers

  const EPOCH := 1704067200000
  const ID_LENGTH := 16
  const MAX_TIMESTAMP := 0xFFFF_FFFF_FFFF

  type Id = s: bytes | |s| == ID_LENGTH witness seq(ID_LENGTH, _ => 0)

  /** The fields an ID is built from. */
  datatype Fields = Fields(now: int, userId: nat, roomId: nat, loginId: byte, seqNo: nat, custom: byte) {
    // The Go types: two 32-bit numbers, two bytes, and a sequence number below 2^64.
    predicate Typed() {
      userId < 0x1_0000_0000 && roomId < 0x1_0000_0000 && seqNo < 0x1_0000_0000_0000_0000
    }
  }

  /** uint64(now - Epoch), clamped to 48 bits; a time before the epoch wraps around and is clamped too. */
  function Timestamp48(now: int): (t: nat)
    ensures t <= MAX_TIMESTAMP
  {
    var t := (now - EPOCH) % 0x1_0000_0000_0000_0000;
    if t > MAX_TIMESTAMP then MAX_TIMESTAMP else t
  }

  /** The last 16 bits: login (4), sequence (6), custom (6), each cut to its width. */
  function LastPart(loginId: byte, seqNo: nat, custom: byte): (p: nat)
    ensures p < 0x1_0000
  {
    loginId % 16 * 4096 + seqNo % 64 * 64 + custom % 64
  }

  function Layout(f: Fields): Id {
    BigEndian(Timestamp48(f.now), 6) + BigEndian(f.userId, 4) + BigEndian(f.roomId, 4)
    + BigEndian(LastPart(f.loginId, f.seqNo, f.custom), 2)
  }

  /** buildIDWithSeq: the words are stored one after the other, the user ID over the low end of the first. */
  method BuildIdWithSeq(f: Fields) returns (id: Id)
    requires f.Typed()
    ensures id == Layout(f)
  {
    var timestamp: nat := (f.now - EPOCH) % 0x1_0000_0000_0000_0000;
    if timestamp > MAX_TIMESTAMP {
      timestamp := MAX_TIMESTAMP;
    }
    var lastPart := f.loginId % 16 * 4096 + f.seqNo % 64 * 64 + f.custom % 64;
    id := StoreWords(timestamp, f.userId, f.roomId, lastPart);
  }

  // binary.BigEndian.PutUint64, PutUint32, PutUint32 and PutUint16 into the 16 bytes.
  method StoreWords(timestamp: nat, userId: nat, roomId: nat, lastPart: nat) returns (id: Id)
    ensures id == BigEndian(timestamp, 6) + BigEndian(userId, 4) + BigEndian(roomId, 4) + BigEndian(lastPart, 2)
  {
    ShiftedWord(timestamp);
    hide BigEndian;
    var a := new byte[16](_ => 0);
    Put(a, 0, BigEndian(timestamp * 0x1_0000, 8));
    ghost var front := BigEndian(timestamp, 6);
    assert a[..6] == front;
    Put(a, 6, BigEndian(userId, 4));
    assert a[..10] == front + BigEndian(userId, 4);
    Put(a, 10, BigEndian(roomId, 4));
    assert a[..14] == front + BigEndian(userId, 4) + BigEndian(roomId, 4);
    Put(a, 14, BigEndian(lastPart, 2));
    id := a[..];
  }

  method Put(a: array<byte>, offset: nat, data: bytes)
    requires offset + |data| <= a.Length
    modifies a
    ensures a[..] == old(a[..offset]) + data + old(a[offset + |data|..])
  {
    forall i | 0 <= i < |data| {
      a[offset + i] := data[i];
    }
  }

  // A 48-bit number shifted left by 16 bits keeps its six bytes at the front of the word.
  lemma ShiftedWord(t: nat)
    ensures BigEndian(t * 0x1_0000, 8) == BigEndian(t, 6) + [0, 0]
  {
    assert BigEndian(t * 0x1_0000, 8) == BigEndian(t * 0x100, 7) + [0];
    assert BigEndian(t * 0x100, 7) == BigEndian(t, 6) + [0];
  }

  // ----- Reading the fields back -----

  function ExtractTimestamp(id: Id): int {
    FromBigEndian(id[..8]) / 0x1_0000 + EPOCH
  }

  function ExtractUserId(id: Id): nat {
    FromBigEndian(id[6..10])
  }

  function ExtractRoomId(id: Id): nat {
    FromBigEndian(id[10..14])
  }

  function ExtractLoginId(id: Id): nat {
    FromBigEndian(id[14..16]) / 4096 % 16
  }

  function ExtractSequence(id: Id): nat {
    FromBigEndian(id[14..16]) / 64 % 64
  }

  function ExtractCustom(id: Id): nat {
    FromBigEndian(id[14..16]) % 64
  }

  function FromBytes(data: bytes): Option<Id> {
    if |data| == ID_LENGTH then Some(data) else None
  }

  // The first eight bytes hold the timestamp's six in front.
  lemma TimestampIsFirstSix(id: Id)
    ensures ExtractTimestamp(id) == FromBigEndian(id[..6]) + EPOCH
  {
    assert id[..8] == id[..6] + id[6..8];
    FromBigEndianConcat(id[..6], id[6..8]);
    FromBigEndianBound(id[6..8]);
    assert Pow256(2) == 0x1_0000;
  }

  lemma LastPartFields(loginId: byte, seqNo: nat, custom: byte)
    ensures var p := LastPart(loginId, seqNo, custom);
            p / 4096 % 16 == loginId % 16 && p / 64 % 64 == seqNo % 64 && p % 64 == custom % 64
  {
    var l, s, c := loginId % 16, seqNo % 64, custom % 64;
    var p := l * 4096 + s * 64 + c;
    assert p / 64 == l * 64 + s;
    assert p / 4096 == l;
  }

  /**
   All six fields come back from the 16 bytes: user and room exactly, login, sequence and custom modulo their
   widths, and the time if and only if it is from the epoch on and within 48 bits.
   */
  lemma LayoutRoundTrip(f: Fields)
    requires f.Typed() && -0x8000_0000_0000_0000 <= f.now - EPOCH < 0x8000_0000_0000_0000
    ensures var id := Layout(f);
            && (ExtractTimestamp(id) == f.now <==> EPOCH <= f.now <= EPOCH + MAX_TIMESTAMP)
            && ExtractUserId(id) == f.userId && ExtractRoomId(id) == f.roomId
            && ExtractLoginId(id) == f.loginId % 16
            && ExtractSequence(id) == f.seqNo % 64
            && ExtractCustom(id) == f.custom % 64
  {
    var id := Layout(f);
    var t := Timestamp48(f.now);
    var last := LastPart(f.loginId, f.seqNo, f.custom);
    Parts(f);
    assert Pow256(6) == 0x1_0000_0000_0000 && Pow256(4) == 0x1_0000_0000 && Pow256(2) == 0x1_0000;
    BigEndianRoundTrip(t, 6);
    BigEndianRoundTrip(f.userId, 4);
    BigEndianRoundTrip(f.roomId, 4);
    BigEndianRoundTrip(last, 2);
    TimestampKept(f.now);
    hide BigEndian, FromBigEndian, LastPart, Layout, Timestamp48;
    TimestampIsFirstSix(id);
    hide ExtractTimestamp;
    LastPartFields(f.loginId, f.seqNo, f.custom);
  }

  /**
   The ID as a 128-bit number: the milliseconds since the start of 2024 in 48 bits, all of them set for a time before it or
   too late, then the user and the room in 32 bits each, 4 bits of the login, 6 of the sequence number and 6 of custom.
   */
  lemma LayoutAsNumber(f: Fields)
    requires f.Typed() && -0x8000_0000_0000_0000 <= f.now - EPOCH < 0x8000_0000_0000_0000
    ensures var t := f.now - 1704067200000;
            FromBigEndian(Layout(f)) ==
            (((if 0 <= t < 0x1_0000_0000_0000 then t else 0xFFFF_FFFF_FFFF) * 0x1_0000_0000 + f.userId) * 0x1_0000_0000
             + f.roomId) * 0x1_0000 + f.loginId % 16 * 4096 + f.seqNo % 64 * 64 + f.custom % 64
  {
    var t, last := Timestamp48(f.now), LastPart(f.loginId, f.seqNo, f.custom);
    TimestampIs(f.now);
    hide BigEndian, FromBigEndian, Timestamp48;
    var front := BigEndian(t, 6);
    FrontNumber(t);
    NumberBehind(front, f.userId, 4, 0x1_0000_0000);
    NumberBehind(front + BigEndian(f.userId, 4), f.roomId, 4, 0x1_0000_0000);
    NumberBehind(front + BigEndian(f.userId, 4) + BigEndian(f.roomId, 4), last, 2, 0x1_0000);
  }

  lemma FrontNumber(t: nat)
    requires t <= MAX_TIMESTAMP
    ensures FromBigEndian(BigEndian(t, 6)) == t
  {
    assert Pow256(6) == 0x1_0000_0000_0000;
    BigEndianRoundTrip(t, 6);
  }

  lemma NumberBehind(front: bytes, n: nat, k: nat, w: nat)
    requires n < w && ((k == 2 && w == 0x1_0000) || (k == 4 && w == 0x1_0000_0000))
    ensures FromBigEndian(front + BigEndian(n, k)) == FromBigEndian(front) * w + n
  {
    assert Pow256(4) == 0x1_0000_0000 && Pow256(2) == 0x1_0000;
    BigEndianRoundTrip(n, k);
    hide BigEndian, FromBigEndian, Pow256;
    FromBigEndianConcat(front, BigEndian(n, k));
  }

  lemma TimestampIs(now: int)
    requires -0x8000_0000_0000_0000 <= now - EPOCH < 0x8000_0000_0000_0000
    ensures Timestamp48(now) == if 0 <= now - EPOCH <= MAX_TIMESTAMP then now - EPOCH else MAX_TIMESTAMP
  {
    if now < EPOCH {
      assert (now - EPOCH) % 0x1_0000_0000_0000_0000 == now - EPOCH + 0x1_0000_0000_0000_0000;
    }
  }

  lemma TimestampKept(now: int)
    requires -0x8000_0000_0000_0000 <= now - EPOCH < 0x8000_0000_0000_0000
    ensures Timestamp48(now) + EPOCH == now <==> EPOCH <= now <= EPOCH + MAX_TIMESTAMP
  {
    TimestampIs(now);
    hide Timestamp48;
  }

  lemma Parts(f: Fields)
    ensures var id := Layout(f);
            && id[..6] == BigEndian(Timestamp48(f.now), 6) && id[6..10] == BigEndian(f.userId, 4)
            && id[10..14] == BigEndian(f.roomId, 4)
            && id[14..16] == BigEndian(LastPart(f.loginId, f.seqNo, f.custom), 2)
  {
    hide BigEndian, LastPart;
  }

  // ----- Order -----

  function CompareBytes(a: bytes, b: bytes): (c: int)
    requires |a| == |b|
    ensures -1 <= c <= 1
  {
    if a == [] then 0
    else if a[0] < b[0] then -1
    else if a[0] > b[0] then 1
    else CompareBytes(a[1..], b[1..])
  }

  /** Compare as the code computes it: timestamps first, then byte by byte. */
  function Compare(a: Id, b: Id): (c: int)
    ensures -1 <= c <= 1
  {
    var t1, t2 := ExtractTimestamp(a), ExtractTimestamp(b);
    if t1 < t2 then -1 else if t1 > t2 then 1 else CompareBytes(a, b)
  }

  method CompareIds(a: Id, b: Id) returns (c: int)
    ensures c == Compare(a, b)
  {
    var ts1 := ExtractTimestamp(a);
    var ts2 := ExtractTimestamp(b);
    if ts1 < ts2 {
      return -1;
    } else if ts1 > ts2 {
      return 1;
    }
    hide ExtractTimestamp;
    assert a[0..] == a && b[0..] == b;
    for i := 0 to ID_LENGTH
      invariant CompareBytes(a[i..], b[i..]) == CompareBytes(a, b)
    {
      assert a[i..][1..] == a[i + 1..] && b[i..][1..] == b[i + 1..];
      if a[i] < b[i] {
        return -1;
      } else if a[i] > b[i] {
        return 1;
      }
    }
    return 0;
  }

  /** An ID as one 128-bit number. */
  function Value(id: Id): nat {
    FromBigEndian(id)
  }

  function Sign(x: int): int {
    if x < 0 then -1 else if x > 0 then 1 else 0
  }

  // Byte strings of equal length compare as the numbers they stand for.
  lemma {:induction false} CompareBytesByValue(a: bytes, b: bytes)
    requires |a| == |b|
    ensures CompareBytes(a, b) == Sign(FromBigEndian(a) - FromBigEndian(b))
    decreases |a|
  {
    if a != [] {
      SplitFirst(a);
      SplitFirst(b);
      FromBigEndianBound(a[1..]);
      FromBigEndianBound(b[1..]);
      CompareBytesByValue(a[1..], b[1..]);
      FirstDecides(a[0], b[0], FromBigEndian(a[1..]), FromBigEndian(b[1..]), Pow256(|a| - 1));
    }
  }

  lemma SplitFirst(a: bytes)
    requires a != []
    ensures FromBigEndian(a) == a[0] * Pow256(|a| - 1) + FromBigEndian(a[1..])
  {
    assert a == [a[0]] + a[1..];
    FromOneByte(a[0]);
    hide FromBigEndian, Pow256;
    FromBigEndianConcat([a[0]], a[1..]);
  }

  lemma FromOneByte(b: byte)
    ensures FromBigEndian([b]) == b
  {
    assert [b][..0] == [];
    assert FromBigEndian([b]) == 256 * FromBigEndian([]) + b;
  }

  lemma FirstDecides(x: nat, y: nat, r: nat, s: nat, p: nat)
    requires r < p && s < p
    ensures x < y ==> x * p + r < y * p + s
    ensures x > y ==> x * p + r > y * p + s
  {
    if x < y {
      assert y * p == x * p + (y - x) * p;
      assert (y - x) * p >= p by { LeastMultiple(y - x, p); }
    } else if x > y {
      assert x * p == y * p + (x - y) * p;
      assert (x - y) * p >= p by { LeastMultiple(x - y, p); }
    }
  }

  lemma LeastMultiple(d: nat, p: nat)
    requires d >= 1
    ensures d * p >= p
  {
  }

  /** Compare is the order of the IDs as 128-bit numbers, which is their order byte by byte. */
  lemma CompareIsNumeric(a: Id, b: Id)
    ensures Compare(a, b) == Sign(Value(a) - Value(b)) == CompareBytes(a, b)
  {
    hide ExtractTimestamp;
    CompareBytesByValue(a, b);
    TimestampIsFirstSix(a);
    TimestampIsFirstSix(b);
    SplitSix(a);
    SplitSix(b);
    FirstDecides(FromBigEndian(a[..6]), FromBigEndian(b[..6]), FromBigEndian(a[6..]), FromBigEndian(b[6..]), Pow256(10));
  }

  lemma SplitSix(a: Id)
    ensures FromBigEndian(a) == FromBigEndian(a[..6]) * Pow256(10) + FromBigEndian(a[6..])
    ensures FromBigEndian(a[6..]) < Pow256(10)
  {
    assert a == a[..6] + a[6..];
    FromBigEndianConcat(a[..6], a[6..]);
    FromBigEndianBound(a[6..]);
  }

  /** Compare is a total order on IDs that tells every two different IDs apart and refines the order of their times. */
  lemma CompareIsTotalOrder(a: Id, b: Id, c: Id)
    ensures Compare(a, b) == -Compare(b, a)
    ensures Compare(a, b) == 0 <==> a == b
    ensures Compare(a, b) <= 0 && Compare(b, c) <= 0 ==> Compare(a, c) <= 0
    ensures ExtractTimestamp(a) < ExtractTimestamp(b) ==> Compare(a, b) == -1
  {
    CompareIsNumeric(a, b);
    CompareIsNumeric(b, a);
    CompareIsNumeric(b, c);
    CompareIsNumeric(a, c);
    FromBigEndianRoundTrip(a);
    FromBigEndianRoundTrip(b);
  }

  /** Of two IDs with the same user, room, login and custom fields, the one with the later (time, sequence) pair is larger. */
  lemma LaterPairIsLarger(f: Fields, g: Fields)
    requires f.Typed() && g.Typed() && f.seqNo < 64 && g.seqNo < 64
    requires EPOCH <= f.now <= EPOCH + MAX_TIMESTAMP && EPOCH <= g.now <= EPOCH + MAX_TIMESTAMP
    requires f.userId == g.userId && f.roomId == g.roomId && f.loginId == g.loginId && f.custom == g.custom
    requires f.now < g.now || (f.now == g.now && f.seqNo < g.seqNo)
    ensures Compare(Layout(f), Layout(g)) == -1
  {
    if f.now < g.now {
      LayoutRoundTrip(f);
      LayoutRoundTrip(g);
      hide Layout, ExtractTimestamp, Compare, BigEndian, FromBigEndian;
      CompareIsTotalOrder(Layout(f), Layout(g), Layout(g));
    } else {
      SameTimeLaterSequence(f, g);
    }
  }

  lemma SameTimeLaterSequence(f: Fields, g: Fields)
    requires f.Typed() && g.Typed() && f.seqNo < g.seqNo < 64 && f.now == g.now
    requires f.userId == g.userId && f.roomId == g.roomId && f.loginId == g.loginId && f.custom == g.custom
    ensures Compare(Layout(f), Layout(g)) == -1
  {
    var p, q := LastPart(f.loginId, f.seqNo, f.custom), LastPart(g.loginId, g.seqNo, g.custom);
    assert p < q;
    hide BigEndian, FromBigEndian, Compare, LastPart, Timestamp48;
    var front := BigEndian(Timestamp48(f.now), 6) + BigEndian(f.userId, 4) + BigEndian(f.roomId, 4);
    SameFront(front, p, q);
    CompareIsNumeric(Layout(f), Layout(g));
  }

  lemma SameFront(front: bytes, p: nat, q: nat)
    requires p < q < 0x1_0000
    ensures FromBigEndian(front + BigEndian(p, 2)) < FromBigEndian(front + BigEndian(q, 2))
  {
    assert Pow256(2) == 0x1_0000;
    BigEndianRoundTrip(p, 2);
    BigEndianRoundTrip(q, 2);
    hide BigEndian, FromBigEndian, Pow256;
    FromBigEndianConcat(front, BigEndian(p, 2));
    FromBigEndianConcat(front, BigEndian(q, 2));
  }
}

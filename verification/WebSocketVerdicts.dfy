/**
 What one parseFrame call answers, said on the raw bytes of RFC 6455, section 5.2: when it waits, when it refuses the frame
 and with which error, and what it delivers.
 */
module WebSocketVerdicts {
  import opened Bytes
  import opened WebSocketFrame
  import opened Words
  import opened Wrappers

  // ----- Bits -----

  /** Bit k of a number. */
  function BitAt(n: nat, k: nat): nat {
    n / Pow2(k) % 2
  }

  lemma BitAtHalf(n: nat, k: nat)
    requires k > 0
    ensures BitAt(n, k) == BitAt(n / 2, k - 1)
  {
    var p := Pow2(k - 1);
    assert Pow2(k) == 2 * p;
    DivTwice(n, p);
  }

  lemma DivTwice(n: nat, p: nat)
    requires p > 0
    ensures n / (2 * p) == n / 2 / p
  {
    var q, r := n / 2 / p, n / 2 % p;
    assert n / 2 == q * p + r;
    var m := n % 2;
    assert n == 2 * (n / 2) + m;
    assert n == q * (2 * p) + (2 * r + m);
    QuotientIs(n, 2 * p, q, 2 * r + m);
  }

  lemma QuotientIs(n: nat, d: nat, q: nat, r: nat)
    requires n == q * d + r && r < d
    ensures n / d == q
  {
    var q', r' := n / d, n % d;
    assert n == q' * d + r';
    assert (q - q') * d == r' - r;
    Multiples(q - q', d);
  }

  lemma {:induction false} XorBitsDiffer(a: nat, b: nat, width: nat, k: nat)
    requires a < Pow2(width) && b < Pow2(width) && k < width
    ensures BitAt(Bitwise(Xor, a, b, width), k) == if BitAt(a, k) != BitAt(b, k) then 1 else 0
    decreases width
  {
    if k == 0 {
      assert Pow2(0) == 1;
    } else {
      var r := Bitwise(Xor, a, b, width);
      assert r / 2 == Bitwise(Xor, a / 2, b / 2, width - 1);
      BitAtHalf(r, k);
      BitAtHalf(a, k);
      BitAtHalf(b, k);
      XorBitsDiffer(a / 2, b / 2, width - 1, k - 1);
    }
  }

  /** Masking flips bit k of byte i exactly where byte i mod 4 of the key has that bit set. */
  lemma MaskFlipsBits(payload: bytes, key: bytes, i: nat, k: nat)
    requires |key| == 4 && i < |payload| && k < 8
    ensures BitAt(Mask(payload, key)[i], k) == (if BitAt(key[i % 4], k) == 1 then 1 - BitAt(payload[i], k) else BitAt(payload[i], k))
  {
    assert Pow2(8) == 256;
    hide Bitwise, BitAt, Pow2;
    XorBitsDiffer(payload[i], key[i % 4], 8, k);
    BitIsBit(payload[i], k);
    BitIsBit(key[i % 4], k);
  }

  lemma BitIsBit(n: nat, k: nat)
    ensures BitAt(n, k) == 0 || BitAt(n, k) == 1
  {
  }

  // ----- The fields of a frame -----

  /** How many bytes the extended length takes, by the second byte. */
  function LengthBytes(second: byte): nat {
    if second % 128 == 126 then 2 else if second % 128 == 127 then 8 else 0
  }

  function PayloadLength(buf: bytes): nat
    requires |buf| >= 2 && |buf| >= 2 + LengthBytes(buf[1])
  {
    if buf[1] % 128 == 126 then 256 * buf[2] + buf[3]
    else if buf[1] % 128 == 127 then FromBigEndian(buf[2..10])
    else buf[1] % 128
  }

  function HeaderBytes(second: byte): nat {
    2 + LengthBytes(second) + if second >= 128 then 4 else 0
  }

  /** A client masks its frames, a server does not. */
  predicate RightMask(isServer: bool, second: byte) {
    isServer <==> second >= 128
  }

  /** The frame is not too long, and all there. */
  predicate Whole(buf: bytes) {
    && |buf| >= 2 && |buf| >= 2 + LengthBytes(buf[1])
    && PayloadLength(buf) <= 65536 && |buf| >= HeaderBytes(buf[1]) + PayloadLength(buf)
  }

  /** The payload as it was before masking. */
  function PayloadOf(buf: bytes): (p: bytes)
    requires Whole(buf)
    ensures |p| == PayloadLength(buf)
  {
    var h := HeaderBytes(buf[1]);
    seq(PayloadLength(buf), i requires 0 <= i < PayloadLength(buf) =>
      if buf[1] >= 128 then Xor8(buf[h + i], buf[h - 4 + i % 4]) else buf[h + i])
  }

  function KeyOf(buf: bytes): bytes
    requires Whole(buf)
  {
    buf[2 + LengthBytes(buf[1])..HeaderBytes(buf[1])]
  }

  function FrameLength(buf: bytes): nat
    requires Whole(buf)
  {
    HeaderBytes(buf[1]) + PayloadLength(buf)
  }

  /** A frame with the wrong mask bit is refused, whatever else it holds and whatever was held before. */
  lemma WrongMaskIsRefused(isServer: bool, buf: bytes, frag: Fragment)
    requires |buf| >= 2
    ensures isServer && buf[1] < 128 ==>
              && ParseFrame(isServer, buf, frag) == Failed(UnmaskedClientFrame, frag)
              && ParseBuffer(isServer, buf, frag) == Rejected(UnmaskedClientFrame, buf, frag)
    ensures !isServer && buf[1] >= 128 ==>
              && ParseFrame(isServer, buf, frag) == Failed(MaskedServerFrame, frag)
              && ParseBuffer(isServer, buf, frag) == Rejected(MaskedServerFrame, buf, frag)
  {
    hide And8, AcceptFrame, Unmask;
    ByteFields(buf[1]);
  }

  lemma LengthIs(buf: bytes)
    requires |buf| >= 2 && |buf| >= 2 + LengthBytes(buf[1])
    ensures var ext := 2 + ExtendedLengthSize(And8(buf[1], 0x7F));
            && ext == 2 + LengthBytes(buf[1])
            && PayloadLength(buf) == if ext == 2 then And8(buf[1], 0x7F) else FromBigEndian(buf[2..ext])
  {
    hide And8, FromBigEndian;
    ByteFields(buf[1]);
    if buf[1] % 128 == 126 {
      TwoBytes(buf[2..4]);
    }
  }

  lemma TwoBytes(s: bytes)
    requires |s| == 2
    ensures FromBigEndian(s) == 256 * (s[0] as int) + s[1]
  {
    assert s[..1] == [s[0]] && [s[0]][..0] == [];
    assert FromBigEndian([s[0]]) == s[0];
  }

  // The top bit of eight bytes.
  lemma TopBitOfEight(s: bytes)
    requires |s| == 8
    ensures FromBigEndian(s) >= 0x8000_0000_0000_0000 <==> s[0] >= 128
  {
    assert s == [s[0]] + s[1..];
    FromBigEndianConcat([s[0]], s[1..]);
    FromBigEndianBound(s[1..]);
    assert FromBigEndian([s[0]]) == 256 * FromBigEndian([]) + s[0] by { assert [s[0]][..0] == []; }
    PowerSeven();
  }

  lemma PowerSeven()
    ensures Pow256(7) == 0x100_0000_0000_0000
  {
    assert Pow256(1) == 256 && Pow256(2) == 0x1_0000 && Pow256(3) == 0x100_0000 && Pow256(4) == 0x1_0000_0000;
    assert Pow256(5) == 0x100_0000_0000 && Pow256(6) == 0x1_0000_0000_0000;
  }

  // The header in the terms above.
  lemma HeaderRead(isServer: bool, buf: bytes)
    requires |buf| >= 2 && RightMask(isServer, buf[1])
    ensures var (h, ext) := (ParseHeader(isServer, buf), 2 + LengthBytes(buf[1]));
            if |buf| < ext then h == ShortHeader
            else if PayloadLength(buf) > 65536 then
              h == BadHeader(if buf[1] % 128 == 127 && buf[2] >= 128 then LengthMsbSet else FrameTooLarge)
            else if |buf| < HeaderBytes(buf[1]) then h == ShortHeader
            else h == Header(buf[0] >= 128, buf[0] % 16, buf[1] >= 128, buf[ext..HeaderBytes(buf[1])],
                             HeaderBytes(buf[1]), PayloadLength(buf))
  {
    hide And8, FromBigEndian;
    ByteFields(buf[0]);
    ByteFields(buf[1]);
    if |buf| >= 2 + LengthBytes(buf[1]) {
      LengthIs(buf);
      if buf[1] % 128 == 127 {
        TopBitOfEight(buf[2..10]);
      }
    }
  }

  /** The parser waits exactly while a frame with the right mask bit and a length within the limit is not all there. */
  lemma FrameWaitsIff(isServer: bool, buf: bytes, frag: Fragment)
    ensures ParseFrame(isServer, buf, frag).NeedMore? <==>
            || |buf| < 2
            || (&& RightMask(isServer, buf[1])
                && (|| |buf| < 2 + LengthBytes(buf[1])
                    || (PayloadLength(buf) <= 65536 && |buf| < HeaderBytes(buf[1]) + PayloadLength(buf))))
  {
    hide ParseHeader, AcceptFrame, Unmask, And8, PayloadLength;
    if |buf| >= 2 {
      if RightMask(isServer, buf[1]) {
        HeaderRead(isServer, buf);
      } else {
        WrongMaskIsRefused(isServer, buf, frag);
      }
    } else {
      assert ParseHeader(isServer, buf) == ShortHeader by { ShortBuffer(isServer, buf); }
    }
  }

  lemma ShortBuffer(isServer: bool, buf: bytes)
    requires |buf| < 2
    ensures ParseHeader(isServer, buf) == ShortHeader
  {
  }

  /** A length over 64 KiB is refused as soon as it is read. */
  lemma LongFrameIsRefused(isServer: bool, buf: bytes, frag: Fragment)
    requires |buf| >= 2 && |buf| >= 2 + LengthBytes(buf[1]) && RightMask(isServer, buf[1]) && PayloadLength(buf) > 65536
    ensures ParseFrame(isServer, buf, frag)
         == Failed(if buf[1] % 128 == 127 && buf[2] >= 128 then LengthMsbSet else FrameTooLarge, frag)
  {
    hide ParseHeader, AcceptFrame, Unmask, PayloadLength;
    HeaderRead(isServer, buf);
  }

  // ----- Whole frames -----

  /** A whole frame with the right mask bit is refused exactly for these reasons. */
  predicate Refused(op: byte, fin: bool, payload: bytes, held: Fragment) {
    || op !in {0, 1, 2, 8, 9, 10}
    || (op >= 8 && (!fin || |payload| > 125))
    || (op == 1 && !Utf8Valid(payload))
    || (op in {1, 2} && !fin && held.data != [])
    || (op == 0 && |held.data| + |payload| > 1048576)
    || (op == 0 && fin && held.opCode == 1 && !Utf8Valid(held.data + payload))
  }

  lemma WholeFrameIsAccepted(isServer: bool, buf: bytes, frag: Fragment)
    requires Whole(buf) && RightMask(isServer, buf[1])
    ensures ParseFrame(isServer, buf, frag)
         == AcceptFrame(buf[0] % 16, PayloadOf(buf), buf[0] >= 128, isServer, KeyOf(buf), FrameLength(buf), frag)
    ensures KeyOf(buf) == [] <==> !isServer
  {
    hide ParseHeader, AcceptFrame, PayloadLength, Unmask, PayloadOf;
    HeaderRead(isServer, buf);
    UnmaskedIs(buf);
  }

  lemma UnmaskedIs(buf: bytes)
    requires Whole(buf)
    ensures var (h, n) := (HeaderBytes(buf[1]), PayloadLength(buf));
            Unmask(buf[h..h + n], buf[2 + LengthBytes(buf[1])..h]) == PayloadOf(buf)
  {
    hide PayloadLength, Xor8;
  }

  lemma OpCodes(op: byte)
    ensures IsValidOpCode(op) <==> op in {0, 1, 2, 8, 9, 10}
    ensures IsControl(op) <==> op >= 8
  {
  }

  /** Whether a whole frame is refused, and with which error. */
  lemma WholeFrameIsRefusedIff(isServer: bool, buf: bytes, frag: Fragment)
    requires Whole(buf) && RightMask(isServer, buf[1])
    ensures var (op, fin, payload) := (buf[0] % 16, buf[0] >= 128, PayloadOf(buf));
            var r := ParseFrame(isServer, buf, frag);
            && (r.Failed? <==> Refused(op, fin, payload, frag))
            && (op !in {0, 1, 2, 8, 9, 10} ==> r == Failed(InvalidOpCode, frag))
            && (op in {8, 9, 10} && !fin ==> r == Failed(FragmentedControlFrame, frag))
            && (op in {8, 9, 10} && fin && |payload| > 125 ==> r == Failed(ControlFrameTooLarge, frag))
            && (op == 1 && !Utf8Valid(payload) ==> r == Failed(InvalidUtf8Frame, frag))
            && (op in {1, 2} && !fin && frag.data != [] && (op == 1 ==> Utf8Valid(payload)) ==>
                  r == Failed(UnexpectedFragmentStart, frag))
            && (op == 0 && |frag.data| + |payload| > 1048576 ==> r == Failed(MessageTooLarge, Fragment([], frag.opCode)))
            && (op == 0 && |frag.data| + |payload| <= 1048576 && r.Failed? ==>
                  r == Failed(InvalidUtf8Message, Fragment([], frag.opCode)))
  {
    WholeFrameIsAccepted(isServer, buf, frag);
    OpCodes(buf[0] % 16);
    hide ParseFrame, PayloadOf, PayloadLength, Whole, Utf8Valid, IsValidOpCode, IsControl, FrameMessage, MessageType;
  }

  /** A whole frame that is not refused and not part of a fragmented message is delivered; what is held stays held. */
  lemma WholeFrameDelivers(isServer: bool, buf: bytes, frag: Fragment)
    requires Whole(buf) && RightMask(isServer, buf[1]) && !Refused(buf[0] % 16, buf[0] >= 128, PayloadOf(buf), frag)
    requires buf[0] % 16 >= 8 || (buf[0] % 16 != 0 && buf[0] >= 128)
    ensures var (op, payload, r) := (buf[0] % 16, PayloadOf(buf), ParseFrame(isServer, buf, frag));
            && r.Done? && r.consumed == FrameLength(buf) && r.msg.Some? && r.frag == frag
            && r.msg.value.opCode == op && r.msg.value.payload == payload && r.msg.value.final
            && r.msg.value.masked == isServer && r.msg.value.maskKey == KeyOf(buf) && r.msg.value.msgType == KindOf(op)
            && (op == 8 ==>
                  && r.msg.value.closeCode == (if |payload| >= 2 then 256 * (payload[0] as int) + payload[1] else 1005)
                  && r.msg.value.closeReason == if |payload| > 2 then payload[2..] else [])
  {
    assert |buf| >= 2;
    hide *;
    WholeFrameIsAccepted(isServer, buf, frag);
    var op, fin, payload, key := buf[0] % 16, buf[0] >= 128, PayloadOf(buf), KeyOf(buf);
    DeliveredAtOnce(op, payload, fin, isServer, key, FrameLength(buf), frag);
    MessageIs(op, isServer, key, fin, payload);
  }

  lemma DeliveredAtOnce(op: byte, payload: bytes, fin: bool, masked: bool, key: bytes, total: nat, frag: Fragment)
    requires !Refused(op, fin, payload, frag) && (op >= 8 || (op != 0 && fin))
    ensures fin && AcceptFrame(op, payload, fin, masked, key, total, frag)
                == Done(Some(FrameMessage(op, masked, key, fin, payload)), total, frag)
  {
    OpCodes(op);
    hide Utf8Valid, IsValidOpCode, IsControl, HandleFragment, FrameMessage;
  }

  lemma MessageIs(op: byte, masked: bool, key: bytes, fin: bool, payload: bytes)
    ensures var m := FrameMessage(op, masked, key, fin, payload);
            && m.opCode == op && m.payload == payload && m.final == fin && m.masked == masked && m.maskKey == key
            && m.msgType == KindOf(op)
            && (op == 8 ==>
                  && m.closeCode == (if |payload| >= 2 then 256 * (payload[0] as int) + payload[1] else 1005)
                  && m.closeReason == if |payload| > 2 then payload[2..] else [])
  {
    hide FromBigEndian;
    if |payload| >= 2 {
      TwoBytes(payload[..2]);
    }
  }

  /** Part of a fragmented message is held, and the last part delivers the whole under the opcode of the first. */
  lemma FragmentIsCollected(isServer: bool, buf: bytes, frag: Fragment)
    requires Whole(buf) && RightMask(isServer, buf[1]) && !Refused(buf[0] % 16, buf[0] >= 128, PayloadOf(buf), frag)
    requires buf[0] % 16 == 0 || (buf[0] % 16 < 8 && buf[0] < 128)
    ensures var (op, fin, payload, r) := (buf[0] % 16, buf[0] >= 128, PayloadOf(buf), ParseFrame(isServer, buf, frag));
            && r.Done? && r.consumed == FrameLength(buf)
            && (!fin && op == 0 ==> r.msg == None && r.frag == Fragment(frag.data + payload, frag.opCode))
            && (!fin && op != 0 ==> r.msg == None && r.frag == Fragment(payload, op))
            && (fin ==>
                  && r.msg.Some? && r.frag == Fragment([], 0)
                  && r.msg.value.opCode == frag.opCode && r.msg.value.payload == frag.data + payload
                  && r.msg.value.final && r.msg.value.masked == isServer && r.msg.value.maskKey == KeyOf(buf)
                  && r.msg.value.msgType == KindOf(frag.opCode))
  {
    WholeFrameIsAccepted(isServer, buf, frag);
    OpCodes(buf[0] % 16);
    hide ParseFrame, PayloadOf, KeyOf, FrameLength, PayloadLength, Whole, Utf8Valid, IsValidOpCode, IsControl, FrameMessage;
  }

  /** The names of the kinds of message. */
  function KindOf(op: byte): string {
    match op
    case 1 => "websocket_text"
    case 2 => "websocket_binary"
    case 8 => "websocket_close"
    case 9 => "websocket_ping"
    case 10 => "websocket_pong"
    case _ => "websocket_unknown"
  }
}

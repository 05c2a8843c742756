/** Bytes, the bit operations the source applies to them, and big-endian words. */
module Bytes {

  type byte = b: int | 0 <= b < 256
  type bytes = seq<byte>

  function Pow2(n: nat): (p: nat)
    ensures p > 0
  {
    if n == 0 then 1 else 2 * Pow2(n - 1)
  }

  datatype BitOp = And | Or | Xor {
    function Bit(x: bool, y: bool): nat {
      var r := match this
        case And => x && y
        case Or => x || y
        case Xor => x != y;
      if r then 1 else 0
    }
  }

  // A bitwise operation on two width-bit numbers, one bit at a time.
  function Bitwise(op: BitOp, a: nat, b: nat, width: nat): (r: nat)
    requires a < Pow2(width) && b < Pow2(width)
    ensures r < Pow2(width)
  {
    if width == 0 then 0
    else 2 * Bitwise(op, a / 2, b / 2, width - 1) + op.Bit(a % 2 == 1, b % 2 == 1)
  }

  function And8(a: byte, m: byte): byte {
    assert Pow2(8) == 256;
    Bitwise(And, a, m, 8)
  }

  function Or8(a: byte, m: byte): byte {
    assert Pow2(8) == 256;
    Bitwise(Or, a, m, 8)
  }

  function Xor8(a: byte, b: byte): byte {
    assert Pow2(8) == 256;
    Bitwise(Xor, a, b, 8)
  }

  lemma {:induction false} MaskTopBit(b: nat, width: nat)
    requires width > 0 && b < Pow2(width)
    ensures Bitwise(And, b, Pow2(width - 1), width) == if b >= Pow2(width - 1) then Pow2(width - 1) else 0
  {
    if width > 1 {
      MaskTopBit(b / 2, width - 1);
    }
  }

  function LowBits(b: nat, low: nat): nat {
    if low == 0 then 0 else 2 * LowBits(b / 2, low - 1) + b % 2
  }

  lemma {:induction false} MaskLowBits(b: nat, low: nat, width: nat)
    requires low <= width && b < Pow2(width) && Pow2(low) - 1 < Pow2(width)
    ensures Bitwise(And, b, Pow2(low) - 1, width) == LowBits(b, low)
  {
    if low == 0 {
      MaskWithZero(b, width);
    } else {
      MaskLowBits(b / 2, low - 1, width - 1);
    }
  }

  lemma {:induction false} LowBitsSplit(b: nat, low: nat) returns (high: nat)
    ensures LowBits(b, low) < Pow2(low)
    ensures b == high * Pow2(low) + LowBits(b, low)
  {
    if low == 0 {
      high := b;
    } else {
      high := LowBitsSplit(b / 2, low - 1);
      assert 2 * (high * Pow2(low - 1)) == high * Pow2(low);
    }
  }

  lemma {:induction false} MaskWithZero(b: nat, width: nat)
    requires b < Pow2(width)
    ensures Bitwise(And, b, 0, width) == 0
    ensures Bitwise(Or, 0, b, width) == b
  {
    if width > 0 {
      MaskWithZero(b / 2, width - 1);
    }
  }

  lemma {:induction false} OrTopBitOf(b: nat, width: nat)
    requires width > 0 && b < Pow2(width - 1)
    ensures Bitwise(Or, b, Pow2(width - 1), width) == b + Pow2(width - 1)
    ensures Bitwise(Or, Pow2(width - 1), b, width) == b + Pow2(width - 1)
  {
    if width > 1 {
      OrTopBitOf(b / 2, width - 1);
    }
  }

  lemma {:induction false} XorTwiceBits(a: nat, b: nat, width: nat)
    requires a < Pow2(width) && b < Pow2(width)
    ensures Bitwise(Xor, Bitwise(Xor, a, b, width), b, width) == a
  {
    if width > 0 {
      XorTwiceBits(a / 2, b / 2, width - 1);
    }
  }

  // The fields of the first two bytes of a WebSocket frame, read arithmetically.
  lemma ByteFields(b: byte)
    ensures And8(b, 0x80) != 0 <==> b >= 128
    ensures And8(b, 0x0F) == b % 16
    ensures And8(b, 0x7F) == b % 128
  {
    hide Bitwise, LowBits;
    assert Pow2(7) == 128 && Pow2(4) == 16 && Pow2(8) == 256;
    MaskTopBit(b, 8);
    MaskLowBits(b, 4, 8);
    MaskLowBits(b, 7, 8);
    var high4 := LowBitsSplit(b, 4);
    var high7 := LowBitsSplit(b, 7);
  }

  lemma OrTopBit(b: byte)
    requires b < 128
    ensures Or8(b, 0x80) == b + 128
    ensures Or8(0x80, b) == b + 128
    ensures Or8(0, b) == b
  {
    hide Bitwise;
    assert Pow2(7) == 128 && Pow2(8) == 256;
    OrTopBitOf(b, 8);
    MaskWithZero(b, 8);
  }

  // Setting the top bit of a byte adds a flag and keeps the low fields.
  lemma FlaggedByteFields(b: byte)
    requires b < 128
    ensures And8(b, 0x80) == 0 && And8(b, 0x7F) == b
    ensures And8(Or8(b, 0x80), 0x80) != 0 && And8(Or8(0x80, b), 0x80) != 0
    ensures And8(Or8(0x80, b), 0x7F) == b
    ensures b < 16 ==> And8(b, 0x0F) == b && And8(Or8(b, 0x80), 0x0F) == b
  {
    hide *;
    OrTopBit(b);
    ByteFields(b);
    ByteFields(b + 128);
  }

  lemma XorTwice(a: byte, k: byte)
    ensures Xor8(Xor8(a, k), k) == a
  {
    assert Pow2(8) == 256;
    XorTwiceBits(a, k, 8);
  }

  function Pow256(k: nat): (p: nat)
    ensures p > 0
  {
    if k == 0 then 1 else 256 * Pow256(k - 1)
  }

  // The k-byte big-endian encoding of n, truncated to k bytes as binary.BigEndian.Put* does.
  function BigEndian(n: nat, k: nat): (s: bytes)
    ensures |s| == k
  {
    if k == 0 then [] else BigEndian(n / 256, k - 1) + [n % 256]
  }

  function FromBigEndian(s: bytes): nat {
    if s == [] then 0 else 256 * FromBigEndian(s[..|s| - 1]) + s[|s| - 1]
  }

  lemma {:induction false} BigEndianRoundTrip(n: nat, k: nat)
    requires n < Pow256(k)
    ensures FromBigEndian(BigEndian(n, k)) == n
  {
    if k > 0 {
      BigEndianRoundTrip(n / 256, k - 1);
      assert BigEndian(n, k)[..k - 1] == BigEndian(n / 256, k - 1);
    }
  }

  lemma {:induction false} FromBigEndianBound(s: bytes)
    ensures FromBigEndian(s) < Pow256(|s|)
  {
    if s != [] {
      FromBigEndianBound(s[..|s| - 1]);
    }
  }

  lemma {:induction false} FromBigEndianRoundTrip(s: bytes)
    ensures BigEndian(FromBigEndian(s), |s|) == s
  {
    if s != [] {
      FromBigEndianRoundTrip(s[..|s| - 1]);
    }
  }

  lemma {:induction false} FromBigEndianConcat(s: bytes, t: bytes)
    ensures FromBigEndian(s + t) == FromBigEndian(s) * Pow256(|t|) + FromBigEndian(t)
  {
    if t == [] {
      assert s + t == s;
    } else {
      var t' := t[..|t| - 1];
      assert (s + t)[..|s + t| - 1] == s + t';
      FromBigEndianConcat(s, t');
      ShiftIn(FromBigEndian(s), Pow256(|t'|), FromBigEndian(t'), t[|t| - 1]);
    }
  }

  lemma ShiftIn(a: nat, p: nat, x: nat, y: nat)
    ensures 256 * (a * p + x) + y == a * (256 * p) + (256 * x + y)
  {
    assert 256 * (a * p) == a * (256 * p);
  }

  function Flatten(chunks: seq<bytes>): bytes {
    if chunks == [] then [] else chunks[0] + Flatten(chunks[1..])
  }
}

/** What the parser takes for valid text is exactly UTF-8 (RFC 3629, section 3): the encodings of Unicode scalar values. */
module WebSocketUtf8 {
  import opened Bytes
  import opened WebSocketFrame

  /** A Unicode scalar value: a code point that is no surrogate. */
  type Scalar = c: int | 0 <= c < 0xD800 || 0xE000 <= c < 0x11_0000

  /** One to four bytes: the bits of the number, six to each byte behind the first. */
  function Encode(c: Scalar): (s: bytes)
    ensures 1 <= |s| <= 4
  {
    if c < 0x80 then [c]
    else if c < 0x800 then [0xC0 + c / 64, 0x80 + c % 64]
    else if c < 0x1_0000 then [0xE0 + c / 4096, 0x80 + c / 64 % 64, 0x80 + c % 64]
    else [0xF0 + c / 0x4_0000, 0x80 + c / 4096 % 64, 0x80 + c / 64 % 64, 0x80 + c % 64]
  }

  function EncodeAll(text: seq<Scalar>): bytes {
    if text == [] then [] else Encode(text[0]) + EncodeAll(text[1..])
  }

  lemma EncodedIsRune(c: Scalar, rest: bytes)
    ensures RuneLength(Encode(c) + rest) == |Encode(c)|
  {
  }

  // Numbers in base 64.
  function In64(h: int, d: int): int {
    h * 64 + d
  }

  lemma Base64(h: nat, d: nat)
    requires d < 64
    ensures In64(h, d) / 64 == h && In64(h, d) % 64 == d
  {
  }

  lemma TwoBytesEncoded(h: nat, d: nat)
    requires 2 <= h < 32 && d < 64
    ensures Encode(In64(h, d)) == [0xC0 + h, 0x80 + d]
  {
    Base64(h, d);
  }

  lemma ThreeBytesEncoded(h: nat, d: nat, e: nat)
    requires h < 16 && d < 64 && e < 64 && (h == 0 ==> d >= 32) && (h == 13 ==> d < 32)
    ensures 0x800 <= In64(In64(h, d), e) < 0x1_0000 && !(0xD800 <= In64(In64(h, d), e) < 0xE000)
    ensures Encode(In64(In64(h, d), e)) == [0xE0 + h, 0x80 + d, 0x80 + e]
  {
    Base64(h, d);
    Base64(In64(h, d), e);
    var c := In64(In64(h, d), e);
    assert c / 4096 == c / 64 / 64;
  }

  lemma FourBytesEncoded(h: nat, d: nat, e: nat, f: nat)
    requires h <= 4 && d < 64 && e < 64 && f < 64 && (h == 0 ==> d >= 16) && (h == 4 ==> d < 16)
    ensures 0x1_0000 <= In64(In64(In64(h, d), e), f) < 0x11_0000
    ensures Encode(In64(In64(In64(h, d), e), f)) == [0xF0 + h, 0x80 + d, 0x80 + e, 0x80 + f]
  {
    Base64(h, d);
    Base64(In64(h, d), e);
    Base64(In64(In64(h, d), e), f);
    var c := In64(In64(In64(h, d), e), f);
    assert c / 4096 == c / 64 / 64 && c / 0x4_0000 == c / 64 / 64 / 64;
  }

  lemma RuneIsEncoded(s: bytes) returns (c: Scalar)
    requires s != [] && RuneLength(s) > 0
    ensures s[..RuneLength(s)] == Encode(c)
  {
    var b: int, n := s[0], RuneLength(s);
    hide Encode, In64;
    if n == 1 {
      c := b;
      assert s[..1] == [b];
      OneByteEncoded(b);
    } else if n == 2 {
      TwoBytesEncoded(b - 0xC0, s[1] - 0x80);
      TwoBytesFit(b - 0xC0, s[1] - 0x80);
      c := In64(b - 0xC0, s[1] - 0x80);
    } else if n == 3 {
      ThreeBytesEncoded(b - 0xE0, s[1] - 0x80, s[2] - 0x80);
      c := In64(In64(b - 0xE0, s[1] - 0x80), s[2] - 0x80);
    } else {
      FourBytesEncoded(b - 0xF0, s[1] - 0x80, s[2] - 0x80, s[3] - 0x80);
      c := In64(In64(In64(b - 0xF0, s[1] - 0x80), s[2] - 0x80), s[3] - 0x80);
    }
  }

  lemma OneByteEncoded(b: nat)
    requires b < 0x80
    ensures Encode(b) == [b]
  {
  }

  lemma TwoBytesFit(h: nat, d: nat)
    requires h < 32 && d < 64
    ensures 0 <= In64(h, d) < 0x800
  {
  }

  lemma {:induction false} EncodedIsValid(text: seq<Scalar>)
    ensures Utf8Valid(EncodeAll(text))
    decreases |text|
  {
    hide Encode, RuneLength;
    if text != [] {
      var first, rest := Encode(text[0]), EncodeAll(text[1..]);
      EncodedIsRune(text[0], rest);
      assert (first + rest)[|first|..] == rest;
      EncodedIsValid(text[1..]);
    }
  }

  lemma {:induction false} ValidIsEncoded(s: bytes) returns (text: seq<Scalar>)
    requires Utf8Valid(s)
    ensures s == EncodeAll(text)
    decreases |s|
  {
    hide Encode, RuneLength;
    if s == [] {
      text := [];
    } else {
      var c := RuneIsEncoded(s);
      var rest := ValidIsEncoded(s[RuneLength(s)..]);
      text := [c] + rest;
      assert text[1..] == rest && s == s[..RuneLength(s)] + s[RuneLength(s)..];
    }
  }

  /** Text is valid if and only if it is the encoding of some sequence of scalar values. */
  lemma ValidIffEncoded(s: bytes)
    ensures Utf8Valid(s) <==> exists text :: s == EncodeAll(text)
  {
    hide EncodeAll, Utf8Valid;
    if Utf8Valid(s) {
      var text := ValidIsEncoded(s);
    }
    if text :| s == EncodeAll(text) {
      EncodedIsValid(text);
    }
  }
}

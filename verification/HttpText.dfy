/** The byte-string operations the HTTP parser takes from Go's strings, bytes, strconv and bufio packages. */
module HttpText {
  import opened Bytes
  import opened Wrappers

  const CR: byte := 13
  const LF: byte := 10
  const SPACE: byte := 32
  const COLON: byte := 58
  const CRLF: bytes := [CR, LF]
  const CRLF2: bytes := [CR, LF, CR, LF]

  /** A string literal as bytes. */
  function Str(s: string): (r: bytes)
    requires forall i :: 0 <= i < |s| ==> s[i] as int < 128
    ensures |r| == |s|
  {
    seq(|s|, i requires 0 <= i < |s| => s[i] as int)
  }

  /** bytes.Index and strings.Index: where pat first occurs in s. */
  function Find(pat: bytes, s: bytes): (r: Option<nat>)
    requires pat != []
    ensures r.Some? ==> r.value + |pat| <= |s| && s[r.value..r.value + |pat|] == pat
    decreases |s|
  {
    if |s| < |pat| then None
    else if s[..|pat|] == pat then Some(0)
    else
      match Find(pat, s[1..])
      case None => None
      case Some(i) => Some(i + 1)
  }

  lemma {:induction false} FindIsFirst(pat: bytes, s: bytes, j: nat)
    requires pat != [] && j + |pat| <= |s|
    requires Find(pat, s).None? || j < Find(pat, s).value
    ensures s[j..j + |pat|] != pat
    decreases |s|
  {
    if j > 0 {
      FindIsFirst(pat, s[1..], j - 1);
      assert s[1..][j - 1..j - 1 + |pat|] == s[j..j + |pat|];
    } else {
      assert s[0..|pat|] == s[..|pat|];
    }
  }

  lemma {:induction false} FindIgnoresLaterBytes(pat: bytes, s: bytes, more: bytes)
    requires pat != [] && Find(pat, s).Some?
    ensures Find(pat, s + more) == Find(pat, s)
    decreases |s|
  {
    assert (s + more)[..|pat|] == s[..|pat|];
    if s[..|pat|] != pat {
      assert (s + more)[1..] == s[1..] + more;
      FindIgnoresLaterBytes(pat, s[1..], more);
    }
  }

  // What is found in a longer string but not in its prefix ends beyond the prefix.
  lemma {:induction false} FindInPrefix(pat: bytes, s: bytes, more: bytes)
    requires pat != [] && Find(pat, s + more).Some?
    ensures Find(pat, s) == Find(pat, s + more) || (Find(pat, s).None? && |s| < Find(pat, s + more).value + |pat|)
    decreases |s|
  {
    if |s| >= |pat| {
      assert (s + more)[..|pat|] == s[..|pat|];
      if s[..|pat|] != pat {
        assert (s + more)[1..] == s[1..] + more;
        FindInPrefix(pat, s[1..], more);
      }
    }
  }

  // A single byte that does not occur in s is first found right behind s.
  lemma {:induction false} FindByteAfter(b: byte, s: bytes, rest: bytes)
    requires b !in s
    ensures Find([b], s + [b] + rest) == Some(|s|)
    decreases |s|
  {
    var t := s + [b] + rest;
    if s == [] {
      assert t[..1] == [b];
    } else {
      assert t[0] == s[0];
      assert t[..1] != [b];
      assert t[1..] == s[1..] + [b] + rest;
      FindByteAfter(b, s[1..], rest);
    }
  }

  lemma {:induction false} FindByteNowhere(b: byte, s: bytes)
    requires b !in s
    ensures Find([b], s) == None
    decreases |s|
  {
    if s != [] {
      assert s[..1][0] == s[0];
      FindByteNowhere(b, s[1..]);
    }
  }

  // The end of a line that contains no CR.
  lemma {:induction false} FindLineEnd(line: bytes, rest: bytes)
    requires CR !in line
    ensures Find(CRLF, line + CRLF + rest) == Some(|line|)
    decreases |line|
  {
    var t := line + CRLF + rest;
    if line == [] {
      assert t[..2] == CRLF;
    } else {
      assert t[0] == line[0] != CR;
      assert t[..2][0] == t[0];
      assert t[1..] == line[1..] + CRLF + rest;
      FindLineEnd(line[1..], rest);
    }
  }

  /** strings.SplitN with a one-byte separator. */
  function SplitN(s: bytes, sep: byte, n: nat): (parts: seq<bytes>)
    requires n > 0
    ensures 1 <= |parts| <= n
  {
    if n == 1 then [s]
    else
      match Find([sep], s)
      case None => [s]
      case Some(i) => [s[..i]] + SplitN(s[i + 1..], sep, n - 1)
  }

  /** strings.Split with a one-byte separator. */
  function Split(s: bytes, sep: byte): (parts: seq<bytes>)
    ensures |parts| >= 1
    decreases |s|
  {
    match Find([sep], s)
    case None => [s]
    case Some(i) => [s[..i]] + Split(s[i + 1..], sep)
  }

  // ----- Numbers -----

  function DigitValue(b: byte): nat {
    if 48 <= b <= 57 then b - 48
    else if 97 <= b <= 122 then b - 97 + 10
    else if 65 <= b <= 90 then b - 65 + 10
    else 36
  }

  predicate AllDigits(s: bytes, base: nat) {
    forall i :: 0 <= i < |s| ==> DigitValue(s[i]) < base
  }

  function DigitsValue(s: bytes, base: nat): nat {
    if s == [] then 0 else DigitsValue(s[..|s| - 1], base) * base + DigitValue(s[|s| - 1])
  }

  const MAX_INT64 := 0x7FFF_FFFF_FFFF_FFFF

  /** strconv.ParseInt(s, base, 64) for base 10 and 16, and strconv.Atoi; None is any error. */
  function ParseInt(s: bytes, base: nat): (r: Option<int>)
    ensures r.Some? ==> -MAX_INT64 - 1 <= r.value <= MAX_INT64
  {
    if s == [] then None
    else
      var signed := s[0] == 43 || s[0] == 45;
      var digits := if signed then s[1..] else s;
      if digits == [] || !AllDigits(digits, base) then None
      else
        var n := DigitsValue(digits, base);
        var v: int := if s[0] == 45 then -(n as int) else n;
        if -MAX_INT64 - 1 <= v <= MAX_INT64 then Some(v) else None
  }

  function DigitByte(d: nat): byte
    requires d < 16
  {
    if d < 10 then 48 + d else 97 + d - 10
  }

  /** fmt's %d (base 10) and %x (base 16) of a number that is not negative. */
  function Digits(n: nat, base: nat): (s: bytes)
    requires 2 <= base <= 16
    ensures s != []
    decreases n
  {
    if n < base then [DigitByte(n)] else Digits(n / base, base) + [DigitByte(n % base)]
  }

  lemma {:induction false} DigitsAreParsed(n: nat, base: nat)
    requires 2 <= base <= 16
    ensures AllDigits(Digits(n, base), base) && DigitsValue(Digits(n, base), base) == n
    ensures forall i :: 0 <= i < |Digits(n, base)| ==> 48 <= Digits(n, base)[i] <= 57 || 97 <= Digits(n, base)[i] <= 102
    decreases n
  {
    hide DigitsValue, DigitValue, DigitByte;
    var q, d := DivMod(n, base);
    DigitByteValue(d);
    if n < base {
      DigitsAppend([], DigitByte(n), base);
      assert [] + [DigitByte(n)] == [DigitByte(n)];
      EmptyDigits(base);
    } else {
      DigitsAreParsed(q, base);
      DigitsAppend(Digits(q, base), DigitByte(d), base);
    }
  }

  lemma DigitsAppend(s: bytes, b: byte, base: nat)
    ensures DigitsValue(s + [b], base) == DigitsValue(s, base) * base + DigitValue(b)
  {
    assert (s + [b])[..|s|] == s;
  }

  lemma EmptyDigits(base: nat)
    ensures DigitsValue([], base) * base == 0
  {
  }

  lemma DigitByteValue(d: nat)
    requires d < 16
    ensures DigitValue(DigitByte(d)) == d
    ensures 48 <= DigitByte(d) <= 57 || 97 <= DigitByte(d) <= 102
  {
  }

  lemma DivMod(n: nat, base: nat) returns (q: nat, d: nat)
    requires base >= 2
    ensures q == n / base && d == n % base
    ensures d < base && q * base + d == n
    ensures if n < base then d == n else q < n
  {
    hide *;
    q, d := n / base, n % base;
    assert n == q * base + d;
    TwiceAtLeast(q, base);
  }

  lemma TwiceAtLeast(q: nat, base: nat)
    requires base >= 2
    ensures q * base >= 2 * q && (q > 0 ==> q * base >= base)
  {
    assert q * base == q * (base - 2) + 2 * q;
    assert q > 0 ==> q * base == (q - 1) * base + base;
  }

  /** Printing and parsing a 64-bit number agree. */
  lemma ParseIntRoundTrip(n: nat, base: nat)
    requires 2 <= base <= 16 && n <= MAX_INT64
    ensures ParseInt(Digits(n, base), base) == Some(n)
  {
    DigitsAreParsed(n, base);
    assert Digits(n, base)[0] >= 48;
  }

  // ----- Case and white space -----

  /** fmt's %d. */
  function PrintInt(n: int): (s: bytes)
    ensures s != []
  {
    if n < 0 then [45] + Digits(-n, 10) else Digits(n, 10)
  }

  /** Printing and parsing a signed 64-bit number agree; what is printed is a sign and digits. */
  lemma PrintIntRoundTrip(n: int)
    requires -MAX_INT64 - 1 <= n <= MAX_INT64
    ensures ParseInt(PrintInt(n), 10) == Some(n)
    ensures forall i :: 0 <= i < |PrintInt(n)| ==> PrintInt(n)[i] == 45 || 48 <= PrintInt(n)[i] <= 102
  {
    hide Digits, DigitsValue, DigitValue;
    DigitsAreParsed(if n < 0 then -n else n, 10);
    if n < 0 {
      assert PrintInt(n)[1..] == Digits(-n, 10);
    }
  }

  /** What ToLower and TrimSpace do to text that is not ASCII follows the Unicode tables, which are a parameter here. */
  datatype Unicode = Unicode(lower: bytes -> bytes, trim: bytes -> bytes)

  predicate IsAscii(s: bytes) {
    forall i :: 0 <= i < |s| ==> s[i] < 128
  }

  function LowerByte(b: byte): byte {
    if 65 <= b <= 90 then b + 32 else b
  }

  function ToLower(u: Unicode, s: bytes): bytes {
    if IsAscii(s) then seq(|s|, i requires 0 <= i < |s| => LowerByte(s[i])) else u.lower(s)
  }

  predicate IsSpace(b: byte) {
    b == SPACE || 9 <= b <= 13
  }

  function TrimLeft(s: bytes): bytes {
    if s != [] && IsSpace(s[0]) then TrimLeft(s[1..]) else s
  }

  function TrimRight(s: bytes): bytes {
    if s != [] && IsSpace(s[|s| - 1]) then TrimRight(s[..|s| - 1]) else s
  }

  function TrimSpace(u: Unicode, s: bytes): bytes {
    if IsAscii(s) then TrimRight(TrimLeft(s)) else u.trim(s)
  }

  /** Neither end of s is white space. */
  predicate IsTrimmed(s: bytes) {
    s != [] ==> !IsSpace(s[0]) && !IsSpace(s[|s| - 1])
  }

  lemma TrimOfTrimmed(u: Unicode, s: bytes)
    requires IsAscii(s) && IsTrimmed(s)
    ensures TrimSpace(u, s) == s
    ensures TrimSpace(u, [SPACE] + s) == s
  {
    assert ([SPACE] + s)[1..] == s;
  }

  // ----- Lines -----

  // bufio.MaxScanTokenSize: a longer line ends the scan.
  const MAX_LINE := 65536

  function DropCR(line: bytes): bytes {
    if line != [] && line[|line| - 1] == CR then line[..|line| - 1] else line
  }

  /** The lines bufio.Scanner delivers; it stops silently at a line that is too long. */
  function ScanLines(data: bytes): seq<bytes>
    decreases |data|
  {
    if data == [] then []
    else
      match Find([LF], data)
      case None => if |data| >= MAX_LINE then [] else [DropCR(data)]
      case Some(i) => if i >= MAX_LINE then [] else [DropCR(data[..i])] + ScanLines(data[i + 1..])
  }
}

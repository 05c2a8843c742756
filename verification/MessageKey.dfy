/** Message keys: the ID bytes of a message printed in hexadecimal. */
module MessageKey {
  import opened Bytes

  type Key = string

  const HEX_DIGITS := "0123456789abcdef"

  /** fmt.Sprintf("%x", id). */
  function Hex(id: bytes): (k: Key)
    ensures |k| == 2 * |id|
  {
    if id == [] then [] else [HEX_DIGITS[id[0] / 16], HEX_DIGITS[id[0] % 16]] + Hex(id[1..])
  }

  lemma HexDigitsDiffer(i: nat, j: nat)
    requires i < 16 && j < 16 && HEX_DIGITS[i] == HEX_DIGITS[j]
    ensures i == j
  {
  }

  /** Different IDs have different keys. */
  lemma {:induction false} HexIsInjective(a: bytes, b: bytes)
    requires Hex(a) == Hex(b)
    ensures a == b
    decreases |a|
  {
    assert |a| == |b|;
    if a != [] {
      assert Hex(a)[0] == Hex(b)[0] && Hex(a)[1] == Hex(b)[1];
      HexDigitsDiffer(a[0] / 16, b[0] / 16);
      HexDigitsDiffer(a[0] % 16, b[0] % 16);
      assert Hex(a)[2..] == Hex(a[1..]) && Hex(b)[2..] == Hex(b[1..]);
      HexIsInjective(a[1..], b[1..]);
      assert a == [a[0]] + a[1..] && b == [b[0]] + b[1..];
    }
  }

  /** A key consists of hexadecimal digits only. */
  lemma {:induction false} HexHasOnlyDigits(id: bytes, c: char)
    requires c in Hex(id)
    ensures c in HEX_DIGITS
  {
    if id != [] && c != Hex(id)[0] && c != Hex(id)[1] {
      assert Hex(id)[2..] == Hex(id[1..]);
      assert Hex(id) == Hex(id)[..2] + Hex(id)[2..];
      HexHasOnlyDigits(id[1..], c);
    }
  }

  /** fmt.Sprintf("%d", n). */
  function Decimal(n: nat): string {
    if n < 10 then [HEX_DIGITS[n]] else Decimal(n / 10) + [HEX_DIGITS[n % 10]]
  }

  lemma {:induction false} DecimalIsInjective(m: nat, n: nat)
    requires Decimal(m) == Decimal(n)
    ensures m == n
    decreases m
  {
    DecimalNotEmpty(m / 10);
    DecimalNotEmpty(n / 10);
    if m >= 10 && n >= 10 {
      var d, e := Decimal(m), Decimal(n);
      assert d[..|d| - 1] == Decimal(m / 10) && e[..|e| - 1] == Decimal(n / 10);
      assert d[|d| - 1] == HEX_DIGITS[m % 10] && e[|e| - 1] == HEX_DIGITS[n % 10];
      HexDigitsDiffer(m % 10, n % 10);
      DecimalIsInjective(m / 10, n / 10);
    } else if m < 10 && n < 10 {
      assert Decimal(m)[0] == Decimal(n)[0];
      HexDigitsDiffer(m, n);
    }
  }

  lemma DecimalNotEmpty(n: nat)
    ensures |Decimal(n)| >= 1
  {
  }

  lemma {:induction false} DecimalHasOnlyDigits(n: nat, c: char)
    requires c in Decimal(n)
    ensures c in HEX_DIGITS
    decreases n
  {
    if n >= 10 && c != HEX_DIGITS[n % 10] {
      DecimalHasOnlyDigits(n / 10, c);
    }
  }
}

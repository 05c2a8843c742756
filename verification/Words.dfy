/** Signed machine words: what a variable of 32 or 64 bits keeps of a number. */
module Words {
  function Int32(n: int): int {
    (n + 0x8000_0000) % 0x1_0000_0000 - 0x8000_0000
  }

  function Int64(n: int): int {
    (n + 0x8000_0000_0000_0000) % 0x1_0000_0000_0000_0000 - 0x8000_0000_0000_0000
  }

  // Counting one up or down commutes with wrapping around.
  lemma Step32(n: int)
    ensures Int32(Int32(n) + 1) == Int32(n + 1) && Int32(Int32(n) - 1) == Int32(n - 1)
  {
    var x := n + 0x8000_0000;
    var q, r := x / 0x1_0000_0000, x % 0x1_0000_0000;
    assert x == 0x1_0000_0000 * q + r;
    assert (x + 1) % 0x1_0000_0000 == (r + 1) % 0x1_0000_0000;
    assert (x - 1) % 0x1_0000_0000 == (r - 1) % 0x1_0000_0000;
  }

  lemma Step64(n: int)
    ensures Int64(Int64(n) + 1) == Int64(n + 1) && Int64(Int64(n) - 1) == Int64(n - 1)
  {
    var x := n + 0x8000_0000_0000_0000;
    var q, r := x / 0x1_0000_0000_0000_0000, x % 0x1_0000_0000_0000_0000;
    assert x == 0x1_0000_0000_0000_0000 * q + r;
    assert (x + 1) % 0x1_0000_0000_0000_0000 == (r + 1) % 0x1_0000_0000_0000_0000;
    assert (x - 1) % 0x1_0000_0000_0000_0000 == (r - 1) % 0x1_0000_0000_0000_0000;
  }

  // ----- Remainders -----

  lemma {:induction false} Multiples(d: int, m: nat)
    ensures d >= 1 ==> d * m >= m
    ensures d <= -1 ==> d * m <= -(m as int)
    decreases if d >= 0 then d else -d
  {
    if d > 1 {
      Multiples(d - 1, m);
      assert d * m == (d - 1) * m + m;
    } else if d < -1 {
      Multiples(d + 1, m);
      assert d * m == (d + 1) * m - m;
    }
  }

  lemma RemainderOf(m: int, n: nat, r: nat)
    requires r < n
    ensures (m * n + r) % n == r
  {
    var x := m * n + r;
    var q, d := x / n, x % n;
    assert x == q * n + d;
    assert (q - m) * n == q * n - m * n;
    Multiples(q - m, n);
  }

  /** Numbers less than n apart that leave the same remainder are the same. */
  lemma SameRemainder(x: nat, y: nat, n: nat)
    requires n > 0 && x <= y < x + n && x % n == y % n
    ensures x == y
  {
    var p, q := x / n, y / n;
    assert x == p * n + x % n && y == q * n + y % n;
    assert (q - p) * n == q * n - p * n;
    Multiples(q - p, n);
  }
}

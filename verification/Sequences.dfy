/** Functions on sequences that several modules share. */
module Sequences {
  function Min(a: nat, b: nat): nat {
    if a <= b then a else b
  }

  lemma ConcatAssoc<T>(a: seq<T>, b: seq<T>, c: seq<T>)
    ensures a + (b + c) == a + b + c
  {
  }

  /** Leaving out the first occurrence of an element. */
  function CutOut<T(==)>(q: seq<T>, x: T): seq<T>
    decreases |q|
  {
    if q == [] then [] else if q[0] == x then q[1..] else [q[0]] + CutOut(q[1..], x)
  }

  lemma {:induction false} CutOutLosesOne<T>(q: seq<T>, x: T)
    ensures multiset(CutOut(q, x)) == multiset(q) - multiset{x}
    decreases |q|
  {
    if q != [] {
      assert q == [q[0]] + q[1..];
      assert multiset(q) == multiset{q[0]} + multiset(q[1..]);
      if q[0] != x {
        CutOutLosesOne(q[1..], x);
        var rest := CutOut(q[1..], x);
        assert multiset([q[0]] + rest) == multiset{q[0]} + multiset(rest);
      }
    }
  }

  lemma {:induction false} NotThere<T>(q: seq<T>, x: T)
    requires x !in q
    ensures CutOut(q, x) == q
    decreases |q|
  {
    if q != [] {
      NotThere(q[1..], x);
      assert q == [q[0]] + q[1..];
    }
  }
}

/**
 The consistent-hash ring of the router's load balancer: building it, taking a node out of it in place,
 and looking a key up.
 */
module HashRing {
  import opened MessageKey
  import opened Wrappers
  import opened Sequences
  import opened Words

  type NodeId = string

  /** The ring: who owns each point, and the points as a sorted list. */
  datatype Ring = Ring(nodes: map<nat, NodeId>, keys: seq<nat>)

  const EMPTY_RING := Ring(map[], [])

  /** The string hashed for a node's i-th point. */
  function VirtualKey(id: NodeId, i: nat): string {
    id + "#" + Decimal(i)
  }

  /** A node's points; the hash function is a parameter. */
  function Points(hash: string -> nat, id: NodeId, replicas: nat): (p: seq<nat>)
    ensures |p| == replicas
  {
    if replicas == 0 then [] else Points(hash, id, replicas - 1) + [hash(VirtualKey(id, replicas - 1))]
  }

  function Claim(nodes: map<nat, NodeId>, points: seq<nat>, id: NodeId): map<nat, NodeId> {
    if points == [] then nodes
    else Claim(nodes, points[..|points| - 1], id)[points[|points| - 1] := id]
  }

  /** All points of the nodes, claimed and listed node by node. */
  function AddAll(hash: string -> nat, replicas: nat, ids: seq<NodeId>): Ring {
    if ids == [] then EMPTY_RING
    else
      var r := AddAll(hash, replicas, ids[..|ids| - 1]);
      var id := ids[|ids| - 1];
      var points := Points(hash, id, replicas);
      Ring(Claim(r.nodes, points, id), r.keys + points)
  }

  predicate SortedKeys(keys: seq<nat>) {
    forall i, j :: 0 <= i < j < |keys| ==> keys[i] <= keys[j]
  }

  function InsertKey(keys: seq<nat>, k: nat): (r: seq<nat>)
    requires SortedKeys(keys)
    ensures SortedKeys(r) && multiset(r) == multiset(keys) + multiset{k}
  {
    if keys == [] || k <= keys[0] then [k] + keys
    else
      assert keys == [keys[0]] + keys[1..];
      var rest := InsertKey(keys[1..], k);
      SmallestFirst(keys[0], keys[1..], k, rest);
      [keys[0]] + rest
  }

  lemma SmallestFirst(first: nat, tail: seq<nat>, k: nat, rest: seq<nat>)
    requires SortedKeys(rest) && multiset(rest) == multiset(tail) + multiset{k}
    requires first <= k && forall i :: 0 <= i < |tail| ==> first <= tail[i]
    ensures SortedKeys([first] + rest)
    ensures multiset([first] + rest) == multiset{first} + multiset(tail) + multiset{k}
  {
    forall i | 0 <= i < |rest|
      ensures first <= rest[i]
    {
      assert rest[i] in multiset(rest);
      assert rest[i] in multiset(tail) || rest[i] == k;
    }
  }

  function SortKeys(keys: seq<nat>): (r: seq<nat>)
    ensures SortedKeys(r) && multiset(r) == multiset(keys)
  {
    if keys == [] then []
    else
      assert keys == keys[..|keys| - 1] + [keys[|keys| - 1]];
      InsertKey(SortKeys(keys[..|keys| - 1]), keys[|keys| - 1])
  }

  lemma SortedSoFar(keys: seq<nat>, i: nat)
    requires i <= |keys|
    ensures SortKeys([]) == []
    ensures i < |keys| ==> SortKeys(keys[..i + 1]) == InsertKey(SortKeys(keys[..i]), keys[i])
  {
    hide InsertKey, SortedKeys;
    assert i < |keys| ==> keys[..i + 1][..i] == keys[..i];
  }

  /** The ring updateHashRing builds from the healthy nodes, in the order they are enumerated. */
  function Build(hash: string -> nat, replicas: nat, ids: seq<NodeId>): Ring {
    var r := AddAll(hash, replicas, ids);
    r.(keys := SortKeys(r.keys))
  }

  /** sort.Search: the first index whose key is not below the hash. */
  function FirstNotBelow(keys: seq<nat>, h: nat): (i: nat)
    ensures i <= |keys|
  {
    if keys == [] || keys[0] >= h then 0 else 1 + FirstNotBelow(keys[1..], h)
  }

  /** The owner of the point a hash lands on, going around at the end. */
  function Lookup(r: Ring, h: nat): Option<NodeId> {
    if r.keys == [] then None
    else
      var i := FirstNotBelow(r.keys, h);
      var k := r.keys[if i == |r.keys| then 0 else i];
      if k in r.nodes then Some(r.nodes[k]) else Some("")
  }

  /** removeNodeFromRing, point by point. */
  function RemovePoints(r: Ring, points: seq<nat>): Ring {
    if points == [] then r
    else
      var s := RemovePoints(r, points[..|points| - 1]);
      var k := points[|points| - 1];
      Ring(s.nodes - {k}, CutOut(s.keys, k))
  }

  function RemoveNode(hash: string -> nat, replicas: nat, r: Ring, id: NodeId): Ring {
    RemovePoints(r, Points(hash, id, replicas))
  }

  // ----- The object -----

  /** Which of the nodes passed is chosen; after a wrap-around the round robin may index with a negative number. */
  datatype Choice = NoNode | ByRing(index: nat) | RoundRobin(index: nat) | IndexPanic

  /** The node whose turn it is among n, for a counter value: Go's remainder is negative for negative numbers. */
  function TurnOf(counter: int, n: nat): Choice
    requires n > 0
  {
    if counter >= 0 then RoundRobin(counter % n)
    else if (-counter) % n == 0 then RoundRobin(0)
    else IndexPanic
  }

  class LoadBalancer {
    const hash: string -> nat
    const replicas: nat
    var nodes: map<nat, NodeId>
    var keys: seq<nat>
    var roundRobinIndex: int

    constructor (hash: string -> nat, replicas: nat)
      ensures this.hash == hash && this.replicas == replicas && State() == EMPTY_RING && roundRobinIndex == 0
    {
      roundRobinIndex := 0;
      this.hash := hash;
      this.replicas := replicas;
      nodes, keys := map[], [];
    }

    function State(): Ring
      reads this
    {
      Ring(nodes, keys)
    }

    /** updateHashRing, for the healthy nodes in the order they are enumerated. */
    method UpdateHashRing(ids: seq<NodeId>)
      modifies this
      ensures State() == Build(hash, replicas, ids)
    {
      nodes, keys := map[], [];
      for i := 0 to |ids|
        invariant State() == AddAll(hash, replicas, ids[..i])
      {
        assert ids[..i + 1][..i] == ids[..i];
        AddNodeToRing(ids[i]);
      }
      assert ids[..|ids|] == ids;
      keys := SortInPlace(keys);
    }

    method AddNodeToRing(id: NodeId)
      modifies this
      ensures var points := Points(hash, id, replicas);
              State() == Ring(Claim(old(nodes), points, id), old(keys) + points)
    {
      assert keys + [] == keys;
      for i := 0 to replicas
        invariant nodes == Claim(old(nodes), Points(hash, id, i), id)
        invariant keys == old(keys) + Points(hash, id, i)
      {
        var h := hash(VirtualKey(id, i));
        assert Points(hash, id, i + 1)[..i] == Points(hash, id, i);
        nodes := nodes[h := id];
        keys := keys + [h];
      }
    }

    method RemoveNodeFromRing(id: NodeId)
      modifies this
      ensures State() == RemoveNode(hash, replicas, old(State()), id)
    {
      for i := 0 to replicas
        invariant State() == RemovePoints(old(State()), Points(hash, id, i))
      {
        var h := hash(VirtualKey(id, i));
        assert Points(hash, id, i + 1)[..i] == Points(hash, id, i);
        nodes := nodes - {h};
        keys := RemoveKey(keys, h);
      }
    }

    // The loop that cuts the first matching key out.
    method RemoveKey(ks: seq<nat>, h: nat) returns (r: seq<nat>)
      ensures r == CutOut(ks, h)
    {
      r := ks;
      var j := 0;
      assert ks[..0] + CutOut(ks[0..], h) == CutOut(ks, h) by { assert ks[0..] == ks; }
      while j < |ks|
        invariant 0 <= j <= |ks| && r == ks
        invariant ks[..j] + CutOut(ks[j..], h) == CutOut(ks, h)
      {
        assert ks[j..][0] == ks[j] && ks[j..][1..] == ks[j + 1..];
        if ks[j] == h {
          r := ks[..j] + ks[j + 1..];
          return;
        }
        assert ks[..j] + ([ks[j]] + CutOut(ks[j + 1..], h)) == ks[..j + 1] + CutOut(ks[j + 1..], h);
        j := j + 1;
      }
      assert ks[..j] + [] == ks;
    }

    /** sort.Slice on the keys: any sort gives this result. */
    method SortInPlace(ks: seq<nat>) returns (r: seq<nat>)
      ensures r == SortKeys(ks)
    {
      hide InsertKey, SortKeys, SortedKeys;
      r := [];
      SortedSoFar(ks, 0);
      for i := 0 to |ks|
        invariant r == SortKeys(ks[..i])
      {
        SortedSoFar(ks, i);
        r := InsertKey(r, ks[i]);
      }
      assert ks[..|ks|] == ks;
    }

    /** selectByRoundRobin: the counter moves on, wrapping as a 32-bit number, and picks the node. */
    method SelectByRoundRobin(count: nat) returns (c: Choice)
      modifies `roundRobinIndex
      ensures roundRobinIndex == if count == 0 then old(roundRobinIndex) else Int32(old(roundRobinIndex) + 1)
      ensures c == if count == 0 then NoNode else TurnOf(roundRobinIndex, count)
    {
      if count == 0 {
        return NoNode;
      }
      roundRobinIndex := Int32(roundRobinIndex + 1);
      var index := roundRobinIndex;
      var rest := if index >= 0 then index % count else -((-index) % count);
      return if rest >= 0 then RoundRobin(rest) else IndexPanic;
    }

    /**
     selectByConsistentHash among the healthy nodes: the first in the list that the ring names, and the round robin if and
     only if the ring is empty or names a node that is not in the list.
     */
    method SelectByConsistentHash(healthy: seq<NodeId>, key: string) returns (c: Choice)
      requires SortedKeys(keys)
      modifies `roundRobinIndex
      ensures var named := Lookup(State(), hash(key));
              if healthy == [] then c == NoNode && roundRobinIndex == old(roundRobinIndex)
              else if named.Some? && named.value in healthy then
                && c.ByRing? && c.index < |healthy| && healthy[c.index] == named.value
                && named.value !in healthy[..c.index] && roundRobinIndex == old(roundRobinIndex)
              else
                && roundRobinIndex == Int32(old(roundRobinIndex) + 1) && c == TurnOf(roundRobinIndex, |healthy|)
    {
      if |healthy| == 0 {
        return NoNode;
      }
      if |keys| == 0 {
        c := SelectByRoundRobin(|healthy|);
        return;
      }
      var h := hash(key);
      var idx := Search(h);
      if idx == |keys| {
        idx := 0;
      }
      var nodeId := if keys[idx] in nodes then nodes[keys[idx]] else "";
      for i := 0 to |healthy|
        invariant nodeId !in healthy[..i]
      {
        if healthy[i] == nodeId {
          return ByRing(i);
        }
      }
      assert healthy[..|healthy|] == healthy;
      c := SelectByRoundRobin(|healthy|);
    }

    // Binary search.
    method Search(h: nat) returns (i: nat)
      requires SortedKeys(keys)
      ensures i == FirstNotBelow(keys, h)
    {
      var lo, hi := 0, |keys|;
      while lo < hi
        invariant 0 <= lo <= hi <= |keys|
        invariant forall j :: 0 <= j < lo ==> keys[j] < h
        invariant forall j :: hi <= j < |keys| ==> keys[j] >= h
      {
        var mid := (lo + hi) / 2;
        if keys[mid] >= h {
          hi := mid;
        } else {
          lo := mid + 1;
        }
      }
      FirstNotBelowIs(keys, h, lo);
      return lo;
    }
  }

  lemma {:induction false} FirstNotBelowIs(keys: seq<nat>, h: nat, i: nat)
    requires i <= |keys|
    requires forall j :: 0 <= j < i ==> keys[j] < h
    requires i < |keys| ==> keys[i] >= h
    ensures FirstNotBelow(keys, h) == i
  {
    if i > 0 {
      FirstNotBelowIs(keys[1..], h, i - 1);
    }
  }
}

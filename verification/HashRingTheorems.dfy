/** Stability of the consistent-hash ring under enumeration order, joining nodes and leaving nodes. */
module HashRingTheorems {
  import opened HashRing
  import opened MessageKey
  import opened Wrappers
  import opened Sequences
  import opened Words

  predicate Distinct(ids: seq<NodeId>) {
    forall i, j :: 0 <= i < j < |ids| ==> ids[i] != ids[j]
  }

  predicate Shares(hash: string -> nat, replicas: nat, a: NodeId, b: NodeId) {
    exists k :: k in Points(hash, a, replicas) && k in Points(hash, b, replicas)
  }

  /** No point belongs to two different nodes. */
  predicate NoCollision(hash: string -> nat, replicas: nat, ids: seq<NodeId>) {
    forall a, b :: a in ids && b in ids && a != b ==> !Shares(hash, replicas, a, b)
  }

  // ----- Virtual keys -----

  /** A node's points are the hashes of its name, a number sign and the numbers from 0 on. */
  lemma {:induction false} PointsAreHashes(hash: string -> nat, id: NodeId, replicas: nat, i: nat)
    requires i < replicas
    ensures |Points(hash, id, replicas)| == replicas && Points(hash, id, replicas)[i] == hash(id + "#" + Decimal(i))
    decreases replicas
  {
    if i < replicas - 1 {
      PointsAreHashes(hash, id, replicas - 1, i);
    }
  }

  // What stands behind the last number sign has none itself.
  lemma LastPartsAgree(a: string, b: string, c: string, d: string)
    requires '#' !in c && '#' !in d && a + "#" + c == b + "#" + d
    ensures a == b && c == d
  {
    var s := a + "#" + c;
    assert s[|a|] == '#' && s[|b|] == '#';
    forall i | 0 <= i < |c|
      ensures s[|a| + 1 + i] == c[i] != '#'
    {
    }
    forall i | 0 <= i < |d|
      ensures s[|b| + 1 + i] == d[i] != '#'
    {
    }
    assert s[..|a|] == a && s[|a| + 1..] == c;
    assert |a| == |b|;
    assert s[..|b|] == b && s[|b| + 1..] == d;
  }

  /** No two points of the ring, of one node or of two, are hashed from the same text. */
  lemma VirtualKeysDiffer(a: NodeId, i: nat, b: NodeId, j: nat)
    requires VirtualKey(a, i) == VirtualKey(b, j)
    ensures a == b && i == j
  {
    if '#' in Decimal(i) {
      DecimalHasOnlyDigits(i, '#');
    }
    if '#' in Decimal(j) {
      DecimalHasOnlyDigits(j, '#');
    }
    LastPartsAgree(a, b, Decimal(i), Decimal(j));
    DecimalIsInjective(i, j);
  }

  // ----- What a built ring contains -----

  /** All points of the nodes, with multiplicity. */
  function AllPoints(hash: string -> nat, replicas: nat, ids: seq<NodeId>): multiset<nat> {
    if ids == [] then multiset{}
    else AllPoints(hash, replicas, ids[..|ids| - 1]) + multiset(Points(hash, ids[|ids| - 1], replicas))
  }

  lemma {:induction false} KeysAreAllPoints(hash: string -> nat, replicas: nat, ids: seq<NodeId>)
    ensures multiset(AddAll(hash, replicas, ids).keys) == AllPoints(hash, replicas, ids)
  {
    if ids != [] {
      KeysAreAllPoints(hash, replicas, ids[..|ids| - 1]);
    }
  }

  lemma {:induction false} InAllPoints(hash: string -> nat, replicas: nat, ids: seq<NodeId>, k: nat)
    ensures k in AllPoints(hash, replicas, ids) <==> exists id :: id in ids && k in Points(hash, id, replicas)
  {
    hide Points;
    if ids != [] {
      var front, last := ids[..|ids| - 1], ids[|ids| - 1];
      InAllPoints(hash, replicas, front, k);
      if id :| id in ids && k in Points(hash, id, replicas) {
        assert id == last || id in front;
      }
      assert forall id :: id in front ==> id in ids;
      assert last in ids;
    }
  }

  // Claiming points: they go to the new node, the others keep their owner.
  lemma {:induction false} ClaimOwner(nodes: map<nat, NodeId>, points: seq<nat>, id: NodeId, k: nat)
    ensures var c := Claim(nodes, points, id);
            if k in points then k in c && c[k] == id
            else (k in c <==> k in nodes) && (k in nodes ==> c[k] == nodes[k])
    decreases |points|
  {
    if points != [] {
      ClaimOwner(nodes, points[..|points| - 1], id, k);
      assert points == points[..|points| - 1] + [points[|points| - 1]];
    }
  }

  // The owner of a point is the last node in the list that has it.
  lemma {:induction false} LastOwner(hash: string -> nat, replicas: nat, ids: seq<NodeId>, k: nat)
    ensures k in AddAll(hash, replicas, ids).nodes <==> exists id :: id in ids && k in Points(hash, id, replicas)
    ensures k in AddAll(hash, replicas, ids).nodes ==>
              var id := AddAll(hash, replicas, ids).nodes[k]; id in ids && k in Points(hash, id, replicas)
  {
    hide Points;
    if ids != [] {
      var front, last := ids[..|ids| - 1], ids[|ids| - 1];
      assert ids == front + [last];
      LastOwner(hash, replicas, front, k);
      ClaimOwner(AddAll(hash, replicas, front).nodes, Points(hash, last, replicas), last, k);
      if id :| id in ids && k in Points(hash, id, replicas) {
        assert id == last || id in front;
      }
      assert forall id :: id in front ==> id in ids;
      assert last in ids;
    }
  }

  // Without collisions a point has one owner, wherever it is in the list.
  lemma OwnerIs(hash: string -> nat, replicas: nat, ids: seq<NodeId>, id: NodeId, k: nat)
    requires NoCollision(hash, replicas, ids) && id in ids && k in Points(hash, id, replicas)
    ensures k in AddAll(hash, replicas, ids).nodes && AddAll(hash, replicas, ids).nodes[k] == id
  {
    hide Points, AddAll;
    LastOwner(hash, replicas, ids, k);
    var o := AddAll(hash, replicas, ids).nodes[k];
    assert Shares(hash, replicas, o, id);
  }

  // ----- Order independence -----

  lemma SmallestIsFirst(a: seq<nat>, x: nat)
    requires SortedKeys(a) && x in multiset(a)
    ensures a != [] && a[0] <= x
    ensures multiset(a[1..]) == multiset(a) - multiset{a[0]} && SortedKeys(a[1..])
  {
    assert a == [a[0]] + a[1..];
  }

  lemma HeadsAgree(a: seq<nat>, b: seq<nat>)
    requires SortedKeys(a) && SortedKeys(b) && multiset(a) == multiset(b) && a != [] && b != []
    ensures a[0] == b[0] && multiset(a[1..]) == multiset(b[1..])
    ensures SortedKeys(a[1..]) && SortedKeys(b[1..])
  {
    hide SortedKeys;
    assert a[0] in multiset(a) && b[0] in multiset(b);
    SmallestIsFirst(b, a[0]);
    SmallestIsFirst(a, b[0]);
  }

  lemma {:induction false} SortedIsUnique(a: seq<nat>, b: seq<nat>)
    requires SortedKeys(a) && SortedKeys(b) && multiset(a) == multiset(b)
    ensures a == b
    decreases |a|
  {
    hide SortedKeys;
    assert |multiset(a)| == |a| && |multiset(b)| == |b|;
    if a != [] {
      HeadsAgree(a, b);
      SortedIsUnique(a[1..], b[1..]);
      assert a == [a[0]] + a[1..] && b == [b[0]] + b[1..];
    }
  }

  // Taking one node out of the list takes exactly its points out.
  lemma {:induction false} AllPointsWithout(hash: string -> nat, replicas: nat, ids: seq<NodeId>, i: nat)
    requires i < |ids|
    ensures AllPoints(hash, replicas, ids) ==
            AllPoints(hash, replicas, ids[..i] + ids[i + 1..]) + multiset(Points(hash, ids[i], replicas))
    decreases |ids|
  {
    hide Points;
    var front, last := ids[..|ids| - 1], ids[|ids| - 1];
    var rest := ids[..i] + ids[i + 1..];
    if i == |ids| - 1 {
      assert rest == front;
    } else {
      AllPointsWithout(hash, replicas, front, i);
      assert rest[..|rest| - 1] == front[..i] + front[i + 1..];
      assert rest[|rest| - 1] == last;
    }
  }

  lemma {:induction false} AllPointsPermuted(hash: string -> nat, replicas: nat, ids: seq<NodeId>, ids': seq<NodeId>)
    requires multiset(ids) == multiset(ids')
    ensures AllPoints(hash, replicas, ids) == AllPoints(hash, replicas, ids')
    decreases |ids|
  {
    if ids == [] {
      assert |multiset(ids')| == 0;
      assert ids' == [];
    } else {
      var front, last := ids[..|ids| - 1], ids[|ids| - 1];
      assert ids == front + [last];
      assert last in multiset(ids');
      var i :| 0 <= i < |ids'| && ids'[i] == last;
      var rest := ids'[..i] + ids'[i + 1..];
      TakenOut(ids', i);
      assert multiset(rest) == multiset(front) by {
        assert multiset(front) + multiset{last} == multiset(rest) + multiset{last};
        Cancel(multiset(front), multiset(rest), multiset{last});
      }
      AllPointsWithout(hash, replicas, ids', i);
      AllPointsPermuted(hash, replicas, front, rest);
    }
  }

  lemma TakenOut<T>(s: seq<T>, i: nat)
    requires i < |s|
    ensures multiset(s) == multiset(s[..i] + s[i + 1..]) + multiset{s[i]}
  {
    assert s == s[..i] + [s[i]] + s[i + 1..];
  }

  lemma Cancel<T>(a: multiset<T>, b: multiset<T>, c: multiset<T>)
    requires a + c == b + c
    ensures a == b
  {
    assert a == (a + c) - c && b == (b + c) - c;
  }

  lemma SameMembers(ids: seq<NodeId>, ids': seq<NodeId>)
    requires multiset(ids) == multiset(ids')
    ensures forall id :: id in ids <==> id in ids'
  {
    forall id
      ensures id in ids <==> id in ids'
    {
      assert id in multiset(ids) <==> id in multiset(ids');
    }
  }

  // Rings over the same nodes agree on every owner.
  lemma SameOwners(hash: string -> nat, replicas: nat, ids: seq<NodeId>, ids': seq<NodeId>)
    requires NoCollision(hash, replicas, ids) && forall id :: id in ids <==> id in ids'
    ensures AddAll(hash, replicas, ids).nodes == AddAll(hash, replicas, ids').nodes
  {
    hide Points, AddAll, Shares;
    var n, n' := AddAll(hash, replicas, ids).nodes, AddAll(hash, replicas, ids').nodes;
    forall k
      ensures (k in n <==> k in n') && (k in n ==> n[k] == n'[k])
    {
      LastOwner(hash, replicas, ids, k);
      LastOwner(hash, replicas, ids', k);
      if k in n {
        OwnerIs(hash, replicas, ids', n[k], k);
      }
    }
    assert n.Keys == n'.Keys;
  }

  lemma BuildPermuted(hash: string -> nat, replicas: nat, ids: seq<NodeId>, ids': seq<NodeId>)
    requires NoCollision(hash, replicas, ids) && multiset(ids) == multiset(ids')
    ensures Build(hash, replicas, ids) == Build(hash, replicas, ids')
  {
    hide AddAll, SortKeys, NoCollision;
    SameMembers(ids, ids');
    SameOwners(hash, replicas, ids, ids');
    KeysAreAllPoints(hash, replicas, ids);
    KeysAreAllPoints(hash, replicas, ids');
    AllPointsPermuted(hash, replicas, ids, ids');
    SortedIsUnique(Build(hash, replicas, ids).keys, Build(hash, replicas, ids').keys);
  }

  // Listed last, a node owns all its points.
  lemma LastListedOwns(hash: string -> nat, replicas: nat, front: seq<NodeId>, id: NodeId, k: nat)
    requires k in Points(hash, id, replicas)
    ensures k in Build(hash, replicas, front + [id]).nodes && Build(hash, replicas, front + [id]).nodes[k] == id
  {
    hide Points, SortKeys;
    assert (front + [id])[..|front|] == front;
    ClaimOwner(AddAll(hash, replicas, front).nodes, Points(hash, id, replicas), id, k);
  }

  // Two nodes that share a point can be listed so that either one owns it.
  lemma CollisionShows(hash: string -> nat, replicas: nat, ids: seq<NodeId>, a: NodeId, b: NodeId)
    returns (x: seq<NodeId>, y: seq<NodeId>)
    requires a in ids && b in ids && a != b && Shares(hash, replicas, a, b)
    ensures multiset(x) == multiset(ids) == multiset(y)
    ensures Build(hash, replicas, x) != Build(hash, replicas, y)
  {
    hide Points, Build;
    var s := BothTakenOut(ids, a, b);
    x, y := s + [a] + [b], s + [b] + [a];
    assert multiset(x) == multiset(s) + multiset{a} + multiset{b};
    assert multiset(y) == multiset(s) + multiset{b} + multiset{a};
    var k :| k in Points(hash, a, replicas) && k in Points(hash, b, replicas);
    LastListedOwns(hash, replicas, s + [a], b, k);
    LastListedOwns(hash, replicas, s + [b], a, k);
  }

  /** The built ring does not depend on the order of enumeration exactly when no two nodes share a point. */
  lemma BuildIsOrderIndependent(hash: string -> nat, replicas: nat, ids: seq<NodeId>)
    ensures (forall ids' :: multiset(ids') == multiset(ids) ==> Build(hash, replicas, ids') == Build(hash, replicas, ids))
            <==> NoCollision(hash, replicas, ids)
  {
    hide Build, Shares;
    if NoCollision(hash, replicas, ids) {
      forall ids' | multiset(ids') == multiset(ids)
        ensures Build(hash, replicas, ids') == Build(hash, replicas, ids)
      {
        BuildPermuted(hash, replicas, ids, ids');
      }
    } else {
      var a, b :| a in ids && b in ids && a != b && Shares(hash, replicas, a, b);
      var x, y := CollisionShows(hash, replicas, ids, a, b);
    }
  }

  // ----- Joining -----

  // The key a hash lands on: the nearest at or above it, or the smallest of all.
  predicate Lands(keys: seq<nat>, h: nat, k: nat) {
    && k in keys
    && if exists x :: x in keys && x >= h then k >= h && (forall x :: x in keys && x >= h ==> k <= x)
       else forall x :: x in keys ==> k <= x
  }

  lemma {:induction false} FirstNotBelowSplits(keys: seq<nat>, h: nat)
    ensures var i := FirstNotBelow(keys, h);
            && (forall j :: 0 <= j < i ==> keys[j] < h)
            && (i < |keys| ==> keys[i] >= h)
  {
    if keys != [] && keys[0] < h {
      FirstNotBelowSplits(keys[1..], h);
    }
  }

  lemma LookupLands(r: Ring, h: nat) returns (k: nat)
    requires SortedKeys(r.keys) && r.keys != []
    ensures Lands(r.keys, h, k)
    ensures Lookup(r, h) == Some(if k in r.nodes then r.nodes[k] else "")
  {
    var i := FirstNotBelow(r.keys, h);
    FirstNotBelowSplits(r.keys, h);
    hide FirstNotBelow;
    k := r.keys[if i == |r.keys| then 0 else i];
    if i < |r.keys| {
      assert k in r.keys && k >= h;
      forall x | x in r.keys && x >= h
        ensures k <= x
      {
        var j :| 0 <= j < |r.keys| && r.keys[j] == x;
        assert j >= i;
      }
    } else {
      forall x | x in r.keys
        ensures k <= x && x < h
      {
        var j :| 0 <= j < |r.keys| && r.keys[j] == x;
      }
    }
  }

  lemma KeysOfBuild(hash: string -> nat, replicas: nat, ids: seq<NodeId>, k: nat)
    ensures k in Build(hash, replicas, ids).keys <==> exists id :: id in ids && k in Points(hash, id, replicas)
    ensures SortedKeys(Build(hash, replicas, ids).keys)
  {
    hide Points, AddAll, SortKeys;
    KeysAreAllPoints(hash, replicas, ids);
    InAllPoints(hash, replicas, ids, k);
    assert k in Build(hash, replicas, ids).keys <==> k in multiset(Build(hash, replicas, ids).keys);
  }

  // Where a hash lands, and the node that owns it there.
  lemma LandsOnOwner(hash: string -> nat, replicas: nat, ids: seq<NodeId>, h: nat) returns (k: nat, owner: NodeId)
    requires Build(hash, replicas, ids).keys != []
    ensures Lands(Build(hash, replicas, ids).keys, h, k)
    ensures Lookup(Build(hash, replicas, ids), h) == Some(owner) && owner in ids && k in Points(hash, owner, replicas)
    ensures var nodes := AddAll(hash, replicas, ids).nodes; k in nodes && nodes[k] == owner
  {
    hide Points, AddAll, SortKeys, Lookup;
    var r := Build(hash, replicas, ids);
    k := LookupLands(r, h);
    KeysOfBuild(hash, replicas, ids, k);
    LastOwner(hash, replicas, ids, k);
    owner := r.nodes[k];
  }

  // ----- Which node a hash goes to -----

  /** One of the node's points: the hash of its name, a number sign and a number below replicas. */
  predicate HasPoint(hash: string -> nat, replicas: nat, id: NodeId, x: nat) {
    exists n: nat :: n < replicas && hash(id + "#" + Decimal(n)) == x
  }

  ghost predicate IsPoint(hash: string -> nat, replicas: nat, ids: seq<NodeId>, x: nat) {
    exists id :: id in ids && HasPoint(hash, replicas, id, x)
  }

  /** The nearest point at or above the hash, or the smallest of all if none is. */
  ghost predicate IsNearest(hash: string -> nat, replicas: nat, ids: seq<NodeId>, h: nat, k: nat) {
    && IsPoint(hash, replicas, ids, k)
    && (k >= h ==> forall x: nat :: IsPoint(hash, replicas, ids, x) && x >= h ==> k <= x)
    && (k < h ==> forall x: nat :: IsPoint(hash, replicas, ids, x) ==> k <= x < h)
  }

  lemma PointsAre(hash: string -> nat, replicas: nat, id: NodeId, x: nat)
    ensures x in Points(hash, id, replicas) <==> HasPoint(hash, replicas, id, x)
  {
    var points := Points(hash, id, replicas);
    hide Points;
    forall n: nat | n < replicas
      ensures points[n] == hash(id + "#" + Decimal(n))
    {
      PointsAreHashes(hash, id, replicas, n);
    }
    if x in points {
      var n :| 0 <= n < |points| && points[n] == x;
    }
  }

  // The owner's place in the list: the last that has the point.
  lemma {:induction false} OwnerPlace(hash: string -> nat, replicas: nat, ids: seq<NodeId>, k: nat) returns (i: nat)
    requires k in AddAll(hash, replicas, ids).nodes
    ensures i < |ids| && AddAll(hash, replicas, ids).nodes[k] == ids[i] && k in Points(hash, ids[i], replicas)
    ensures forall j :: i < j < |ids| ==> k !in Points(hash, ids[j], replicas)
  {
    hide Points;
    var front, last := ids[..|ids| - 1], ids[|ids| - 1];
    ClaimOwner(AddAll(hash, replicas, front).nodes, Points(hash, last, replicas), last, k);
    if k in Points(hash, last, replicas) {
      i := |ids| - 1;
    } else {
      i := OwnerPlace(hash, replicas, front, k);
      assert forall j :: 0 <= j < |front| ==> ids[j] == front[j];
    }
  }

  /**
   A hash goes to a node that has the nearest point: of several, to the one enumerated last. The ring is empty only when
   there are no points.
   */
  lemma NodeOfHash(hash: string -> nat, replicas: nat, ids: seq<NodeId>, h: nat) returns (i: nat, k: nat)
    requires ids != [] && replicas > 0
    ensures i < |ids| && Lookup(Build(hash, replicas, ids), h) == Some(ids[i])
    ensures IsNearest(hash, replicas, ids, h, k) && HasPoint(hash, replicas, ids[i], k)
    ensures forall j :: i < j < |ids| ==> !HasPoint(hash, replicas, ids[j], k)
  {
    var r := Build(hash, replicas, ids);
    forall x: nat
      ensures x in r.keys <==> IsPoint(hash, replicas, ids, x)
    {
      KeysOfBuild(hash, replicas, ids, x);
      forall id
        ensures x in Points(hash, id, replicas) <==> HasPoint(hash, replicas, id, x)
      {
        PointsAre(hash, replicas, id, x);
      }
    }
    SomePoint(hash, replicas, ids);
    hide *;
    var owner: NodeId;
    k, owner := LandsOnOwner(hash, replicas, ids, h);
    NearestIs(hash, replicas, ids, h, k, r.keys);
    i := OwnerPlace(hash, replicas, ids, k);
    PointsAre(hash, replicas, ids[i], k);
    forall j | i < j < |ids|
      ensures !HasPoint(hash, replicas, ids[j], k)
    {
      PointsAre(hash, replicas, ids[j], k);
    }
  }

  lemma NearestIs(hash: string -> nat, replicas: nat, ids: seq<NodeId>, h: nat, k: nat, keys: seq<nat>)
    requires (forall x: nat :: x in keys <==> IsPoint(hash, replicas, ids, x)) && Lands(keys, h, k)
    ensures IsNearest(hash, replicas, ids, h, k)
  {
    hide IsPoint;
  }

  lemma SomePoint(hash: string -> nat, replicas: nat, ids: seq<NodeId>)
    requires ids != [] && replicas > 0
    ensures IsPoint(hash, replicas, ids, hash(ids[0] + "#" + Decimal(0)))
  {
    assert ids[0] in ids && HasPoint(hash, replicas, ids[0], hash(ids[0] + "#" + Decimal(0)));
  }

  /** A key stays where it was, or goes to the given node. */
  predicate StaysOrGoesTo(id: NodeId, before: Option<NodeId>, after: Option<NodeId>) {
    after == before || after == Some(id)
  }

  lemma JoiningMovesToNewNode(
      hash: string -> nat, replicas: nat, before: seq<NodeId>, joined: seq<NodeId>, id: NodeId, h: nat)
    requires NoCollision(hash, replicas, before) && forall x :: x in joined <==> x in before || x == id
    ensures StaysOrGoesTo(id, Lookup(Build(hash, replicas, before), h), Lookup(Build(hash, replicas, joined), h))
  {
    hide Points, Build, Lookup, SortedKeys, Lands;
    var r, r' := Build(hash, replicas, before), Build(hash, replicas, joined);
    forall k
      ensures k in r.keys ==> k in r'.keys
    {
      KeysOfBuild(hash, replicas, before, k);
      KeysOfBuild(hash, replicas, joined, k);
    }
    assert r.keys != [] ==> r.keys[0] in r.keys;
    if r'.keys == [] {
      EmptyLookup(r, h);
      EmptyLookup(r', h);
    } else {
      var k', owner' := LandsOnOwner(hash, replicas, joined, h);
      if owner' != id {
        KeysOfBuild(hash, replicas, before, k');
        assert k' in r.keys;
        var k, owner := LandsOnOwner(hash, replicas, before, h);
        SameLanding(r.keys, r'.keys, h, k, k');
        assert owner != owner' ==> Shares(hash, replicas, owner, owner');
      }
    }
  }

  // A hash that is itself a point of the node listed last goes to that node.
  lemma LastTakesItsPoint(hash: string -> nat, replicas: nat, front: seq<NodeId>, id: NodeId, k: nat)
    requires k in Points(hash, id, replicas)
    ensures Lookup(Build(hash, replicas, front + [id]), k) == Some(id)
  {
    hide Points, Build, Lookup, SortedKeys;
    var ids := front + [id];
    assert ids[|front|] == id && id in ids;
    KeysOfBuild(hash, replicas, ids, k);
    LastListedOwns(hash, replicas, front, id, k);
    var landed := LookupLands(Build(hash, replicas, ids), k);
    assert landed == k;
  }

  // Two nodes that share a point can be listed so that a key of that point moves from one to the other.
  lemma JoiningMovesAnother(hash: string -> nat, replicas: nat, ids: seq<NodeId>, id: NodeId, a: NodeId, b: NodeId)
    returns (before: seq<NodeId>, joined: seq<NodeId>, h: nat)
    requires a in ids && b in ids && a != b && id !in ids && Shares(hash, replicas, a, b)
    ensures multiset(before) == multiset(ids) && multiset(joined) == multiset(ids) + multiset{id}
    ensures !StaysOrGoesTo(id, Lookup(Build(hash, replicas, before), h), Lookup(Build(hash, replicas, joined), h))
  {
    hide Points, Build, Lookup;
    var s := BothTakenOut(ids, a, b);
    before, joined := s + [b] + [a], s + [id] + [a] + [b];
    h :| h in Points(hash, a, replicas) && h in Points(hash, b, replicas);
    LastTakesItsPoint(hash, replicas, s + [b], a, h);
    LastTakesItsPoint(hash, replicas, s + [id] + [a], b, h);
  }

  lemma BothTakenOut(ids: seq<NodeId>, a: NodeId, b: NodeId) returns (s: seq<NodeId>)
    requires a in ids && b in ids && a != b
    ensures multiset(s) + multiset{a} + multiset{b} == multiset(ids)
  {
    var i :| 0 <= i < |ids| && ids[i] == a;
    StillListed(ids, i, b);
    var r := ids[..i] + ids[i + 1..];
    var j :| 0 <= j < |r| && r[j] == b;
    s := r[..j] + r[j + 1..];
    TakenOut(ids, i);
    TakenOut(r, j);
  }

  /**
   When a node joins, no key moves between the nodes that were there, in whatever orders the nodes are enumerated before
   and after, if and only if no two of those nodes share a point; the points of the new node do not matter.
   */
  lemma JoiningMovesOnlyToNewNode(hash: string -> nat, replicas: nat, ids: seq<NodeId>, id: NodeId)
    requires id !in ids
    ensures (forall before, joined, h ::
               multiset(before) == multiset(ids) && multiset(joined) == multiset(ids) + multiset{id} ==>
               StaysOrGoesTo(id, Lookup(Build(hash, replicas, before), h), Lookup(Build(hash, replicas, joined), h)))
            <==> NoCollision(hash, replicas, ids)
  {
    hide Build, Lookup, Shares, StaysOrGoesTo;
    if NoCollision(hash, replicas, ids) {
      forall before, joined, h | multiset(before) == multiset(ids) && multiset(joined) == multiset(ids) + multiset{id}
        ensures StaysOrGoesTo(id, Lookup(Build(hash, replicas, before), h), Lookup(Build(hash, replicas, joined), h))
      {
        SameMembers(before, ids);
        assert multiset(joined) == multiset(ids + [id]);
        SameMembers(joined, ids + [id]);
        JoiningMovesToNewNode(hash, replicas, before, joined, id, h);
      }
    } else {
      var a, b :| a in ids && b in ids && a != b && Shares(hash, replicas, a, b);
      var before, joined, h := JoiningMovesAnother(hash, replicas, ids, id, a, b);
    }
  }

  lemma EmptyLookup(r: Ring, h: nat)
    ensures r.keys == [] ==> Lookup(r, h) == None
  {
  }

  lemma SameLanding(keys: seq<nat>, keys': seq<nat>, h: nat, k: nat, k': nat)
    requires Lands(keys, h, k) && Lands(keys', h, k') && k' in keys
    requires forall x :: x in keys ==> x in keys'
    ensures k == k'
  {
  }

  // ----- Leaving -----

  lemma {:induction false} CutOutSorted(keys: seq<nat>, k: nat)
    requires SortedKeys(keys)
    ensures SortedKeys(CutOut(keys, k))
    ensures forall x :: x in CutOut(keys, k) ==> x in keys
    decreases |keys|
  {
    if keys != [] {
      assert keys == [keys[0]] + keys[1..] && SortedKeys(keys[1..]);
      if keys[0] != k {
        CutOutSorted(keys[1..], k);
        SortedInFront(keys[0], keys[1..], CutOut(keys[1..], k));
      }
    }
  }

  lemma SortedInFront(first: nat, tail: seq<nat>, rest: seq<nat>)
    requires SortedKeys([first] + tail) && SortedKeys(rest) && forall x :: x in rest ==> x in tail
    ensures SortedKeys([first] + rest)
  {
    forall i | 0 <= i < |rest|
      ensures first <= rest[i]
    {
      assert rest[i] in tail;
      var j :| 0 <= j < |tail| && tail[j] == rest[i];
      assert ([first] + tail)[0] <= ([first] + tail)[j + 1];
    }
  }

  lemma {:induction false} RemovePointsSorted(r: Ring, points: seq<nat>)
    requires SortedKeys(r.keys)
    ensures SortedKeys(RemovePoints(r, points).keys)
    decreases |points|
  {
    if points != [] {
      RemovePointsSorted(r, points[..|points| - 1]);
      CutOutSorted(RemovePoints(r, points[..|points| - 1]).keys, points[|points| - 1]);
    }
  }

  lemma {:induction false} RemovePointsTakesKeys(r: Ring, points: seq<nat>)
    ensures multiset(RemovePoints(r, points).keys) == multiset(r.keys) - multiset(points)
    decreases |points|
  {
    if points != [] {
      var front, last := points[..|points| - 1], points[|points| - 1];
      RemovePointsTakesKeys(r, front);
      var s := RemovePoints(r, front);
      assert RemovePoints(r, points).keys == CutOut(s.keys, last);
      hide RemovePoints, CutOut;
      CutOutLosesOne(s.keys, last);
      MinusMinus(multiset(r.keys), multiset(front), multiset{last});
      LastApart(points);
    }
  }

  lemma LastApart<T>(s: seq<T>)
    requires s != []
    ensures multiset(s) == multiset(s[..|s| - 1]) + multiset{s[|s| - 1]}
  {
    assert s == s[..|s| - 1] + [s[|s| - 1]];
  }

  lemma MinusMinus<T>(a: multiset<T>, b: multiset<T>, c: multiset<T>)
    ensures a - b - c == a - (b + c)
  {
  }

  lemma {:induction false} RemovePointsTakesNodes(r: Ring, points: seq<nat>)
    ensures RemovePoints(r, points).nodes == r.nodes - (set k | k in points)
    decreases |points|
  {
    if points != [] {
      var front, last := points[..|points| - 1], points[|points| - 1];
      RemovePointsTakesNodes(r, front);
      assert points == front + [last];
      assert (set k | k in points) == (set k | k in front) + {last};
    }
  }

  /** The node shares no point with another. */
  predicate Alone(hash: string -> nat, replicas: nat, ids: seq<NodeId>, id: NodeId) {
    forall o :: o in ids && o != id ==> !Shares(hash, replicas, o, id)
  }

  /**
   Taking a node out in place gives exactly the ring a full rebuild without that node gives if and only if it shares no
   point with another node; collisions among the others do no harm.
   */
  lemma LeavingEqualsRebuild(hash: string -> nat, replicas: nat, ids: seq<NodeId>, i: nat)
    requires Distinct(ids) && i < |ids|
    ensures RemoveNode(hash, replicas, Build(hash, replicas, ids), ids[i]) == Build(hash, replicas, ids[..i] + ids[i + 1..])
            <==> Alone(hash, replicas, ids, ids[i])
  {
    hide AddAll, SortKeys, Points, Shares, RemovePoints, Alone, Distinct;
    var id, rest := ids[i], ids[..i] + ids[i + 1..];
    var points := Points(hash, id, replicas);
    var r := Build(hash, replicas, ids);
    RemovePointsSorted(r, points);
    RemovePointsTakesKeys(r, points);
    RemovePointsTakesNodes(r, points);
    var s := RemovePoints(r, points);
    KeysAreAllPoints(hash, replicas, ids);
    KeysAreAllPoints(hash, replicas, rest);
    AllPointsWithout(hash, replicas, ids, i);
    SortedIsUnique(s.keys, Build(hash, replicas, rest).keys);
    OwnersWithout(hash, replicas, ids, i);
  }

  lemma OwnersWithout(hash: string -> nat, replicas: nat, ids: seq<NodeId>, i: nat)
    requires Distinct(ids) && i < |ids|
    ensures AddAll(hash, replicas, ids).nodes - (set k | k in Points(hash, ids[i], replicas)) ==
            AddAll(hash, replicas, ids[..i] + ids[i + 1..]).nodes
            <==> Alone(hash, replicas, ids, ids[i])
  {
    hide AddAll, Points;
    var id, rest := ids[i], ids[..i] + ids[i + 1..];
    var points := Points(hash, id, replicas);
    var n, n' := AddAll(hash, replicas, ids).nodes - (set k | k in points), AddAll(hash, replicas, rest).nodes;
    OthersListed(ids, i);
    forall k
      ensures k !in points ==> (k in n <==> k in n') && (k in n ==> n[k] == n'[k])
      ensures k in points ==> k !in n && (k in n' <==> exists o :: o in rest && k in Points(hash, o, replicas))
    {
      LastOwner(hash, replicas, rest, k);
      if k !in points {
        OwnerWithout(hash, replicas, ids, i, k);
      }
    }
    if Alone(hash, replicas, ids, id) {
      forall k | k in points
        ensures k !in n'
      {
        assert forall o :: o in rest && k in Points(hash, o, replicas) ==> Shares(hash, replicas, o, id);
      }
      assert n.Keys == n'.Keys;
    } else {
      var o :| o in ids && o != id && Shares(hash, replicas, o, id);
      var k :| k in Points(hash, o, replicas) && k in points;
      assert o in rest && k in n' && k !in n;
    }
  }

  lemma OthersListed(ids: seq<NodeId>, i: nat)
    requires Distinct(ids) && i < |ids|
    ensures forall o :: o in ids[..i] + ids[i + 1..] <==> o in ids && o != ids[i]
  {
    forall o | o in ids && o != ids[i]
      ensures o in ids[..i] + ids[i + 1..]
    {
      StillListed(ids, i, o);
    }
  }

  // A point the node does not have keeps its owner when the node is left out of the list.
  lemma {:induction false} OwnerWithout(hash: string -> nat, replicas: nat, ids: seq<NodeId>, i: nat, k: nat)
    requires i < |ids| && k !in Points(hash, ids[i], replicas)
    ensures var n, n' := AddAll(hash, replicas, ids).nodes, AddAll(hash, replicas, ids[..i] + ids[i + 1..]).nodes;
            (k in n <==> k in n') && (k in n ==> n[k] == n'[k])
    decreases |ids|
  {
    hide Points, Claim;
    var front, last := ids[..|ids| - 1], ids[|ids| - 1];
    var rest := ids[..i] + ids[i + 1..];
    var points := Points(hash, last, replicas);
    ClaimOwner(AddAll(hash, replicas, front).nodes, points, last, k);
    if i == |ids| - 1 {
      assert rest == front;
    } else {
      assert front[i] == ids[i];
      OwnerWithout(hash, replicas, front, i, k);
      assert rest == (front[..i] + front[i + 1..]) + [last];
      assert rest[..|rest| - 1] == front[..i] + front[i + 1..];
      ClaimOwner(AddAll(hash, replicas, front[..i] + front[i + 1..]).nodes, points, last, k);
    }
  }

  lemma StillListed(ids: seq<NodeId>, i: nat, o: NodeId)
    requires i < |ids| && o in ids && o != ids[i]
    ensures o in ids[..i] + ids[i + 1..]
  {
    var j :| 0 <= j < |ids| && ids[j] == o;
    var rest := ids[..i] + ids[i + 1..];
    assert rest[if j < i then j else j - 1] == o;
  }

  // ----- The round-robin fallback -----

  /** As long as the counter does not wrap, any n turns in a row among n nodes give each of them exactly one turn. */
  lemma TurnsAreFair(counter: nat, n: nat, index: nat)
    requires index < n && counter + n < 0x8000_0000
    ensures exists k: nat :: IsTurn(counter, n, index, k)
    ensures forall j: nat, k: nat :: IsTurn(counter, n, index, j) && IsTurn(counter, n, index, k) ==> j == k
  {
    var base := counter + 1;
    var k := if index >= base % n then index - base % n else index + n - base % n;
    TurnAt(base, k, n, index);
    assert IsTurn(counter, n, index, k);
    forall j: nat, l: nat | IsTurn(counter, n, index, j) && IsTurn(counter, n, index, l)
      ensures j == l
    {
      if j <= l {
        SameRemainder(base + j, base + l, n);
      } else {
        SameRemainder(base + l, base + j, n);
      }
    }
  }

  /**
   Behind the largest 32-bit number the counter goes on at the smallest. From there up to zero a turn is the first node's if
   the number of nodes divides the counter, and indexes with a negative number otherwise.
   */
  lemma TurnsAfterWrap(counter: int, n: nat)
    requires n > 0
    ensures Int32(0x7FFF_FFFF + 1) == -0x8000_0000
    ensures counter < 0 ==> TurnOf(counter, n) == if counter % n == 0 then RoundRobin(0) else IndexPanic
  {
    var q, r := counter / n, counter % n;
    assert counter == q * n + r;
    if counter < 0 && r == 0 {
      NegatedMultiple(q, n);
      RemainderOf(-q, n, 0);
    } else if counter < 0 {
      NegatedMultiple(q + 1, n);
      RemainderOf(-(q + 1), n, n - r);
      assert -counter == -(q + 1) * n + (n - r);
    }
  }

  lemma NegatedMultiple(q: int, n: nat)
    ensures -(q * n) == -q * n
  {
  }

  // The k-th of the next n turns is that of the node.
  predicate IsTurn(counter: nat, n: nat, index: nat, k: nat)
    requires n > 0
  {
    k < n && TurnOf(counter + 1 + k, n) == RoundRobin(index)
  }

  lemma TurnAt(base: nat, k: nat, n: nat, index: nat)
    requires index < n && k == if index >= base % n then index - base % n else index + n - base % n
    ensures (base + k) % n == index
  {
    var q := base / n;
    assert base == q * n + base % n;
    var m := if index >= base % n then q else q + 1;
    assert base + k == m * n + index;
    RemainderOf(m, n, index);
  }
}

/**
  Consistent hashing (`UpstreamGroup` of src/config.rs): a ring of virtual nodes
  sorted by hash, and a selection that walks the ring clockwise from the hash of
  the key to the first live candidate. The hash functions are left open.
  */
module ConsistentHash {
  import opened Bytes

  const VNODES: nat := 150

  datatype Vnode = Vnode(hash: u64, server: nat)

  type Ring = seq<Vnode>

  ghost predicate Sorted(ring: Ring) {
    forall i, j :: 0 <= i < j < |ring| ==> ring[i].hash <= ring[j].hash
  }

  // ---------------------------------------------------------------------------
  // Filtering
  // ---------------------------------------------------------------------------

  /** The vnodes that satisfy p, in order. */
  function Filter(ring: Ring, p: Vnode -> bool): Ring {
    if ring == [] then []
    else (if p(ring[0]) then [ring[0]] else []) + Filter(ring[1..], p)
  }

  lemma {:induction false} FilterConcat(a: Ring, b: Ring, p: Vnode -> bool)
    ensures Filter(a + b, p) == Filter(a, p) + Filter(b, p)
  {
    if a == [] {
      assert a + b == b;
    } else {
      FilterConcat(a[1..], b, p);
      assert (a + b)[1..] == a[1..] + b;
      Associativity(if p(a[0]) then [a[0]] else [], Filter(a[1..], p), Filter(b, p));
    }
  }

  lemma FilterOne(v: Vnode, p: Vnode -> bool)
    ensures Filter([v], p) == if p(v) then [v] else []
  {
    assert [v][1..] == [];
  }

  /** Filtering keeps only, and all of, what satisfies p. */
  lemma {:induction false} FilterMembers(ring: Ring, p: Vnode -> bool)
    ensures forall v :: v in Filter(ring, p) <==> v in ring && p(v)
    ensures (forall v :: v in ring ==> p(v)) ==> Filter(ring, p) == ring
    ensures (forall v :: v in ring ==> !p(v)) ==> Filter(ring, p) == []
  {
    if ring != [] {
      FilterMembers(ring[1..], p);
      assert ring == [ring[0]] + ring[1..];
    }
  }

  // ---------------------------------------------------------------------------
  // The stable sort
  // ---------------------------------------------------------------------------

  /** The number of leading vnodes up to the last one whose hash is at most `hash`. */
  function UpperBound(ring: Ring, hash: u64): (k: nat)
    ensures k <= |ring|
    ensures forall i :: k <= i < |ring| ==> ring[i].hash > hash
    ensures k > 0 ==> ring[k - 1].hash <= hash
  {
    if ring == [] then 0
    else if ring[|ring| - 1].hash <= hash then |ring|
    else UpperBound(ring[..|ring| - 1], hash)
  }

  /** Puts a vnode behind all those of the same or a smaller hash. */
  function Insert(ring: Ring, v: Vnode): Ring {
    var k := UpperBound(ring, v.hash);
    ring[..k] + [v] + ring[k..]
  }

  function StableSort(nodes: Ring): Ring {
    if nodes == [] then [] else Insert(StableSort(nodes[..|nodes| - 1]), nodes[|nodes| - 1])
  }

  lemma InsertSorted(ring: Ring, v: Vnode)
    requires Sorted(ring)
    ensures Sorted(Insert(ring, v))
  {
    var k := UpperBound(ring, v.hash);
    assert forall i :: 0 <= i < k ==> ring[i].hash <= v.hash;
  }

  lemma {:induction false} FilterInsert(ring: Ring, v: Vnode, p: Vnode -> bool)
    ensures Filter(Insert(ring, v), p) ==
            var k := UpperBound(ring, v.hash);
            Filter(ring[..k], p) + (if p(v) then [v] else []) + Filter(ring[k..], p)
    ensures !p(v) ==> Filter(Insert(ring, v), p) == Filter(ring, p)
  {
    var k := UpperBound(ring, v.hash);
    FilterConcat(ring[..k] + [v], ring[k..], p);
    FilterConcat(ring[..k], [v], p);
    FilterOne(v, p);
    FilterConcat(ring[..k], ring[k..], p);
    assert ring == ring[..k] + ring[k..];
  }

  function WithHash(ring: Ring, hash: u64): Ring {
    Filter(ring, (v: Vnode) => v.hash == hash)
  }

  lemma {:induction false} StableSortSorted(nodes: Ring)
    ensures Sorted(StableSort(nodes))
  {
    if nodes != [] {
      StableSortSorted(nodes[..|nodes| - 1]);
      InsertSorted(StableSort(nodes[..|nodes| - 1]), nodes[|nodes| - 1]);
    }
  }

  /** An inserted vnode is the last of its hash. */
  lemma WithHashInsert(ring: Ring, v: Vnode, hash: u64)
    ensures WithHash(Insert(ring, v), hash) == WithHash(ring, hash) + if v.hash == hash then [v] else []
  {
    var k, p := UpperBound(ring, v.hash), (x: Vnode) => x.hash == hash;
    FilterInsert(ring, v, p);
    if v.hash == hash {
      FilterMembers(ring[k..], p);
      FilterConcat(ring[..k], ring[k..], p);
      assert ring == ring[..k] + ring[k..];
    }
  }

  /** Vnodes of equal hash keep their order. */
  lemma {:induction false} StableSortStable(nodes: Ring, hash: u64)
    ensures WithHash(StableSort(nodes), hash) == WithHash(nodes, hash)
    decreases |nodes|
  {
    if nodes != [] {
      var init, v := nodes[..|nodes| - 1], nodes[|nodes| - 1];
      StableSortStable(init, hash);
      WithHashInsert(StableSort(init), v, hash);
      WithoutLast(nodes, hash);
    }
  }

  /** The same vnodes in the same order at each hash. */
  ghost predicate SameGroups(a: Ring, b: Ring) {
    forall hash: u64 :: WithHash(a, hash) == WithHash(b, hash)
  }

  lemma SameLastHash(a: Ring, b: Ring)
    requires Sorted(b) && SameGroups(a, b) && a != []
    ensures b != [] && a[|a| - 1].hash <= b[|b| - 1].hash
  {
    var x := a[|a| - 1];
    LastOfHash(a);
    assert WithHash(a, x.hash) == WithHash(b, x.hash);
    FilterMembers(b, (v: Vnode) => v.hash == x.hash);
    assert x in b;
  }

  /** There is only one such ring: `StableSort` is what any stable sort computes. */
  lemma {:induction false} StableSortUnique(a: Ring, b: Ring)
    requires Sorted(a) && Sorted(b) && SameGroups(a, b)
    ensures a == b
    decreases |a| + |b|
  {
    if a != [] || b != [] {
      if a != [] { SameLastHash(a, b); } else { SameLastHash(b, a); }
      SameLastHash(b, a);
      LastOfHash(a);
      LastOfHash(b);
      var a0, b0, x := a[..|a| - 1], b[..|b| - 1], a[|a| - 1];
      assert WithHash(a, x.hash) == WithHash(b, x.hash);
      forall hash: u64 ensures WithHash(a0, hash) == WithHash(b0, hash) {
        WithoutLast(a, hash);
        WithoutLast(b, hash);
        assert WithHash(a, hash) == WithHash(b, hash);
        DropSameLast(WithHash(a0, hash), WithHash(b0, hash), if x.hash == hash then [x] else []);
      }
      StableSortUnique(a0, b0);
      assert a == a0 + [x] && b == b0 + [x];
    }
  }

  lemma DropSameLast(a: Ring, b: Ring, c: Ring)
    requires a + c == b + c
    ensures a == b
  {
    assert |a| == |b|;
    assert a == (a + c)[..|a|] && b == (b + c)[..|b|];
  }

  lemma WithoutLast(ring: Ring, hash: u64)
    requires ring != []
    ensures var last := ring[|ring| - 1];
            WithHash(ring, hash) == WithHash(ring[..|ring| - 1], hash) + if last.hash == hash then [last] else []
  {
    var init, last, p := ring[..|ring| - 1], ring[|ring| - 1], (v: Vnode) => v.hash == hash;
    assert ring == init + [last];
    FilterConcat(init, [last], p);
    FilterOne(last, p);
  }

  lemma LastOfHash(ring: Ring)
    requires ring != []
    ensures var last := ring[|ring| - 1];
            var same := WithHash(ring, last.hash);
            same != [] && same[|same| - 1] == last
  {
    WithoutLast(ring, ring[|ring| - 1].hash);
  }

  // ---------------------------------------------------------------------------
  // Building the ring
  // ---------------------------------------------------------------------------

  /** The hash of a virtual node, from the server's identity and the node's number. */
  type VnodeHash = (string, nat) -> u64

  function NodesOf(hash: VnodeHash, id: string, server: nat, n: nat): (nodes: Ring)
    ensures |nodes| == n && forall i :: 0 <= i < n ==> nodes[i] == Vnode(hash(id, i), server)
  {
    if n == 0 then [] else NodesOf(hash, id, server, n - 1) + [Vnode(hash(id, n - 1), server)]
  }

  /** The vnodes of all servers in configuration order, before sorting. */
  function Nodes(hash: VnodeHash, ids: seq<string>): Ring {
    if ids == [] then []
    else
      var last := |ids| - 1;
      Nodes(hash, ids[..last]) + NodesOf(hash, ids[last], last, VNODES)
  }

  function RingOf(hash: VnodeHash, ids: seq<string>): Ring {
    StableSort(Nodes(hash, ids))
  }

  method BuildRing(hash: VnodeHash, ids: seq<string>) returns (ring: Ring)
    ensures ring == RingOf(hash, ids) && Sorted(ring)
  {
    ring := [];
    for idx := 0 to |ids|
      invariant ring == Nodes(hash, ids[..idx])
    {
      ghost var before := ring;
      for vnode := 0 to VNODES
        invariant ring == before + NodesOf(hash, ids[idx], idx, vnode)
      {
        Associativity(before, NodesOf(hash, ids[idx], idx, vnode), [Vnode(hash(ids[idx], vnode), idx)]);
        ring := ring + [Vnode(hash(ids[idx], vnode), idx)];
      }
      assert ids[..idx + 1][..idx] == ids[..idx];
    }
    assert ids[..|ids|] == ids;
    StableSortSorted(ring);
    ring := StableSort(ring);
  }

  lemma {:induction false} NodesServers(hash: VnodeHash, ids: seq<string>)
    ensures forall v :: v in Nodes(hash, ids) ==> v.server < |ids|
  {
    if ids != [] {
      NodesServers(hash, ids[..|ids| - 1]);
    }
  }

  lemma {:induction false} NodesPresent(hash: VnodeHash, ids: seq<string>, s: nat)
    requires s < |ids|
    ensures Vnode(hash(ids[s], 0), s) in Nodes(hash, ids)
  {
    var last := |ids| - 1;
    if s < last {
      NodesPresent(hash, ids[..last], s);
    } else {
      assert NodesOf(hash, ids[last], last, VNODES)[0] == Vnode(hash(ids[last], 0), last);
    }
  }

  lemma InsertMembers(ring: Ring, v: Vnode)
    ensures forall w :: w in Insert(ring, v) <==> w in ring || w == v
  {
    var k := UpperBound(ring, v.hash);
    assert ring == ring[..k] + ring[k..];
  }

  lemma {:induction false} StableSortMembers(nodes: Ring)
    ensures forall v :: v in StableSort(nodes) <==> v in nodes
  {
    if nodes != [] {
      var init, v := nodes[..|nodes| - 1], nodes[|nodes| - 1];
      StableSortMembers(init);
      InsertMembers(StableSort(init), v);
      assert nodes == init + [v];
    }
  }

  // ---------------------------------------------------------------------------
  // Selection
  // ---------------------------------------------------------------------------

  /** The number of vnodes in front of the first one at or after `hash`. */
  function LowerBound(ring: Ring, hash: u64): (k: nat)
    ensures k <= |ring|
    ensures k < |ring| ==> ring[k].hash >= hash
    ensures forall i :: 0 <= i < k ==> ring[i].hash < hash
  {
    if ring == [] || ring[0].hash >= hash then 0 else 1 + LowerBound(ring[1..], hash)
  }

  lemma {:induction false} LowerBoundIs(ring: Ring, hash: u64, k: nat)
    requires k <= |ring| && (forall i :: 0 <= i < k ==> ring[i].hash < hash)
    requires forall i :: k <= i < |ring| ==> ring[i].hash >= hash
    ensures LowerBound(ring, hash) == k
    decreases k
  {
    if k > 0 {
      LowerBoundIs(ring[1..], hash, k - 1);
    }
  }

  /** On a sorted ring the lower bound parts the hashes. */
  lemma LowerBoundParts(ring: Ring, hash: u64)
    requires Sorted(ring)
    ensures var k := LowerBound(ring, hash);
            && (forall v :: v in ring[..k] ==> v.hash < hash)
            && (forall v :: v in ring[k..] ==> v.hash >= hash)
  {
  }

  /** The ring as met going clockwise from `hash`. */
  function Clockwise(ring: Ring, hash: u64): Ring {
    var k := LowerBound(ring, hash);
    ring[k..] + ring[..k]
  }

  /** The first server of the walk that is a candidate. */
  function FirstOf(walk: Ring, candidates: set<nat>): (r: Option<nat>)
    ensures r.Some? ==> r.value in candidates
  {
    if walk == [] then None
    else if walk[0].server in candidates then Some(walk[0].server)
    else FirstOf(walk[1..], candidates)
  }

  function Choose(ring: Ring, hash: u64, candidates: set<nat>): Option<nat> {
    FirstOf(Clockwise(ring, hash), candidates)
  }

  /** `partition_point` by bisection. */
  method PartitionPoint(ring: Ring, hash: u64) returns (k: nat)
    requires Sorted(ring)
    ensures k == LowerBound(ring, hash)
  {
    var lo, hi := 0, |ring|;
    while lo < hi
      invariant 0 <= lo <= hi <= |ring|
      invariant forall i :: 0 <= i < lo ==> ring[i].hash < hash
      invariant forall i :: hi <= i < |ring| ==> ring[i].hash >= hash
    {
      var mid := (lo + hi) / 2;
      if ring[mid].hash < hash {
        lo := mid + 1;
      } else {
        hi := mid;
      }
    }
    LowerBoundIs(ring, hash, lo);
    return lo;
  }

  function Members(candidates: seq<nat>): set<nat> {
    set c | c in candidates
  }

  /** The vnodes met going once around the ring from `start`. */
  ghost predicate IsWalk(ring: Ring, start: nat, walk: Ring)
    requires ring != []
  {
    |walk| == |ring| && forall i: nat :: i < |walk| ==> walk[i] == ring[(start + i) % |ring|]
  }

  /** Once around the ring from `start`, to the first candidate. */
  method WalkRing(ring: Ring, start: nat, candidates: seq<nat>, ghost walk: Ring) returns (r: Option<nat>)
    requires ring != [] && IsWalk(ring, start, walk)
    ensures r == FirstOf(walk, Members(candidates))
  {
    assert walk[0..] == walk;
    for offset := 0 to |ring|
      invariant FirstOf(walk, Members(candidates)) == FirstOf(walk[offset..], Members(candidates))
    {
      var at := ring[(start + offset) % |ring|];
      FirstOfStep(walk, offset, Members(candidates));
      if at.server in candidates {
        return Some(at.server);
      }
    }
    return None;
  }

  /**
    The choice for a key of this hash. Without a ring the hash is reduced modulo
    the number of candidates; the caller has checked that there are some.
    */
  method SelectConsistent(ring: Ring, hash: u64, candidates: seq<nat>) returns (r: nat)
    requires Sorted(ring) && candidates != []
    ensures ring == [] ==> r == candidates[hash % |candidates|]
    ensures ring != [] ==>
              r == match Choose(ring, hash, Members(candidates)) case Some(s) => s case None => candidates[0]
  {
    if ring == [] {
      return candidates[hash % |candidates|];
    }
    var start := PartitionPoint(ring, hash);
    ClockwiseIsWalk(ring, hash);
    var found := WalkRing(ring, start, candidates, Clockwise(ring, hash));
    match found {
      case Some(s) => return s;
      case None => return candidates[0];
    }
  }

  lemma FirstOfStep(walk: Ring, i: nat, candidates: set<nat>)
    requires i < |walk|
    ensures FirstOf(walk[i..], candidates) ==
            if walk[i].server in candidates then Some(walk[i].server) else FirstOf(walk[i + 1..], candidates)
  {
    assert walk[i..][1..] == walk[i + 1..];
  }

  lemma ModOnce(i: nat, n: nat)
    requires n > 0 && i < 2 * n
    ensures i % n == if i < n then i else i - n
  {
    if i >= n {
      assert i == n + (i - n);
    }
  }

  lemma {:induction false} ClockwiseIsWalk(ring: Ring, hash: u64)
    requires ring != []
    ensures IsWalk(ring, LowerBound(ring, hash), Clockwise(ring, hash))
  {
    var start, walk := LowerBound(ring, hash), Clockwise(ring, hash);
    forall i: nat | i < |walk| ensures walk[i] == ring[(start + i) % |ring|] {
      ModOnce(start + i, |ring|);
    }
  }

  // ---------------------------------------------------------------------------
  // The choice is the first candidate clockwise
  // ---------------------------------------------------------------------------

  /** What `Choose` returns, said with positions: the least position of the walk that holds a candidate. */
  lemma {:induction false} FirstOfIsLeast(walk: Ring, candidates: set<nat>) returns (k: nat)
    ensures k <= |walk| && forall i :: 0 <= i < k ==> walk[i].server !in candidates
    ensures FirstOf(walk, candidates) == if k < |walk| then Some(walk[k].server) else None
    ensures k < |walk| ==> walk[k].server in candidates
  {
    if walk == [] || walk[0].server in candidates {
      k := 0;
    } else {
      var j := FirstOfIsLeast(walk[1..], candidates);
      k := j + 1;
    }
  }

  /** The walk meets the hashes from the key's upward, and then those below it. */
  lemma ClockwiseOrder(ring: Ring, hash: u64, i: nat, j: nat)
    requires Sorted(ring) && i < j < |ring|
    ensures var walk := Clockwise(ring, hash);
            || (hash <= walk[i].hash <= walk[j].hash)
            || (walk[j].hash < hash <= walk[i].hash)
            || (walk[i].hash <= walk[j].hash < hash)
  {
    var k := LowerBound(ring, hash);
    assert forall m :: k <= m < |ring| ==> ring[m].hash >= hash;
  }

  /** On a ring of the configuration some candidate is always met: the last resort is never used. */
  lemma SomeCandidateIsMet(hashes: VnodeHash, ids: seq<string>, hash: u64, candidates: set<nat>, c: nat)
    requires c in candidates && c < |ids|
    ensures Choose(RingOf(hashes, ids), hash, candidates).Some?
  {
    var ring := RingOf(hashes, ids);
    NodesPresent(hashes, ids, c);
    StableSortMembers(Nodes(hashes, ids));
    var v := Vnode(hashes(ids[c], 0), c);
    var lower := LowerBound(ring, hash);
    assert ring == ring[..lower] + ring[lower..];
    assert v in Clockwise(ring, hash);
    var k := FirstOfIsLeast(Clockwise(ring, hash), candidates);
  }

  // ---------------------------------------------------------------------------
  // Draining and growing
  // ---------------------------------------------------------------------------

  /** Taking one candidate away moves only the keys that were on it, whatever the ring. */
  lemma {:induction false} DrainMovesOnlyItsKeys(walk: Ring, candidates: set<nat>, gone: nat)
    ensures FirstOf(walk, candidates) != Some(gone) ==> FirstOf(walk, candidates - {gone}) == FirstOf(walk, candidates)
  {
    if walk != [] {
      DrainMovesOnlyItsKeys(walk[1..], candidates, gone);
    }
  }

  lemma DrainMovesOnlyItsKeysOnRing(ring: Ring, hash: u64, candidates: set<nat>, gone: nat)
    ensures Choose(ring, hash, candidates) != Some(gone) ==>
              Choose(ring, hash, candidates - {gone}) == Choose(ring, hash, candidates)
  {
    DrainMovesOnlyItsKeys(Clockwise(ring, hash), candidates, gone);
  }

  function NotOn(server: nat): Vnode -> bool {
    (v: Vnode) => v.server != server
  }

  /** Sorting in vnodes that a filter rejects does not disturb the others. */
  lemma {:induction false} SortIgnores(nodes: Ring, extra: Ring, p: Vnode -> bool)
    requires forall v :: v in extra ==> !p(v)
    ensures Filter(StableSort(nodes + extra), p) == Filter(StableSort(nodes), p)
    decreases |extra|
  {
    if extra == [] {
      assert nodes + extra == nodes;
    } else {
      var init, v := extra[..|extra| - 1], extra[|extra| - 1];
      SortIgnores(nodes, init, p);
      assert (nodes + extra)[..|nodes + extra| - 1] == nodes + init;
      assert v in extra;
      assert StableSort(nodes + extra) == Insert(StableSort(nodes + init), v);
      FilterInsert(StableSort(nodes + init), v, p);
    }
  }

  /** The ring of a configuration with one more server, without that server, is the old ring. */
  lemma OldRingWithinNew(hash: VnodeHash, ids: seq<string>, id: string)
    ensures Filter(RingOf(hash, ids + [id]), NotOn(|ids|)) == RingOf(hash, ids)
  {
    var extra := NodesOf(hash, id, |ids|, VNODES);
    assert (ids + [id])[..|ids|] == ids;
    assert Nodes(hash, ids + [id]) == Nodes(hash, ids) + extra;
    SortIgnores(Nodes(hash, ids), extra, NotOn(|ids|));
    NodesServers(hash, ids);
    StableSortMembers(Nodes(hash, ids));
    FilterMembers(RingOf(hash, ids), NotOn(|ids|));
  }

  /** The point where two groups meet, one below the hash and one not. */
  lemma ClockwiseOfParts(low: Ring, high: Ring, hash: u64)
    requires forall v :: v in low ==> v.hash < hash
    requires forall v :: v in high ==> v.hash >= hash
    ensures Clockwise(low + high, hash) == high + low
  {
    var ring := low + high;
    forall i | 0 <= i < |ring| ensures i < |low| <==> ring[i].hash < hash {
      assert if i < |low| then ring[i] in low else ring[i] in high;
    }
    LowerBoundIs(ring, hash, |low|);
    assert ring[..|low|] == low && ring[|low|..] == high;
  }

  /** Walking a ring and filtering is walking the filtered ring. */
  lemma ClockwiseFilter(ring: Ring, hash: u64, p: Vnode -> bool)
    requires Sorted(ring)
    ensures Clockwise(Filter(ring, p), hash) == Filter(Clockwise(ring, hash), p)
  {
    var k := LowerBound(ring, hash);
    var low, high := ring[..k], ring[k..];
    assert ring == low + high;
    LowerBoundParts(ring, hash);
    FilterConcat(low, high, p);
    FilterConcat(high, low, p);
    assert Clockwise(Filter(low, p) + Filter(high, p), hash) == Filter(high, p) + Filter(low, p) by {
      FilterMembers(low, p);
      FilterMembers(high, p);
      ClockwiseOfParts(Filter(low, p), Filter(high, p), hash);
    }
  }

  /** A walk with the new server's vnodes in it meets the new server or what the walk without them meets. */
  lemma {:induction false} FirstOfGrown(walk: Ring, candidates: set<nat>, added: nat)
    requires added !in candidates
    ensures var r := FirstOf(walk, candidates + {added});
            r == Some(added) || r == FirstOf(Filter(walk, NotOn(added)), candidates)
  {
    if walk != [] {
      FirstOfGrown(walk[1..], candidates, added);
      if walk[0].server != added {
        assert ([walk[0]] + Filter(walk[1..], NotOn(added)))[1..] == Filter(walk[1..], NotOn(added));
      }
    }
  }

  /**
    Growth: appending a server to the configuration sends each key to its old
    server or to the new one, for any hash functions, ties included, and for any
    set of live candidates among the old servers.
    */
  lemma GrowthMovesOnlyToNew(hashes: VnodeHash, ids: seq<string>, id: string, hash: u64, candidates: set<nat>)
    requires forall c :: c in candidates ==> c < |ids|
    ensures var r := Choose(RingOf(hashes, ids + [id]), hash, candidates + {|ids|});
            r == Some(|ids|) || r == Choose(RingOf(hashes, ids), hash, candidates)
  {
    var grown := RingOf(hashes, ids + [id]);
    StableSortSorted(Nodes(hashes, ids + [id]));
    OldRingWithinNew(hashes, ids, id);
    ClockwiseFilter(grown, hash, NotOn(|ids|));
    FirstOfGrown(Clockwise(grown, hash), candidates, |ids|);
  }

  // ---------------------------------------------------------------------------
  // Two selections by the program
  // ---------------------------------------------------------------------------

  function Without(candidates: seq<nat>, gone: nat): (rest: seq<nat>)
    ensures forall c :: c in rest <==> c in candidates && c != gone
  {
    if candidates == [] then []
    else (if candidates[0] == gone then [] else [candidates[0]]) + Without(candidates[1..], gone)
  }

  /** A selection on the ring of the configuration: the first candidate clockwise, and never the fallback. */
  method Select(hashes: VnodeHash, ids: seq<string>, hash: u64, candidates: seq<nat>) returns (r: nat)
    requires candidates != [] && forall c :: c in candidates ==> c < |ids|
    ensures Choose(RingOf(hashes, ids), hash, Members(candidates)) == Some(r) && r in candidates
  {
    var ring := BuildRing(hashes, ids);
    assert candidates[0] in Members(candidates);
    SomeCandidateIsMet(hashes, ids, hash, Members(candidates), candidates[0]);
    r := SelectConsistent(ring, hash, candidates);
  }

  /** The same key before and after a candidate goes: it moves only if it was on that candidate. */
  method SelectAroundDrain(hashes: VnodeHash, ids: seq<string>, hash: u64, candidates: seq<nat>, gone: nat)
    returns (before: nat, after: nat)
    requires (forall c :: c in candidates ==> c < |ids|) && Without(candidates, gone) != []
    ensures before in candidates && after in candidates && after != gone
    ensures before != gone ==> after == before
  {
    var rest := Without(candidates, gone);
    assert rest[0] in rest;
    assert Members(rest) == Members(candidates) - {gone};
    before := Select(hashes, ids, hash, candidates);
    after := Select(hashes, ids, hash, rest);
    DrainMovesOnlyItsKeysOnRing(RingOf(hashes, ids), hash, Members(candidates), gone);
  }

  /** The same key before and after a server is added to the configuration: it stays or moves to the new server. */
  method SelectAroundGrowth(hashes: VnodeHash, ids: seq<string>, id: string, hash: u64, candidates: seq<nat>)
    returns (before: nat, after: nat)
    requires candidates != [] && forall c :: c in candidates ==> c < |ids|
    ensures before in candidates && (after == before || after == |ids|)
  {
    var more := candidates + [|ids|];
    assert Members(more) == Members(candidates) + {|ids|};
    before := Select(hashes, ids, hash, candidates);
    after := Select(hashes, ids + [id], hash, more);
    GrowthMovesOnlyToNew(hashes, ids, id, hash, Members(candidates));
  }
}

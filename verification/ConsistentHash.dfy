/** `core/hash/consistenthash.go`: nodes spread over a ring of hash points. */
module ConsistentHashing {
  import opened GoMaps
  import opened Slices
  import opened HashRing
  import opened Modulo

  const MIN_REPLICAS := 100
  const TOP_WEIGHT := 100
  const PRIME := "16777619"

  /** What `Get` returns; `DivideByZero` is the run-time panic of `% len(h.keys)`. */
  datatype Lookup = NoNode | Found(node: Node) | DivideByZero

  predicate Sorted(keys: seq<nat>) {
    forall i, j | 0 <= i < j < |keys| :: keys[i] <= keys[j]
  }

  /** `sort.Search`: the first index whose key is at least `hash`. */
  method Search(keys: seq<nat>, hash: nat) returns (index: nat)
    requires Sorted(keys)
    ensures index <= |keys|
    ensures forall i | 0 <= i < index :: keys[i] < hash
    ensures forall i | index <= i < |keys| :: keys[i] >= hash
  {
    var lo, hi := 0, |keys|;
    while lo < hi
      invariant 0 <= lo <= hi <= |keys|
      invariant forall i | 0 <= i < lo :: keys[i] < hash
      invariant forall i | hi <= i < |keys| :: keys[i] >= hash
    {
      var mid := (lo + hi) / 2;
      if keys[mid] >= hash {
        hi := mid;
      } else {
        lo := mid + 1;
      }
    }
    index := lo;
  }

  predicate NotAbove(a: nat, b: nat) {
    a <= b
  }

  method SortKeys(keys: seq<nat>) returns (sorted: seq<nat>)
    ensures Sorted(sorted) && multiset(sorted) == multiset(keys)
  {
    sorted := SortSlice(keys, NotAbove);
    forall i, j | 0 <= i < j < |sorted| ensures sorted[i] <= sorted[j] {
      assert NotAbove(sorted[i], sorted[j]);
    }
  }

  /** The body of the loop in `Remove` on the key slice: one copy of `hash` goes, if there is any. */
  method RemoveKey(keys: seq<nat>, hash: nat) returns (keys': seq<nat>)
    requires Sorted(keys)
    ensures Sorted(keys') && multiset(keys') == multiset(keys) - multiset{hash}
  {
    var index := Search(keys, hash);
    keys' := keys;
    if index < |keys| && keys[index] == hash {
      keys' := keys[..index] + keys[index + 1..];
      RemovedKey(keys, index);
    } else {
      assert hash !in keys;
    }
  }

  lemma RemovedKey(keys: seq<nat>, index: nat)
    requires Sorted(keys) && index < |keys|
    ensures Sorted(keys[..index] + keys[index + 1..])
    ensures multiset(keys[..index] + keys[index + 1..]) == multiset(keys) - multiset{keys[index]}
  {
    var a, b := keys[..index], keys[index + 1..];
    var rest := a + b;
    forall i, j | 0 <= i < j < |rest| ensures rest[i] <= rest[j] {
      assert rest[i] == keys[if i < index then i else i + 1];
      assert rest[j] == keys[if j < index then j else j + 1];
    }
    assert multiset(rest) == multiset(a) + multiset(b);
    assert keys == a + [keys[index]] + b;
    assert multiset(keys) == multiset(a) + multiset{keys[index]} + multiset(b);
  }

  method FilterNodes(nodes: seq<Node>, repr: string) returns (r: seq<Node>)
    ensures r == Without(nodes, repr)
  {
    r := [];
    for i := 0 to |nodes|
      invariant r + Without(nodes[i..], repr) == Without(nodes, repr)
    {
      ghost var rest := Without(nodes[i + 1..], repr);
      assert nodes[i..][1..] == nodes[i + 1..];
      if nodes[i].repr != repr {
        assert r + ([nodes[i]] + rest) == r + [nodes[i]] + rest;
        r := r + [nodes[i]];
      } else {
        assert Without(nodes[i..], repr) == rest;
      }
    }
  }

  method RemoveRingNode(ring: Ring, hash: nat, repr: string) returns (ring': Ring)
    requires NoHoles(ring)
    ensures NoHoles(ring')
    ensures forall h :: At(ring', h) == if h == hash then Without(At(ring, h), repr) else At(ring, h)
  {
    ring' := ring;
    if hash in ring {
      var nodes := FilterNodes(ring[hash], repr);
      if |nodes| > 0 {
        ring' := ring[hash := nodes];
      } else {
        ring' := ring - {hash};
      }
    }
  }

  /** `h.ring[hash] = append(h.ring[hash], node)` */
  method AppendRingNode(ring: Ring, hash: nat, node: Node) returns (ring': Ring)
    requires NoHoles(ring)
    ensures NoHoles(ring')
    ensures forall h: nat :: At(ring', h) == if h == hash then At(ring, h) + [node] else At(ring, h)
  {
    ring' := ring[hash := At(ring, hash) + [node]];
  }

  /** `k` is `weight` percent of `replicas`, rounded down. */
  ghost predicate IsPercent(replicas: nat, weight: int, k: int) {
    100 * k <= replicas * weight < 100 * (k + 1)
  }

  lemma PercentOf(replicas: nat, weight: int, share: int)
    requires share == Truncated(replicas * weight, TOP_WEIGHT)
    ensures 0 <= weight <= TOP_WEIGHT ==> 0 <= share <= replicas && IsPercent(replicas, weight, share)
  {
    if 0 <= weight <= TOP_WEIGHT {
      assert 0 <= replicas * weight <= replicas * TOP_WEIGHT by {
        ScaledBy(replicas, weight, TOP_WEIGHT);
      }
    }
  }

  lemma ScaledBy(n: nat, a: nat, b: nat)
    requires a <= b
    ensures 0 <= n * a <= n * b
  {
  }

  /** Each hash occurs among the keys as often as nodes are listed at it. */
  ghost predicate Balanced(keys: seq<nat>, ring: Ring) {
    forall h: nat :: multiset(keys)[h] == |At(ring, h)|
  }

  /** How often a node should be listed at a point. */
  ghost function Expected(hash: string -> nat, placed: map<string, nat>, repr: string, h: nat): (n: nat) {
    if repr in placed then PointCount(hash, repr, placed[repr], h) else 0
  }

  /** Every registered node is listed once for each of its placed replicas, and no other is. */
  ghost predicate ListsPlaced(hash: string -> nat, ring: Ring, placed: map<string, nat>) {
    forall h: nat, repr: string :: CountOf(At(ring, h), repr) == Expected(hash, placed, repr, h)
  }

  /** None of the node's hashes beyond its `n` placed replicas is a point of another node. */
  ghost predicate Clear(hash: string -> nat, ring: Ring, repr: string, n: nat, replicas: nat) {
    forall i | n <= i < replicas :: Without(At(ring, Point(hash, repr, i)), repr) == []
  }

  function Monus(a: nat, b: nat): (r: nat) {
    if a <= b then 0 else a - b
  }

  /** `Remove` takes keys for all `replicas` hashes of a node but list entries only for the `n`
      placed ones. Keys and lists still agree exactly if the node is clear of the others. */
  lemma RemoveBalancedIff(hash: string -> nat, keys: seq<nat>, ring: Ring, keys': seq<nat>, ring': Ring,
                          repr: string, n: nat, replicas: nat)
    requires Balanced(keys, ring) && n <= replicas
    requires forall h: nat :: CountOf(At(ring, h), repr) == PointCount(hash, repr, n, h)
    requires KeysAfter(hash, repr, replicas, keys, keys')
    requires forall h: nat :: At(ring', h) == Without(At(ring, h), repr)
    ensures Balanced(keys', ring') <==> Clear(hash, ring, repr, n, replicas)
  {
    forall h: nat
      ensures multiset(keys')[h] == |At(ring', h)|
              <==> (exists i :: n <= i < replicas && Point(hash, repr, i) == h) ==> Without(At(ring, h), repr) == []
    {
      WithoutCounts(At(ring, h), repr, repr);
      PointCountMonotone(hash, repr, n, replicas, h);
      PointCountGrows(hash, repr, n, replicas, h);
    }
    if Balanced(keys', ring') {
      forall i | n <= i < replicas ensures Without(At(ring, Point(hash, repr, i)), repr) == [] {
        assert multiset(keys')[Point(hash, repr, i)] == |At(ring', Point(hash, repr, i))|;
      }
    }
  }

  /** The keys after the first `i` rounds of the loop in `Remove`. */
  ghost predicate KeysAfter(hash: string -> nat, repr: string, i: nat, keys: seq<nat>, keys': seq<nat>) {
    forall h: nat :: multiset(keys')[h] == Monus(multiset(keys)[h], PointCount(hash, repr, i, h))
  }

  /** The ring after the first `i` rounds of the loop in `Remove`. */
  ghost predicate RingAfter(hash: string -> nat, repr: string, i: nat, ring: Ring, ring': Ring) {
    forall h: nat ::
      At(ring', h) == if PointCount(hash, repr, i, h) > 0 then Without(At(ring, h), repr) else At(ring, h)
  }

  lemma KeysAfterStep(hash: string -> nat, repr: string, i: nat, keys: seq<nat>, keys': seq<nat>, keys'': seq<nat>)
    requires KeysAfter(hash, repr, i, keys, keys')
    requires multiset(keys'') == multiset(keys') - multiset{Point(hash, repr, i)}
    ensures KeysAfter(hash, repr, i + 1, keys, keys'')
  {
  }

  lemma RingAfterStep(hash: string -> nat, repr: string, i: nat, ring: Ring, ring': Ring, ring'': Ring)
    requires RingAfter(hash, repr, i, ring, ring')
    requires forall h :: At(ring'', h) == if h == Point(hash, repr, i) then Without(At(ring', h), repr) else At(ring', h)
    ensures RingAfter(hash, repr, i + 1, ring, ring'')
  {
    WithoutTwice(At(ring, Point(hash, repr, i)), repr);
  }

  lemma RingAfterAll(hash: string -> nat, repr: string, n: nat, replicas: nat, ring: Ring, ring': Ring)
    requires RingAfter(hash, repr, replicas, ring, ring') && n <= replicas
    requires forall h: nat :: CountOf(At(ring, h), repr) == PointCount(hash, repr, n, h)
    ensures forall h: nat :: At(ring', h) == Without(At(ring, h), repr)
  {
    forall h: nat ensures At(ring', h) == Without(At(ring, h), repr) {
      WithoutCounts(At(ring, h), repr, repr);
      PointCountMonotone(hash, repr, n, replicas, h);
    }
  }

  /** The ring after the first `i` rounds of the loop in `AddWithReplicas`. */
  ghost predicate GrownBy(hash: string -> nat, node: Node, i: nat, ring: Ring, ring': Ring) {
    forall h: nat {:trigger At(ring', h)} :: At(ring', h) == At(ring, h) + Repeat(node, PointCount(hash, node.repr, i, h))
  }

  /** At every point, what was listed for the node is gone and its first `n` replicas follow. */
  ghost predicate Replaced(hash: string -> nat, node: Node, n: nat, ring: Ring, ring': Ring) {
    forall h: nat {:trigger At(ring', h)} ::
      At(ring', h) == Without(At(ring, h), node.repr) + Repeat(node, PointCount(hash, node.repr, n, h))
  }

  /** A ring of `n` points that list one node once each. */
  ghost predicate OneEach(ring: Ring, node: Node, n: nat) {
    |ring| == n && forall h | h in ring :: ring[h] == [node]
  }

  /** Without collisions, the first node has a point for every replica. */
  lemma FirstNodeIsSpread(hash: string -> nat, node: Node, n: nat, ring: Ring)
    requires Injective(hash) && NoHoles(ring) && Replaced(hash, node, n, map[], ring)
    ensures OneEach(ring, node, n) && ring.Keys == Points(hash, node.repr, n)
  {
    forall h: nat ensures h in ring <==> h in Points(hash, node.repr, n) {
      assert At(ring, h) == [] + Repeat(node, PointCount(hash, node.repr, n, h));
      PointsMembers(hash, node.repr, n, h);
    }
    forall h | h in ring ensures ring[h] == [node] {
      assert At(ring, h) == [] + Repeat(node, PointCount(hash, node.repr, n, h));
      PointsMembers(hash, node.repr, n, h);
      PointsCounted(hash, node.repr, n, h);
      assert Repeat(node, 1) == [node];
    }
    PointsCounted(hash, node.repr, n, 0);
    assert ring.Keys == Points(hash, node.repr, n);
  }

  ghost predicate KeysGrownBy(hash: string -> nat, repr: string, i: nat, keys: seq<nat>, keys': seq<nat>) {
    forall h: nat :: multiset(keys')[h] == multiset(keys)[h] + PointCount(hash, repr, i, h)
  }

  lemma GrownIsAdded(hash: string -> nat, node: Node, n: nat, ring: Ring, ring': Ring)
    requires GrownBy(hash, node, n, ring, ring') && NoHoles(ring')
    ensures Added(ring, ring', node)
  {
    forall h: nat ensures AppendedAt(ring, ring', node, h) {
      assert At(ring', h) == At(ring, h) + Repeat(node, PointCount(hash, node.repr, n, h));
    }
  }

  lemma GrowNothing(hash: string -> nat, node: Node, keys: seq<nat>, ring: Ring)
    ensures GrownBy(hash, node, 0, ring, ring) && KeysGrownBy(hash, node.repr, 0, keys, keys)
  {
    forall h: nat ensures At(ring, h) == At(ring, h) + Repeat(node, PointCount(hash, node.repr, 0, h)) {
      assert Repeat(node, 0) == [];
    }
  }

  lemma GrowStep(hash: string -> nat, node: Node, i: nat, ring: Ring, ring': Ring, ring'': Ring)
    requires GrownBy(hash, node, i, ring, ring')
    requires forall h: nat ::
               At(ring'', h) == if h == Point(hash, node.repr, i) then At(ring', h) + [node] else At(ring', h)
    ensures GrownBy(hash, node, i + 1, ring, ring'')
  {
    forall h: nat ensures At(ring'', h) == At(ring, h) + Repeat(node, PointCount(hash, node.repr, i + 1, h)) {
      var k := PointCount(hash, node.repr, i, h);
      assert At(ring', h) == At(ring, h) + Repeat(node, k);
      if h == Point(hash, node.repr, i) {
        assert PointCount(hash, node.repr, i + 1, h) == k + 1;
        RepeatMore(At(ring, h), node, k);
      } else {
        assert PointCount(hash, node.repr, i + 1, h) == k;
      }
    }
  }

  lemma RepeatMore(nodes: seq<Node>, node: Node, k: nat)
    ensures nodes + Repeat(node, k) + [node] == nodes + Repeat(node, k + 1)
  {
  }

  lemma KeysGrowStep(hash: string -> nat, repr: string, i: nat, keys: seq<nat>, keys': seq<nat>)
    requires KeysGrownBy(hash, repr, i, keys, keys')
    ensures KeysGrownBy(hash, repr, i + 1, keys, keys' + [Point(hash, repr, i)])
  {
    assert multiset(keys' + [Point(hash, repr, i)]) == multiset(keys') + multiset{Point(hash, repr, i)};
  }

  lemma RemoveKeepsCount(hash: string -> nat, placed: map<string, nat>, h: nat, nodes: seq<Node>, repr: string,
                         other: string)
    requires CountOf(nodes, other) == Expected(hash, placed, other, h)
    ensures CountOf(Without(nodes, repr), other) == Expected(hash, placed - {repr}, other, h)
  {
    WithoutCounts(nodes, repr, other);
  }

  lemma RemoveKeepsLists(hash: string -> nat, ring: Ring, ring': Ring, placed: map<string, nat>, repr: string)
    requires ListsPlaced(hash, ring, placed) && Removed(ring, ring', repr)
    ensures ListsPlaced(hash, ring', placed - {repr})
  {
    forall h: nat, other: string ensures CountOf(At(ring', h), other) == Expected(hash, placed - {repr}, other, h) {
      RemoveKeepsCount(hash, placed, h, At(ring, h), repr, other);
    }
  }

  lemma GrowKeepsLists(hash: string -> nat, node: Node, n: nat, ring: Ring, ring': Ring, placed: map<string, nat>)
    requires ListsPlaced(hash, ring, placed) && node.repr !in placed && GrownBy(hash, node, n, ring, ring')
    ensures ListsPlaced(hash, ring', placed[node.repr := n])
  {
    forall h: nat, repr: string
      ensures CountOf(At(ring', h), repr)
              == if repr in placed[node.repr := n] then PointCount(hash, repr, placed[node.repr := n][repr], h) else 0
    {
      CountOfRepeat(At(ring, h), node, PointCount(hash, node.repr, n, h), repr);
      assert CountOf(At(ring, h), repr) == if repr in placed then PointCount(hash, repr, placed[repr], h) else 0;
    }
  }

  lemma GrowBalancedIff(hash: string -> nat, node: Node, n: nat, keys: seq<nat>, keys': seq<nat>, ring: Ring,
                        ring': Ring)
    requires GrownBy(hash, node, n, ring, ring') && KeysGrownBy(hash, node.repr, n, keys, keys')
    ensures Balanced(keys', ring') <==> Balanced(keys, ring)
  {
    assert forall h: nat :: |At(ring', h)| == |At(ring, h)| + PointCount(hash, node.repr, n, h);
    if Balanced(keys', ring') {
      forall h: nat ensures multiset(keys)[h] == |At(ring, h)| {
        assert multiset(keys')[h] == |At(ring', h)|;
      }
    }
  }

  class ConsistentHash {
    const hashFunc: string -> nat
    const replicas: nat
    var keys: seq<nat>
    var ring: Ring
    var nodes: set<string>
    ghost var placed: map<string, nat>  // how many replicas each registered node was given

    /** What every operation keeps, with or without collisions. */
    ghost predicate Ordered()
      reads this
    {
      && Sorted(keys) && NoHoles(ring) && placed.Keys == nodes
      && (forall r | r in placed :: placed[r] <= replicas)
      && ListsPlaced(hashFunc, ring, placed)
    }

    ghost predicate Valid()
      reads this
    {
      Ordered() && Balanced(keys, ring)
    }

    /** Every registered node has all its replicas. */
    ghost predicate Full()
      reads this
    {
      forall r | r in placed :: placed[r] == replicas
    }

    ghost predicate ClearOf(repr: string)
      reads this
    {
      repr in placed ==> Clear(hashFunc, ring, repr, placed[repr], replicas)
    }

    constructor (replicas: int, hashFunc: string -> nat)
      ensures Valid() && Full() && nodes == {} && ring == map[] && this.hashFunc == hashFunc
      ensures this.replicas == if replicas < MIN_REPLICAS then MIN_REPLICAS else replicas
    {
      this.replicas := if replicas < MIN_REPLICAS then MIN_REPLICAS else replicas;
      this.hashFunc := hashFunc;
      keys, ring, nodes, placed := [], map[], {}, map[];
    }

    method Remove(node: Node)
      requires Ordered()
      modifies this
      ensures Ordered() && Removed(old(ring), ring, node.repr) && placed == old(placed) - {node.repr}
      ensures old(Valid()) ==> (Valid() <==> old(ClearOf(node.repr)))
      ensures old(Full()) ==> Full()
      ensures old(Valid() && Full()) ==> Valid()
      ensures node.repr in old(nodes) ==> KeysAfter(hashFunc, node.repr, replicas, old(keys), keys)
      ensures node.repr !in old(nodes) ==> ring == old(ring) && keys == old(keys)
    {
      var repr := node.repr;
      if repr !in nodes {
        forall h: nat ensures Without(At(ring, h), repr) == At(ring, h) {
          WithoutCounts(At(ring, h), repr, repr);
        }
        assert placed - {repr} == placed;
        return;
      }
      RemovePoints(repr, placed[repr]);
      nodes := nodes - {repr};
      placed := placed - {repr};
      RemoveKeepsLists(hashFunc, old(ring), ring, old(placed), repr);
      if old(Valid()) {
        RemoveBalancedIff(hashFunc, old(keys), old(ring), keys, ring, repr, old(placed)[repr], replicas);
      }
    }

    /** The loop of `Remove`. */
    method RemovePoints(repr: string, ghost n: nat)
      requires Sorted(keys) && NoHoles(ring) && n <= replicas
      requires forall h: nat :: CountOf(At(ring, h), repr) == PointCount(hashFunc, repr, n, h)
      modifies this`keys, this`ring
      ensures Sorted(keys) && Removed(old(ring), ring, repr) && KeysAfter(hashFunc, repr, replicas, old(keys), keys)
    {
      for i := 0 to replicas
        invariant Sorted(keys) && NoHoles(ring)
        invariant KeysAfter(hashFunc, repr, i, old(keys), keys)
        invariant RingAfter(hashFunc, repr, i, old(ring), ring)
      {
        var hash := Point(hashFunc, repr, i);
        ghost var keys0, ring0 := keys, ring;
        keys := RemoveKey(keys, hash);
        KeysAfterStep(hashFunc, repr, i, old(keys), keys0, keys);
        ring := RemoveRingNode(ring, hash, repr);
        RingAfterStep(hashFunc, repr, i, old(ring), ring0, ring);
      }
      RingAfterAll(hashFunc, repr, n, replicas, old(ring), ring);
    }

    /** The loop of `AddWithReplicas`, with the sorting that follows it. */
    method AddPoints(node: Node, n: nat)
      requires NoHoles(ring)
      modifies this`keys, this`ring
      ensures Sorted(keys) && NoHoles(ring)
      ensures GrownBy(hashFunc, node, n, old(ring), ring) && KeysGrownBy(hashFunc, node.repr, n, old(keys), keys)
    {
      AppendPoints(node, n);
      keys := SortKeys(keys);
    }

    method AppendPoints(node: Node, n: nat)
      requires NoHoles(ring)
      modifies this`keys, this`ring
      ensures NoHoles(ring)
      ensures GrownBy(hashFunc, node, n, old(ring), ring) && KeysGrownBy(hashFunc, node.repr, n, old(keys), keys)
    {
      GrowNothing(hashFunc, node, keys, ring);
      for i := 0 to n
        invariant NoHoles(ring)
        invariant GrownBy(hashFunc, node, i, old(ring), ring) && KeysGrownBy(hashFunc, node.repr, i, old(keys), keys)
      {
        AddPoint(node, i, old(keys), old(ring));
      }
    }

    method AddPoint(node: Node, i: nat, ghost keys0: seq<nat>, ghost ring0: Ring)
      requires NoHoles(ring)
      requires GrownBy(hashFunc, node, i, ring0, ring) && KeysGrownBy(hashFunc, node.repr, i, keys0, keys)
      modifies this`keys, this`ring
      ensures NoHoles(ring)
      ensures GrownBy(hashFunc, node, i + 1, ring0, ring) && KeysGrownBy(hashFunc, node.repr, i + 1, keys0, keys)
    {
      var hash := Point(hashFunc, node.repr, i);
      KeysGrowStep(hashFunc, node.repr, i, keys0, keys);
      keys := keys + [hash];
      ghost var before := ring;
      ring := AppendRingNode(ring, hash, node);
      GrowStep(hashFunc, node, i, ring0, before, ring);
    }

    /** The number of replicas actually placed. */
    function Clamp(n: int): (k: nat)
      ensures k <= replicas && (0 <= n <= replicas ==> k == n) && (n < 0 ==> k == 0) && (n > replicas ==> k == replicas)
    {
      if n > replicas then replicas else if n < 0 then 0 else n
    }

    method AddWithReplicas(node: Node, n: int)
      requires Ordered()
      modifies this
      ensures Ordered() && placed == old(placed)[node.repr := Clamp(n)]
      ensures Replaced(hashFunc, node, Clamp(n), old(ring), ring)
      ensures old(ring) == map[] && Injective(hashFunc) ==> OneEach(ring, node, Clamp(n))
      ensures old(Valid()) ==> (Valid() <==> old(ClearOf(node.repr)))
      ensures old(Full()) && n >= replicas ==> Full()
      ensures node.repr !in old(nodes) ==> Added(old(ring), ring, node)
    {
      Reinsert(placed, node.repr, Clamp(n));
      ghost var before := ring;
      Remove(node);
      var count := if n > replicas then replicas else n;
      Place(node, if count < 0 then 0 else count);
      if before == map[] && Injective(hashFunc) {
        FirstNodeIsSpread(hashFunc, node, Clamp(n), ring);
      }
    }

    /** `AddWithReplicas` after the node's former entries are gone. */
    method Place(node: Node, n: nat)
      requires Ordered() && node.repr !in placed && n <= replicas
      modifies this
      ensures Ordered() && placed == old(placed)[node.repr := n]
      ensures GrownBy(hashFunc, node, n, old(ring), ring) && Added(old(ring), ring, node)
      ensures Balanced(keys, ring) <==> old(Balanced(keys, ring))
    {
      nodes := nodes + {node.repr};
      AddPoints(node, n);
      placed := placed[node.repr := n];
      GrowKeepsLists(hashFunc, node, n, old(ring), ring, old(placed));
      GrowBalancedIff(hashFunc, node, n, old(keys), keys, old(ring), ring);
      GrownIsAdded(hashFunc, node, n, old(ring), ring);
    }

    method Add(node: Node)
      requires Ordered()
      modifies this
      ensures Ordered() && placed == old(placed)[node.repr := replicas]
      ensures old(Valid()) ==> (Valid() <==> old(ClearOf(node.repr)))
      ensures old(Valid() && Full()) ==> Valid() && Full()
      ensures Replaced(hashFunc, node, replicas, old(ring), ring)
      ensures old(ring) == map[] && Injective(hashFunc) ==> OneEach(ring, node, replicas)
      ensures node.repr !in old(nodes) ==> Added(old(ring), ring, node)
    {
      AddWithReplicas(node, replicas);
    }

    method AddWithWeight(node: Node, weight: int)
      requires Ordered()
      modifies this
      ensures Ordered() && placed == old(placed)[node.repr := Clamp(Truncated(replicas * weight, TOP_WEIGHT))]
      ensures old(Valid()) ==> (Valid() <==> old(ClearOf(node.repr)))
      ensures Replaced(hashFunc, node, placed[node.repr], old(ring), ring)
      ensures 0 <= weight <= TOP_WEIGHT ==> IsPercent(replicas, weight, placed[node.repr])
      ensures node.repr !in old(nodes) ==> Added(old(ring), ring, node)
    {
      var share := Truncated(replicas * weight, TOP_WEIGHT);
      PercentOf(replicas, weight, share);
      AddWithReplicas(node, share);
    }

    /** The second hash of a lookup. */
    function Inner(v: Node): (h: nat)
      ensures h == hashFunc("16777619:" + v.formatted)
    {
      assert PRIME + ":" == "16777619:";
      assert PRIME + ":" + v.formatted == "16777619:" + v.formatted;
      hashFunc(PRIME + ":" + v.formatted)
    }

    /** Serves a node listed at the key that follows the hash clockwise. On a valid ring that is
        the clockwise-first point; the division by zero happens exactly when points are left
        without keys. */
    method Get(v: Node) returns (r: Lookup, ghost p: nat)
      requires Ordered()
      ensures r == DivideByZero <==> ring != map[] && keys == []
      ensures ring == map[] ==> r == NoNode
      ensures ring != map[] && keys != [] ==>
                && IsSuccessor((set h | h in keys), hashFunc(v.repr), p)
                && r == if At(ring, p) == [] then NoNode else Found(At(ring, p)[Inner(v) % |At(ring, p)|])
      ensures Valid() && ring != map[] ==>
                && r.Found? && IsSuccessor(ring.Keys, hashFunc(v.repr), p)
                && ServesAt(ring, p, Inner(v), r.node) && Serves(ring, hashFunc(v.repr), Inner(v), r.node)
    {
      p := 0;
      if |ring| == 0 {
        return NoNode, 0;
      }
      if Valid() {
        KeysArePoints(keys, ring);
        assert exists h :: h in ring && h in keys;
      }
      var hash := hashFunc(v.repr);
      var index := Search(keys, hash);
      if |keys| == 0 {
        return DivideByZero, 0;
      }
      WrapOnce(index, |keys|);
      p := keys[index % |keys|];
      ghost var points := set h | h in keys;
      SearchFindsSuccessor(keys, points, hash, index);
      assert Valid() ==> points == ring.Keys;
      r := Pick(At(ring, keys[index % |keys|]), Inner(v));
    }
  }

  /** The choice among the nodes at one point. */
  method Pick(nodes: seq<Node>, innerIndex: nat) returns (r: Lookup)
    ensures r == if nodes == [] then NoNode else Found(nodes[innerIndex % |nodes|])
  {
    if |nodes| == 0 {
      r := NoNode;
    } else if |nodes| == 1 {
      r := Found(nodes[0]);
    } else {
      r := Found(nodes[innerIndex % |nodes|]);
    }
  }

  lemma KeysArePoints(keys: seq<nat>, ring: Ring)
    requires Balanced(keys, ring) && NoHoles(ring)
    ensures forall h :: h in keys <==> h in ring
  {
    forall h ensures h in keys <==> h in ring {
      if h in keys {
        assert multiset(keys)[h] == |At(ring, h)|;
      }
      if h in ring {
        assert multiset(keys)[h] == |At(ring, h)|;
      }
    }
  }

  /** The binary search, wrapped around, lands on the clockwise successor. */
  lemma SearchFindsSuccessor(keys: seq<nat>, points: set<nat>, hash: nat, index: nat)
    requires Sorted(keys) && |keys| > 0 && index <= |keys| && forall h :: h in keys <==> h in points
    requires forall i | 0 <= i < index :: keys[i] < hash
    requires forall i | index <= i < |keys| :: keys[i] >= hash
    ensures IsSuccessor(points, hash, keys[if index < |keys| then index else 0])
  {
    var p := keys[if index < |keys| then index else 0];
    assert p in keys;
    forall q | q in points ensures (p >= hash && q >= hash ==> p <= q) && (p < hash ==> q < hash && p <= q) {
      assert q in keys;
      var i :| 0 <= i < |keys| && keys[i] == q;
    }
  }

  lemma {:induction false} ConstantHashPoints(hash: string -> nat, repr: string, n: nat, h: nat)
    requires forall s :: hash(s) == 0
    ensures PointCount(hash, repr, n, h) == if h == 0 then n else 0
  {
    if n > 0 {
      ConstantHashPoints(hash, repr, n - 1, h);
    }
  }

  /** Two nodes with one replica each that collide at zero. */
  lemma CollidingPairIsValid(hash: string -> nat, a: Node, b: Node)
    requires (forall s :: hash(s) == 0) && a.repr != b.repr
    ensures Balanced([0, 0], map[0 := [a, b]])
    ensures ListsPlaced(hash, map[0 := [a, b]], map[a.repr := 1, b.repr := 1])
  {
    forall h: nat ensures multiset([0, 0])[h] == |At(map[0 := [a, b]], h)| {}
    forall h: nat, repr: string
      ensures CountOf(At(map[0 := [a, b]], h), repr)
              == if repr in map[a.repr := 1, b.repr := 1] then PointCount(hash, repr, 1, h) else 0
    {
      ConstantHashPoints(hash, repr, 1, h);
      TwoNodes(a, b, repr);
    }
  }

  lemma EmptyOrInhabited(keys: seq<nat>)
    ensures keys == [] || exists h :: h in keys
  {
    if keys != [] {
      assert keys[0] in keys;
    }
  }

  /** The condition is needed. From such a pair, whatever keys and ring `Remove` promises after taking
      out the first node, no key is left while the second is still listed: the next `Get` panics. */
  lemma WeightedRemovalCanPanic(hash: string -> nat, a: Node, b: Node, keys': seq<nat>, ring': Ring)
    requires (forall s :: hash(s) == 0) && a.repr != b.repr
    requires KeysAfter(hash, a.repr, MIN_REPLICAS, [0, 0], keys') && Removed(map[0 := [a, b]], ring', a.repr)
    ensures keys' == [] && At(ring', 0) == [b]
    ensures !Clear(hash, map[0 := [a, b]], a.repr, 1, MIN_REPLICAS)
  {
    TwoNodes(a, b, a.repr);
    assert At(ring', 0) == Without(At(map[0 := [a, b]], 0), a.repr);
    assert Point(hash, a.repr, 1) == 0;
    forall h ensures h !in keys' {
      ConstantHashPoints(hash, a.repr, MIN_REPLICAS, h);
      assert multiset(keys')[h] == 0;
    }
    EmptyOrInhabited(keys');
  }

  // ---- Before and after ----

  /** Without collisions, removing a node leaves every lookup alone that did not end at it. */
  method GetAroundRemove(c: ConsistentHash, node: Node, v: Node) returns (before: Lookup, after: Lookup)
    requires c.Valid() && c.ClearOf(node.repr) && CollisionFree(c.ring)
    modifies c
    ensures before.Found? && before.node.repr != node.repr ==> after == before
  {
    ghost var p, ring := 0, c.ring;
    before, p := c.Get(v);
    c.Remove(node);
    after, p := c.Get(v);
    if before.Found? && before.node.repr != node.repr {
      LookupSurvivesRemoval(ring, c.ring, node.repr, c.hashFunc(v.repr), c.Inner(v), before.node);
      ServesOne(c.ring, c.hashFunc(v.repr), c.Inner(v), before.node, after.node);
    }
  }

  lemma AddedKeepsPoint(ring: Ring, ring': Ring, node: Node, p: nat)
    requires NoHoles(ring) && Added(ring, ring', node) && p in ring
    ensures p in ring'
  {
    assert AppendedAt(ring, ring', node, p);
  }

  method AddAbsent(c: ConsistentHash, node: Node)
    requires c.Valid() && node.repr !in c.nodes
    modifies c
    ensures c.Valid() && Added(old(c.ring), c.ring, node)
  {
    c.Add(node);
  }

  /** Adding an absent node that collides with nothing leaves every lookup alone or takes it over. */
  method GetAroundAdd(c: ConsistentHash, node: Node, v: Node) returns (before: Lookup, after: Lookup)
    requires c.Valid() && node.repr !in c.nodes
    modifies c
    ensures before.Found? && CollisionFree(c.ring) ==> after == before || after == Found(node)
  {
    ghost var p, q, ring := 0, 0, c.ring;
    before, p := c.Get(v);
    AddAbsent(c, node);
    after, q := c.Get(v);
    if before.Found? && CollisionFree(c.ring) {
      AddedKeepsPoint(ring, c.ring, node, p);
      LookupMovesToAdded(ring, c.ring, node, c.hashFunc(v.repr), c.Inner(v), before.node, after.node);
    }
  }

  ghost predicate GrownAtZero(ring: Ring, ring': Ring, node: Node) {
    forall h: nat {:trigger At(ring', h)} :: At(ring', h) == At(ring, h) + if h == 0 then [node] else []
  }

  ghost predicate PairAtZero(ring: Ring, a: Node, b: Node) {
    forall h: nat :: At(ring, h) == if h == 0 then [a, b] else []
  }

  lemma GrownTwice(first: Ring, ring: Ring, a: Node, b: Node)
    requires GrownAtZero(map[], first, a) && GrownAtZero(first, ring, b)
    ensures PairAtZero(ring, a, b)
  {
    forall h: nat ensures At(ring, h) == if h == 0 then [a, b] else [] {
      assert At(ring, h) == At(first, h) + if h == 0 then [b] else [];
      assert At(first, h) == At(map[], h) + if h == 0 then [a] else [];
    }
  }

  lemma PairIsExactly(keys: seq<nat>, ring: Ring, a: Node, b: Node)
    requires NoHoles(ring) && Balanced(keys, ring) && PairAtZero(ring, a, b)
    ensures keys == [0, 0] && ring == map[0 := [a, b]]
  {
    assert At(ring, 0) == [a, b];
    forall h: nat ensures h in ring ==> h == 0 {
      assert At(ring, h) == if h == 0 then [a, b] else [];
    }
    forall h: nat ensures multiset(keys)[h] == multiset([0, 0])[h] {
      assert multiset(keys)[h] == |At(ring, h)|;
    }
    assert multiset(keys) == multiset([0, 0]);
    assert |keys| == |multiset(keys)| == 2;
    assert keys[0] in multiset(keys) && keys[1] in multiset(keys);
  }

  lemma OneReplica(hash: string -> nat, node: Node, ring: Ring, ring': Ring)
    requires forall s :: hash(s) == 0
    requires forall h: nat :: CountOf(At(ring, h), node.repr) == 0
    requires Replaced(hash, node, 1, ring, ring')
    ensures GrownAtZero(ring, ring', node)
  {
    forall h: nat ensures At(ring', h) == At(ring, h) + if h == 0 then [node] else [] {
      WithoutCounts(At(ring, h), node.repr, node.repr);
      ConstantHashPoints(hash, node.repr, 1, h);
      assert Repeat(node, 1) == [node] && Repeat(node, 0) == [];
    }
  }

  method AddOneReplica(c: ConsistentHash, node: Node)
    requires c.Valid() && c.replicas >= 1 && node.repr !in c.nodes && forall s :: c.hashFunc(s) == 0
    modifies c
    ensures c.Valid() && c.nodes == old(c.nodes) + {node.repr}
    ensures GrownAtZero(old(c.ring), c.ring, node)
  {
    ghost var ring := c.ring;
    c.AddWithReplicas(node, 1);
    OneReplica(c.hashFunc, node, ring, c.ring);
  }

  /** Two nodes of one replica, added to an empty ring under a hash that is always zero. */
  method CollidingPair(hash: string -> nat, a: Node, b: Node) returns (c: ConsistentHash)
    requires (forall s :: hash(s) == 0) && a.repr != b.repr
    ensures fresh(c) && c.Valid() && c.hashFunc == hash && c.replicas == MIN_REPLICAS && a.repr in c.nodes
    ensures c.keys == [0, 0] && c.ring == map[0 := [a, b]]
  {
    c := new ConsistentHash(MIN_REPLICAS, hash);
    AddOneReplica(c, a);
    ghost var ring := c.ring;
    AddOneReplica(c, b);
    GrownTwice(ring, c.ring, a, b);
    PairIsExactly(c.keys, c.ring, a, b);
  }

  /** The division by zero is reached: after removing one of them, any lookup ends in it. */
  method WeightedPairPanics(hash: string -> nat, a: Node, b: Node, v: Node) returns (r: Lookup)
    requires (forall s :: hash(s) == 0) && a.repr != b.repr
    ensures r == DivideByZero
  {
    var c := CollidingPair(hash, a, b);
    c.Remove(a);
    WeightedRemovalCanPanic(hash, a, b, c.keys, c.ring);
    ghost var p;
    r, p := c.Get(v);
  }
}

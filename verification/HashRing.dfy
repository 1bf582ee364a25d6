/** The mathematics of the hash ring in `core/hash/consistenthash.go`: points, the nodes listed at
    each point, and the clockwise successor of a hash. */
module HashRing {

  /** A node as `any` is seen by the ring: its text by `lang.Repr` and by the `%v` verb. */
  datatype Node = Node(repr: string, formatted: string)

  type Ring = map<nat, seq<Node>>

  function Digit(d: nat): (c: char)
    requires d < 10
  {
    "0123456789"[d]
  }

  function Itoa(n: nat): (s: string) {
    if n < 10 then [Digit(n)] else Itoa(n / 10) + [Digit(n % 10)]
  }

  function DigitValue(c: char): (d: nat) {
    if '0' <= c <= '9' then c as int - '0' as int else 0
  }

  /** The number that a row of decimal digits denotes. */
  function Denoted(s: string): (n: nat) {
    if s == "" then 0 else Denoted(s[..|s| - 1]) * 10 + DigitValue(s[|s| - 1])
  }

  lemma DigitDenotes(d: nat)
    requires d < 10
    ensures DigitValue(Digit(d)) == d && '0' <= Digit(d) <= '9'
  {
    assert d == 0 || d == 1 || d == 2 || d == 3 || d == 4 || d == 5 || d == 6 || d == 7 || d == 8 || d == 9;
  }

  /** The label of a replica ends in decimal digits that denote its number. */
  lemma {:induction false} ItoaDenotes(n: nat)
    ensures Denoted(Itoa(n)) == n && Itoa(n) != "" && forall c | c in Itoa(n) :: '0' <= c <= '9'
  {
    if n < 10 {
      DigitDenotes(n);
      assert [Digit(n)][..0] == "";
    } else {
      ItoaDenotes(n / 10);
      DigitDenotes(n % 10);
      var init := Itoa(n / 10);
      assert Itoa(n) == init + [Digit(n % 10)] && (init + [Digit(n % 10)])[..|init|] == init;
    }
  }

  lemma ItoaInjective(i: nat, j: nat)
    requires Itoa(i) == Itoa(j)
    ensures i == j
  {
    ItoaDenotes(i);
    ItoaDenotes(j);
  }

  ghost predicate Injective(hash: string -> nat) {
    forall a, b | hash(a) == hash(b) :: a == b
  }

  /** The hash of replica `i` of a node. */
  function Point(hash: string -> nat, repr: string, i: nat): (h: nat) {
    hash(repr + Itoa(i))
  }

  /** Replica `i` of a node is placed at the hash of its text followed by digits that denote `i`. */
  lemma PointOfLabel(hash: string -> nat, repr: string, i: nat) returns (digits: string)
    ensures Point(hash, repr, i) == hash(repr + digits) && digits != "" && Denoted(digits) == i
    ensures forall c | c in digits :: '0' <= c <= '9'
  {
    digits := Itoa(i);
    ItoaDenotes(i);
  }

  /** Under a hash without collisions, the replicas of a node have points of their own. */
  lemma PointsDistinct(hash: string -> nat, repr: string, i: nat, j: nat)
    requires Injective(hash) && Point(hash, repr, i) == Point(hash, repr, j)
    ensures i == j
  {
    assert repr + Itoa(i) == repr + Itoa(j);
    assert (repr + Itoa(i))[|repr|..] == Itoa(i) && (repr + Itoa(j))[|repr|..] == Itoa(j);
    ItoaInjective(i, j);
  }

  /** How many of the first `n` replicas of a node fall on `h`. */
  ghost function PointCount(hash: string -> nat, repr: string, n: nat, h: nat): (r: nat) {
    if n == 0 then 0 else PointCount(hash, repr, n - 1, h) + (if Point(hash, repr, n - 1) == h then 1 else 0)
  }

  lemma {:induction false} PointCountMonotone(hash: string -> nat, repr: string, n: nat, n': nat, h: nat)
    requires n <= n'
    ensures PointCount(hash, repr, n, h) <= PointCount(hash, repr, n', h)
    decreases n'
  {
    if n < n' {
      PointCountMonotone(hash, repr, n, n' - 1, h);
    }
  }

  /** More replicas fall on `h` than the first `n` exactly if one of the others does. */
  lemma {:induction false} PointCountGrows(hash: string -> nat, repr: string, n: nat, n': nat, h: nat)
    requires n <= n'
    ensures PointCount(hash, repr, n, h) < PointCount(hash, repr, n', h)
            <==> exists i :: n <= i < n' && Point(hash, repr, i) == h
    decreases n'
  {
    if n < n' {
      PointCountGrows(hash, repr, n, n' - 1, h);
      PointCountMonotone(hash, repr, n, n' - 1, h);
      if i :| n <= i < n' && Point(hash, repr, i) == h {
        assert i == n' - 1 || n <= i < n' - 1;
      }
    }
  }

  /** The points of the first `n` replicas. */
  ghost function Points(hash: string -> nat, repr: string, n: nat): (r: set<nat>) {
    if n == 0 then {} else Points(hash, repr, n - 1) + {Point(hash, repr, n - 1)}
  }

  lemma {:induction false} PointsMembers(hash: string -> nat, repr: string, n: nat, h: nat)
    ensures h in Points(hash, repr, n) <==> exists i :: 0 <= i < n && Point(hash, repr, i) == h
    ensures h in Points(hash, repr, n) <==> PointCount(hash, repr, n, h) > 0
  {
    if n > 0 {
      PointsMembers(hash, repr, n - 1, h);
      assert h == Point(hash, repr, n - 1) ==> exists i :: 0 <= i < n && Point(hash, repr, i) == h;
    }
  }

  /** Without collisions there are as many points as replicas, with one replica each. */
  lemma {:induction false} PointsCounted(hash: string -> nat, repr: string, n: nat, h: nat)
    requires Injective(hash)
    ensures |Points(hash, repr, n)| == n && PointCount(hash, repr, n, h) <= 1
  {
    if n > 0 {
      var p := Point(hash, repr, n - 1);
      PointsCounted(hash, repr, n - 1, h);
      PointsMembers(hash, repr, n - 1, p);
      PointsMembers(hash, repr, n - 1, h);
      forall i | 0 <= i < n - 1 ensures Point(hash, repr, i) != p {
        if Point(hash, repr, i) == p {
          PointsDistinct(hash, repr, i, n - 1);
        }
      }
    }
  }

  /** The nodes listed at `h`; none when the ring has no such point. */
  function At(ring: Ring, h: nat): (r: seq<Node>) {
    if h in ring then ring[h] else []
  }

  /** The nodes other than those with this text, in order. */
  function Without(nodes: seq<Node>, repr: string): (r: seq<Node>)
    ensures |r| <= |nodes|
  {
    if nodes == [] then []
    else (if nodes[0].repr == repr then [] else [nodes[0]]) + Without(nodes[1..], repr)
  }

  function CountOf(nodes: seq<Node>, repr: string): (r: nat) {
    if nodes == [] then 0 else (if nodes[0].repr == repr then 1 else 0) + CountOf(nodes[1..], repr)
  }

  lemma {:induction false} CountOfAppend(nodes: seq<Node>, node: Node, repr: string)
    ensures CountOf(nodes + [node], repr) == CountOf(nodes, repr) + (if node.repr == repr then 1 else 0)
  {
    if nodes == [] {
      assert nodes + [node] == [node] && [node][1..] == [];
    } else {
      assert (nodes + [node])[1..] == nodes[1..] + [node];
      CountOfAppend(nodes[1..], node, repr);
    }
  }

  /** What `Without` removes and what it keeps. */
  lemma {:induction false} WithoutCounts(nodes: seq<Node>, repr: string, other: string)
    ensures |Without(nodes, repr)| == |nodes| - CountOf(nodes, repr)
    ensures CountOf(Without(nodes, repr), other) == if other == repr then 0 else CountOf(nodes, other)
    ensures CountOf(nodes, repr) == 0 ==> Without(nodes, repr) == nodes
  {
    if nodes != [] {
      WithoutCounts(nodes[1..], repr, other);
      var rest := Without(nodes[1..], repr);
      if nodes[0].repr != repr {
        assert ([nodes[0]] + rest)[1..] == rest;
      } else {
        assert [] + rest == rest;
      }
    }
  }

  lemma TwoNodes(a: Node, b: Node, repr: string)
    ensures CountOf([a, b], repr) == (if a.repr == repr then 1 else 0) + (if b.repr == repr then 1 else 0)
    ensures a.repr == repr && b.repr != repr ==> Without([a, b], repr) == [b]
  {
    assert [a, b][1..] == [b] && [b][1..] == [];
    assert CountOf([b], repr) == if b.repr == repr then 1 else 0;
  }

  lemma {:induction false} WithoutTwice(nodes: seq<Node>, repr: string)
    ensures Without(Without(nodes, repr), repr) == Without(nodes, repr)
  {
    WithoutCounts(nodes, repr, repr);
    WithoutCounts(Without(nodes, repr), repr, repr);
  }

  function Repeat(node: Node, k: nat): (r: seq<Node>)
    ensures |r| == k && forall j | 0 <= j < k :: r[j] == node
  {
    seq(k, _ => node)
  }

  lemma {:induction false} CountOfRepeat(nodes: seq<Node>, node: Node, k: nat, repr: string)
    ensures CountOf(nodes + Repeat(node, k), repr) == CountOf(nodes, repr) + (if node.repr == repr then k else 0)
  {
    if k == 0 {
      assert nodes + Repeat(node, k) == nodes;
    } else {
      CountOfRepeat(nodes, node, k - 1, repr);
      assert nodes + Repeat(node, k) == (nodes + Repeat(node, k - 1)) + [node];
      CountOfAppend(nodes + Repeat(node, k - 1), node, repr);
    }
  }

  // ---- The clockwise successor ----

  /** `p` is the first point at or after `h`, or the very first one when there is none. */
  ghost predicate IsSuccessor(points: set<nat>, h: nat, p: nat) {
    && p in points
    && (p >= h ==> forall q | q in points && q >= h :: p <= q)
    && (p < h ==> forall q | q in points :: q < h && p <= q)
  }

  lemma SuccessorUnique(points: set<nat>, h: nat, p: nat, q: nat)
    requires IsSuccessor(points, h, p) && IsSuccessor(points, h, q)
    ensures p == q
  {
  }

  /** The entry that `Get` picks at point `p` by the second hash of the key. */
  ghost predicate ServesAt(ring: Ring, p: nat, inner: nat, node: Node) {
    At(ring, p) != [] && node == At(ring, p)[inner % |At(ring, p)|]
  }

  /** No point of the ring is empty. */
  ghost predicate NoHoles(ring: Ring) {
    forall h | h in ring :: ring[h] != []
  }

  /** `ring'` is `ring` with every entry of one node taken out. */
  ghost predicate Removed(ring: Ring, ring': Ring, repr: string) {
    NoHoles(ring') && forall h :: At(ring', h) == Without(At(ring, h), repr)
  }

  /** `ring'` is `ring` with a node appended at some points. */
  ghost predicate Added(ring: Ring, ring': Ring, node: Node) {
    NoHoles(ring') && forall h :: AppendedAt(ring, ring', node, h)
  }

  ghost predicate AppendedAt(ring: Ring, ring': Ring, node: Node, h: nat) {
    && |At(ring, h)| <= |At(ring', h)| && At(ring', h)[..|At(ring, h)|] == At(ring, h)
    && forall j | |At(ring, h)| <= j < |At(ring', h)| :: At(ring', h)[j] == node
  }

  /** Removing a node disturbs only the keys whose point listed it, whatever the collisions. */
  lemma RemovalDisturbsFew(ring: Ring, ring': Ring, repr: string, h: nat, inner: nat, p: nat, node: Node)
    requires NoHoles(ring) && Removed(ring, ring', repr)
    requires IsSuccessor(ring.Keys, h, p) && ServesAt(ring, p, inner, node)
    requires CountOf(At(ring, p), repr) == 0
    ensures IsSuccessor(ring'.Keys, h, p) && ServesAt(ring', p, inner, node)
  {
    WithoutCounts(At(ring, p), repr, repr);
    assert At(ring', p) == At(ring, p);
    forall q | q in ring' ensures q in ring {
      assert At(ring', q) == Without(At(ring, q), repr);
    }
  }

  /** Without a collision at its point, a key moves only if the removed node owned it. */
  lemma RemovalMovesOnlyOwned(ring: Ring, ring': Ring, repr: string, h: nat, inner: nat, p: nat, node: Node)
    requires NoHoles(ring) && Removed(ring, ring', repr)
    requires IsSuccessor(ring.Keys, h, p) && ServesAt(ring, p, inner, node) && |At(ring, p)| == 1
    ensures node.repr == repr || (IsSuccessor(ring'.Keys, h, p) && ServesAt(ring', p, inner, node))
  {
    if node.repr != repr {
      assert At(ring, p) == [node] && [node][1..] == [];
      assert CountOf([node], repr) == 0;
      RemovalDisturbsFew(ring, ring', repr, h, inner, p, node);
    }
  }

  /** Adding a node disturbs only keys whose new point lists it; where that point lists nothing
      else, they go to the new node. */
  lemma AdditionDisturbsFew(ring: Ring, ring': Ring, node: Node, h: nat, inner: nat, p: nat, before: Node, p': nat)
    requires NoHoles(ring) && Added(ring, ring', node)
    requires IsSuccessor(ring.Keys, h, p) && ServesAt(ring, p, inner, before)
    requires IsSuccessor(ring'.Keys, h, p')
    ensures node in At(ring', p') || (p' == p && ServesAt(ring', p', inner, before))
    ensures |At(ring', p')| == 1 && !ServesAt(ring', p', inner, before) ==> ServesAt(ring', p', inner, node)
  {
    forall q | q in ring ensures q in ring' {
      assert AppendedAt(ring, ring', node, q);
    }
    assert AppendedAt(ring, ring', node, p');
    var n := |At(ring, p')|;
    if n < |At(ring', p')| {
      assert At(ring', p')[n] == node;
    } else {
      assert At(ring', p') == At(ring', p')[..n] == At(ring, p');
      assert p' in ring;
    }
  }

  // ---- What a lookup sees before and after ----

  /** The node that a lookup with these two hashes ends at. */
  ghost predicate Serves(ring: Ring, h: nat, inner: nat, node: Node) {
    exists p :: IsSuccessor(ring.Keys, h, p) && ServesAt(ring, p, inner, node)
  }

  lemma ServesOne(ring: Ring, h: nat, inner: nat, a: Node, b: Node)
    requires Serves(ring, h, inner, a) && Serves(ring, h, inner, b)
    ensures a == b
  {
    var p :| IsSuccessor(ring.Keys, h, p) && ServesAt(ring, p, inner, a);
    var q :| IsSuccessor(ring.Keys, h, q) && ServesAt(ring, q, inner, b);
    SuccessorUnique(ring.Keys, h, p, q);
  }

  /** No two replicas fall on the same point. */
  ghost predicate CollisionFree(ring: Ring) {
    forall h: nat :: |At(ring, h)| <= 1
  }

  /** Without collisions, a lookup that did not end at the removed node ends where it did. */
  lemma LookupSurvivesRemoval(ring: Ring, ring': Ring, repr: string, h: nat, inner: nat, node: Node)
    requires NoHoles(ring) && CollisionFree(ring) && Removed(ring, ring', repr)
    requires Serves(ring, h, inner, node) && node.repr != repr
    ensures Serves(ring', h, inner, node)
  {
    var p :| IsSuccessor(ring.Keys, h, p) && ServesAt(ring, p, inner, node);
    RemovalMovesOnlyOwned(ring, ring', repr, h, inner, p, node);
  }

  /** Without collisions, a lookup ends where it did or at the node that was added. */
  lemma LookupMovesToAdded(ring: Ring, ring': Ring, node: Node, h: nat, inner: nat, before: Node, after: Node)
    requires NoHoles(ring) && CollisionFree(ring') && Added(ring, ring', node)
    requires Serves(ring, h, inner, before) && Serves(ring', h, inner, after)
    ensures after == before || after == node
  {
    var p :| IsSuccessor(ring.Keys, h, p) && ServesAt(ring, p, inner, before);
    var q :| IsSuccessor(ring'.Keys, h, q) && ServesAt(ring', q, inner, after);
    assert |At(ring', q)| <= 1;
    AdditionDisturbsFew(ring, ring', node, h, inner, p, before, q);
  }
}

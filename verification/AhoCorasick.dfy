/** `core/stringx/node.go`: the mutable trie with failure links.

    The Go receiver of `add`, `build` and `find` is always the root node. Here it is held by
    a `Trie`, whose ghost `index` names every node by the string spelled on the way to it. */
module AhoCorasick {
  import opened GoMaps
  import opened WordMatching

  class Node {
    var children: map<char, Node>
    var fail: Node?
    var depth: int
    var end: bool
    ghost const path: string

    constructor (depth: int, ghost path: string)
      ensures children == map[] && fail == null && this.depth == depth && !end && this.path == path
    {
      children, fail, this.depth, end := map[], null, depth, false;
      this.path := path;
    }
  }

  /** `nd`, the node for `p`, has the right depth and exactly the children the index names. */
  ghost predicate Linked(nd: Node, p: string, index: map<string, Node>)
    reads nd`children, nd`depth
  {
    && nd.path == p && nd.depth == |p|
    && (forall c :: c in nd.children <==> p + [c] in index)
    && (forall c | c in nd.children :: p + [c] in index && nd.children[c] == index[p + [c]])
  }

  /** The failure link of `nd`, the node for `p`, leads to its longest proper suffix in the trie. */
  ghost predicate FailSet(nd: Node, p: string, index: map<string, Node>)
    requires "" in index
    reads nd`fail
  {
    p != "" ==> nd.fail == index[FailOf(index.Keys, p)]
  }

  ghost function Extensions(path: string, keys: seq<char>): (r: seq<string>)
    ensures |r| == |keys| && forall i | 0 <= i < |r| :: r[i] == path + [keys[i]]
  {
    seq(|keys|, i requires 0 <= i < |keys| => path + [keys[i]])
  }

  /** Queue order: depths do not decrease and span at most two levels. */
  ghost predicate ByDepth(queue: seq<string>) {
    forall i, j | 0 <= i < j < |queue| :: |queue[i]| <= |queue[j]| <= |queue[0]| + 1
  }

  lemma ByDepthStep(queue: seq<string>, kids: seq<string>)
    requires ByDepth(queue) && |queue| > 0
    requires forall k | k in kids :: |k| == |queue[0]| + 1
    ensures ByDepth(queue[1..] + kids)
  {
  }

  /** `expanded` are the nodes taken off the queue of `build`, and `queue` holds the rest of their
      children. */
  ghost predicate Explored(prefixes: set<string>, expanded: set<string>, queue: seq<string>) {
    && PrefixClosed(expanded) && expanded <= prefixes
    && (forall p | p in queue :: p in prefixes && p != "" && p !in expanded && Parent(p) in expanded)
    && (forall p {:trigger Parent(p)} | p in prefixes && p != "" && Parent(p) in expanded :: p in expanded || p in queue)
  }

  /** Progress of the breadth-first walk in `build` over the trie prefixes. */
  ghost predicate Frontier(prefixes: set<string>, expanded: set<string>, queue: seq<string>) {
    Explored(prefixes, expanded, queue) && NoDuplicates(queue) && ByDepth(queue)
  }

  /** Everything at most as deep as the head of the queue has its parent expanded already. */
  lemma {:induction false} FrontierLevel(prefixes: set<string>, expanded: set<string>, queue: seq<string>, p: string)
    requires PrefixClosed(prefixes) && Explored(prefixes, expanded, queue)
    requires p in prefixes && p != ""
    requires forall q | q in queue :: |p| <= |q|
    ensures Parent(p) in expanded
    decreases |p|
  {
    if Parent(p) != "" {
      FrontierLevel(prefixes, expanded, queue, Parent(p));
    }
  }

  ghost predicate ChildrenOf(prefixes: set<string>, p: string, kids: seq<string>) {
    && (forall q | q in kids :: q in prefixes && q != "" && Parent(q) == p)
    && NoDuplicates(kids)
    && (forall q {:trigger Parent(q)} | q in prefixes && q != "" && Parent(q) == p :: q in kids)
  }

  lemma ExploredStep(prefixes: set<string>, expanded: set<string>, head: string, rest: seq<string>, kids: seq<string>)
    requires Explored(prefixes, expanded, [head] + rest) && head !in rest && ChildrenOf(prefixes, head, kids)
    ensures Explored(prefixes, expanded + {head}, rest + kids)
    ensures forall p | p in rest :: p !in kids
  {
    assert head in [head] + rest;
    forall p | p in rest ensures p in [head] + rest && p !in kids {
      var k :| 0 <= k < |rest| && rest[k] == p;
      assert ([head] + rest)[k + 1] == p;
    }
    forall p ensures p in rest + kids <==> p in rest || p in kids {
      if p in kids {
        var k :| 0 <= k < |kids| && kids[k] == p;
        assert (rest + kids)[|rest| + k] == p;
      }
    }
  }

  /** Taking the head off the queue and appending its children keeps the frontier. */
  lemma FrontierStep(prefixes: set<string>, expanded: set<string>, queue: seq<string>, kids: seq<string>)
    requires PrefixClosed(prefixes) && Frontier(prefixes, expanded, queue)
    requires |queue| > 0 && ChildrenOf(prefixes, queue[0], kids)
    ensures Frontier(prefixes, expanded + {queue[0]}, queue[1..] + kids)
  {
    assert queue == [queue[0]] + queue[1..];
    ExploredStep(prefixes, expanded, queue[0], queue[1..], kids);
    ByDepthStep(queue, kids);
    NoDuplicatesAppend(queue[1..], kids);
  }

  lemma ExtensionsAreChildren(prefixes: set<string>, path: string, keys: seq<char>)
    requires forall c :: c in keys <==> path + [c] in prefixes
    requires NoDuplicates(keys)
    ensures ChildrenOf(prefixes, path, Extensions(path, keys))
  {
    var kids := Extensions(path, keys);
    forall i | 0 <= i < |kids|
      ensures kids[i] in prefixes && kids[i] != "" && Parent(kids[i]) == path && kids[i][|path|] == keys[i]
    {
      assert keys[i] in keys;
    }
    forall q {:trigger Parent(q)} | q in prefixes && q != "" && Parent(q) == path ensures q in kids {
      assert q == path + [q[|path|]];
      var i :| 0 <= i < |keys| && keys[i] == q[|path|];
      assert kids[i] == q;
    }
  }

  lemma InitialFrontier(prefixes: set<string>, keys: seq<char>)
    requires PrefixClosed(prefixes)
    requires forall c :: c in keys <==> "" + [c] in prefixes
    requires NoDuplicates(keys)
    ensures Frontier(prefixes, {""}, Extensions("", keys))
  {
    ExtensionsAreChildren(prefixes, "", keys);
  }

  /** Everything at most as deep as the head of the queue is expanded or queued. */
  lemma FrontierLinked(prefixes: set<string>, expanded: set<string>, queue: seq<string>, p: string)
    requires PrefixClosed(prefixes) && Frontier(prefixes, expanded, queue)
    requires p in prefixes && |queue| > 0 && |p| <= |queue[0]|
    ensures p in expanded || p in queue
  {
    if p != "" {
      FrontierLevel(prefixes, expanded, queue, p);
    }
  }

  predicate Shallow(p: string, depth: nat) {
    |p| <= depth
  }

  ghost predicate CoversLevel(prefixes: set<string>, linked: set<string>, depth: nat) {
    forall p {:trigger Shallow(p, depth)} | p in prefixes && Shallow(p, depth) :: p in linked
  }

  lemma FrontierCovers(prefixes: set<string>, expanded: set<string>, queue: seq<string>, linked: set<string>)
    requires PrefixClosed(prefixes) && Frontier(prefixes, expanded, queue) && |queue| > 0
    requires expanded <= linked && forall i | 0 <= i < |queue| :: queue[i] in linked
    ensures CoversLevel(prefixes, linked, |queue[0]|)
  {
    forall p {:trigger Shallow(p, |queue[0]|)} | p in prefixes && Shallow(p, |queue[0]|) ensures p in linked {
      FrontierLinked(prefixes, expanded, queue, p);
    }
  }

  /** When the queue runs empty, every node has been expanded. */
  lemma {:induction false} FrontierDone(prefixes: set<string>, expanded: set<string>, p: string)
    requires PrefixClosed(prefixes) && Frontier(prefixes, expanded, [])
    requires p in prefixes
    ensures p in expanded
    decreases |p|
  {
    if p != "" {
      FrontierDone(prefixes, expanded, Parent(p));
    }
  }

  class Trie {
    const root: Node
    ghost var index: map<string, Node>

    ghost predicate Shape()
      reads this, index.Values`children, index.Values`depth
    {
      && PrefixClosed(index.Keys)
      && index[""] == root
      && (forall p {:trigger Linked(index[p], p, index)} | p in index :: Linked(index[p], p, index))
    }

    ghost predicate Valid()
      reads this, index.Values
    {
      Shape() && root.fail == null && !root.end
    }

    /** The keywords: the strings spelled on the way to the nodes marked `end`. */
    ghost function Words(): (r: set<string>)
      reads this, index.Values`end
      ensures r <= index.Keys
    {
      set p | p in index && index[p].end
    }

    ghost predicate FailsSet(linked: set<string>)
      requires "" in index
      reads this, index.Values`fail
    {
      forall p | p in linked :: p in index && FailSet(index[p], p, index)
    }

    /** Every failure link leads to the longest proper suffix in the trie. */
    ghost predicate Built()
      reads this, index.Values`fail
    {
      "" in index && forall p {:trigger FailSet(index[p], p, index)} | p in index :: FailSet(index[p], p, index)
    }

    constructor ()
      ensures Valid() && Words() == {} && fresh(index.Values)
    {
      var node := new Node(0, "");
      root := node;
      index := map["" := node];
    }

    /** The branch of `add` that allocates a node for a missing rune. */
    method AddChild(nd: Node, c: char, ghost path: string) returns (child: Node)
      requires Valid()
      requires path in index && index[path] == nd && c !in nd.children
      modifies this, index.Values
      ensures Valid() && fresh(child) && index == old(index)[path + [c] := child]
      ensures Words() == old(Words())
    {
      child := new Node(nd.depth + 1, path + [c]);
      ghost var q := path + [c];
      assert Parent(q) == path;
      assert Linked(index[path], path, index);
      assert q !in index;
      nd.children := nd.children[c := child];
      index := index[q := child];
      assert Words() == old(Words()) by {
        forall p ensures p in Words() <==> p in old(Words()) {
          assert p in old(index) ==> index[p] == old(index[p]);
        }
      }
      forall p | p in index ensures Linked(index[p], p, index) {
        if p == q {
          forall d ensures q + [d] !in index {
            var r := q + [d];
            assert Parent(r) == q;
          }
        } else {
          assert old(Linked(index[p], p, index));
          forall d ensures p + [d] == q <==> p == path && d == c {
            assert (p + [d])[..|p|] == p && q[..|path|] == path;
          }
        }
      }
    }

    /** One round of the loop in `add`: the child for `c`, allocated when missing. */
    method Child(nd: Node, c: char, ghost path: string) returns (child: Node)
      requires Valid()
      requires path in index && index[path] == nd
      modifies this, index.Values
      ensures Valid() && fresh(index.Values - old(index.Values))
      ensures path + [c] in index && index[path + [c]] == child
      ensures Words() == old(Words())
    {
      assert Linked(nd, path, index);
      if c in nd.children {
        child := nd.children[c];
      } else {
        child := AddChild(nd, c, path);
      }
    }

    /** Adds one keyword; the empty word is ignored. */
    method Add(word: string)
      requires Valid()
      modifies this, index.Values
      ensures Valid() && fresh(index.Values - old(index.Values))
      ensures Words() == old(Words()) + (if word == "" then {} else {word})
    {
      if |word| == 0 {
        return;
      }
      var nd := root;
      for i := 0 to |word|
        invariant Valid() && fresh(index.Values - old(index.Values))
        invariant word[..i] in index && index[word[..i]] == nd
        invariant Words() == old(Words())
      {
        var c := word[i];
        assert word[..i + 1] == word[..i] + [c];
        nd := Child(nd, c, word[..i]);
      }
      assert word[..|word|] == word;
      MarkEnd(nd, word);
    }

    /** The last line of `add`. */
    method MarkEnd(nd: Node, ghost word: string)
      requires Valid() && word in index && index[word] == nd && word != ""
      modifies nd`end
      ensures Valid() && Words() == old(Words()) + {word}
    {
      assert Linked(nd, word, index) && Linked(root, "", index);
      nd.end := true;
      forall p | p in index ensures p in Words() <==> p in old(Words()) + {word} {
        assert Linked(index[p], p, index);
      }
    }

    /** The inner loop of `build`: where the failure link of `nd`'s child for `c` goes. */
    method FailTarget(nd: Node, c: char, ghost path: string, ghost linked: set<string>) returns (target: Node)
      requires Valid() && FailsSet(linked)
      requires path in index && path != "" && index[path] == nd
      requires CoversLevel(index.Keys, linked, |path|)
      ensures target == index[FailOf(index.Keys, path + [c])]
    {
      FailOfExtension(index.Keys, path, c);
      ghost var goal := FailOf(index.Keys, path + [c]);
      var cur := nd;
      ghost var q := path;
      assert Linked(root, "", index);
      while cur.fail != null
        invariant q in index && |q| <= |path| && cur == index[q]
        invariant goal == if q == "" then "" else Goto(index.Keys, FailOf(index.Keys, q), c)
        decreases |q|
      {
        assert Shallow(q, |path|);
        ghost var f := FailOf(index.Keys, q);
        assert Linked(index[f], f, index);
        if c in cur.fail.children {
          return cur.fail.children[c];
        }
        cur, q := cur.fail, f;
      }
      assert Shallow(q, |path|);
      target := root;
    }

    method SetFail(child: Node, target: Node, ghost q: string, ghost linked: set<string>)
      requires Valid() && FailsSet(linked) && q in index && q != "" && child == index[q]
      requires target == index[FailOf(index.Keys, q)]
      modifies child`fail
      ensures Valid() && FailsSet(linked + {q})
    {
      assert Linked(child, q, index) && Linked(root, "", index);
      child.fail := target;
      forall p | p in linked ensures FailSet(index[p], p, index) {
        assert Linked(index[p], p, index);
      }
    }

    /** The loop of `build` over the children of `nd`, in the order `keys`: sets their failure
        links and returns them for the queue. */
    method LinkChildren(nd: Node, keys: seq<char>, ghost path: string, ghost linked: set<string>)
      returns (kids: seq<Node>, ghost linked': set<string>)
      requires Valid() && FailsSet(linked)
      requires path in index && path != "" && index[path] == nd
      requires forall k | k in keys :: k in nd.children
      requires CoversLevel(index.Keys, linked, |path|)
      modifies index.Values`fail
      ensures Valid() && FailsSet(linked')
      ensures linked <= linked' && forall i | 0 <= i < |keys| :: Extensions(path, keys)[i] in linked'
      ensures |kids| == |keys| && forall i | 0 <= i < |kids| :: kids[i] == index[Extensions(path, keys)[i]]
    {
      var children := nd.children;
      linked' := linked;
      ghost var paths := Extensions(path, keys);
      assert forall i | 0 <= i < |keys| :: paths[i] in index && index[paths[i]] == children[keys[i]] by {
        assert Linked(nd, path, index);
      }
      kids := seq(|keys|, i requires 0 <= i < |keys| && keys[i] in children => children[keys[i]]);
      for i := 0 to |keys|
        invariant Valid() && FailsSet(linked')
        invariant linked <= linked' && forall j | 0 <= j < i :: paths[j] in linked'
      {
        var target := FailTarget(nd, keys[i], path, linked');
        SetFail(kids[i], target, paths[i], linked');
        linked' := linked' + {paths[i]};
      }
    }

    /** The first loop of `build`: the root's children fail to the root. */
    method LinkRootChildren(keys: seq<char>) returns (kids: seq<Node>, ghost linked: set<string>)
      requires Valid() && forall k | k in keys :: k in root.children
      modifies index.Values`fail
      ensures Valid() && FailsSet(linked) && "" in linked
      ensures forall i | 0 <= i < |keys| :: Extensions("", keys)[i] in linked
      ensures |kids| == |keys| && forall i | 0 <= i < |kids| :: kids[i] == index[Extensions("", keys)[i]]
    {
      var children := root.children;
      linked := {""};
      ghost var paths := Extensions("", keys);
      assert forall i | 0 <= i < |keys| :: paths[i] in index && index[paths[i]] == children[keys[i]] by {
        assert Linked(root, "", index);
      }
      kids := seq(|keys|, i requires 0 <= i < |keys| && keys[i] in children => children[keys[i]]);
      for i := 0 to |keys|
        invariant Valid() && FailsSet(linked) && "" in linked
        invariant forall j | 0 <= j < i :: paths[j] in linked
      {
        assert paths[i][1..] == "";
        SetFail(kids[i], root, paths[i], linked);
        linked := linked + {paths[i]};
      }
    }

    /** The loop invariant of `build`: `queue` names the nodes waiting in `nodes`, and `linked`
        covers everything expanded or waiting. */
    ghost predicate Walking(nodes: seq<Node>, queue: seq<string>, expanded: set<string>, linked: set<string>)
      requires "" in index
      reads this, index.Values`fail
    {
      && FailsSet(linked)
      && Frontier(index.Keys, expanded, queue)
      && expanded <= linked && (forall i | 0 <= i < |queue| :: queue[i] in linked)
      && |nodes| == |queue| && (forall i | 0 <= i < |nodes| :: nodes[i] == index[queue[i]])
    }

    method StartWalk() returns (nodes: seq<Node>, ghost queue: seq<string>, ghost linked: set<string>)
      requires Valid()
      modifies index.Values`fail
      ensures Valid() && Walking(nodes, queue, {""}, linked)
    {
      var keys := RangeOrder(root.children.Keys);
      nodes, linked := LinkRootChildren(keys);
      queue := Extensions("", keys);
      assert Frontier(index.Keys, {""}, queue) by {
        assert Linked(root, "", index);
        InitialFrontier(index.Keys, keys);
      }
    }

    /** One round of the queue loop. */
    method ExpandHead(nodes: seq<Node>, ghost queue: seq<string>, ghost expanded: set<string>,
                      ghost linked: set<string>)
      returns (nodes': seq<Node>, ghost queue': seq<string>, ghost linked': set<string>)
      requires Valid() && Walking(nodes, queue, expanded, linked) && |nodes| > 0
      modifies index.Values`fail
      ensures Valid() && Walking(nodes', queue', expanded + {queue[0]}, linked')
    {
      var nd := nodes[0];
      ghost var path := queue[0];
      var keys := RangeOrder(nd.children.Keys);
      assert CoversLevel(index.Keys, linked, |path|) by {
        FrontierCovers(index.Keys, expanded, queue, linked);
      }
      var kids;
      kids, linked' := LinkChildren(nd, keys, path, linked);
      ghost var paths := Extensions(path, keys);
      nodes', queue' := nodes[1..] + kids, queue[1..] + paths;
      assert Frontier(index.Keys, expanded + {path}, queue') by {
        assert Linked(nd, path, index);
        ExtensionsAreChildren(index.Keys, path, keys);
        FrontierStep(index.Keys, expanded, queue, paths);
      }
    }

    /** Sets every failure link, breadth first. */
    method Build()
      requires Valid()
      modifies index.Values`fail
      ensures Valid() && Built()
    {
      var nodes;
      ghost var queue, expanded, linked := [], {""}, {};
      nodes, queue, linked := StartWalk();
      while |nodes| > 0
        invariant Valid() && Walking(nodes, queue, expanded, linked)
        decreases |index.Keys - expanded|
      {
        ghost var before := expanded;
        expanded := expanded + {queue[0]};
        assert index.Keys - expanded < index.Keys - before;
        nodes, queue, linked := ExpandHead(nodes, queue, before, linked);
      }
      forall p | p in index ensures FailSet(index[p], p, index) {
        FrontierDone(index.Keys, expanded, p);
      }
    }

    /** One rune of `find`: from the node of the longest suffix to the next, along failure links.
        `child` is null when only the root is left. */
    method Advance(start: Node, c: char, ghost q: string) returns (cur: Node, child: Node?, ghost q': string)
      requires Valid() && Built()
      requires q in index && start == index[q]
      ensures q' == Goto(index.Keys, q, c) && cur == index[q']
      ensures if q' == "" then child == null else child == cur
    {
      cur, q' := start, q;
      while true
        invariant q' in index && cur == index[q'] && Goto(index.Keys, q', c) == Goto(index.Keys, q, c)
        decreases |q'|
      {
        assert Linked(cur, q', index) && Linked(root, "", index);
        if c in cur.children {
          child, q' := cur.children[c], q' + [c];
          cur := child;
          return;
        }
        if cur == root {
          child := null;
          return;
        }
        assert FailSet(cur, q', index);
        cur, q' := cur.fail, FailOf(index.Keys, q');
      }
    }

    /** The reporting loop of `find` along the failure chain. */
    method Collect(from: Node, stop: int, ghost q: string) returns (scopes: seq<Scope>)
      requires Valid() && Built()
      requires q in index && from == index[q]
      ensures scopes == ChainMatches(index.Keys, Words(), q, stop)
    {
      scopes := [];
      var child := from;
      ghost var p := q;
      assert Linked(root, "", index);
      assert Linked(child, p, index);
      while child != root
        invariant p in index && child == index[p] && Linked(child, p, index)
        invariant ChainMatches(index.Keys, Words(), q, stop) == scopes + ChainMatches(index.Keys, Words(), p, stop)
        decreases |p|
      {
        if child.end {
          scopes := scopes + [Scope(stop - child.depth, stop)];
        }
        assert FailSet(child, p, index);
        child, p := child.fail, FailOf(index.Keys, p);
        assert Linked(child, p, index);
      }
    }

    /** Finds every occurrence of every keyword in one pass over the text. */
    method Find(text: string) returns (scopes: seq<Scope>)
      requires Valid() && Built()
      ensures scopes == AllMatches(Words(), text)
    {
      scopes := [];
      var cur := root;
      ghost var q := "";
      for i := 0 to |text|
        invariant q == LongestSuffix(index.Keys, text[..i]) && cur == index[q]
        invariant scopes == MatchesUpTo(Words(), text, i)
      {
        GotoTracksLongestSuffix(index.Keys, text[..i], text[i]);
        assert text[..i + 1] == text[..i] + [text[i]] == text[0..i + 1];
        ChainIsNaive(index.Keys, Words(), text, 0, i + 1);
        var child;
        cur, child, q := Advance(cur, text[i], q);
        if child != null {
          var found := Collect(child, i + 1, q);
          scopes := scopes + found;
        }
      }
    }
  }

  /** Adds all words and builds the failure links, as `NewTrie` and `NewReplacer` do. */
  method NewAutomaton(words: seq<string>) returns (trie: Trie)
    ensures fresh(trie) && trie.Valid() && trie.Built() && fresh(trie.index.Values)
    ensures trie.Words() == set w | w in words && w != ""
  {
    trie := new Trie();
    for i := 0 to |words|
      invariant fresh(trie) && trie.Valid() && fresh(trie.index.Values)
      invariant trie.Words() == set w | w in words[..i] && w != ""
    {
      trie.Add(words[i]);
      assert words[..i + 1] == words[..i] + [words[i]];
    }
    assert words[..|words|] == words;
    trie.Build();
  }
}

/** `core/search/tree.go`: the route tree, updated in place by `Add` and searched with backtracking. */
module SearchTrees {
  import opened Options
  import opened GoMaps
  import opened Routes

  /** What routes lead to; Go's nil item is `None`. */
  type Item = int

  datatype AddError = Ok | NotFromRoot | EmptyItem | DupItem | DupSlash

  class Node {
    var item: Option<Item>
    var literals: map<string, Node>
    var params: map<string, Node>
    ghost const path: Route

    constructor (item: Option<Item>, ghost path: Route)
      ensures this.item == item && literals == map[] && params == map[] && this.path == path
    {
      this.item, literals, params, this.path := item, map[], map[], path;
    }
  }

  type Index = map<Route, Node>

  /** `nd`, the node at `p`, has exactly the children the index names, each on its proper side. */
  ghost predicate Linked(nd: Node, p: Route, index: Index)
    reads nd`literals, nd`params
  {
    && nd.path == p
    && (forall k :: k in nd.literals <==> p + [k] in index && !IsParam(k))
    && (forall k :: k in nd.params <==> p + [k] in index && IsParam(k))
    && (forall k | k in nd.literals :: nd.literals[k] == index[p + [k]])
    && (forall k | k in nd.params :: nd.params[k] == index[p + [k]])
  }

  function Parent(p: Route): (r: Route)
    requires p != []
  {
    p[..|p| - 1]
  }

  ghost predicate PathsClosed(paths: set<Route>) {
    && [] in paths
    && (forall p {:trigger Parent(p)} | p in paths && p != [] :: Parent(p) in paths)
    && (forall p | p in paths :: "" !in p)
  }

  /** `Result`, filled in place by the search. */
  class SearchResult {
    var item: Option<Item>
    var params: map<string, string>

    constructor ()
      ensures item == None && params == map[]
    {
      item, params := None, map[];
    }
  }

  /** Below `path`, the route `r` is in the table and matches the segments. */
  ghost predicate Candidate(table: map<Route, Item>, path: Route, r: Route, segments: seq<string>) {
    path + r in table && Matches(r, segments)
  }

  /** And no other such route comes before it. */
  ghost predicate Best(table: map<Route, Item>, path: Route, r: Route, segments: seq<string>) {
    && Candidate(table, path, r, segments)
    && forall s {:trigger Candidate(table, path, s, segments)} | Candidate(table, path, s, segments) :: !Before(s, r)
  }

  /** No route below `path` starting with token `k` is a candidate. */
  ghost predicate NoneVia(table: map<Route, Item>, path: Route, k: string, segments: seq<string>) {
    forall s {:trigger Candidate(table, path, s, segments)} | s != [] && s[0] == k :: !Candidate(table, path, s, segments)
  }

  /** `r` is the best candidate among those that start with its own first token. */
  ghost predicate BestVia(table: map<Route, Item>, path: Route, r: Route, segments: seq<string>) {
    && Candidate(table, path, r, segments) && r != []
    && forall s {:trigger Candidate(table, path, s, segments)} |
         Candidate(table, path, s, segments) && s != [] && s[0] == r[0] :: !Before(s, r)
  }

  /** Candidates through child `k` are the candidates below it, if `k` accepts the segment. */
  lemma CandidateVia(table: map<Route, Item>, path: Route, k: string, s: Route, token: string, rest: seq<string>)
    ensures Candidate(table, path, [k] + s, [token] + rest)
            <==> Accepts(k, token) && Candidate(table, path + [k], s, rest)
  {
    MatchesStep(k, s, token, rest);
    assert path + ([k] + s) == path + [k] + s;
  }

  lemma NoneViaChild(table: map<Route, Item>, path: Route, k: string, token: string, rest: seq<string>)
    requires !Accepts(k, token) || forall s :: !Candidate(table, path + [k], s, rest)
    ensures NoneVia(table, path, k, [token] + rest)
  {
    forall s | s != [] && s[0] == k ensures !Candidate(table, path, s, [token] + rest) {
      assert s == [k] + s[1..];
      CandidateVia(table, path, k, s[1..], token, rest);
    }
  }

  lemma BestViaChild(table: map<Route, Item>, path: Route, k: string, r: Route, token: string, rest: seq<string>)
    requires Accepts(k, token) && Best(table, path + [k], r, rest)
    ensures BestVia(table, path, [k] + r, [token] + rest)
  {
    CandidateVia(table, path, k, r, token, rest);
    forall s | Candidate(table, path, s, [token] + rest) && s != [] && s[0] == k ensures !Before(s, [k] + r) {
      assert s == [k] + s[1..] && ([k] + r)[1..] == r;
      CandidateVia(table, path, k, s[1..], token, rest);
    }
  }

  class Tree {
    const root: Node
    ghost var index: Index

    ghost predicate Valid()
      reads this, index.Values`literals, index.Values`params
    {
      && PathsClosed(index.Keys)
      && index[[]] == root
      && (forall p {:trigger Linked(index[p], p, index)} | p in index :: Linked(index[p], p, index))
    }

    /** The routes added so far, with their items. */
    ghost function Table(): (r: map<Route, Item>)
      reads this, index.Values`item
    {
      map p | p in index && index[p].item.Some? :: index[p].item.value
    }

    /** No route in the table has an empty token. */
    lemma TableHasNoEmpty()
      requires Valid()
      ensures forall r | r in Table() :: "" !in r
    {
    }

    constructor ()
      ensures Valid() && Table() == map[] && fresh(index.Values)
    {
      var node := new Node(None, []);
      root := node;
      index := map[[] := node];
    }

    method Attach(nd: Node, token: string, child: Node)
      modifies nd`literals, nd`params
      ensures nd.literals == if IsParam(token) then old(nd.literals) else old(nd.literals)[token := child]
      ensures nd.params == if IsParam(token) then old(nd.params)[token := child] else old(nd.params)
    {
      if IsParam(token) {
        nd.params := nd.params[token := child];
      } else {
        nd.literals := nd.literals[token := child];
      }
    }

    /** Allocates a child without an item. */
    method AddChild(nd: Node, token: string, ghost path: Route) returns (child: Node)
      requires Valid() && path in index && index[path] == nd && token != "" && path + [token] !in index
      modifies this, nd`literals, nd`params
      ensures Valid() && fresh(child) && index == old(index)[path + [token] := child]
      ensures child.item == None
    {
      ghost var q := path + [token];
      child := new Node(None, q);
      assert Linked(nd, path, index);
      Attach(nd, token, child);
      index := index[q := child];
      assert PathsClosed(index.Keys) by {
        PathsClosedExtend(old(index).Keys, path, token);
        assert index.Keys == old(index).Keys + {q};
      }
      forall p | p in index ensures Linked(index[p], p, index) {
        if p == q {
          forall k ensures q + [k] !in index {
            assert Parent(q + [k]) == q;
          }
        } else {
          assert old(Linked(index[p], p, index));
          ExtensionOf(path, token, p);
        }
      }
    }

    /** The child for a token, allocated when missing. */
    method Child(nd: Node, token: string, ghost path: Route) returns (child: Node)
      requires Valid() && path in index && index[path] == nd && token != ""
      modifies this, index.Values`literals, index.Values`params
      ensures Valid() && fresh(index.Values - old(index.Values))
      ensures path + [token] in index && child == index[path + [token]] && Table() == old(Table())
    {
      var children := if IsParam(token) then nd.params else nd.literals;
      assert Linked(nd, path, index);
      if token in children {
        child := children[token];
      } else {
        child := AddChild(nd, token, path);
        forall p | p in index ensures p in Table() <==> p in old(Table()) {
          assert p in old(index) ==> index[p] == old(index[p]);
        }
      }
    }

    method SetItem(nd: Node, item: Item, ghost path: Route)
      requires Valid() && path in index && index[path] == nd
      modifies nd`item
      ensures Valid() && Table() == old(Table())[path := item]
    {
      assert Linked(nd, path, index);
      nd.item := Some(item);
      forall p | p in index ensures p in Table() <==> p in old(Table())[path := item] {
        assert Linked(index[p], p, index);
      }
      forall p | p in Table() ensures Table()[p] == old(Table())[path := item][p] {
        assert Linked(index[p], p, index);
      }
    }

    /** `add` below a node: walks or creates the nodes of the route and sets the item at its end. */
    method AddAt(nd: Node, route: string, item: Item, ghost path: Route) returns (err: AddError)
      requires Valid() && path in index && index[path] == nd
      modifies this, index.Values
      ensures Valid() && fresh(index.Values - old(index.Values))
      ensures ParseRoute(route).DuplicatedSlash? ==> err == DupSlash && Table() == old(Table())
      ensures ParseRoute(route).Parsed? ==>
                var p := path + ParseRoute(route).route;
                if p in old(Table()) then err == DupItem && Table() == old(Table())
                else err == Ok && Table() == old(Table())[p := item]
      decreases |route|
    {
      if |route| == 0 {
        assert path + [] == path;
        err := PutItem(nd, item, path);
        return;
      }
      if route[0] == SLASH {
        return DupSlash;
      }
      var i := FirstSlash(route);
      var token := route[..i];
      if i < |route| {
        var child := Child(nd, token, path);
        err := AddAt(child, route[i + 1..], item, path + [token]);
        if ParseRoute(route[i + 1..]).Parsed? {
          ghost var rest := ParseRoute(route[i + 1..]).route;
          assert path + [token] + rest == path + ([token] + rest);
        }
      } else {
        assert token == route;
        var child := Child(nd, token, path);
        err := PutItem(child, item, path + [token]);
      }
    }

    method PutItem(nd: Node, item: Item, ghost path: Route) returns (err: AddError)
      requires Valid() && path in index && index[path] == nd
      modifies nd`item
      ensures Valid()
      ensures if path in old(Table()) then err == DupItem && Table() == old(Table())
              else err == Ok && Table() == old(Table())[path := item]
    {
      if nd.item.Some? {
        return DupItem;
      }
      SetItem(nd, item, path);
      err := Ok;
    }

    method Add(route: string, item: Option<Item>) returns (err: AddError)
      requires Valid()
      modifies this, index.Values
      ensures Valid() && fresh(index.Values - old(index.Values))
      ensures err != Ok ==> Table() == old(Table())
      ensures err == NotFromRoot <==> route == "" || route[0] != SLASH
      ensures route != "" && route[0] == SLASH ==>
                && (err == EmptyItem <==> item == None)
                && (err == DupSlash <==> item.Some? && ParseRoute(route[1..]) == DuplicatedSlash)
                && (err == DupItem <==> item.Some? && ParseRoute(route[1..]).Parsed?
                                        && ParseRoute(route[1..]).route in old(Table()))
                && (err == Ok ==> ParseRoute(route[1..]).Parsed? && ParseRoute(route[1..]).route !in old(Table())
                                  && Table() == old(Table())[ParseRoute(route[1..]).route := item.value])
    {
      if |route| == 0 || route[0] != SLASH {
        return NotFromRoot;
      }
      if item == None {
        return EmptyItem;
      }
      err := AddAt(root, route[1..], item.value, []);
      if ParseRoute(route[1..]).Parsed? {
        assert [] + ParseRoute(route[1..]).route == ParseRoute(route[1..]).route;
      }
    }

    /** The segments after the first, of a path whose first slash ends `token`, if it has one. */
    ghost function RestOf(rest: Option<string>): (r: seq<string>) {
      if rest.Some? then Segments(rest.value) else []
    }

    /** What a search below `path` that came back with `ok` has found and stored. */
    ghost predicate Stored(path: Route, r: Route, segments: seq<string>, result: SearchResult)
      reads this, index.Values`item, result
    {
      && path + r in Table() && |r| <= |segments|
      && result.item == Some(Table()[path + r]) && result.params == Bind(r, segments)
    }

    /** The callback of `forEach` for one child. */
    method TryChild(k: string, v: Node, token: string, rest: Option<string>, result: SearchResult, ghost path: Route)
      returns (ok: bool, ghost r: Route)
      requires Valid() && path in index && path + [k] in index && v == index[path + [k]]
      requires result.item == None && result.params == map[]
      modifies result
      ensures !ok ==> result.item == None && result.params == map[] && NoneVia(Table(), path, k, [token] + RestOf(rest))
      ensures ok ==> BestVia(Table(), path, r, [token] + RestOf(rest)) && r[0] == k
      ensures ok ==> Stored(path, r, [token] + RestOf(rest), result)
      decreases if rest.Some? then |rest.value| + 1 else 0, 1
    {
      ok, r := false, [];
      assert k in path + [k] && "" !in path + [k];
      if k[0] != COLON && k != token {
        NoneViaChild(Table(), path, k, token, RestOf(rest));
        return;
      }
      ok, r := Below(v, rest, result, path + [k]);
      if ok {
        BestViaChild(Table(), path, k, r, token, RestOf(rest));
        AddParam(k, token, result, path, r, RestOf(rest));
        r := [k] + r;
      } else {
        NoneViaChild(Table(), path, k, token, RestOf(rest));
      }
    }

    /** On the way back, a parameter is stored with its segment. */
    method AddParam(k: string, token: string, result: SearchResult, ghost path: Route, ghost r: Route,
                    ghost rest: seq<string>)
      requires k != "" && Stored(path + [k], r, rest, result)
      modifies result`params
      ensures Stored(path, [k] + r, [token] + rest, result)
    {
      ghost var found := [k] + r;
      assert found[1..] == r && ([token] + rest)[1..] == rest && path + found == path + [k] + r;
      if k[0] == COLON {
        result.params := result.params[k[1..] := token];
      }
    }

    /** What follows the token of a child: the search goes on, or ends at the child's item. */
    method Below(v: Node, rest: Option<string>, result: SearchResult, ghost path: Route)
      returns (ok: bool, ghost r: Route)
      requires Valid() && path in index && v == index[path]
      requires result.item == None && result.params == map[]
      modifies result
      ensures !ok ==> result.item == None && result.params == map[]
      ensures !ok ==> forall s :: !Candidate(Table(), path, s, RestOf(rest))
      ensures ok ==> Best(Table(), path, r, RestOf(rest)) && Stored(path, r, RestOf(rest), result)
      decreases if rest.Some? then |rest.value| + 1 else 0, 0
    {
      if rest.Some? {
        ok, r := Next(v, rest.value, result, path);
      } else {
        ok, r := v.item.Some?, [];
        assert path + [] == path;
        if ok {
          result.item := v.item;
        }
      }
    }

    /** `forEach` over one of the two child maps, in any order. */
    method TryEach(children: map<string, Node>, token: string, rest: Option<string>, result: SearchResult,
                   ghost path: Route)
      returns (ok: bool, ghost r: Route)
      requires Valid() && path in index
      requires forall k | k in children :: path + [k] in index && children[k] == index[path + [k]]
      requires result.item == None && result.params == map[]
      modifies result
      ensures !ok ==> result.item == None && result.params == map[]
      ensures !ok ==> forall k | k in children :: NoneVia(Table(), path, k, [token] + RestOf(rest))
      ensures ok ==> BestVia(Table(), path, r, [token] + RestOf(rest)) && r[0] in children
      ensures ok ==> Stored(path, r, [token] + RestOf(rest), result)
      decreases if rest.Some? then |rest.value| + 1 else 0, 2
    {
      var order := RangeOrder(children.Keys);
      ok, r := false, [];
      for j := 0 to |order|
        invariant result.item == None && result.params == map[]
        invariant forall l | 0 <= l < j :: NoneVia(Table(), path, order[l], [token] + RestOf(rest))
      {
        ok, r := TryChild(order[j], children[order[j]], token, rest, result, path);
        if ok {
          return;
        }
      }
      ok := false;
    }

    /** The backtracking search below a node. */
    method Next(n: Node, route: string, result: SearchResult, ghost path: Route) returns (ok: bool, ghost r: Route)
      requires Valid() && path in index && n == index[path]
      requires result.item == None && result.params == map[]
      modifies result
      ensures !ok ==> result.item == None && result.params == map[]
      ensures !ok ==> forall s :: !Candidate(Table(), path, s, Segments(route))
      ensures ok ==> Best(Table(), path, r, Segments(route)) && Stored(path, r, Segments(route), result)
      decreases |route|, 3
    {
      assert path + [] == path;
      if |route| == 0 && n.item.Some? {
        result.item := n.item;
        ok, r := true, [];
        assert Segments(route) == [""];
        return;
      }
      var i := FirstSlash(route);
      var token := route[..i];
      var rest := if i < |route| then Some(route[i + 1..]) else None;
      assert i == |route| ==> token == route && [token] + [] == [token];
      assert Segments(route) == [token] + RestOf(rest);
      assert Linked(n, path, index);
      ok, r := TryEach(n.literals, token, rest, result, path);
      if !ok {
        ok, r := TryEach(n.params, token, rest, result, path);
      }
      forall s | Candidate(Table(), path, s, Segments(route))
        ensures s != [] && (s[0] in n.literals || s[0] in n.params)
      {
        CandidateStart(path, s, Segments(route));
      }
    }

    lemma CandidateStart(path: Route, s: Route, segments: seq<string>)
      requires Valid() && path in index && Candidate(Table(), path, s, segments)
      ensures s != [] ==> path + [s[0]] in index
    {
      if s != [] {
        PrefixIn(index.Keys, path + s, |path| + 1);
        assert (path + s)[..|path| + 1] == path + [s[0]];
      }
    }

    /** Succeeds exactly if some added route matches; then the route is a preferred one, the item is
        its item and the parameters are those it binds. */
    method Search(route: string) returns (result: SearchResult, ok: bool, ghost r: Route)
      requires Valid()
      ensures fresh(result)
      ensures ok <==> route != "" && route[0] == SLASH && exists s :: s in Table() && Matches(s, Segments(route[1..]))
      ensures !ok ==> result.item == None && result.params == map[]
      ensures ok ==> && r in Table() && Matches(r, Segments(route[1..]))
                     && (forall s | s in Table() && Matches(s, Segments(route[1..])) :: !Before(s, r))
                     && result.item == Some(Table()[r]) && result.params == Bind(r, Segments(route[1..]))
    {
      result := new SearchResult();
      r := [];
      if |route| == 0 || route[0] != SLASH {
        return result, false, [];
      }
      ok, r := Next(root, route[1..], result, []);
      forall s: Route ensures [] + s == s {}
      assert forall s ::
          s in Table() && Matches(s, Segments(route[1..])) <==> Candidate(Table(), [], s, Segments(route[1..]));
    }
  }

  lemma {:induction false} PrefixIn(paths: set<Route>, p: Route, n: nat)
    requires PathsClosed(paths) && p in paths && n <= |p|
    ensures p[..n] in paths
    decreases |p|
  {
    if n == |p| {
      assert p[..n] == p;
    } else {
      PrefixIn(paths, Parent(p), n);
      assert Parent(p)[..n] == p[..n];
    }
  }

  lemma PathsClosedExtend(paths: set<Route>, path: Route, token: string)
    requires PathsClosed(paths) && path in paths && token != ""
    ensures PathsClosed(paths + {path + [token]})
  {
    assert Parent(path + [token]) == path;
  }

  lemma ExtensionOf(path: Route, token: string, p: Route)
    ensures forall k :: p + [k] == path + [token] <==> p == path && k == token
  {
    forall k ensures p + [k] == path + [token] <==> p == path && k == token {
      assert (p + [k])[..|p|] == p && (path + [token])[..|path|] == path;
      assert (p + [k])[|p|] == k && (path + [token])[|path|] == token;
    }
  }

  // ---- From Add to Search ----

  lemma ParsedHasNoEmpty(s: string)
    requires ParseRoute(s).Parsed?
    ensures "" !in ParseRoute(s).route
  {
  }

  /** A pattern without parameters that was added is found under its own text, whatever else is in
      the tree. */
  method AddThenSearch(t: Tree, route: string, item: Item) returns (err: AddError, result: SearchResult, ok: bool)
    requires t.Valid()
    modifies t, t.index.Values
    ensures err == Ok ==> route != ""
    ensures err == Ok && route != "" && Plain(route[1..]) ==> ok && result.item == Some(item) && result.params == map[]
  {
    err := t.Add(route, Some(item));
    ghost var r;
    result, ok, r := t.Search(route);
    if err == Ok && Plain(route[1..]) {
      ghost var parsed := ParseRoute(route[1..]).route;
      PlainIsLiteral(route[1..]);
      LiteralMatchesItself(route[1..]);
      assert parsed in t.Table() && Matches(parsed, Segments(route[1..]));
      assert ok && r in t.Table();
      ParsedHasNoEmpty(route[1..]);
      t.TableHasNoEmpty();
      if r != parsed {
        LiteralComesFirst(parsed, r, Segments(route[1..]));
      }
      LiteralBindsNothing(parsed, Segments(route[1..]));
    }
  }

  lemma {:induction false} LiteralBindsNothing(route: Route, path: seq<string>)
    requires Literal(route) && |route| <= |path|
    ensures Bind(route, path) == map[]
  {
    if route != [] {
      assert route[0] in route;
      LiteralBindsNothing(route[1..], path[1..]);
    }
  }

  /** A parameter stands for any one segment, the empty one included, and binds it. */
  method ParamBindsSegment(name: string, segment: string, item: Item) returns (result: SearchResult, ok: bool)
    requires SLASH !in name && SLASH !in segment
    ensures ok && result.item == Some(item) && result.params == map[name := segment]
  {
    var t := new Tree();
    var pattern, path := [SLASH, COLON] + name, [SLASH] + segment;
    var err := t.Add(pattern, Some(item));
    ghost var r;
    result, ok, r := t.Search(path);
    OneSegment([COLON] + name);
    OneSegment(segment);
    assert pattern[1..] == [COLON] + name && path[1..] == segment;
    var route := [[COLON] + name];
    assert t.Table() == map[route := item];
    assert Matches(route, [segment]);
    assert r == route && Bind(route[1..], [segment][1..]) == map[] && ([COLON] + name)[1..] == name;
  }

  /** A text without a slash is one segment. */
  lemma OneSegment(s: string)
    requires SLASH !in s
    ensures Segments(s) == [s] && (s != "" ==> ParseRoute(s) == Parsed([s]))
  {
    assert s[..|s|] == s;
    FirstSlashAfter(s, |s|);
  }
}

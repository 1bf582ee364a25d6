/** What a routing table means (`core/search/tree.go`): routes and paths as lists of segments, when a
    route matches a path, which of several matching routes is preferred, and what it binds. */
module Routes {

  const SLASH := '/'
  const COLON := ':'

  type Route = seq<string>

  /** The first slash at or after `from`, or the length of the text. */
  function FirstSlash(s: string, from: nat := 0): (i: nat)
    requires from <= |s|
    ensures from <= i <= |s| && SLASH !in s[from..i] && (i < |s| ==> s[i] == SLASH)
    decreases |s| - from
  {
    if from == |s| || s[from] == SLASH then from
    else
      var i := FirstSlash(s, from + 1);
      assert s[from..i] == [s[from]] + s[from + 1..i];
      i
  }

  /** A path split at every slash; never empty. */
  function Segments(s: string): (r: seq<string>)
    ensures |r| > 0
    decreases |s|
  {
    var i := FirstSlash(s);
    if i == |s| then [s] else [s[..i]] + Segments(s[i + 1..])
  }

  datatype Parsed = Parsed(route: Route) | DuplicatedSlash

  /** A route pattern, without its leading slash: no segment may be empty, except that a final slash
      is ignored. */
  function ParseRoute(s: string): (r: Parsed)
    ensures r.Parsed? ==> forall k | k in r.route :: k != ""
    decreases |s|
  {
    if s == "" then Parsed([])
    else if s[0] == SLASH then DuplicatedSlash
    else
      var i := FirstSlash(s);
      if i == |s| then Parsed([s])
      else match ParseRoute(s[i + 1..])
        case DuplicatedSlash => DuplicatedSlash
        case Parsed(rest) => Parsed([s[..i]] + rest)
  }

  predicate IsParam(token: string) {
    token != "" && token[0] == COLON
  }

  /** A literal accepts itself, a parameter anything, even the empty segment. */
  predicate Accepts(token: string, segment: string) {
    IsParam(token) || token == segment
  }

  /** A route matches a path of as many segments, or of one more if that last one is empty. */
  predicate Matches(route: Route, path: seq<string>) {
    && (|route| == |path| || (|route| == |path| - 1 && path[|route|] == ""))
    && forall i | 0 <= i < |route| :: Accepts(route[i], path[i])
  }

  lemma MatchesStep(token: string, route: Route, segment: string, path: seq<string>)
    ensures Matches([token] + route, [segment] + path) <==> Accepts(token, segment) && Matches(route, path)
  {
    var r, p := [token] + route, [segment] + path;
    assert r[0] == token && p[0] == segment;
    assert forall i | 0 <= i < |route| :: r[i + 1] == route[i];
    assert forall i | 0 <= i < |path| :: p[i + 1] == path[i];
    if Matches(r, p) {
      forall i | 0 <= i < |route| ensures Accepts(route[i], path[i]) {
        assert Accepts(r[i + 1], p[i + 1]);
      }
    } else if Accepts(token, segment) && Matches(route, path) {
      forall i | 0 <= i < |r| ensures Accepts(r[i], p[i]) {
        assert i > 0 ==> Accepts(route[i - 1], path[i - 1]);
      }
      assert false;
    }
  }

  /** Preference among matching routes: where they part, the one that ends there or has a literal
      comes before the one with a parameter. */
  predicate Before(a: Route, b: Route) {
    if b == [] then false
    else if a == [] then true
    else if a[0] == b[0] then Before(a[1..], b[1..])
    else !IsParam(a[0]) && IsParam(b[0])
  }

  /** The parameters a route binds; of equal names the leftmost wins. */
  function Bind(route: Route, path: seq<string>): (r: map<string, string>)
    requires |route| <= |path|
  {
    if route == [] then map[]
    else
      var rest := Bind(route[1..], path[1..]);
      if IsParam(route[0]) then rest[route[0][1..] := path[0]] else rest
  }

  /** A name is bound to the segment at its leftmost occurrence in the route. */
  lemma {:induction false} BindIsLeftmost(route: Route, path: seq<string>, i: nat)
    requires |route| <= |path| && i < |route| && IsParam(route[i])
    requires forall j | 0 <= j < i :: IsParam(route[j]) ==> route[j][1..] != route[i][1..]
    ensures route[i][1..] in Bind(route, path) && Bind(route, path)[route[i][1..]] == path[i]
  {
    if i > 0 {
      assert route[1..][i - 1] == route[i] && path[1..][i - 1] == path[i];
      assert forall j | 0 <= j < i - 1 :: route[1..][j] == route[j + 1];
      BindIsLeftmost(route[1..], path[1..], i - 1);
    }
  }

  /** And nothing else is bound. */
  lemma {:induction false} BindOnlyNames(route: Route, path: seq<string>, name: string)
    requires |route| <= |path| && name in Bind(route, path)
    ensures exists i :: 0 <= i < |route| && IsParam(route[i]) && route[i][1..] == name
  {
    if IsParam(route[0]) && route[0][1..] == name {
    } else {
      BindOnlyNames(route[1..], path[1..], name);
      var i :| 0 <= i < |route[1..]| && IsParam(route[1..][i]) && route[1..][i][1..] == name;
      assert route[i + 1] == route[1..][i];
    }
  }

  // ---- What the two ways of splitting mean ----

  /** The segments with a slash between each two. */
  function Joined(segments: seq<string>): (s: string) {
    if segments == [] then ""
    else if |segments| == 1 then segments[0]
    else segments[0] + [SLASH] + Joined(segments[1..])
  }

  ghost predicate SlashFree(segments: seq<string>) {
    forall k | k in segments :: SLASH !in k
  }

  lemma JoinedPrepend(token: string, rest: seq<string>)
    requires rest != []
    ensures Joined([token] + rest) == token + [SLASH] + Joined(rest)
  {
    assert ([token] + rest)[1..] == rest;
  }

  lemma SplitAt(s: string, i: nat)
    requires i < |s| && s[i] == SLASH
    ensures s == s[..i] + [SLASH] + s[i + 1..]
  {
  }

  lemma SlashFreePrepend(token: string, rest: seq<string>)
    requires SLASH !in token && SlashFree(rest)
    ensures SlashFree([token] + rest)
  {
  }

  /** A path is its segments joined, and no segment contains a slash. */
  lemma {:induction false} SegmentsSpell(s: string)
    ensures Joined(Segments(s)) == s && SlashFree(Segments(s))
    decreases |s|
  {
    var i := FirstSlash(s);
    assert s[..i] == s[0..i];
    if i < |s| {
      var rest := Segments(s[i + 1..]);
      SegmentsSpell(s[i + 1..]);
      JoinedPrepend(s[..i], rest);
      SplitAt(s, i);
      SlashFreePrepend(s[..i], rest);
    } else {
      assert s[0..i] == s;
    }
  }

  /** And there is only one way to split it so. */
  lemma {:induction false} SegmentsUnique(segments: seq<string>)
    requires segments != [] && SlashFree(segments)
    ensures Segments(Joined(segments)) == segments
  {
    var head, rest, s := segments[0], segments[1..], Joined(segments);
    assert segments == [head] + rest && head in segments;
    if rest == [] {
      FirstSlashAfter(s, |s|);
      assert s[..|s|] == s;
    } else {
      FirstSlashAfter(s, |head|);
      assert s[|head| + 1..] == Joined(rest) && s[..|head|] == head;
      SegmentsUnique(rest);
    }
  }

  lemma FirstSlashAfter(s: string, i: nat)
    requires i <= |s| && SLASH !in s[..i] && (i < |s| ==> s[i] == SLASH)
    ensures FirstSlash(s) == i
  {
    var j := FirstSlash(s);
    assert forall l | 0 <= l < i :: s[..i][l] == s[l];
    assert forall l | 0 <= l < j :: s[0..j][l] == s[l];
  }

  /** A slash at the start or right after another one. */
  ghost predicate HasEmptySegment(s: string) {
    exists i :: SlashAt(s, i)
  }

  ghost predicate SlashAt(s: string, i: int) {
    0 <= i < |s| && s[i] == SLASH && (i == 0 || s[i - 1] == SLASH)
  }

  /** An empty segment of a text lies before its first slash, which it then starts with, or after. */
  lemma EmptySegmentAfter(s: string)
    requires s != "" && s[0] != SLASH
    ensures var i := FirstSlash(s);
            HasEmptySegment(s) <==> i < |s| && HasEmptySegment(s[i + 1..])
  {
    var i := FirstSlash(s);
    assert i > 0 && forall l | 0 <= l < i :: s[0..i][l] == s[l];
    if HasEmptySegment(s) {
      var j :| SlashAt(s, j);
      assert j > i;
      assert SlashAt(s[i + 1..], j - i - 1);
    }
    if i < |s| && HasEmptySegment(s[i + 1..]) {
      var j :| SlashAt(s[i + 1..], j);
      assert SlashAt(s, j + i + 1);
    }
  }

  /** A pattern is refused exactly for a leading or double slash; otherwise it is its tokens joined,
      up to one final slash, and no token contains a slash. */
  lemma {:induction false} ParseRouteSpells(s: string)
    ensures ParseRoute(s).DuplicatedSlash? <==> HasEmptySegment(s)
    ensures ParseRoute(s).Parsed? ==>
              var route := ParseRoute(s).route;
              SlashFree(route) && (s == Joined(route) || (route != [] && s == Joined(route) + [SLASH]))
    decreases |s|
  {
    if s != "" && s[0] == SLASH {
      assert SlashAt(s, 0);
    } else if s != "" {
      var i := FirstSlash(s);
      assert s[..i] == s[0..i];
      EmptySegmentAfter(s);
      if i < |s| {
        var tail := s[i + 1..];
        ParseRouteSpells(tail);
        SplitAt(s, i);
        if ParseRoute(tail).Parsed? {
          var rest := ParseRoute(tail).route;
          SlashFreePrepend(s[..i], rest);
          if rest != [] {
            JoinedPrepend(s[..i], rest);
          } else {
            assert [s[..i]] + rest == [s[..i]];
          }
        }
      } else {
        assert s[0..i] == s;
      }
    }
  }

  // ---- Routes without parameters ----

  ghost predicate StartsSegment(s: string, i: int) {
    0 <= i < |s| && (i == 0 || s[i - 1] == SLASH)
  }

  /** No segment of the pattern starts with a colon. */
  ghost predicate Plain(s: string) {
    forall i {:trigger StartsSegment(s, i)} | StartsSegment(s, i) :: s[i] != COLON
  }

  ghost predicate Literal(route: Route) {
    forall k | k in route :: !IsParam(k)
  }

  lemma {:induction false} PlainIsLiteral(s: string)
    requires Plain(s) && ParseRoute(s).Parsed?
    ensures Literal(ParseRoute(s).route)
    decreases |s|
  {
    if s != "" {
      var i := FirstSlash(s);
      assert StartsSegment(s, 0);
      assert !IsParam(s) && !IsParam(s[..i]);
      if i < |s| {
        var tail := s[i + 1..];
        assert Plain(tail) by {
          forall j | StartsSegment(tail, j) ensures tail[j] != COLON {
            assert StartsSegment(s, i + 1 + j);
          }
        }
        PlainIsLiteral(tail);
      }
    }
  }

  /** Parsing a pattern gives a route that matches the pattern read as a path. */
  lemma {:induction false} LiteralMatchesItself(s: string)
    requires ParseRoute(s).Parsed?
    ensures Matches(ParseRoute(s).route, Segments(s))
    decreases |s|
  {
    if s != "" {
      var i := FirstSlash(s);
      if i < |s| {
        LiteralMatchesItself(s[i + 1..]);
        MatchesStep(s[..i], ParseRoute(s[i + 1..]).route, s[..i], Segments(s[i + 1..]));
      }
    }
  }

  /** A route without parameters that matches a path comes before every other that does. */
  lemma {:induction false} LiteralComesFirst(route: Route, other: Route, path: seq<string>)
    requires Literal(route) && "" !in route && "" !in other && other != route
    requires Matches(route, path) && Matches(other, path)
    ensures Before(route, other)
    decreases |route|
  {
    if route != [] {
      assert route[0] in route && Accepts(route[0], path[0]);
      if other != [] && route[0] == other[0] {
        assert route == [route[0]] + route[1..] && other == [other[0]] + other[1..] && path == [path[0]] + path[1..];
        MatchesStep(route[0], route[1..], path[0], path[1..]);
        MatchesStep(other[0], other[1..], path[0], path[1..]);
        LiteralComesFirst(route[1..], other[1..], path[1..]);
      }
    }
  }
}

/** The mathematics behind `core/stringx`: words, suffixes in a trie and the naive
    list of all keyword occurrences. Nothing here mentions the heap.

    Texts and words are sequences of runes, as after Go's `[]rune(text)`. */
module WordMatching {

  /** An occurrence of a keyword: the half-open range of runes `start..stop`. */
  datatype Scope = Scope(start: int, stop: int)

  /** A non-empty string without its last rune: the parent node in a trie. */
  function Parent(p: string): (r: string)
    requires p != ""
  {
    p[..|p| - 1]
  }

  ghost predicate PrefixClosed(prefixes: set<string>) {
    && "" in prefixes
    && forall p {:trigger Parent(p)} | p in prefixes && p != "" :: Parent(p) in prefixes
  }

  /** The longest suffix of `s` (possibly `s` itself) that is a trie prefix. */
  ghost function LongestSuffix(prefixes: set<string>, s: string): (r: string)
    requires "" in prefixes
    ensures r in prefixes && |r| <= |s|
  {
    if s in prefixes then s else LongestSuffix(prefixes, s[1..])
  }

  lemma {:induction false} LongestSuffixIsSuffix(prefixes: set<string>, s: string)
    requires "" in prefixes
    ensures s[|s| - |LongestSuffix(prefixes, s)|..] == LongestSuffix(prefixes, s)
  {
    if s !in prefixes {
      LongestSuffixIsSuffix(prefixes, s[1..]);
    }
  }

  /** Nothing in the trie that is a suffix of `s` is longer than `LongestSuffix`. */
  lemma {:induction false} LongestSuffixIsLongest(prefixes: set<string>, s: string, k: nat)
    requires "" in prefixes && k <= |s| && s[k..] in prefixes
    ensures |s| - k <= |LongestSuffix(prefixes, s)|
  {
    if s !in prefixes {
      assert s[1..][k - 1..] == s[k..];
      LongestSuffixIsLongest(prefixes, s[1..], k - 1);
    }
  }

  /** The failure link of a non-root trie node: the longest proper suffix in the trie. */
  ghost function FailOf(prefixes: set<string>, p: string): (r: string)
    requires "" in prefixes && p != ""
    ensures r in prefixes && |r| < |p|
  {
    LongestSuffix(prefixes, p[1..])
  }

  /** The automaton's move: follow failure links from `q` until a child for `c` exists. */
  ghost function Goto(prefixes: set<string>, q: string, c: char): (r: string)
    requires "" in prefixes
    ensures r in prefixes
    decreases |q|
  {
    if q + [c] in prefixes then q + [c]
    else if q == "" then ""
    else Goto(prefixes, FailOf(prefixes, q), c)
  }

  /** Reading one more rune moves from the longest suffix to the longest suffix. */
  lemma {:induction false} GotoTracksLongestSuffix(prefixes: set<string>, s: string, c: char)
    requires PrefixClosed(prefixes)
    ensures LongestSuffix(prefixes, s + [c]) == Goto(prefixes, LongestSuffix(prefixes, s), c)
    decreases |s|
  {
    var sc := s + [c];
    assert Parent(sc) == s;
    if s == "" {
      assert sc[1..] == "";
    } else {
      assert sc[1..] == s[1..] + [c];
      GotoTracksLongestSuffix(prefixes, s[1..], c);
    }
  }

  /** Failure links compose with one more rune as `node.build` assumes. */
  lemma FailOfExtension(prefixes: set<string>, p: string, c: char)
    requires PrefixClosed(prefixes) && p != ""
    ensures FailOf(prefixes, p + [c]) == Goto(prefixes, FailOf(prefixes, p), c)
  {
    assert (p + [c])[1..] == p[1..] + [c];
    GotoTracksLongestSuffix(prefixes, p[1..], c);
  }

  /** The occurrence of `q` ending at `stop`, if `q` is a word. */
  ghost function Report(words: set<string>, q: string, stop: int): (r: seq<Scope>) {
    if q in words then [Scope(stop - |q|, stop)] else []
  }

  /** What one walk along the failure chain from `q` reports at position `stop`. */
  ghost function ChainMatches(prefixes: set<string>, words: set<string>, q: string, stop: int): (r: seq<Scope>)
    requires "" in prefixes
    decreases |q|
  {
    if q == "" then []
    else Report(words, q, stop) + ChainMatches(prefixes, words, FailOf(prefixes, q), stop)
  }

  /** Naive search: the words ending at `stop` and starting at `start` or later, longest first. */
  ghost function MatchesEndingAt(words: set<string>, text: string, start: nat, stop: nat): (r: seq<Scope>)
    requires start <= stop <= |text|
    decreases stop - start
  {
    if start == stop then []
    else Report(words, text[start..stop], stop) + MatchesEndingAt(words, text, start + 1, stop)
  }

  /** Naive search: every occurrence ending at or before `upto`. */
  ghost function MatchesUpTo(words: set<string>, text: string, upto: nat): (r: seq<Scope>)
    requires upto <= |text|
  {
    if upto == 0 then []
    else MatchesUpTo(words, text, upto - 1) + MatchesEndingAt(words, text, 0, upto)
  }

  ghost function AllMatches(words: set<string>, text: string): (r: seq<Scope>) {
    MatchesUpTo(words, text, |text|)
  }

  /** The chain from the longest suffix of `s` is `s`, if a word, then that of its tail. */
  lemma ChainStep(prefixes: set<string>, words: set<string>, s: string, stop: int)
    requires "" in prefixes && words <= prefixes && s != ""
    ensures ChainMatches(prefixes, words, LongestSuffix(prefixes, s), stop)
            == Report(words, s, stop) + ChainMatches(prefixes, words, LongestSuffix(prefixes, s[1..]), stop)
  {
    var tail := LongestSuffix(prefixes, s[1..]);
    if s in prefixes {
      assert LongestSuffix(prefixes, s) == s && FailOf(prefixes, s) == tail;
    } else {
      assert LongestSuffix(prefixes, s) == tail;
      assert Report(words, s, stop) + ChainMatches(prefixes, words, tail, stop) == ChainMatches(prefixes, words, tail, stop);
    }
  }

  /** The failure chain from the longest suffix reports exactly the naive matches. */
  lemma {:induction false} ChainIsNaive(
      prefixes: set<string>, words: set<string>, text: string, start: nat, stop: nat)
    requires "" in prefixes && words <= prefixes
    requires start <= stop <= |text|
    ensures ChainMatches(prefixes, words, LongestSuffix(prefixes, text[start..stop]), stop)
            == MatchesEndingAt(words, text, start, stop)
    decreases stop - start
  {
    if start < stop {
      var s := text[start..stop];
      ChainStep(prefixes, words, s, stop);
      assert s[1..] == text[start + 1..stop];
      ChainIsNaive(prefixes, words, text, start + 1, stop);
    } else {
      assert LongestSuffix(prefixes, text[start..stop]) == "";
    }
  }

  ghost predicate IsOccurrence(words: set<string>, text: string, m: Scope) {
    0 <= m.start < m.stop <= |text| && text[m.start..m.stop] in words
  }

  lemma {:induction false} MatchesEndingAtMembers(words: set<string>, text: string, start: nat, stop: nat, m: Scope)
    requires start <= stop <= |text|
    ensures m in MatchesEndingAt(words, text, start, stop)
            <==> m.stop == stop && start <= m.start && IsOccurrence(words, text, m)
    decreases stop - start
  {
    if start < stop {
      MatchesEndingAtMembers(words, text, start + 1, stop, m);
    }
  }

  lemma {:induction false} MatchesUpToMembers(words: set<string>, text: string, upto: nat, m: Scope)
    requires upto <= |text|
    ensures m in MatchesUpTo(words, text, upto) <==> m.stop <= upto && IsOccurrence(words, text, m)
  {
    if upto > 0 {
      MatchesUpToMembers(words, text, upto - 1, m);
      MatchesEndingAtMembers(words, text, 0, upto, m);
    }
  }

  /** `AllMatches` lists exactly the ranges whose slice is a word. */
  lemma AllMatchesMembers(words: set<string>, text: string, m: Scope)
    ensures m in AllMatches(words, text) <==> IsOccurrence(words, text, m)
  {
    MatchesUpToMembers(words, text, |text|, m);
  }

  /** Report order: by stop, and for the same stop the longer word first. */
  predicate ReportedBefore(a: Scope, b: Scope) {
    a.stop < b.stop || (a.stop == b.stop && a.start < b.start)
  }

  ghost predicate InReportOrder(ms: seq<Scope>) {
    forall i, j | 0 <= i < j < |ms| :: ReportedBefore(ms[i], ms[j])
  }

  lemma {:induction false} MatchesEndingAtOrdered(words: set<string>, text: string, start: nat, stop: nat)
    requires start <= stop <= |text|
    ensures InReportOrder(MatchesEndingAt(words, text, start, stop))
    decreases stop - start
  {
    if start < stop {
      MatchesEndingAtOrdered(words, text, start + 1, stop);
      var rest := MatchesEndingAt(words, text, start + 1, stop);
      forall i | 0 <= i < |rest| ensures rest[i].stop == stop && start < rest[i].start {
        MatchesEndingAtMembers(words, text, start + 1, stop, rest[i]);
      }
    }
  }

  lemma {:induction false} MatchesUpToOrdered(words: set<string>, text: string, upto: nat)
    requires upto <= |text|
    ensures InReportOrder(MatchesUpTo(words, text, upto))
  {
    if upto > 0 {
      MatchesUpToOrdered(words, text, upto - 1);
      MatchesEndingAtOrdered(words, text, 0, upto);
      var early, late := MatchesUpTo(words, text, upto - 1), MatchesEndingAt(words, text, 0, upto);
      forall i | 0 <= i < |early| ensures early[i].stop < upto {
        MatchesUpToMembers(words, text, upto - 1, early[i]);
      }
      forall i | 0 <= i < |late| ensures late[i].stop == upto {
        MatchesEndingAtMembers(words, text, 0, upto, late[i]);
      }
    }
  }

  /** Each occurrence is listed once, by stop ascending and then length descending. */
  lemma AllMatchesOrdered(words: set<string>, text: string)
    ensures InReportOrder(AllMatches(words, text))
    ensures forall i, j | 0 <= i < j < |AllMatches(words, text)| ::
              AllMatches(words, text)[i] != AllMatches(words, text)[j]
  {
    MatchesUpToOrdered(words, text, |text|);
  }
}

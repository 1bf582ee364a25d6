/** `core/stringx/replacer.go`: keyword substitution on top of the automaton. */
module Replacing {
  import opened GoMaps
  import opened Slices
  import opened WordMatching
  import opened AhoCorasick

  const REPLACE_TIMES := 2

  /** The largest `stop` with `text[start..stop]` a word, searching down from `stop`; `start` if none. */
  ghost function LongestStop(words: set<string>, text: string, start: nat, stop: nat): (r: nat)
    requires start <= stop <= |text|
    ensures start <= r <= stop && (r > start ==> text[start..r] in words)
    decreases stop
  {
    if stop == start || text[start..stop] in words then stop
    else LongestStop(words, text, start, stop - 1)
  }

  /** Leftmost-longest substitution of `text[i..]`: at each position take the longest keyword that
      starts there and continue after it, or copy one rune when none does. */
  ghost function Substitute(mapping: map<string, string>, text: string, i: nat): (r: string)
    requires i <= |text|
    decreases |text| - i
  {
    if i == |text| then ""
    else
      var stop := LongestStop(mapping.Keys, text, i, |text|);
      if stop > i then mapping[text[i..stop]] + Substitute(mapping, text, stop)
      else [text[i]] + Substitute(mapping, text, i + 1)
  }

  lemma {:induction false} LongestStopIsLongest(words: set<string>, text: string, start: nat, stop: nat)
    requires start <= stop <= |text|
    ensures forall s | LongestStop(words, text, start, stop) < s <= stop :: text[start..s] !in words
    decreases stop
  {
    if stop != start && text[start..stop] !in words {
      LongestStopIsLongest(words, text, start, stop - 1);
    }
  }

  /** Where no keyword starts, one rune is copied. */
  lemma SubstituteSkipsOne(mapping: map<string, string>, text: string, i: nat)
    requires i < |text|
    requires forall m | IsOccurrence(mapping.Keys, text, m) :: m.start != i
    ensures Substitute(mapping, text, i) == [text[i]] + Substitute(mapping, text, i + 1)
  {
    var stop := LongestStop(mapping.Keys, text, i, |text|);
    assert stop > i ==> IsOccurrence(mapping.Keys, text, Scope(i, stop));
  }

  lemma Regroup(c: char, middle: string, rest: string)
    ensures [c] + (middle + rest) == [c] + middle + rest
  {
  }

  /** A stretch where no keyword starts is copied unchanged. */
  lemma {:induction false} SubstituteSkips(mapping: map<string, string>, text: string, i: nat, j: nat)
    requires i <= j <= |text|
    requires forall m | IsOccurrence(mapping.Keys, text, m) :: !(i <= m.start < j)
    ensures Substitute(mapping, text, i) == text[i..j] + Substitute(mapping, text, j)
    decreases j - i
  {
    if i == j {
      assert text[i..j] == "";
    } else {
      SubstituteSkipsOne(mapping, text, i);
      SubstituteSkips(mapping, text, i + 1, j);
      Regroup(text[i], text[i + 1..j], Substitute(mapping, text, j));
      assert text[i..j] == [text[i]] + text[i + 1..j];
    }
  }

  /** At the longest keyword starting at `m.start`, its replacement comes out. */
  lemma SubstituteTakes(mapping: map<string, string>, text: string, m: Scope)
    requires IsOccurrence(mapping.Keys, text, m)
    requires forall o | IsOccurrence(mapping.Keys, text, o) && o.start == m.start :: o.stop <= m.stop
    ensures Substitute(mapping, text, m.start)
            == mapping[text[m.start..m.stop]] + Substitute(mapping, text, m.stop)
  {
    var stop := LongestStop(mapping.Keys, text, m.start, |text|);
    LongestStopIsLongest(mapping.Keys, text, m.start, |text|);
    assert stop > m.start ==> IsOccurrence(mapping.Keys, text, Scope(m.start, stop));
  }

  /** From `index`, the text is copied up to the first occurrence ahead, which is replaced. */
  lemma SubstituteNext(mapping: map<string, string>, text: string, index: nat, m: Scope)
    requires IsOccurrence(mapping.Keys, text, m) && index <= m.start
    requires forall o | IsOccurrence(mapping.Keys, text, o) && index <= o.start :: AtOrBefore(m, o)
    ensures Substitute(mapping, text, index)
         == text[index..m.start] + mapping[text[m.start..m.stop]] + Substitute(mapping, text, m.stop)
  {
    SubstituteSkips(mapping, text, index, m.start);
    SubstituteTakes(mapping, text, m);
  }

  /** Once the earlier scopes are passed, the next one is the first ahead. */
  lemma FirstAhead(mapping: map<string, string>, text: string, sorted: seq<Scope>, i: nat, index: nat)
    requires Sorted(sorted) && i < |sorted| && index <= sorted[i].start
    requires forall m :: m in sorted <==> IsOccurrence(mapping.Keys, text, m)
    requires forall j | 0 <= j < i :: sorted[j].start < index
    ensures forall m | IsOccurrence(mapping.Keys, text, m) && index <= m.start :: AtOrBefore(sorted[i], m)
  {
    forall m | IsOccurrence(mapping.Keys, text, m) && index <= m.start ensures AtOrBefore(sorted[i], m) {
      var j :| 0 <= j < |sorted| && sorted[j] == m;
    }
  }

  /** The order of `sort.Slice` in `doReplace`: by start, and the longer one first. */
  predicate AtOrBefore(a: Scope, b: Scope) {
    a.start < b.start || (a.start == b.start && a.stop >= b.stop)
  }

  ghost predicate Sorted(ms: seq<Scope>) {
    forall i, j | 0 <= i < j < |ms| :: AtOrBefore(ms[i], ms[j])
  }

  method SortScopes(scopes: seq<Scope>) returns (sorted: seq<Scope>)
    ensures Sorted(sorted) && multiset(sorted) == multiset(scopes)
  {
    sorted := SortSlice(scopes, AtOrBefore);
  }

  class Replacer {
    const trie: Trie
    const mapping: map<string, string>

    ghost predicate Valid()
      reads trie, trie.index.Values
    {
      && trie.Valid() && trie.Built()
      && trie.Words() == set w | w in mapping && w != ""
    }

    constructor (mapping: map<string, string>)
      ensures Valid() && this.mapping == mapping
    {
      this.mapping := mapping;
      var words := RangeOrder(mapping.Keys);
      var automaton := NewAutomaton(words);
      trie := automaton;
    }

    /** One pass: the leftmost-longest substitution, and whether any keyword occurred. */
    method DoReplace(text: string) returns (result: string, replaced: bool)
      requires Valid()
      ensures result == Substitute(mapping, text, 0)
      ensures replaced <==> exists m :: IsOccurrence(mapping.Keys, text, m)
    {
      var scopes := trie.Find(text);
      forall m ensures m in scopes <==> IsOccurrence(mapping.Keys, text, m) {
        AllMatchesMembers(trie.Words(), text, m);
      }
      if |scopes| == 0 {
        SubstituteSkips(mapping, text, 0, |text|);
        return text, false;
      }
      assert scopes[0] in scopes;
      var sorted := SortScopes(scopes);
      forall m ensures m in sorted <==> m in scopes {
        assert m in multiset(sorted) <==> m in multiset(scopes);
      }
      result := Splice(text, sorted);
      replaced := true;
    }

    /** The copying loop of `doReplace` over the sorted scopes. */
    method Splice(text: string, sorted: seq<Scope>) returns (buf: string)
      requires Sorted(sorted)
      requires forall m :: m in sorted <==> IsOccurrence(mapping.Keys, text, m)
      ensures buf == Substitute(mapping, text, 0)
    {
      buf := "";
      var index := 0;
      for i := 0 to |sorted|
        invariant 0 <= index <= |text|
        invariant Substitute(mapping, text, 0) == buf + Substitute(mapping, text, index)
        invariant forall j | 0 <= j < i :: sorted[j].start < index
      {
        var scp := sorted[i];
        assert scp in sorted;
        if scp.start < index {
          continue;
        }
        FirstAhead(mapping, text, sorted, i, index);
        SubstituteNext(mapping, text, index, scp);
        buf := buf + text[index..scp.start] + mapping[text[scp.start..scp.stop]];
        index := scp.stop;
      }
      SubstituteSkips(mapping, text, index, |text|);
      if index < |text| {
        buf := buf + text[index..];
      }
    }

    /** At most two passes; stopping early when nothing matched makes no difference. */
    method Replace(text: string) returns (result: string)
      requires Valid()
      ensures result == Substitute(mapping, Substitute(mapping, text, 0), 0)
    {
      result := text;
      ghost var pass := [text, Substitute(mapping, text, 0), Substitute(mapping, Substitute(mapping, text, 0), 0)];
      for i := 0 to REPLACE_TIMES
        invariant result == pass[i]
      {
        var replaced;
        result, replaced := DoReplace(result);
        if !replaced {
          SubstituteSkips(mapping, pass[i], 0, |pass[i]|);
          assert result == pass[i];
          return;
        }
      }
    }
  }
}

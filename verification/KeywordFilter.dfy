/** `core/stringx/trie.go`: masking and collecting keywords. */
module KeywordFilter {
  import opened GoMaps
  import opened WordMatching
  import opened AhoCorasick

  const DEFAULT_MASK := '*'

  /** Position `i` lies inside at least one occurrence of a keyword. */
  ghost predicate Covered(words: set<string>, text: string, i: int) {
    exists m :: IsOccurrence(words, text, m) && m.start <= i < m.stop
  }

  ghost predicate Inside(scopes: seq<Scope>, i: int) {
    exists m :: m in scopes && m.start <= i < m.stop
  }

  /** The keywords that occur in the text. */
  ghost function Occurring(words: set<string>, text: string): (r: set<string>) {
    set w | w in words && exists m :: IsOccurrence(words, text, m) && text[m.start..m.stop] == w
  }

  /** Overwrites `chars[start..stop]` with the mask. */
  method ReplaceWithAsterisk(chars: array<char>, mask: char, start: int, stop: int)
    requires 0 <= start <= stop <= chars.Length
    modifies chars
    ensures forall i | 0 <= i < chars.Length :: chars[i] == if start <= i < stop then mask else old(chars[i])
  {
    for i := start to stop
      invariant forall j | 0 <= j < chars.Length :: chars[j] == if start <= j < i then mask else old(chars[j])
    {
      chars[i] := mask;
    }
  }

  /** The distinct slices named by `scopes`, in an arbitrary order. */
  method CollectKeywords(chars: string, scopes: seq<Scope>) returns (keywords: seq<string>)
    requires forall m | m in scopes :: 0 <= m.start <= m.stop <= |chars|
    ensures NoDuplicates(keywords)
    ensures forall w :: w in keywords <==> exists m :: m in scopes && chars[m.start..m.stop] == w
  {
    var found: set<string> := {};
    for i := 0 to |scopes|
      invariant forall w | w in found :: exists m :: m in scopes && chars[m.start..m.stop] == w
      invariant forall j | 0 <= j < i :: chars[scopes[j].start..scopes[j].stop] in found
    {
      found := found + {chars[scopes[i].start..scopes[i].stop]};
    }
    keywords := RangeOrder(found);
  }

  class KeywordTrie {
    const trie: Trie
    const mask: char

    ghost predicate Valid()
      reads trie, trie.index.Values
    {
      trie.Valid() && trie.Built()
    }

    /** `mask` is the rune set by `WithMask`, or zero. */
    constructor (words: seq<string>, mask: char)
      ensures Valid()
      ensures trie.Words() == set w | w in words && w != ""
      ensures this.mask == if mask == '\0' then DEFAULT_MASK else mask
    {
      this.mask := if mask == '\0' then DEFAULT_MASK else mask;
      var automaton := NewAutomaton(words);
      trie := automaton;
    }

    method FindKeywords(text: string) returns (keywords: seq<string>)
      requires Valid()
      ensures NoDuplicates(keywords)
      ensures forall w :: w in keywords <==> w in Occurring(trie.Words(), text)
    {
      if |text| == 0 {
        return [];
      }
      var scopes := trie.Find(text);
      forall m ensures m in scopes <==> IsOccurrence(trie.Words(), text, m) {
        AllMatchesMembers(trie.Words(), text, m);
      }
      keywords := CollectKeywords(text, scopes);
    }

    /** Masks exactly the covered positions and lists exactly the occurring keywords. */
    method Filter(text: string) returns (sentence: string, keywords: seq<string>, found: bool)
      requires Valid()
      ensures |sentence| == |text|
      ensures forall i | 0 <= i < |text| ::
                sentence[i] == if Covered(trie.Words(), text, i) then mask else text[i]
      ensures NoDuplicates(keywords)
      ensures forall w :: w in keywords <==> w in Occurring(trie.Words(), text)
      ensures found <==> exists m :: IsOccurrence(trie.Words(), text, m)
    {
      if |text| == 0 {
        return text, [], false;
      }
      ghost var words := trie.Words();
      var scopes := trie.Find(text);
      forall m ensures m in scopes <==> IsOccurrence(words, text, m) {
        AllMatchesMembers(words, text, m);
      }
      keywords := CollectKeywords(text, scopes);
      sentence := MaskAll(text, scopes);
      found := |keywords| > 0;
      if found {
        assert keywords[0] in keywords;
      }
      assert forall m | IsOccurrence(words, text, m) :: text[m.start..m.stop] in keywords;
    }

    /** The masking loop of `Filter`; overlapping occurrences are simply masked again. */
    method MaskAll(text: string, scopes: seq<Scope>) returns (sentence: string)
      requires forall m | m in scopes :: 0 <= m.start <= m.stop <= |text|
      ensures |sentence| == |text|
      ensures forall i | 0 <= i < |text| :: sentence[i] == if Inside(scopes, i) then mask else text[i]
    {
      var chars := new char[|text|](i requires 0 <= i < |text| => text[i]);
      for k := 0 to |scopes|
        invariant forall i | 0 <= i < |text| :: chars[i] == if Inside(scopes[..k], i) then mask else text[i]
      {
        ReplaceWithAsterisk(chars, mask, scopes[k].start, scopes[k].stop);
        forall i ensures Inside(scopes[..k + 1], i) <==> Inside(scopes[..k], i) || scopes[k].start <= i < scopes[k].stop {
          assert scopes[..k + 1] == scopes[..k] + [scopes[k]];
          assert scopes[k] in scopes[..k + 1];
        }
      }
      assert scopes[..|scopes|] == scopes;
      sentence := chars[..];
    }
  }
}

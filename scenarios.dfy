/**
 * The filter object end to end: keywords loaded one line after the other,
 * then a text filtered.
 */
module Scenarios {
  import opened Wrappers
  import opened Text
  import opened Masking
  import opened Engine
  import opened Properties
  import opened Examples

  /** Loading "ab" and "abc" and filtering "abc" gives "***c". */
  method LoadThenFilter() returns (r: Option<seq<Char16>>)
    ensures r == Some(REPLACEMENT + [c])
  {
    var filter := new SensitiveFilter();
    var words := [[a, b], [a, b, c]];
    filter.LoadKeywords(words);
    assert (set w | w in words && w != []) == {[a, b], [a, b, c]};
    r := filter.Filter(Some([a, b, c]));
    ShortestKeywordWins(filter.Loaded(), [a, b, c]);
  }

  /** A new filter knows no keyword, so a blank text gives null and any other text comes back as it is. */
  method EmptyFilter(text: seq<Char16>) returns (r: Option<seq<Char16>>)
    ensures r == if IsBlank(Some(text)) then None else Some(text)
  {
    var filter := new SensitiveFilter();
    r := filter.Filter(Some(text));
    NoKeywordsNoChange(text);
  }

  /**
   * Adding the same word twice leaves the trie as adding it once: the
   * arena after the second call is the one returned after the first.
   */
  method AddKeywordTwice(filter: SensitiveFilter, keyword: seq<Char16>)
    returns (endsOnce: seq<bool>, edgesOnce: seq<map<Char16, nat>>)
    requires filter.Valid()
    modifies filter
    ensures filter.Valid() && filter.ends == endsOnce && filter.edges == edgesOnce
    ensures filter.Loaded() == old(filter.Loaded()) + (if keyword == [] then {} else {keyword})
  {
    filter.AddKeyword(keyword);
    endsOnce, edgesOnce := filter.ends, filter.edges;
    filter.AddKeyword(keyword);
  }
}

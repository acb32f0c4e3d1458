/**
 * Keyword filtering: which of the user's keywords occur in the text before
 * the log path of a comment (its "bracket text"). The keywords themselves
 * are the non-blank trimmed lines of the textarea, `Strings.TrimmedLines`.
 */
module Keywords {
  import opened Strings

  /** `a` is `b` with some elements left out, order kept (greedy matching decides it). */
  ghost predicate IsSubsequence<T>(a: seq<T>, b: seq<T>)
    decreases |b|
  {
    if a == [] then true
    else if b == [] then false
    else if a[0] == b[0] then IsSubsequence(a[1..], b[1..])
    else IsSubsequence(a, b[1..])
  }

  /** `bracketText.toLowerCase().includes(key.toLowerCase())`. */
  predicate KeywordMatches(keyword: string, bracketText: string) {
    ContainsIgnoringCase(bracketText, keyword)
  }

  /**
   * `keywords.filter(key => ...)`: the keywords found in the bracket text,
   * in the user's order, each repeat kept as often as it was typed.
   */
  function MatchKeywords(keywords: seq<string>, bracketText: string): (r: seq<string>)
    ensures |r| <= |keywords|
  {
    if keywords == [] then []
    else if KeywordMatches(keywords[0], bracketText) then
      [keywords[0]] + MatchKeywords(keywords[1..], bracketText)
    else
      MatchKeywords(keywords[1..], bracketText)
  }

  /**
   * The matched keywords are exactly the keywords that occur in the bracket
   * text: the same membership, the same number of repeats, the same order.
   */
  lemma {:induction false} MatchKeywordsSpec(keywords: seq<string>, bracketText: string)
    ensures var r := MatchKeywords(keywords, bracketText);
      forall k :: k in r <==> k in keywords && KeywordMatches(k, bracketText)
    ensures var r := MatchKeywords(keywords, bracketText);
      forall k :: multiset(r)[k] == if KeywordMatches(k, bracketText) then multiset(keywords)[k] else 0
    ensures IsSubsequence(MatchKeywords(keywords, bracketText), keywords)
  {
    if keywords != [] {
      var rest := MatchKeywords(keywords[1..], bracketText);
      MatchKeywordsSpec(keywords[1..], bracketText);
      assert keywords == [keywords[0]] + keywords[1..];
      if KeywordMatches(keywords[0], bracketText) {
        assert ([keywords[0]] + rest)[1..] == rest;
      } else {
        assert rest != [] ==> rest[0] != keywords[0] by {
          if rest != [] { assert rest[0] in rest; }
        }
      }
    }
  }
}

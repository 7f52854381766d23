/**
 * What `search` promises: it keeps exactly the lines whose comparison view
 * holds the query, in their original order and once each, and it displays
 * each kept line as its words rebuilt from before / matched / after.
 */
module SearchProperties {
  import opened Wrappers
  import opened Text
  import opened Minigrep

  /** The comparison view of `line` holds the (already normalised) query. */
  predicate LineMatches(line: string, query: string, ignoreCase: bool)
  {
    Contains(ConditionalLowercase(line, ignoreCase), query)
  }

  /** How a kept line is displayed. */
  function Displayed(line: string, query: string, config: Config): string
  {
    Highlight(line, ConditionalLowercase(line, config.ignoreCase), query, config.noColor)
  }

  /** The positions of the lines that match, each once, in increasing order. */
  function MatchingIndices(lines: seq<string>, query: string, ignoreCase: bool): (idx: seq<nat>)
    ensures forall k :: 0 <= k < |idx| ==> idx[k] < |lines| && LineMatches(lines[idx[k]], query, ignoreCase)
    ensures forall k, m :: 0 <= k < m < |idx| ==> idx[k] < idx[m]
    ensures forall i :: 0 <= i < |lines| && LineMatches(lines[i], query, ignoreCase) ==> i in idx
    decreases |lines|
  {
    if lines == [] then []
    else
      var n := |lines| - 1;
      var prefix := MatchingIndices(lines[..n], query, ignoreCase);
      assert forall i :: 0 <= i < n ==> lines[..n][i] == lines[i];
      prefix + (if LineMatches(lines[n], query, ignoreCase) then [n] else [])
  }

  /** One step of both recursions, on the last line. */
  lemma SearchLinesStep(lines: seq<string>, query: string, config: Config)
    requires lines != []
    ensures var n := |lines| - 1;
      var last := LineMatches(lines[n], query, config.ignoreCase);
      && SearchLines(lines, query, config)
         == SearchLines(lines[..n], query, config) + (if last then [Displayed(lines[n], query, config)] else [])
      && MatchingIndices(lines, query, config.ignoreCase)
         == MatchingIndices(lines[..n], query, config.ignoreCase) + (if last then [n] else [])
  {
  }

  /** `SearchLines` yields one displayed line per matching position, in order. */
  lemma {:induction false} SearchLinesSelects(lines: seq<string>, query: string, config: Config)
    ensures var r := SearchLines(lines, query, config);
      var idx := MatchingIndices(lines, query, config.ignoreCase);
      |r| == |idx| && forall k :: 0 <= k < |r| ==> r[k] == Displayed(lines[idx[k]], query, config)
    decreases |lines|
  {
    if lines != [] {
      var n := |lines| - 1;
      var prefix := lines[..n];
      SearchLinesSelects(prefix, query, config);
      SearchLinesStep(lines, query, config);
      var r0 := SearchLines(prefix, query, config);
      var idx0 := MatchingIndices(prefix, query, config.ignoreCase);
      var r := SearchLines(lines, query, config);
      var idx := MatchingIndices(lines, query, config.ignoreCase);
      assert |r| == |idx|;
      forall k | 0 <= k < |r| ensures r[k] == Displayed(lines[idx[k]], query, config) {
        if k < |r0| {
          assert r[k] == r0[k] && idx[k] == idx0[k];
          assert prefix[idx0[k]] == lines[idx0[k]];
        }
      }
    }
  }

  /**
   * `search` keeps exactly the lines whose comparison view holds the equally
   * normalised query, every other line is dropped, and the kept lines come
   * out in their original order, once each.
   */
  lemma SearchKeepsExactlyMatchingLines(contents: string, config: Config)
    ensures var lines := Lines(contents);
      var query := ConditionalLowercase(config.query, config.ignoreCase);
      var idx := MatchingIndices(lines, query, config.ignoreCase);
      var r := Search(contents, config);
      && |r| == |idx|
      && (forall k :: 0 <= k < |r| ==> idx[k] < |lines| && r[k] == Displayed(lines[idx[k]], query, config))
      && (forall k, m :: 0 <= k < m < |r| ==> idx[k] < idx[m])
      && (forall i :: 0 <= i < |lines| ==> (i in idx <==> LineMatches(lines[i], query, config.ignoreCase)))
  {
    var query := ConditionalLowercase(config.query, config.ignoreCase);
    SearchLinesSelects(Lines(contents), query, config);
  }

  /** The result is empty exactly when no line matches. */
  lemma EmptyExactlyWhenNoMatch(contents: string, config: Config)
    ensures var lines := Lines(contents);
      var query := ConditionalLowercase(config.query, config.ignoreCase);
      Search(contents, config) == [] <==>
        forall i :: 0 <= i < |lines| ==> !LineMatches(lines[i], query, config.ignoreCase)
  {
    var lines := Lines(contents);
    var query := ConditionalLowercase(config.query, config.ignoreCase);
    var idx := MatchingIndices(lines, query, config.ignoreCase);
    SearchKeepsExactlyMatchingLines(contents, config);
    if |idx| > 0 {
      assert LineMatches(lines[idx[0]], query, config.ignoreCase);
    }
  }

  /** Case-sensitive search keeps a line exactly when it holds the query verbatim. */
  lemma CaseSensitiveIsVerbatim(line: string, query: string)
    ensures LineMatches(line, ConditionalLowercase(query, false), false) <==> Contains(line, query)
  {
  }

  /** Ignoring case can only keep more lines: a verbatim match still matches. */
  lemma IgnoreCaseKeepsMore(lines: seq<string>, query: string)
    ensures forall i :: i in MatchingIndices(lines, ConditionalLowercase(query, false), false) ==>
      i in MatchingIndices(lines, ConditionalLowercase(query, true), true)
  {
    var strict := MatchingIndices(lines, ConditionalLowercase(query, false), false);
    forall i | i in strict
      ensures i in MatchingIndices(lines, ConditionalLowercase(query, true), true)
    {
      var k :| 0 <= k < |strict| && strict[k] == i;
      ContainsLower(lines[i], query);
    }
  }

  /**
   * Without colour a kept line is its words joined by single spaces, whatever
   * the case setting: the cut pieces rebuild each word of the original line.
   */
  lemma NoColorShowsWords(contents: string, config: Config)
    requires config.noColor
    ensures var lines := Lines(contents);
      var idx := MatchingIndices(lines, ConditionalLowercase(config.query, config.ignoreCase), config.ignoreCase);
      var r := Search(contents, config);
      |r| == |idx| && forall k :: 0 <= k < |r| ==> r[k] == Join(SplitWhitespace(lines[idx[k]]), " ")
  {
    SearchKeepsExactlyMatchingLines(contents, config);
  }

  /**
   * `shown` splits into exactly the words of `line`, each highlighted against
   * the corresponding word of the line's comparison view.
   */
  predicate ShownAsHighlightedWords(line: string, shown: string, query: string, config: Config)
  {
    var originals := SplitWhitespace(line);
    var lowereds := SplitWhitespace(ConditionalLowercase(line, config.ignoreCase));
    && |originals| == |lowereds|
    && (forall m :: 0 <= m < |originals| ==> |originals[m]| == |lowereds[m]|)
    && SplitWhitespace(shown) == HighlightTokens(originals, lowereds, query, config.noColor)
  }

  /**
   * With or without colour, each kept line as displayed splits into exactly
   * the highlighted words of its source line.
   */
  lemma DisplayedWords(contents: string, config: Config)
    ensures var lines := Lines(contents);
      var query := ConditionalLowercase(config.query, config.ignoreCase);
      var idx := MatchingIndices(lines, query, config.ignoreCase);
      var r := Search(contents, config);
      |r| == |idx| && forall k :: 0 <= k < |r| ==> ShownAsHighlightedWords(lines[idx[k]], r[k], query, config)
  {
    var lines := Lines(contents);
    var query := ConditionalLowercase(config.query, config.ignoreCase);
    var idx := MatchingIndices(lines, query, config.ignoreCase);
    var r := Search(contents, config);
    SearchKeepsExactlyMatchingLines(contents, config);
    forall k | 0 <= k < |r| ensures ShownAsHighlightedWords(lines[idx[k]], r[k], query, config) {
      var line := lines[idx[k]];
      HighlightWords(line, ConditionalLowercase(line, config.ignoreCase), query, config.noColor);
    }
  }

  /** Words whose comparison view lacks the query are passed through unchanged. */
  lemma {:induction false} HighlightTokensUnchanged(originals: seq<string>, lowereds: seq<string>, query: string, noColor: bool)
    requires |originals| == |lowereds|
    requires forall k :: 0 <= k < |originals| ==> |originals[k]| == |lowereds[k]| && !Contains(lowereds[k], query)
    ensures HighlightTokens(originals, lowereds, query, noColor) == originals
  {
  }

  /**
   * A query that holds whitespace can still select a line, but no single word
   * holds it, so nothing is marked: the line is shown as its words.
   */
  lemma QueryAcrossWordsMarksNothing(line: string, haystack: string, query: string, noColor: bool, w: nat)
    requires Aligned(line, haystack)
    requires w < |query| && IsWhitespace(query[w])
    ensures Highlight(line, haystack, query, noColor) == Join(SplitWhitespace(line), " ")
  {
    var originals, lowereds := SplitWhitespace(line), SplitWhitespace(haystack);
    SplitAligned(line, haystack);
    forall k | 0 <= k < |lowereds| ensures !Contains(lowereds[k], query) {
      NotContainsWhitespace(lowereds[k], query, w);
    }
    HighlightTokensUnchanged(originals, lowereds, query, noColor);
  }
}

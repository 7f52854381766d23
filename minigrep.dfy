/**
 * The library of the minigrep command: building a configuration from the
 * command-line arguments, and the search that selects the lines of a text
 * holding a query and highlights the first occurrence in each word.
 */
module Minigrep {
  import opened Wrappers
  import opened Text

  // ---------------------------------------------------------------------------
  // Configuration
  // ---------------------------------------------------------------------------

  /** What to search for, in which file, and how. */
  datatype Config = Config(query: string, filePath: string, ignoreCase: bool, noColor: bool)

  const NotEnoughArguments: string := "not enough arguments!"
  const IgnoreCaseFlag: string := "--ignore-case"
  const NoColorFlag: string := "--no-color"

  /**
   * A switch is on when its environment variable is set or its flag is among
   * the options. The variable set is a parameter: `envSet` stands for
   * `env::var(NAME).is_ok()`.
   */
  predicate FlagEnabled(envSet: bool, options: seq<string>, flag: string)
  {
    envSet || flag in options
  }

  /**
   * `Config::build`. `args[0]` is the program name, `args[1]` the query and
   * `args[2]` the file path; every later argument that is `--ignore-case` or
   * `--no-color` turns that switch on, and any other is ignored. The two
   * environment lookups (IGNORE_CASE and NO_COLOR) are passed in.
   */
  method Build(args: seq<string>, ignoreCaseEnv: bool, noColorEnv: bool) returns (r: Result<Config>)
    ensures r.Err? <==> |args| < 3
    ensures r.Err? ==> r.error == NotEnoughArguments
    ensures r.Ok? ==> r.value.query == args[1] && r.value.filePath == args[2]
    ensures r.Ok? ==> r.value.ignoreCase == FlagEnabled(ignoreCaseEnv, args[3..], IgnoreCaseFlag)
    ensures r.Ok? ==> r.value.noColor == FlagEnabled(noColorEnv, args[3..], NoColorFlag)
  {
    if |args| < 3 {
      return Err(NotEnoughArguments);
    }
    var query := args[1];
    var filePath := args[2];
    var ignoreCase := ignoreCaseEnv;
    var noColor := noColorEnv;
    for i := 3 to |args|
      invariant ignoreCase == FlagEnabled(ignoreCaseEnv, args[3..i], IgnoreCaseFlag)
      invariant noColor == FlagEnabled(noColorEnv, args[3..i], NoColorFlag)
    {
      assert args[3..i + 1] == args[3..i] + [args[i]];
      if args[i] == IgnoreCaseFlag {
        ignoreCase := true;
      } else if args[i] == NoColorFlag {
        noColor := true;
      }
    }
    assert args[3..|args|] == args[3..];
    r := Ok(Config(query, filePath, ignoreCase, noColor));
  }

  /** The order and the repetition of the options do not matter, only which occur. */
  lemma FlagOrderIrrelevant(envSet: bool, a: seq<string>, b: seq<string>, flag: string)
    requires forall t :: t in a <==> t in b
    ensures FlagEnabled(envSet, a, flag) == FlagEnabled(envSet, b, flag)
  {
  }

  /** An option that is not the flag itself changes nothing, wherever it stands. */
  lemma UnknownOptionIgnored(envSet: bool, a: seq<string>, b: seq<string>, t: string, flag: string)
    requires t != flag
    ensures FlagEnabled(envSet, a + [t] + b, flag) == FlagEnabled(envSet, a + b, flag)
  {
  }

  // ---------------------------------------------------------------------------
  // Search
  // ---------------------------------------------------------------------------

  /**
   * `conditional_lowercase`: the text to compare with, lowercased only when
   * case is ignored. It has the shape of the original, which is what lets the
   * search cut the original at positions found in the lowercased view.
   */
  function ConditionalLowercase(s: string, ignoreCase: bool): (r: string)
    ensures Aligned(s, r)
    ensures !ignoreCase ==> r == s
    ensures ignoreCase ==> forall i :: 0 <= i < |r| ==> r[i] == LowerChar(s[i])
  {
    if ignoreCase then Lower(s) else s
  }

  /** Normalising twice is normalising once, so the query and the lines agree. */
  lemma ConditionalLowercaseIdempotent(s: string, ignoreCase: bool)
    ensures ConditionalLowercase(ConditionalLowercase(s, ignoreCase), ignoreCase)
         == ConditionalLowercase(s, ignoreCase)
  {
    LowerIdempotent(s);
  }

  /** The terminal escape sequences that `.red().bold()` puts around a string. */
  const MarkStart: string := "\U{1b}[1;31m"
  const MarkEnd: string := "\U{1b}[0m"

  /** The matched part of a word, shown in bold red. */
  function Mark(s: string): (r: string)
    ensures |r| == |MarkStart| + |s| + |MarkEnd|
    ensures r[|MarkStart|..|MarkStart| + |s|] == s
    ensures NoWhitespace(s) ==> NoWhitespace(r)
  {
    var r := MarkStart + s + MarkEnd;
    assert r[|MarkStart|..|MarkStart| + |s|] == s;
    r
  }

  /** Marking loses nothing: different texts get different marked forms. */
  lemma MarkInjective(a: string, b: string)
    requires Mark(a) == Mark(b)
    ensures a == b
  {
    assert a == Mark(a)[|MarkStart|..|Mark(a)| - |MarkEnd|];
    assert b == Mark(b)[|MarkStart|..|Mark(b)| - |MarkEnd|];
  }

  /** A word cut around a match: `before`, the `matched` part and `after`. */
  datatype TokenParts = TokenParts(before: string, matched: string, after: string)

  /**
   * Cuts `original` at the first occurrence of `query` in `lowered`, its
   * comparison view; none when the query does not occur there.
   */
  function CutAtMatch(original: string, lowered: string, query: string): (p: Option<TokenParts>)
    requires |original| == |lowered|
    ensures p.None? <==> !Contains(lowered, query)
    ensures p.Some? ==> p.value.before + p.value.matched + p.value.after == original
    ensures p.Some? ==> |p.value.matched| == |query|
    ensures p.Some? ==> OccursAt(lowered, query, |p.value.before|)
    ensures p.Some? ==> forall j :: 0 <= j < |p.value.before| ==> !OccursAt(lowered, query, j)
  {
    match Find(lowered, query)
    case None => None
    case Some(pos) =>
      var parts := TokenParts(original[..pos], original[pos..pos + |query|], original[pos + |query|..]);
      assert parts.before + parts.matched + parts.after == original;
      Some(parts)
  }

  /**
   * One word of a matching line: the word with the first match marked, or
   * the word itself when it holds no match or colour is off.
   */
  function HighlightToken(original: string, lowered: string, query: string, noColor: bool): (r: string)
    requires |original| == |lowered|
    ensures noColor || !Contains(lowered, query) ==> r == original
    ensures !noColor && Contains(lowered, query) ==>
      var p := CutAtMatch(original, lowered, query).value;
      r == p.before + Mark(p.matched) + p.after
  {
    match CutAtMatch(original, lowered, query)
    case None => original
    case Some(p) =>
      if !noColor then p.before + Mark(p.matched) + p.after
      else p.before + p.matched + p.after
  }

  /**
   * The words of the line zipped with the words of its comparison view, each
   * pair highlighted; like `zip`, it stops at the shorter list.
   */
  function HighlightTokens(originals: seq<string>, lowereds: seq<string>, query: string, noColor: bool): (r: seq<string>)
    requires forall k :: 0 <= k < |originals| && k < |lowereds| ==> |originals[k]| == |lowereds[k]|
    ensures |r| == if |originals| < |lowereds| then |originals| else |lowereds|
    ensures forall k :: 0 <= k < |r| ==> r[k] == HighlightToken(originals[k], lowereds[k], query, noColor)
    decreases |originals|
  {
    if originals == [] || lowereds == [] then []
    else [HighlightToken(originals[0], lowereds[0], query, noColor)]
         + HighlightTokens(originals[1..], lowereds[1..], query, noColor)
  }

  /**
   * A matching line as displayed: its words, each highlighted against the
   * corresponding word of `haystack`, joined with single spaces. The haystack
   * must be aligned with the line, as the comparison view always is.
   */
  function Highlight(line: string, haystack: string, query: string, noColor: bool): (r: string)
    requires Aligned(line, haystack)
    ensures noColor ==> r == Join(SplitWhitespace(line), " ")
  {
    SplitAligned(line, haystack);
    var highlighted := HighlightTokens(SplitWhitespace(line), SplitWhitespace(haystack), query, noColor);
    assert noColor ==> highlighted == SplitWhitespace(line);
    Join(highlighted, " ")
  }

  /** A highlighted word is still a word: non-empty and free of whitespace. */
  lemma HighlightTokenIsWord(original: string, lowered: string, query: string, noColor: bool)
    requires |original| == |lowered| && original != [] && NoWhitespace(original)
    ensures var r := HighlightToken(original, lowered, query, noColor);
      r != [] && NoWhitespace(r)
  {
    var p := CutAtMatch(original, lowered, query);
    if p.Some? {
      var parts := p.value;
      NoWhitespaceConcat(parts.before, parts.matched, parts.after);
      NoWhitespaceConcat(parts.before, Mark(parts.matched), parts.after);
    }
  }

  /**
   * The displayed line, coloured or not, splits back into exactly the
   * highlighted words: the words of the line, each with its first match
   * marked when colour is on.
   */
  lemma HighlightWords(line: string, haystack: string, query: string, noColor: bool)
    requires Aligned(line, haystack)
    ensures var originals, lowereds := SplitWhitespace(line), SplitWhitespace(haystack);
      && |originals| == |lowereds|
      && (forall k :: 0 <= k < |originals| ==> |originals[k]| == |lowereds[k]|)
      && SplitWhitespace(Highlight(line, haystack, query, noColor))
         == HighlightTokens(originals, lowereds, query, noColor)
  {
    SplitAligned(line, haystack);
    var originals, lowereds := SplitWhitespace(line), SplitWhitespace(haystack);
    var highlighted := HighlightTokens(originals, lowereds, query, noColor);
    forall k | 0 <= k < |highlighted| ensures highlighted[k] != [] && NoWhitespace(highlighted[k]) {
      HighlightTokenIsWord(originals[k], lowereds[k], query, noColor);
    }
    SplitJoinRoundTrip(highlighted);
  }

  /**
   * The closure given to `filter_map`: the displayed line when its comparison
   * view holds the (already normalised) query, none otherwise.
   */
  function MatchLine(line: string, query: string, config: Config): (r: Option<string>)
    ensures r.Some? <==> Contains(ConditionalLowercase(line, config.ignoreCase), query)
  {
    var haystack := ConditionalLowercase(line, config.ignoreCase);
    if Contains(haystack, query) then Some(Highlight(line, haystack, query, config.noColor)) else None
  }

  /** `filter_map(MatchLine).collect()` over the lines, in order. */
  function SearchLines(lines: seq<string>, query: string, config: Config): (r: seq<string>)
    ensures |r| <= |lines|
    decreases |lines|
  {
    if lines == [] then []
    else
      var kept := SearchLines(lines[..|lines| - 1], query, config);
      match MatchLine(lines[|lines| - 1], query, config)
      case Some(h) => kept + [h]
      case None => kept
  }

  /** `search`: the displayed form of every line of `contents` that holds the query. */
  function Search(contents: string, config: Config): (r: seq<string>)
    ensures |r| <= |Lines(contents)|
  {
    var query := ConditionalLowercase(config.query, config.ignoreCase);
    SearchLines(Lines(contents), query, config)
  }
}

/**
 * The two unit tests of the library, `one_result` and `case_insensitive`,
 * and the case-sensitive variant of the second, as lemmas about `Search`.
 * Each is assembled from small steps: the lines of the text, the verdict on
 * each line, and the result over the list of lines.
 */
module Examples {
  import opened Wrappers
  import opened Text
  import opened Minigrep

  // ---------------------------------------------------------------------------
  // Steps shared by the examples
  // ---------------------------------------------------------------------------

  /** `Search` is `SearchLines` over the lines, with the normalised query. */
  lemma SearchUnfold(contents: string, config: Config, lines: seq<string>, query: string)
    requires Lines(contents) == lines
    requires ConditionalLowercase(config.query, config.ignoreCase) == query
    ensures Search(contents, config) == SearchLines(lines, query, config)
  {
  }

  /** The list a `filter_map` step contributes. */
  function Kept(o: Option<string>): seq<string>
  {
    match o
    case None => []
    case Some(h) => [h]
  }

  /** `SearchLines` over a non-empty list: the prefix, then the last line's contribution. */
  lemma SearchLinesSnoc(lines: seq<string>, query: string, config: Config)
    requires lines != []
    ensures SearchLines(lines, query, config)
         == SearchLines(lines[..|lines| - 1], query, config) + Kept(MatchLine(lines[|lines| - 1], query, config))
  {
  }

  /** `SearchLines` over two, three or four lines whose verdicts are known. */
  lemma SearchTwo(lines: seq<string>, query: string, config: Config, a: Option<string>, b: Option<string>)
    requires |lines| == 2
    requires MatchLine(lines[0], query, config) == a
    requires MatchLine(lines[1], query, config) == b
    ensures SearchLines(lines, query, config) == Kept(a) + Kept(b)
  {
    SearchLinesSnoc(lines, query, config);
    SearchLinesSnoc(lines[..1], query, config);
    assert lines[..1][..0] == [];
  }

  lemma SearchThree(lines: seq<string>, query: string, config: Config, a: Option<string>, b: Option<string>, c: Option<string>)
    requires |lines| == 3
    requires MatchLine(lines[0], query, config) == a
    requires MatchLine(lines[1], query, config) == b
    requires MatchLine(lines[2], query, config) == c
    ensures SearchLines(lines, query, config) == Kept(a) + Kept(b) + Kept(c)
  {
    SearchLinesSnoc(lines, query, config);
    SearchTwo(lines[..2], query, config, a, b);
  }

  lemma SearchFour(lines: seq<string>, query: string, config: Config, a: Option<string>, b: Option<string>, c: Option<string>, d: Option<string>)
    requires |lines| == 4
    requires MatchLine(lines[0], query, config) == a
    requires MatchLine(lines[1], query, config) == b
    requires MatchLine(lines[2], query, config) == c
    requires MatchLine(lines[3], query, config) == d
    ensures SearchLines(lines, query, config) == Kept(a) + Kept(b) + Kept(c) + Kept(d)
  {
    SearchLinesSnoc(lines, query, config);
    SearchThree(lines[..3], query, config, a, b, c);
  }

  /** A line whose comparison view lacks a character of the query is dropped. */
  lemma Dropped(line: string, query: string, config: Config, k: nat)
    requires k < |query| && query[k] !in ConditionalLowercase(line, config.ignoreCase)
    ensures MatchLine(line, query, config) == None
  {
    NotContainsChar(ConditionalLowercase(line, config.ignoreCase), query, k);
  }

  /** A matching line shown without colour, whose words are separated by single spaces, is kept as it is. */
  lemma KeptPlain(line: string, words: seq<string>, query: string, config: Config)
    requires config.noColor
    requires Contains(ConditionalLowercase(line, config.ignoreCase), query)
    requires line == Join(words, " ")
    requires forall k :: 0 <= k < |words| ==> words[k] != [] && NoWhitespace(words[k])
    ensures MatchLine(line, query, config) == Some(line)
  {
    SplitJoinRoundTrip(words);
  }

  /** Four parts joined: the separator between each consecutive pair. */
  lemma JoinFour(parts: seq<string>, sep: string)
    requires |parts| == 4
    ensures Join(parts, sep) == parts[0] + sep + parts[1] + sep + parts[2] + sep + parts[3]
  {
    assert parts[1..][1..] == parts[2..] && parts[2..][1..] == parts[3..];
    assert Join(parts[3..], sep) == parts[3];
    assert Join(parts[2..], sep) == parts[2] + sep + parts[3];
  }

  /** The search over four lines whose verdicts are known. */
  lemma SearchFourLines(contents: string, config: Config, lines: seq<string>, query: string,
                        a: Option<string>, b: Option<string>, c: Option<string>, d: Option<string>)
    requires Lines(contents) == lines && |lines| == 4
    requires ConditionalLowercase(config.query, config.ignoreCase) == query
    requires MatchLine(lines[0], query, config) == a
    requires MatchLine(lines[1], query, config) == b
    requires MatchLine(lines[2], query, config) == c
    requires MatchLine(lines[3], query, config) == d
    ensures Search(contents, config) == Kept(a) + Kept(b) + Kept(c) + Kept(d)
  {
    SearchFour(lines, query, config, a, b, c, d);
  }

  // ---------------------------------------------------------------------------
  // one_result
  // ---------------------------------------------------------------------------

  /** The text of `one_result` is its three lines joined by line feeds. */
  lemma OneResultText(contents: string, lines: seq<string>)
    requires contents == "Rust:\nsafe, fast, productive.\nPick three."
    requires lines == ["Rust:", "safe, fast, productive.", "Pick three."]
    ensures contents == Join(lines, "\n")
  {
    assert Join(lines[2..], "\n") == lines[2];
    assert Join(lines[1..], "\n") == lines[1] + "\n" + lines[2];
  }

  lemma OneResultLines(contents: string, lines: seq<string>)
    requires contents == "Rust:\nsafe, fast, productive.\nPick three."
    requires lines == ["Rust:", "safe, fast, productive.", "Pick three."]
    ensures Lines(contents) == lines
  {
    OneResultText(contents, lines);
    LinesOfJoin(lines);
  }

  /** "safe, fast, productive." holds "duct" and, with single spaces between its words, is shown as it is. */
  lemma OneResultKept(line: string, config: Config)
    requires line == "safe, fast, productive."
    requires config == Config("duct", "path", false, true)
    ensures MatchLine(line, "duct", config) == Some(line)
  {
    assert OccursAt(line, "duct", 15);
    var words := ["safe,", "fast,", "productive."];
    assert Join(words[2..], " ") == words[2];
    assert Join(words[1..], " ") == words[1] + " " + words[2];
    assert line == Join(words, " ");
    KeptPlain(line, words, "duct", config);
  }

  /** `one_result`: query "duct", case-sensitive, no colour. */
  lemma OneResult()
    ensures Search("Rust:\nsafe, fast, productive.\nPick three.", Config("duct", "path", false, true))
         == ["safe, fast, productive."]
  {
    OneResultFor("Rust:\nsafe, fast, productive.\nPick three.", Config("duct", "path", false, true),
      ["Rust:", "safe, fast, productive.", "Pick three."]);
  }

  lemma OneResultFor(contents: string, config: Config, lines: seq<string>)
    requires contents == "Rust:\nsafe, fast, productive.\nPick three."
    requires config == Config("duct", "path", false, true)
    requires lines == ["Rust:", "safe, fast, productive.", "Pick three."]
    ensures Search(contents, config) == [lines[1]]
  {
    OneResultLines(contents, lines);
    SearchUnfold(contents, config, lines, "duct");
    OneResultDropped(lines[0], config, 0);
    OneResultKept(lines[1], config);
    OneResultDropped(lines[2], config, 2);
    SearchThree(lines, "duct", config, None, Some(lines[1]), None);
  }

  /** "Rust:" and "Pick three." have no 'd'. */
  lemma OneResultDropped(line: string, config: Config, n: nat)
    requires n == 0 || n == 2
    requires line == ["Rust:", "safe, fast, productive.", "Pick three."][n]
    requires config == Config("duct", "path", false, true)
    ensures MatchLine(line, "duct", config) == None
  {
    Dropped(line, "duct", config, 0);
  }

  // ---------------------------------------------------------------------------
  // case_insensitive
  // ---------------------------------------------------------------------------

  /** The text of `case_insensitive` is its four lines joined by line feeds. */
  lemma CaseInsensitiveText(contents: string, lines: seq<string>)
    requires contents == "Rust:\nsafe, fast, productive.\nPick three.\nTrust me."
    requires lines == ["Rust:", "safe, fast, productive.", "Pick three.", "Trust me."]
    ensures contents == Join(lines, "\n")
  {
    JoinFour(lines, "\n");
    CaseInsensitiveHalves(contents);
    CaseInsensitiveFront("Rust:\nsafe, fast, productive.");
    CaseInsensitiveBack("\nPick three.\nTrust me.");
  }

  /**
   * The verifier does not decide the equality of the fifty-one-character text
   * with its lines joined in one step, so the text is first cut in two halves and
   * each half then into its lines and line feeds.
   */
  lemma CaseInsensitiveHalves(contents: string)
    requires contents == "Rust:\nsafe, fast, productive.\nPick three.\nTrust me."
    ensures contents == "Rust:\nsafe, fast, productive." + "\nPick three.\nTrust me."
  {
  }

  lemma CaseInsensitiveFront(front: string)
    requires front == "Rust:\nsafe, fast, productive."
    ensures front == "Rust:" + "\n" + "safe, fast, productive."
  {
  }

  lemma CaseInsensitiveBack(back: string)
    requires back == "\nPick three.\nTrust me."
    ensures back == "\n" + "Pick three." + "\n" + "Trust me."
  {
  }

  lemma CaseInsensitiveLines(contents: string, lines: seq<string>)
    requires contents == "Rust:\nsafe, fast, productive.\nPick three.\nTrust me."
    requires lines == ["Rust:", "safe, fast, productive.", "Pick three.", "Trust me."]
    ensures Lines(contents) == lines
  {
    CaseInsensitiveText(contents, lines);
    LinesOfJoin(lines);
  }

  /** The query "rUsT" normalised for a case-insensitive search. */
  lemma CaseInsensitiveQuery(config: Config)
    requires config == Config("rUsT", "path", true, true)
    ensures ConditionalLowercase(config.query, config.ignoreCase) == "rust"
  {
    assert Lower("rUsT") == "rust";
  }

  /** "Rust:" lowercases to "rust:", which starts with the query. */
  lemma CaseInsensitiveFirst(line: string, config: Config)
    requires line == "Rust:"
    requires config == Config("rUsT", "path", true, true)
    ensures MatchLine(line, "rust", config) == Some(line)
  {
    assert Lower(line) == "rust:";
    assert OccursAt(Lower(line), "rust", 0);
    assert line == Join([line], " ");
    KeptPlain(line, [line], "rust", config);
  }

  /** The only 'r' in "safe, fast, productive." is followed by 'o', not 'u'. */
  lemma CaseInsensitiveSecond(line: string, config: Config)
    requires line == "safe, fast, productive."
    requires config == Config("rUsT", "path", true, true)
    ensures MatchLine(line, "rust", config) == None
  {
    var head, tail := "safe, fast, p", "roductive.";
    assert Lower(line) == line == head + tail;
    NotContainsChar(tail[1..], "rust", 0);
    assert tail[0..4][1] == 'o';
    NotContainsAfterFirst(tail, "rust");
    NotContainsAppend(head, tail, "rust");
  }

  /** "Pick three." has no 'u' once lowercased. */
  lemma CaseInsensitiveThird(line: string, config: Config)
    requires line == "Pick three."
    requires config == Config("rUsT", "path", true, true)
    ensures MatchLine(line, "rust", config) == None
  {
    assert Lower(line) == "pick three.";
    Dropped(line, "rust", config, 1);
  }

  /** "Trust me." lowercases to "trust me.", which holds the query at position 1. */
  lemma CaseInsensitiveFourth(line: string, config: Config)
    requires line == "Trust me."
    requires config == Config("rUsT", "path", true, true)
    ensures MatchLine(line, "rust", config) == Some(line)
  {
    assert Lower(line) == "trust me.";
    assert OccursAt(Lower(line), "rust", 1);
    var words := ["Trust", "me."];
    assert Join(words[1..], " ") == words[1];
    assert line == Join(words, " ");
    KeptPlain(line, words, "rust", config);
  }

  /** `case_insensitive`: query "rUsT", ignoring case, no colour; the lines keep their casing. */
  lemma CaseInsensitive()
    ensures Search("Rust:\nsafe, fast, productive.\nPick three.\nTrust me.", Config("rUsT", "path", true, true))
         == ["Rust:", "Trust me."]
  {
    CaseInsensitiveLines("Rust:\nsafe, fast, productive.\nPick three.\nTrust me.",
      ["Rust:", "safe, fast, productive.", "Pick three.", "Trust me."]);
    CaseInsensitiveFor("Rust:\nsafe, fast, productive.\nPick three.\nTrust me.", Config("rUsT", "path", true, true),
      ["Rust:", "safe, fast, productive.", "Pick three.", "Trust me."]);
  }

  /** The search over the four lines of `case_insensitive`, from the verdicts on each line. */
  lemma CaseInsensitiveFor(contents: string, config: Config, lines: seq<string>)
    requires Lines(contents) == lines
    requires config == Config("rUsT", "path", true, true)
    requires lines == ["Rust:", "safe, fast, productive.", "Pick three.", "Trust me."]
    ensures Search(contents, config) == [lines[0], lines[3]]
  {
    CaseInsensitiveQuery(config);
    CaseInsensitiveFirst(lines[0], config);
    CaseInsensitiveSecond(lines[1], config);
    CaseInsensitiveThird(lines[2], config);
    CaseInsensitiveFourth(lines[3], config);
    SearchFourLines(contents, config, lines, "rust", Some(lines[0]), None, None, Some(lines[3]));
  }

  // ---------------------------------------------------------------------------
  // The same query, case-sensitive
  // ---------------------------------------------------------------------------

  lemma CaseSensitiveLines(contents: string, lines: seq<string>)
    requires contents == "Rust:\nTrust me."
    requires lines == ["Rust:", "Trust me."]
    ensures Lines(contents) == lines
  {
    assert contents == Join(lines, "\n");
    LinesOfJoin(lines);
  }

  /** Without ignoring case, "rUsT" occurs verbatim in neither line, so nothing is kept. */
  lemma CaseSensitiveFindsNothing()
    ensures Search("Rust:\nTrust me.", Config("rUsT", "path", false, true)) == []
  {
    CaseSensitiveFor("Rust:\nTrust me.", Config("rUsT", "path", false, true), ["Rust:", "Trust me."]);
  }

  lemma CaseSensitiveFor(contents: string, config: Config, lines: seq<string>)
    requires contents == "Rust:\nTrust me."
    requires config == Config("rUsT", "path", false, true)
    requires lines == ["Rust:", "Trust me."]
    ensures Search(contents, config) == []
  {
    CaseSensitiveLines(contents, lines);
    SearchUnfold(contents, config, lines, "rUsT");
    CaseSensitiveDropped(lines[0], config, 0);
    CaseSensitiveDropped(lines[1], config, 1);
    SearchTwo(lines, "rUsT", config, None, None);
  }

  /** Neither line holds an uppercase 'U'. */
  lemma CaseSensitiveDropped(line: string, config: Config, n: nat)
    requires n < 2 && line == ["Rust:", "Trust me."][n]
    requires config == Config("rUsT", "path", false, true)
    ensures MatchLine(line, "rUsT", config) == None
  {
    Dropped(line, "rUsT", config, 1);
  }
}

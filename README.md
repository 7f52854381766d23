# minigrep, modelled in Dafny

minigrep is a small command-line search tool. It takes a query and a file path
and prints every line of the file that contains the query. When the terminal
shows colour, the first occurrence in each word is drawn in bold red. This
project models the tool's library, `src/lib.rs`:

- `Config::build` turns the command-line arguments into a configuration. It is
  the method `Minigrep.Build`, with its `for` loop over the options. The two
  environment lookups, `IGNORE_CASE` and `NO_COLOR`, are passed in as booleans.
- `search` and `conditional_lowercase` are the functions `Minigrep.Search` and
  `Minigrep.ConditionalLowercase`. `search` is an iterator pipeline: split into
  lines, keep the matching lines, re-tokenise each kept line, highlight each
  token, and join the tokens again.

The files:

- `wrappers.dfy` holds `Option` and `Result`.
- `text.dfy` (module `Text`) models the parts of Rust's string library that
  `search` depends on:
  - `char::is_whitespace`, which tests the Unicode White_Space set;
  - lowercasing;
  - `str::find` and `str::contains`;
  - `str::lines`;
  - `str::split_whitespace`;
  - `join`.
- `minigrep.dfy` (module `Minigrep`) is the library itself.
- `properties.dfy` (module `SearchProperties`) proves what `search` promises
  about filtering, order and reconstruction.
- `examples.dfy` (module `Examples`) proves the library's two unit tests as
  lemmas, plus a case-sensitive variant of the second.

Modelling choices:

- Strings are sequences of Unicode scalar values. Positions are character
  indices. The source uses byte offsets into UTF-8, but under the ASCII
  lowercasing modelled here the two agree on every boundary the source slices
  at.
- Lowercasing changes only the ASCII letters `A`–`Z`. So a string and its
  lowercased form are `Aligned`: they have the same length, and whitespace at
  the same positions.
- The source cuts the original word at an offset found in the lowered word,
  and zips the words of the line with the words of its lowered form. Both are
  sound only for aligned strings. `Minigrep.Highlight` therefore requires
  `Aligned`, and `Minigrep.ConditionalLowercase` ensures it.
- The terminal colouring from the `colored` crate is modelled as
  `Mark(s) = ESC "[1;31m" + s + ESC "[0m"`. That is the escape pair
  `.red().bold()` produces when colouring is active.

`Config::build` ignores any option other than `--ignore-case` and
`--no-color` (src/lib.rs:25-29); the model does the same.

## Model

| member | source | states |
|---|---|---|
| Minigrep.Build | src/lib.rs:14-39 | It fails with "not enough arguments!" exactly when there are fewer than three arguments. Otherwise the query is `args[1]` and the path is `args[2]`. Each switch is on iff its environment variable is set or its flag occurs among `args[3..]`. |
| Minigrep.FlagOrderIrrelevant | src/lib.rs:24-30 | Two option lists with the same members give the same switch value. Order and repetition do not matter. |
| Minigrep.UnknownOptionIgnored | src/lib.rs:25-29 | Inserting an option other than the flag, anywhere in the list, leaves the switch unchanged. |
| Minigrep.ConditionalLowercase | src/lib.rs:91-97 | The result is aligned with the input. It is the input itself when case matters. When case is ignored, it is the per-character lowercase. |
| Minigrep.ConditionalLowercaseIdempotent | src/lib.rs:55-60 | Normalising a normalised text changes nothing, so the query and the lines are compared under the same normalisation. |
| Minigrep.Mark | src/lib.rs:72 | The marked form holds the matched part unchanged between the two escape sequences, and adds no whitespace. |
| Minigrep.MarkInjective | src/lib.rs:72 | Distinct matched parts get distinct marked forms. |
| Minigrep.CutAtMatch | src/lib.rs:67-70 | There are no parts exactly when the lowered word lacks the query. Otherwise before ++ matched ++ after is the original word, and the matched part has the query's length. The query occurs in the lowered word at `before`'s length, and that is its first occurrence. |
| Minigrep.HighlightToken | src/lib.rs:66-78 | A word without a match, or any word when colour is off, is returned unchanged. A matching word in colour is before ++ Mark(matched) ++ after, cut at the first match. |
| Minigrep.HighlightTokens | src/lib.rs:63-80 | Like `zip`, its length is the shorter list's length. Entry k is word k highlighted against lowered word k. |
| Minigrep.Highlight | src/lib.rs:63-81 | Without colour, the displayed line is the line's words joined by single spaces. |
| Minigrep.HighlightWords | src/lib.rs:63-81 | Coloured or not, the displayed line splits back into exactly the highlighted words: word k of the line cut at the first match in word k of the comparison view, its matched part marked when colour is on. |
| Minigrep.HighlightTokenIsWord | src/lib.rs:66-78 | A highlighted word is still non-empty and free of whitespace, so joining with spaces keeps the words apart. |
| Minigrep.MatchLine | src/lib.rs:59-87 | It yields a displayed line exactly when the line's comparison view contains the query. |
| Minigrep.SearchLines | src/lib.rs:57-88 | It yields at most one entry per line. |
| Minigrep.Search | src/lib.rs:54-89 | At most one entry per line of the text. Its full meaning is SearchProperties.SearchKeepsExactlyMatchingLines. |
| SearchProperties.MatchingIndices | src/lib.rs:57-62 | The matching positions are in range and strictly increasing. Every line at one of them matches, and every matching line's position is among them. |
| SearchProperties.SearchLinesSelects | src/lib.rs:57-88 | The filtered list has one entry per matching position. Entry k is the displayed form of the k-th matching line. |
| SearchProperties.SearchKeepsExactlyMatchingLines | src/lib.rs:54-89 | `search` keeps exactly the lines whose comparison view contains the equally normalised query. The kept lines appear once each, in their original order, each in its displayed form. |
| SearchProperties.EmptyExactlyWhenNoMatch | src/lib.rs:57-88 | The result is empty iff no line matches. |
| SearchProperties.CaseSensitiveIsVerbatim | src/lib.rs:91-96 | When case matters, a line is kept iff it contains the query verbatim. |
| SearchProperties.IgnoreCaseKeepsMore | src/lib.rs:55-62 | Every line kept case-sensitively is also kept when case is ignored. |
| SearchProperties.NoColorShowsWords | src/lib.rs:63-81 | Without colour, each output entry is its source line's words joined by single spaces. This holds whether or not case is ignored. |
| SearchProperties.DisplayedWords | src/lib.rs:63-81 | With or without colour, each output entry splits into exactly the highlighted words of its source line, in order. |
| SearchProperties.HighlightTokensUnchanged | src/lib.rs:76-78 | Words whose lowered form lacks the query pass through unchanged. |
| SearchProperties.QueryAcrossWordsMarksNothing | src/lib.rs:62-81 | A query containing whitespace marks nothing. The line is shown as its words joined by single spaces. |
| Text.IsWhitespace | src/lib.rs:64-65 | The Unicode White_Space set that `split_whitespace` splits on. No whitespace character is an uppercase letter, so lowercasing never changes one. |
| Text.AsciiWhitespace | src/lib.rs:64-65 | Among ASCII characters, exactly tab, line feed, vertical tab, form feed, carriage return and space are whitespace. |
| Text.LowerChar | src/lib.rs:93 | An uppercase ASCII letter becomes the lowercase letter 32 code points later; every other character is unchanged. The result is never uppercase, and whitespace stays whitespace. |
| Text.Lower | src/lib.rs:93 | The lowercased text is aligned with the original and is its per-character lowercase. |
| Text.Contains | src/lib.rs:62 | The empty query is contained in every text. A query longer than the text is never contained, and one of equal length only when equal. |
| Text.Find | src/lib.rs:67 | There is a position exactly when the query occurs. The query occurs there, and at no earlier position. |
| Text.ContainsLower | src/lib.rs:62 | A verbatim occurrence is also an occurrence after lowercasing both sides. |
| Text.Lines | src/lib.rs:58 | No line contains a line feed. The empty text, and only the empty text, has no lines. |
| Text.LinesRoundTrip | src/lib.rs:58 | For text without carriage returns, joining the lines with line feeds gives back the text, minus a final line feed. |
| Text.LinesOfJoin | src/lib.rs:58 | Lines free of line breaks, the last one non-empty, joined with line feeds split back into the same lines. |
| Text.LinesCrLf | src/lib.rs:58 | A "\r\n" ending breaks the line too, and its carriage return is not part of the line. |
| Text.LinesLast | src/lib.rs:58 | Text after the last line feed is a line as it is, a lone carriage return included. |
| Text.SplitWhitespace | src/lib.rs:64-65 | Every word is non-empty and free of whitespace. |
| Text.SplitDecompose | src/lib.rs:64-65 | Every text is its words interleaved with its whitespace runs: nothing but whitespace is dropped, and consecutive words are separated by whitespace. |
| Text.SplitInterleave | src/lib.rs:64-65 | Words separated by any non-empty whitespace runs, with any whitespace at either end, split back into the same words. |
| Text.SplitWhitespaceExactly | src/lib.rs:64-65 | The words of a text are a given list exactly when that list holds non-empty, whitespace-free words and the text is those words with whitespace runs around and between them. |
| Text.SplitAligned | src/lib.rs:64-65 | Two aligned texts split into the same number of words, pairwise aligned. This is what makes the zip and the cut sound. |
| Text.SplitLower | src/lib.rs:64-65 | The words of the lowercased line are the lowercased words of the line. |
| Text.SplitJoinRoundTrip | src/lib.rs:64-81 | Non-empty, whitespace-free words joined by single spaces split back into the same words. |
| Text.Join | src/lib.rs:81 | The empty list joins to the empty text, and a joined text starts with its first part. Its partners are Text.JoinLength and Text.SplitJoinRoundTrip. |
| Text.JoinLength | src/lib.rs:81 | Joining adds exactly one separator between each two consecutive parts. |
| Examples.OneResult | src/lib.rs:103-118 | Query "duct", case-sensitive, without colour: only "safe, fast, productive." is kept. |
| Examples.CaseInsensitive | src/lib.rs:120-138 | Query "rUsT" ignoring case, without colour: "Rust:" and "Trust me." are kept in their original casing. |
| Examples.CaseSensitiveFindsNothing | src/lib.rs:91-96 | The same query with case mattering keeps neither line. |

## Left out

- `run` (src/lib.rs:42-51) reads the file and prints the result lines. Both are I/O, and the model's result is the list `run` would print.
- `src/main.rs` is not part of this model. It collects the process arguments, prints a debug line, reports errors and exits: plumbing and I/O.
- Minigrep.Build: the two `env::var(...).is_ok()` lookups are boolean parameters, not a model of the environment. `is_ok` is also false for a variable that is set but is not valid Unicode.
- Minigrep.Mark: the `colored` crate decides at run time whether to emit escapes at all, from the environment and whether output is a terminal. The model always emits the bold-red escape pair, as the crate does when colouring is active.
- Text.Lower: Unicode `to_lowercase` is replaced by ASCII lowercasing. Unicode case mapping can change lengths or word boundaries, in which case the source's zip can misalign or its byte slice can panic. The model does not capture that, and the `Aligned` precondition of `Highlight` names the assumption the source relies on.
- SearchProperties.IgnoreCaseKeepsMore: holds only for lowercasing that maps each character on its own, as the model's ASCII lowercasing does. Rust's `to_lowercase` depends on context: it maps a word-final 'Σ' to 'ς' and any other 'Σ' to 'σ'. So the line "ΑΣΒ" holds the query "ΑΣ" verbatim, yet with case ignored the query becomes "ας", the line becomes "ασβ", and the line is dropped.
- Text.ContainsLower: the same limit; a verbatim occurrence survives lowercasing only when each character is lowercased on its own, which Rust's final-sigma rule breaks.
- Positions are character indices, not UTF-8 byte offsets. Slicing at a byte offset that is not a character boundary would panic in the source. That cannot arise under a length-preserving lowercase.
- The `Cow` borrowed-or-owned result of `conditional_lowercase` is an allocation choice with no observable effect. The model returns a plain string.

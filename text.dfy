/**
 * The string primitives of Rust's standard library that the search engine
 * relies on, over strings of Unicode scalar values (`seq<char>`):
 * `char::is_whitespace`, an ASCII `to_lowercase`, `str::find` and
 * `str::contains`, `str::lines`, `str::split_whitespace` and `join`.
 * Positions are character indices (see the README for how they relate to the
 * byte offsets of the source).
 */
module Text {
  import opened Wrappers

  // ---------------------------------------------------------------------------
  // Characters
  // ---------------------------------------------------------------------------

  /**
   * The Unicode White_Space property, which `char::is_whitespace` tests. No
   * whitespace character is an uppercase letter, so lowercasing keeps it.
   */
  predicate IsWhitespace(c: char): (b: bool)
    ensures b ==> !IsUpper(c)
  {
    ('\t' <= c <= '\r') || c == ' ' || c == '\U{85}' || c == '\U{A0}' || c == '\U{1680}'
    || ('\U{2000}' <= c <= '\U{200A}') || c == '\U{2028}' || c == '\U{2029}'
    || c == '\U{202F}' || c == '\U{205F}' || c == '\U{3000}'
  }

  /** Among ASCII characters, exactly tab, line feed, vertical tab, form feed, carriage return and space are whitespace. */
  lemma AsciiWhitespace(c: char)
    requires c as int < 0x80
    ensures IsWhitespace(c) <==> c == ' ' || c == '\t' || c == '\n' || c == '\U{B}' || c == '\U{C}' || c == '\r'
  {
  }

  predicate NoWhitespace(s: string)
  {
    forall i :: 0 <= i < |s| ==> !IsWhitespace(s[i])
  }

  /** Three strings concatenated are free of whitespace exactly when each of them is. */
  lemma NoWhitespaceConcat(a: string, b: string, c: string)
    ensures NoWhitespace(a + b + c) <==> NoWhitespace(a) && NoWhitespace(b) && NoWhitespace(c)
  {
    var s := a + b + c;
    assert forall i :: 0 <= i < |a| ==> s[i] == a[i];
    assert forall i :: 0 <= i < |b| ==> s[|a| + i] == b[i];
    assert forall i :: 0 <= i < |c| ==> s[|a| + |b| + i] == c[i];
  }

  predicate IsUpper(c: char)
  {
    'A' <= c <= 'Z'
  }

  /** Lowercase mapping of one character, restricted to ASCII letters. */
  function LowerChar(c: char): (d: char)
    ensures IsUpper(c) ==> d as int == c as int + ('a' as int - 'A' as int)
    ensures IsUpper(c) <==> d != c
    ensures !IsUpper(d)
    ensures IsWhitespace(d) == IsWhitespace(c)
  {
    if IsUpper(c) then (c as int + ('a' as int - 'A' as int)) as char else c
  }

  /**
   * Two strings are aligned when they have the same length and whitespace at
   * the same positions: then splitting both on whitespace gives tokens that
   * correspond one to one, with equal lengths.
   */
  predicate Aligned(a: string, b: string)
  {
    |a| == |b| && forall i :: 0 <= i < |a| ==> IsWhitespace(a[i]) == IsWhitespace(b[i])
  }

  /** `str::to_lowercase`, as a length-preserving per-character map. */
  function Lower(s: string): (r: string)
    ensures Aligned(s, r)
    ensures forall i :: 0 <= i < |r| ==> r[i] == LowerChar(s[i])
  {
    seq(|s|, i requires 0 <= i < |s| => LowerChar(s[i]))
  }

  lemma LowerIdempotent(s: string)
    ensures Lower(Lower(s)) == Lower(s)
  {
  }

  lemma LowerSlice(s: string, i: nat, j: nat)
    requires i <= j <= |s|
    ensures Lower(s)[i..j] == Lower(s[i..j])
  {
  }

  // ---------------------------------------------------------------------------
  // Substring search
  // ---------------------------------------------------------------------------

  /** `q` occurs in `s` starting at position `i`. */
  predicate OccursAt(s: string, q: string, i: int)
  {
    0 <= i && i + |q| <= |s| && s[i..i + |q|] == q
  }

  /** `str::contains`: `q` occurs somewhere in `s` (the empty string occurs everywhere). */
  predicate Contains(s: string, q: string): (b: bool)
    ensures q == [] ==> b
    ensures b ==> |q| <= |s|
    ensures |q| == |s| ==> (b <==> s == q)
  {
    assert q == [] ==> OccursAt(s, q, 0);
    assert |q| == |s| ==> (OccursAt(s, q, 0) <==> s == q);
    exists i :: 0 <= i <= |s| - |q| && OccursAt(s, q, i)
  }

  /** The first occurrence of `q` in `s` at or after position `from`. */
  function FindFrom(s: string, q: string, from: nat): (r: Option<nat>)
    ensures r.Some? ==> from <= r.value && OccursAt(s, q, r.value)
    ensures forall j :: from <= j && (r.None? || j < r.value) ==> !OccursAt(s, q, j)
    decreases |s| - from
  {
    if from + |q| > |s| then None
    else if s[from..from + |q|] == q then Some(from)
    else FindFrom(s, q, from + 1)
  }

  /** `str::find`: the position of the first occurrence of `q` in `s`, if any. */
  function Find(s: string, q: string): (r: Option<nat>)
    ensures r.Some? <==> Contains(s, q)
    ensures r.Some? ==> OccursAt(s, q, r.value)
    ensures r.Some? ==> forall j :: 0 <= j < r.value ==> !OccursAt(s, q, j)
  {
    FindFrom(s, q, 0)
  }

  /** A case-sensitive match is also a match after lowercasing both sides. */
  lemma ContainsLower(s: string, q: string)
    requires Contains(s, q)
    ensures Contains(Lower(s), Lower(q))
  {
    var i :| 0 <= i <= |s| - |q| && OccursAt(s, q, i);
    LowerSlice(s, i, i + |q|);
    assert OccursAt(Lower(s), Lower(q), i);
  }

  /** A query holding a whitespace character never occurs in a whitespace-free string. */
  lemma NotContainsWhitespace(s: string, q: string, k: nat)
    requires NoWhitespace(s)
    requires k < |q| && IsWhitespace(q[k])
    ensures !Contains(s, q)
  {
  }

  /** A query with a character that `s` lacks does not occur in `s`. */
  lemma NotContainsChar(s: string, q: string, k: nat)
    requires k < |q| && q[k] !in s
    ensures !Contains(s, q)
  {
  }

  /** No occurrence starts in a prefix that lacks the first character of the query. */
  lemma NotContainsAppend(a: string, b: string, q: string)
    requires q != [] && q[0] !in a
    requires !Contains(b, q)
    ensures !Contains(a + b, q)
  {
    var s := a + b;
    forall i | 0 <= i <= |s| - |q| ensures !OccursAt(s, q, i) {
      if i < |a| {
        assert s[i] == a[i];
      } else {
        assert b[i - |a|..i - |a| + |q|] == s[i..i + |q|];
        assert !OccursAt(b, q, i - |a|);
      }
    }
  }

  /** A query that does not occur at the start nor in the rest does not occur. */
  lemma NotContainsAfterFirst(s: string, q: string)
    requires s != [] && !OccursAt(s, q, 0)
    requires !Contains(s[1..], q)
    ensures !Contains(s, q)
  {
    forall i | 1 <= i <= |s| - |q| ensures !OccursAt(s, q, i) {
      assert s[1..][i - 1..i - 1 + |q|] == s[i..i + |q|];
      assert !OccursAt(s[1..], q, i - 1);
    }
  }

  // ---------------------------------------------------------------------------
  // Joining and splitting
  // ---------------------------------------------------------------------------

  /** `[T]::join(sep)`: the parts with `sep` between consecutive ones; it starts with the first part. */
  function Join(parts: seq<string>, sep: string): (r: string)
    ensures parts == [] ==> r == []
    ensures parts != [] ==> parts[0] <= r
    decreases |parts|
  {
    if |parts| == 0 then []
    else if |parts| == 1 then parts[0]
    else parts[0] + sep + Join(parts[1..], sep)
  }

  /** Joining adds exactly one separator between each two consecutive parts. */
  lemma {:induction false} JoinLength(parts: seq<string>, sep: string)
    ensures |Join(parts, sep)| == TotalLength(parts) + (if parts == [] then 0 else (|parts| - 1) * |sep|)
    decreases |parts|
  {
    if |parts| > 1 {
      JoinLength(parts[1..], sep);
    }
  }

  /** The number of characters in all the parts together. */
  function TotalLength(parts: seq<string>): nat
    decreases |parts|
  {
    if parts == [] then 0 else |parts[0]| + TotalLength(parts[1..])
  }

  /** The position of the first `c` in `s`, if any. */
  function IndexOf(s: string, c: char): (r: Option<nat>)
    ensures r.None? <==> c !in s
    ensures r.Some? ==> r.value < |s| && s[r.value] == c && c !in s[..r.value]
  {
    if s == [] then None
    else if s[0] == c then Some(0)
    else match IndexOf(s[1..], c)
      case None => None
      case Some(i) =>
        assert s[..i + 1] == [s[0]] + s[1..][..i];
        Some(i + 1)
  }

  /** Drops one trailing carriage return, as `str::lines` does before a line feed. */
  function TrimCr(line: string): string
  {
    if |line| > 0 && line[|line| - 1] == '\r' then line[..|line| - 1] else line
  }

  /**
   * `str::lines`: the pieces between line feeds. A line feed ends a line (so
   * a final line feed adds no empty line), a "\r\n" ending loses its "\r",
   * and the empty string has no lines.
   */
  function Lines(s: string): (lines: seq<string>)
    ensures forall k :: 0 <= k < |lines| ==> '\n' !in lines[k]
    ensures s == [] <==> lines == []
    decreases |s|
  {
    if s == [] then []
    else match IndexOf(s, '\n')
      case None => [s]
      case Some(i) => [TrimCr(s[..i])] + Lines(s[i + 1..])
  }

  predicate EndsWithNewline(s: string)
  {
    |s| > 0 && s[|s| - 1] == '\n'
  }

  /**
   * For text without carriage returns, `lines` loses nothing but the final
   * line feed: joining the lines with line feeds gives the text back.
   */
  lemma {:induction false} LinesRoundTrip(s: string)
    requires '\r' !in s
    ensures s == Join(Lines(s), "\n") + (if EndsWithNewline(s) then "\n" else "")
    decreases |s|
  {
    if s != [] && IndexOf(s, '\n').Some? {
      var i := IndexOf(s, '\n').value;
      var line, rest := s[..i], s[i + 1..];
      LinesStep(s, i);
      if rest == [] {
        assert s == line + "\n";
      } else {
        LinesRoundTrip(rest);
        assert s == line + "\n" + rest;
      }
    }
  }

  /** One step of `lines` on text without carriage returns. */
  lemma LinesStep(s: string, i: nat)
    requires '\r' !in s
    requires IndexOf(s, '\n') == Some(i)
    ensures s == s[..i] + "\n" + s[i + 1..]
    ensures '\r' !in s[i + 1..]
    ensures Lines(s) == [s[..i]] + Lines(s[i + 1..])
    ensures s[i + 1..] != [] ==> EndsWithNewline(s[i + 1..]) == EndsWithNewline(s)
    ensures s[i + 1..] != [] ==> Join(Lines(s), "\n") == s[..i] + "\n" + Join(Lines(s[i + 1..]), "\n")
  {
    var line, rest := s[..i], s[i + 1..];
    SplitAround(s, i);
    CrFreeParts(s, i);
    assert TrimCr(line) == line;
    LinesAt(s, i);
    if rest != [] {
      JoinCons(line, Lines(rest), "\n");
    }
  }

  /** Text around a line feed at position `i`. */
  lemma SplitAround(s: string, i: nat)
    requires i < |s| && s[i] == '\n'
    ensures s == s[..i] + "\n" + s[i + 1..]
    ensures s[i + 1..] != [] ==> EndsWithNewline(s[i + 1..]) == EndsWithNewline(s)
  {
    assert s == s[..i] + [s[i]] + s[i + 1..];
  }

  /** The pieces of text without carriage returns have none either. */
  lemma CrFreeParts(s: string, i: nat)
    requires '\r' !in s && i < |s|
    ensures '\r' !in s[..i] && '\r' !in s[i + 1..]
  {
    var rest := s[i + 1..];
    forall j | 0 <= j < |rest| ensures rest[j] != '\r' {
      assert rest[j] == s[i + 1 + j];
    }
  }

  /** `lines` cuts at the first line feed. */
  lemma LinesAt(s: string, i: nat)
    requires IndexOf(s, '\n') == Some(i)
    ensures Lines(s) == [TrimCr(s[..i])] + Lines(s[i + 1..])
  {
  }

  /** Joining a part in front of a non-empty list puts one separator after it. */
  lemma JoinCons(part: string, parts: seq<string>, sep: string)
    requires parts != []
    ensures Join([part] + parts, sep) == part + sep + Join(parts, sep)
  {
    assert ([part] + parts)[1..] == parts;
  }

  /**
   * The other direction: lines without line breaks, the last one non-empty,
   * joined with line feeds are split back into the same lines.
   */
  lemma {:induction false} LinesOfJoin(ls: seq<string>)
    requires forall k :: 0 <= k < |ls| ==> '\n' !in ls[k] && '\r' !in ls[k]
    requires |ls| > 0 ==> ls[|ls| - 1] != []
    ensures Lines(Join(ls, "\n")) == ls
    decreases |ls|
  {
    if |ls| >= 2 {
      var first, rest := ls[0], Join(ls[1..], "\n");
      var s := first + "\n" + rest;
      assert Join(ls, "\n") == s;
      assert s[..|first|] == first;
      assert s[|first|] == '\n';
      assert IndexOf(s, '\n') == Some(|first|);
      assert s[|first| + 1..] == rest;
      assert TrimCr(first) == first;
      LinesOfJoin(ls[1..]);
    }
  }

  /** Length of the run of non-whitespace characters at the start of `s`. */
  function TokenLength(s: string): (n: nat)
    ensures n <= |s| && NoWhitespace(s[..n])
    ensures n < |s| ==> IsWhitespace(s[n])
    ensures s != [] && !IsWhitespace(s[0]) ==> n > 0
  {
    if s == [] || IsWhitespace(s[0]) then 0
    else
      var n := 1 + TokenLength(s[1..]);
      assert s[..n] == [s[0]] + s[1..][..n - 1];
      n
  }

  /**
   * `str::split_whitespace`: the maximal runs of non-whitespace characters,
   * in order; it never yields an empty token.
   */
  function SplitWhitespace(s: string): (tokens: seq<string>)
    ensures forall k :: 0 <= k < |tokens| ==> tokens[k] != [] && NoWhitespace(tokens[k])
    decreases |s|
  {
    if s == [] then []
    else if IsWhitespace(s[0]) then SplitWhitespace(s[1..])
    else
      var n := TokenLength(s);
      [s[..n]] + SplitWhitespace(s[n..])
  }

  /** Splitting two aligned strings gives aligned tokens, pair by pair. */
  lemma {:induction false} SplitAligned(a: string, b: string)
    requires Aligned(a, b)
    ensures |SplitWhitespace(a)| == |SplitWhitespace(b)|
    ensures forall k :: 0 <= k < |SplitWhitespace(a)| ==>
      Aligned(SplitWhitespace(a)[k], SplitWhitespace(b)[k])
    decreases |a|
  {
    if a != [] {
      if IsWhitespace(a[0]) {
        SplitAligned(a[1..], b[1..]);
      } else {
        var n := TokenLengthAligned(a, b);
        SplitAligned(a[n..], b[n..]);
      }
    }
  }

  lemma {:induction false} TokenLengthAligned(a: string, b: string) returns (n: nat)
    requires Aligned(a, b)
    ensures n == TokenLength(a) == TokenLength(b)
    decreases |a|
  {
    if a == [] || IsWhitespace(a[0]) {
      n := 0;
    } else {
      var m := TokenLengthAligned(a[1..], b[1..]);
      n := m + 1;
    }
  }

  /** The tokens of a lowercased string are the lowercased tokens. */
  lemma {:induction false} SplitLower(s: string)
    ensures SplitWhitespace(Lower(s)) == seq(|SplitWhitespace(s)|, k requires 0 <= k < |SplitWhitespace(s)| => Lower(SplitWhitespace(s)[k]))
    decreases |s|
  {
    var t := SplitWhitespace(s);
    if s != [] {
      if IsWhitespace(s[0]) {
        assert Lower(s)[1..] == Lower(s[1..]);
        SplitLower(s[1..]);
      } else {
        var n := TokenLengthAligned(s, Lower(s));
        assert Lower(s)[..n] == Lower(s[..n]);
        assert Lower(s)[n..] == Lower(s[n..]);
        SplitLower(s[n..]);
      }
    }
  }

  /**
   * Joining non-empty, whitespace-free tokens with single spaces and splitting
   * the result again gives the tokens back.
   */
  lemma {:induction false} SplitJoinRoundTrip(tokens: seq<string>)
    requires forall k :: 0 <= k < |tokens| ==> tokens[k] != [] && NoWhitespace(tokens[k])
    ensures SplitWhitespace(Join(tokens, " ")) == tokens
    decreases |tokens|
  {
    if |tokens| == 1 {
      SplitToken(tokens[0], []);
      assert tokens[0] + [] == tokens[0];
    } else if |tokens| > 1 {
      var rest := Join(tokens[1..], " ");
      assert Join(tokens, " ") == tokens[0] + (" " + rest);
      SplitToken(tokens[0], " " + rest);
      assert (" " + rest)[1..] == rest;
      SplitJoinRoundTrip(tokens[1..]);
    }
  }

  /** Splitting a token followed by whitespace or nothing. */
  lemma SplitToken(t: string, rest: string)
    requires t != [] && NoWhitespace(t)
    requires rest == [] || IsWhitespace(rest[0])
    ensures SplitWhitespace(t + rest) == [t] + SplitWhitespace(rest)
  {
    var s := t + rest;
    TokenLengthPrefix(t, rest);
    assert s[..|t|] == t && s[|t|..] == rest;
  }

  lemma {:induction false} TokenLengthPrefix(t: string, rest: string)
    requires NoWhitespace(t)
    requires rest == [] || IsWhitespace(rest[0])
    ensures TokenLength(t + rest) == |t|
    decreases |t|
  {
    if t != [] {
      assert (t + rest)[1..] == t[1..] + rest;
      TokenLengthPrefix(t[1..], rest);
    } else {
      assert t + rest == rest;
    }
  }

  /** Every character of `s` is whitespace (the empty string included). */
  predicate AllWhitespace(s: string)
  {
    forall i :: 0 <= i < |s| ==> IsWhitespace(s[i])
  }

  /** Non-empty, whitespace-free words, as `split_whitespace` yields them. */
  predicate Words(tokens: seq<string>)
  {
    forall k :: 0 <= k < |tokens| ==> tokens[k] != [] && NoWhitespace(tokens[k])
  }

  /**
   * Whitespace runs to put around `n` words: one before each word and one
   * after the last. The runs between two words are not empty; the first and
   * the last may be.
   */
  predicate Gaps(gaps: seq<string>, n: nat)
  {
    && |gaps| == n + 1
    && (forall k :: 0 <= k < |gaps| ==> AllWhitespace(gaps[k]))
    && (forall k :: 0 < k < n ==> gaps[k] != [])
  }

  /** `gaps[0] + tokens[0] + gaps[1] + ... + tokens[n - 1] + gaps[n]`. */
  function Interleave(gaps: seq<string>, tokens: seq<string>): string
    requires |gaps| == |tokens| + 1
    decreases |tokens|
  {
    if tokens == [] then gaps[0]
    else gaps[0] + tokens[0] + Interleave(gaps[1..], tokens[1..])
  }

  /** Leading whitespace yields no word. */
  lemma {:induction false} SplitSkipWhitespace(w: string, rest: string)
    requires AllWhitespace(w)
    ensures SplitWhitespace(w + rest) == SplitWhitespace(rest)
    decreases |w|
  {
    if w != [] {
      assert (w + rest)[1..] == w[1..] + rest;
      SplitSkipWhitespace(w[1..], rest);
    } else {
      assert w + rest == rest;
    }
  }

  /**
   * Words separated by any non-empty whitespace runs, with any whitespace at
   * either end, split back into the same words.
   */
  lemma {:induction false} SplitInterleave(gaps: seq<string>, tokens: seq<string>)
    requires Words(tokens) && Gaps(gaps, |tokens|)
    ensures SplitWhitespace(Interleave(gaps, tokens)) == tokens
    decreases |tokens|
  {
    if tokens == [] {
      SplitSkipWhitespace(gaps[0], []);
      assert gaps[0] + [] == gaps[0];
    } else {
      var rest := Interleave(gaps[1..], tokens[1..]);
      assert Interleave(gaps, tokens) == gaps[0] + (tokens[0] + rest);
      SplitSkipWhitespace(gaps[0], tokens[0] + rest);
      assert rest == [] || IsWhitespace(rest[0]) by {
        if tokens[1..] != [] {
          assert gaps[1..][0] != [];
          assert rest[0] == gaps[1..][0][0];
        }
      }
      SplitToken(tokens[0], rest);
      SplitInterleave(gaps[1..], tokens[1..]);
    }
  }

  /** A whitespace character in front of an interleaving joins its first run. */
  lemma GapsFront(c: char, gs: seq<string>, tokens: seq<string>)
    requires IsWhitespace(c) && Gaps(gs, |tokens|)
    ensures var gaps := [[c] + gs[0]] + gs[1..];
      Gaps(gaps, |tokens|) && Interleave(gaps, tokens) == [c] + Interleave(gs, tokens)
  {
    var gaps := [[c] + gs[0]] + gs[1..];
    assert gaps[1..] == gs[1..];
    assert forall k :: 0 < k < |gaps| ==> gaps[k] == gs[k];
  }

  /** The first character of an interleaving that holds a non-empty word. */
  lemma InterleaveHead(gaps: seq<string>, tokens: seq<string>)
    requires |gaps| == |tokens| + 1 && tokens != [] && tokens[0] != []
    ensures Interleave(gaps, tokens) != []
    ensures Interleave(gaps, tokens)[0] == if gaps[0] != [] then gaps[0][0] else tokens[0][0]
  {
  }

  /** A word in front of an interleaving that starts with whitespace, if anything. */
  lemma GapsWord(word: string, gs: seq<string>, more: seq<string>)
    requires Gaps(gs, |more|) && Words(more)
    requires var rest := Interleave(gs, more); rest == [] || IsWhitespace(rest[0])
    ensures var gaps := [[]] + gs;
      Gaps(gaps, |more| + 1) && Interleave(gaps, [word] + more) == word + Interleave(gs, more)
  {
    var gaps, tokens := [[]] + gs, [word] + more;
    assert gaps[1..] == gs && tokens[1..] == more;
    if more != [] {
      InterleaveHead(gs, more);
    }
    assert forall k :: 0 < k < |gaps| ==> gaps[k] == gs[k - 1];
  }

  /** The whitespace runs of `s` around its words. */
  function GapsOf(s: string): (gaps: seq<string>)
    ensures |gaps| == |SplitWhitespace(s)| + 1
    decreases |s|
  {
    if s == [] then [[]]
    else if IsWhitespace(s[0]) then
      var gs := GapsOf(s[1..]);
      [[s[0]] + gs[0]] + gs[1..]
    else [[]] + GapsOf(s[TokenLength(s)..])
  }

  /**
   * Every string is its words interleaved with its whitespace runs: nothing
   * but whitespace is dropped, and consecutive words were apart in `s`.
   */
  lemma {:induction false} SplitDecompose(s: string)
    ensures Gaps(GapsOf(s), |SplitWhitespace(s)|)
    ensures s == Interleave(GapsOf(s), SplitWhitespace(s))
    decreases |s|
  {
    var tokens := SplitWhitespace(s);
    if s == [] {
    } else if IsWhitespace(s[0]) {
      SplitDecompose(s[1..]);
      GapsFront(s[0], GapsOf(s[1..]), tokens);
      assert s == [s[0]] + s[1..];
    } else {
      var n := TokenLength(s);
      var word, rest := s[..n], s[n..];
      var more := SplitWhitespace(rest);
      assert tokens == [word] + more;
      SplitDecompose(rest);
      GapsWord(word, GapsOf(rest), more);
      assert s == word + rest;
    }
  }

  /**
   * `split_whitespace` characterised: its result is `tokens` exactly when
   * `tokens` are words and `s` is those words interleaved with whitespace.
   */
  lemma SplitWhitespaceExactly(s: string, tokens: seq<string>)
    ensures SplitWhitespace(s) == tokens <==>
      Words(tokens) && exists gaps :: Gaps(gaps, |tokens|) && s == Interleave(gaps, tokens)
  {
    SplitDecompose(s);
    if SplitWhitespace(s) == tokens {
      assert Gaps(GapsOf(s), |tokens|) && s == Interleave(GapsOf(s), tokens);
    }
    if Words(tokens) && exists gaps :: Gaps(gaps, |tokens|) && s == Interleave(gaps, tokens) {
      var gaps :| Gaps(gaps, |tokens|) && s == Interleave(gaps, tokens);
      SplitInterleave(gaps, tokens);
    }
  }

  /** A "\r\n" ending is a line break too, and the carriage return is dropped. */
  lemma LinesCrLf(a: string, b: string)
    requires '\n' !in a
    ensures Lines(a + "\r\n" + b) == [a] + Lines(b)
  {
    var s := a + "\r\n" + b;
    var i := |a| + 1;
    assert s[..i] == a + "\r" && s[i] == '\n';
    assert '\n' !in s[..i];
    assert IndexOf(s, '\n') == Some(i);
    assert s[i + 1..] == b;
    assert TrimCr(a + "\r") == a;
  }

  /** The text after the last line feed is a line as it is, carriage returns included. */
  lemma LinesLast(s: string)
    requires s != [] && '\n' !in s
    ensures Lines(s) == [s]
  {
  }
}

/** Verification of `path:line` anchors: grouped by file in the server, one by one in the scorer. */
module Anchors {
  import opened Text

  const ANCHOR_WINDOW_LINES: nat := 2

  datatype AnchorItem = AnchorItem(path: string, line: nat, symbol: Option<string>)

  datatype AnchorResult = AnchorResult(
    path: string, line: nat, symbol: Option<string>,
    exists_: bool, inRange: bool, symbolFound: Option<bool>, windowLine: Option<nat>)

  // ----- Word-boundary search -----

  /** The word characters of the regular-expression engine; a newline is none. */
  type WordChars = f: char -> bool | !f(NL) witness (c: char) => false

  predicate WordAt(isWord: WordChars, text: string, i: int) {
    0 <= i < |text| && isWord(text[i])
  }

  /** `\b` matches at offset `i`. */
  predicate Boundary(isWord: WordChars, text: string, i: int) {
    WordAt(isWord, text, i - 1) != WordAt(isWord, text, i)
  }

  predicate MatchAt(isWord: WordChars, text: string, symbol: string, i: nat) {
    && i + |symbol| <= |text| && text[i..i + |symbol|] == symbol
    && Boundary(isWord, text, i) && Boundary(isWord, text, i + |symbol|)
  }

  /** `\bSYMBOL\b` is found in `text`. */
  predicate IsMatch(isWord: WordChars, text: string, symbol: string) {
    exists i :: 0 <= i <= |text| && MatchAt(isWord, text, symbol, i)
  }

  // ----- What a match means: a whole word -----

  /** Number of leading word characters. */
  function WordLen(isWord: WordChars, s: string): (n: nat)
    ensures n <= |s| && (forall i :: 0 <= i < n ==> isWord(s[i])) && (n < |s| ==> !isWord(s[n]))
  {
    if s == [] || !isWord(s[0]) then 0 else 1 + WordLen(isWord, s[1..])
  }

  /** The words of a text: its longest runs of word characters. */
  function Words(isWord: WordChars, s: string): seq<string>
    decreases |s|
  {
    if s == [] then []
    else if isWord(s[0]) then
      var n := WordLen(isWord, s);
      [s[..n]] + Words(isWord, s[n..])
    else Words(isWord, s[1..])
  }

  ghost predicate IsIdentifier(isWord: WordChars, symbol: string) {
    symbol != [] && forall k :: 0 <= k < |symbol| ==> isWord(symbol[k])
  }

  /** The symbol stands at `i` with no word character on either side. */
  predicate StandsAt(isWord: WordChars, text: string, symbol: string, i: nat) {
    && i + |symbol| <= |text| && text[i..i + |symbol|] == symbol
    && !WordAt(isWord, text, i - 1) && !WordAt(isWord, text, i + |symbol|)
  }

  ghost predicate Stands(isWord: WordChars, text: string, symbol: string) {
    exists i: nat :: StandsAt(isWord, text, symbol, i)
  }

  lemma MatchStands(isWord: WordChars, text: string, symbol: string, i: nat)
    requires IsIdentifier(isWord, symbol)
    ensures MatchAt(isWord, text, symbol, i) <==> StandsAt(isWord, text, symbol, i)
  {
    if i + |symbol| <= |text| && text[i..i + |symbol|] == symbol {
      assert text[i] == symbol[0] && text[i + |symbol| - 1] == symbol[|symbol| - 1];
    }
  }

  /** Away from the cut, a suffix of the text shows the symbol at the same places. */
  lemma StandsInSuffix(isWord: WordChars, text: string, symbol: string, d: nat, j: nat)
    requires d <= |text| && (j > 0 || !WordAt(isWord, text, d - 1))
    ensures StandsAt(isWord, text, symbol, d + j) <==> StandsAt(isWord, text[d..], symbol, j)
  {
    var u := text[d..];
    assert d + j + |symbol| <= |text| ==> text[d + j..d + j + |symbol|] == u[j..j + |symbol|];
    assert forall k :: k >= 0 ==> WordAt(isWord, text, d + k) == WordAt(isWord, u, k);
    assert d + j - 1 == d + (j - 1);
  }

  lemma StandsOnWord(isWord: WordChars, text: string, symbol: string, i: nat)
    requires IsIdentifier(isWord, symbol) && StandsAt(isWord, text, symbol, i)
    ensures i < |text| && isWord(text[i])
    ensures forall k :: i <= k < i + |symbol| ==> isWord(text[k])
  {
    forall k | i <= k < i + |symbol| ensures isWord(text[k]) {
      assert text[k] == text[i..i + |symbol|][k - i];
    }
  }

  /** At the head of a text that starts with a word only that word can stand. */
  lemma StandsInFirstWord(isWord: WordChars, text: string, symbol: string, i: nat)
    requires IsIdentifier(isWord, symbol) && text != [] && isWord(text[0]) && i <= WordLen(isWord, text)
    ensures StandsAt(isWord, text, symbol, i) <==> i == 0 && symbol == text[..WordLen(isWord, text)]
  {
    var n := WordLen(isWord, text);
    if StandsAt(isWord, text, symbol, i) {
      StandsOnWord(isWord, text, symbol, i);
      assert i == 0;
      assert |symbol| == n;
    }
  }

  lemma {:induction false} StandsIffWord(isWord: WordChars, text: string, symbol: string)
    requires IsIdentifier(isWord, symbol)
    ensures Stands(isWord, text, symbol) <==> symbol in Words(isWord, text)
    decreases |text|
  {
    hide StandsAt, WordAt, WordLen, IsIdentifier;
    if text == [] {
      if i: nat :| StandsAt(isWord, text, symbol, i) {
        StandsOnWord(isWord, text, symbol, i);
      }
    } else {
      var d := if isWord(text[0]) then WordLen(isWord, text) else 1;
      StandsIffWord(isWord, text[d..], symbol);
      if i: nat :| StandsAt(isWord, text, symbol, i) {
        StandsOnWord(isWord, text, symbol, i);
        if isWord(text[0]) && i <= d {
          StandsInFirstWord(isWord, text, symbol, i);
        } else {
          assert i >= d;
          CutBeforeWord(isWord, text, d);
          StandsInSuffix(isWord, text, symbol, d, i - d);
        }
      }
      if isWord(text[0]) {
        StandsInFirstWord(isWord, text, symbol, 0);
      }
      if j: nat :| StandsAt(isWord, text[d..], symbol, j) {
        StandsOnWord(isWord, text[d..], symbol, j);
        CutBeforeWord(isWord, text, d);
        StandsInSuffix(isWord, text, symbol, d, j);
      }
    }
  }

  lemma CutBeforeWord(isWord: WordChars, text: string, d: nat)
    requires 0 < d <= |text|
    ensures !isWord(text[d - 1]) ==> !WordAt(isWord, text, d - 1)
  {
  }

  /** A raw substring hit does not verify: an identifier matches exactly when it is one of the words of the
      text. */
  lemma MatchIffWord(isWord: WordChars, text: string, symbol: string)
    requires IsIdentifier(isWord, symbol)
    ensures IsMatch(isWord, text, symbol) <==> symbol in Words(isWord, text)
  {
    hide MatchAt, StandsAt, IsIdentifier, Words;
    StandsIffWord(isWord, text, symbol);
    if i: nat :| StandsAt(isWord, text, symbol, i) {
      MatchStands(isWord, text, symbol, i);
      StandsOnWord(isWord, text, symbol, i);
      assert 0 <= i <= |text|;
    }
    if i :| 0 <= i <= |text| && MatchAt(isWord, text, symbol, i) {
      MatchStands(isWord, text, symbol, i);
    }
  }

  /** `"\n".join(lines)`. */
  function Join(lines: seq<string>): string {
    if lines == [] then [] else if |lines| == 1 then lines[0] else lines[0] + [NL] + Join(lines[1..])
  }

  lemma MatchBeforeNewline(isWord: WordChars, a: string, b: string, symbol: string, i: nat)
    requires NL !in symbol && i + |symbol| <= |a|
    ensures MatchAt(isWord, a + [NL] + b, symbol, i) <==> MatchAt(isWord, a, symbol, i)
  {
    var s := a + [NL] + b;
    assert s[i..i + |symbol|] == a[i..i + |symbol|];
    assert forall k :: k <= |a| ==> WordAt(isWord, s, k) == WordAt(isWord, a, k);
  }

  lemma SliceAfter(x: string, b: string, j: nat, n: nat)
    ensures j + n <= |b| ==> (x + b)[|x| + j..|x| + j + n] == b[j..j + n]
  {
    if j + n <= |b| {
      var u, v := (x + b)[|x| + j..|x| + j + n], b[j..j + n];
      assert forall k :: 0 <= k < n ==> u[k] == v[k];
    }
  }

  lemma MatchAfterNewline(isWord: WordChars, a: string, b: string, symbol: string, j: nat)
    requires NL !in symbol
    ensures MatchAt(isWord, a + [NL] + b, symbol, |a| + 1 + j) <==> MatchAt(isWord, b, symbol, j)
  {
    var s, d := a + [NL] + b, |a| + 1;
    SliceAfter(a + [NL], b, j, |symbol|);
    forall k | k >= -1 ensures WordAt(isWord, s, d + k) == WordAt(isWord, b, k) {
      if k >= 0 && k < |b| {
        assert s[d + k] == b[k];
      } else if k == -1 {
        assert s[d + k] == NL;
      }
    }
  }

  /** A symbol without a newline matches across a join exactly when it matches on one side. */
  lemma MatchAcrossJoin(isWord: WordChars, a: string, b: string, symbol: string)
    requires NL !in symbol
    ensures IsMatch(isWord, a + [NL] + b, symbol) <==> IsMatch(isWord, a, symbol) || IsMatch(isWord, b, symbol)
  {
    hide MatchAt;
    var s := a + [NL] + b;
    if i :| 0 <= i <= |s| && MatchAt(isWord, s, symbol, i) {
      MatchAvoidsNewline(isWord, a, b, symbol, i);
      if i + |symbol| <= |a| {
        MatchBeforeNewline(isWord, a, b, symbol, i);
      } else {
        MatchAfterNewline(isWord, a, b, symbol, i - |a| - 1);
        assert MatchAt(isWord, b, symbol, i - |a| - 1);
      }
    }
    if i :| 0 <= i <= |a| && MatchAt(isWord, a, symbol, i) {
      MatchBound(isWord, a, symbol, i);
      MatchBeforeNewline(isWord, a, b, symbol, i);
    }
    if j :| 0 <= j <= |b| && MatchAt(isWord, b, symbol, j) {
      MatchAfterNewline(isWord, a, b, symbol, j);
      assert MatchAt(isWord, s, symbol, |a| + 1 + j);
    }
  }

  lemma MatchBound(isWord: WordChars, text: string, symbol: string, i: nat)
    requires MatchAt(isWord, text, symbol, i)
    ensures i + |symbol| <= |text|
  {
  }

  lemma MatchAvoidsNewline(isWord: WordChars, a: string, b: string, symbol: string, i: nat)
    requires NL !in symbol && MatchAt(isWord, a + [NL] + b, symbol, i)
    ensures i + |symbol| <= |a| || i > |a|
  {
    var s := a + [NL] + b;
    assert s[|a|] == NL;
    forall k | i <= k < i + |symbol| ensures s[k] in symbol {
      assert s[k] == s[i..i + |symbol|][k - i];
    }
  }

  /** Searching the joined window is searching its lines. */
  lemma {:induction false} JoinedSearchIsLineSearch(isWord: WordChars, lines: seq<string>, symbol: string)
    requires NL !in symbol && lines != []
    ensures IsMatch(isWord, Join(lines), symbol) <==> exists k :: 0 <= k < |lines| && IsMatch(isWord, lines[k], symbol)
  {
    hide IsMatch;
    if |lines| > 1 {
      var rest := lines[1..];
      MatchAcrossJoin(isWord, lines[0], Join(rest), symbol);
      JoinedSearchIsLineSearch(isWord, rest, symbol);
      if k :| 0 <= k < |rest| && IsMatch(isWord, rest[k], symbol) {
        assert lines[k + 1] == rest[k];
      }
      if k :| 0 <= k < |lines| && IsMatch(isWord, lines[k], symbol) {
        assert k > 0 ==> rest[k - 1] == lines[k];
      }
    }
  }

  // ----- Lines -----

  function StripCr(line: string): string {
    if line != [] && line[|line| - 1] == CR then line[..|line| - 1] else line
  }

  /** `str::lines`: a line ends with "\n" or "\r\n". */
  function ServerLines(s: string): seq<string> {
    var n := FirstNewline(s);
    if s == [] then [] else if n == |s| then [s] else [StripCr(s[..n])] + ServerLines(s[n + 1..])
  }

  /** The characters at which `str.splitlines` breaks a line. */
  predicate IsBreak(c: char) {
    var n := c as int;
    0x0A <= n <= 0x0D || 0x1C <= n <= 0x1E || n == 0x85 || n == 0x2028 || n == 0x2029
  }

  /** The ten characters that end a line there, one by one. */
  lemma BreaksAre(c: char)
    ensures IsBreak(c) <==> c in {
      '\n', '\U{0B}', '\U{0C}', '\r', '\U{1C}', '\U{1D}', '\U{1E}', '\U{85}', '\U{2028}', '\U{2029}'}
  {
  }

  /** Offset of the first line break, or the length. */
  function FirstBreak(s: string): (n: nat)
    ensures n <= |s| && (n < |s| ==> IsBreak(s[n]))
    ensures forall i :: 0 <= i < n ==> !IsBreak(s[i])
  {
    if s == [] || IsBreak(s[0]) then 0 else 1 + FirstBreak(s[1..])
  }

  predicate CrlfAt(s: string, i: int) {
    0 <= i && i + 1 < |s| && s[i] == CR && s[i + 1] == NL
  }

  /** Where the line after the break at `n` starts. */
  function NextLine(s: string, n: nat): (next: nat)
    requires n < |s|
    ensures n < next <= |s|
  {
    if CrlfAt(s, n) then n + 2 else n + 1
  }

  /** `read_text().splitlines()`; the newline translation on reading changes no line. */
  function ScorerLines(s: string): seq<string> {
    var n := FirstBreak(s);
    if s == [] then []
    else if n == |s| then [s]
    else [s[..n]] + ScorerLines(s[NextLine(s, n)..])
  }

  /** The only line breaks are "\n" and "\r\n". */
  predicate PlainBreaks(s: string) {
    forall i :: 0 <= i < |s| && IsBreak(s[i]) ==> s[i] == NL || CrlfAt(s, i)
  }

  lemma FirstNewlineAt(s: string, n: nat)
    requires n < |s| && s[n] == NL && forall i :: 0 <= i < n ==> s[i] != NL
    ensures FirstNewline(s) == n
    ensures ServerLines(s) == [StripCr(s[..n])] + ServerLines(s[n + 1..])
  {
    assert FirstNewline(s) == n;
  }

  lemma FirstBreakStep(s: string)
    requires FirstBreak(s) < |s|
    ensures var n := FirstBreak(s);
      ScorerLines(s) == [s[..n]] + ScorerLines(s[NextLine(s, n)..])
  {
    hide FirstBreak, NextLine, IsBreak;
  }

  /** What is stripped from a line that reaches just up to, or just past, offset `n`. */
  lemma Stripped(s: string, n: nat)
    requires n < |s|
    ensures n == 0 || s[n - 1] != CR ==> StripCr(s[..n]) == s[..n]
    ensures s[n] == CR ==> StripCr(s[..n + 1]) == s[..n]
    ensures s[n] != CR ==> StripCr(s[..n + 1]) == s[..n + 1]
  {
    assert s[..n + 1][..n] == s[..n];
  }

  /** Up to a plain line break both sides see the same line and the same rest. */
  lemma PlainFirstLine(s: string)
    requires var n := FirstBreak(s); n < |s| && (s[n] == NL || CrlfAt(s, n))
    ensures var n := FirstBreak(s);
      && ServerLines(s) == [s[..n]] + ServerLines(s[NextLine(s, n)..])
      && ScorerLines(s) == [s[..n]] + ScorerLines(s[NextLine(s, n)..])
  {
    hide ServerLines, ScorerLines, FirstBreak, IsBreak, CrlfAt;
    var n := FirstBreak(s);
    FirstBreakStep(s);
    BeforeBreak(s);
    if s[n] == NL {
      NewlineEnds(s, n);
    } else {
      CrlfEnds(s, n);
    }
  }

  lemma NewlineEnds(s: string, n: nat)
    requires n < |s| && s[n] == NL && forall i :: 0 <= i < n ==> s[i] != NL && s[i] != CR
    ensures NextLine(s, n) == n + 1 && ServerLines(s) == [s[..n]] + ServerLines(s[n + 1..])
  {
    hide ServerLines, StripCr;
    FirstNewlineAt(s, n);
    Stripped(s, n);
  }

  lemma CrlfEnds(s: string, n: nat)
    requires n < |s| && CrlfAt(s, n) && forall i :: 0 <= i < n ==> s[i] != NL && s[i] != CR
    ensures NextLine(s, n) == n + 2 && ServerLines(s) == [s[..n]] + ServerLines(s[n + 2..])
  {
    hide ServerLines, StripCr;
    FirstNewlineAt(s, n + 1);
    Stripped(s, n);
  }

  lemma BeforeBreak(s: string)
    ensures forall i :: 0 <= i < FirstBreak(s) ==> s[i] != NL && s[i] != CR
  {
    hide FirstBreak;
    assert IsBreak(NL) && IsBreak(CR);
  }

  lemma PlainRest(s: string)
    requires var n := FirstBreak(s); n < |s| && (s[n] == NL || CrlfAt(s, n))
    ensures PlainBreaks(s) <==> PlainBreaks(s[NextLine(s, FirstBreak(s))..])
  {
    hide FirstBreak, IsBreak;
    var next := NextLine(s, FirstBreak(s));
    var rest := s[next..];
    forall i | 0 <= i < |rest| ensures rest[i] == s[next + i] && (CrlfAt(rest, i) <==> CrlfAt(s, next + i)) {
    }
    if PlainBreaks(rest) {
      forall i | 0 <= i < |s| && IsBreak(s[i]) ensures s[i] == NL || CrlfAt(s, i) {
        if i >= next {
          assert rest[i - next] == s[i];
        } else if i > FirstBreak(s) {
          assert s[i] == NL;
        }
      }
    }
  }

  /** At any other break the server's line goes on and the scorer's ends. */
  lemma OtherFirstLine(s: string)
    requires var n := FirstBreak(s); n < |s| && !(s[n] == NL || CrlfAt(s, n))
    ensures ServerLines(s) != [] && ScorerLines(s) != [] && |ServerLines(s)[0]| > |ScorerLines(s)[0]|
    ensures !PlainBreaks(s)
  {
    hide ServerLines, ScorerLines, FirstBreak, StripCr, FirstNewline;
    var n, m := FirstBreak(s), FirstNewline(s);
    FirstBreakStep(s);
    if m < |s| {
      assert IsBreak(NL);
      FirstNewlineAt(s, m);
      assert n < m;
      Stripped(s, m - 1);
    } else {
      WholeLine(s);
    }
  }

  /** The server and the scorer see the same lines of a file if and only if its only line breaks are the
      plain ones. */
  lemma {:induction false} SameLinesIff(s: string)
    ensures ServerLines(s) == ScorerLines(s) <==> PlainBreaks(s)
    decreases |s|
  {
    hide PlainBreaks, ServerLines, ScorerLines, FirstBreak, NextLine, CrlfAt;
    var n := FirstBreak(s);
    if n == |s| {
      NoBreaks(s);
    } else if s[n] == NL || CrlfAt(s, n) {
      var rest := s[NextLine(s, n)..];
      PlainFirstLine(s);
      PlainRest(s);
      SameLinesIff(rest);
      SameTails(s[..n], ServerLines(rest), ScorerLines(rest));
    } else {
      OtherFirstLine(s);
    }
  }

  lemma SameTails<T>(x: T, a: seq<T>, b: seq<T>)
    ensures [x] + a == [x] + b <==> a == b
  {
    assert ([x] + a)[1..] == a && ([x] + b)[1..] == b;
  }

  lemma NoBreaks(s: string)
    requires FirstBreak(s) == |s|
    ensures PlainBreaks(s) && ServerLines(s) == ScorerLines(s)
  {
    var n := FirstNewline(s);
    assert n < |s| ==> IsBreak(s[n]);
  }

  lemma {:induction false} LineCharacters(s: string, k: nat, i: nat)
    requires k < |ServerLines(s)| && i < |ServerLines(s)[k]|
    ensures ServerLines(s)[k][i] in s
    decreases |s|
  {
    hide ServerLines;
    var n := FirstNewline(s);
    if n < |s| {
      FirstNewlineAt(s, n);
      if k == 0 {
        assert ServerLines(s)[0][i] == s[i];
      } else {
        LineCharacters(s[n + 1..], k - 1, i);
      }
    } else {
      WholeLine(s);
    }
  }

  lemma WholeLine(s: string)
    requires FirstNewline(s) == |s|
    ensures ServerLines(s) == if s == [] then [] else [s]
  {
  }

  // ----- One anchor -----

  function WindowLow(line: nat): nat {
    if line < 1 + ANCHOR_WINDOW_LINES then 0 else line - (1 + ANCHOR_WINDOW_LINES)
  }

  function WindowHigh(line: nat, total: nat): nat {
    if line + ANCHOR_WINDOW_LINES < total then line + ANCHOR_WINDOW_LINES else total
  }

  /** First line in `[lo, hi)`, counted from 0, on which the symbol matches. */
  function FirstMatch(isWord: WordChars, lines: seq<string>, lo: nat, hi: nat, symbol: string): (r: Option<nat>)
    requires lo <= hi <= |lines|
    ensures r.Some? ==> lo <= r.value < hi && IsMatch(isWord, lines[r.value], symbol)
    ensures r.Some? ==> forall k :: lo <= k < r.value ==> !IsMatch(isWord, lines[k], symbol)
    ensures r.None? ==> forall k :: lo <= k < hi ==> !IsMatch(isWord, lines[k], symbol)
    decreases hi - lo
  {
    if lo == hi then None
    else if IsMatch(isWord, lines[lo], symbol) then Some(lo)
    else FirstMatch(isWord, lines, lo + 1, hi, symbol)
  }

  /** Verifying one anchor by itself. `compiles` says whether the engine accepts the symbol's pattern. */
  function VerifyOne(isWord: WordChars, compiles: string -> bool, a: AnchorItem, lines: Option<seq<string>>): AnchorResult {
    var none := AnchorResult(a.path, a.line, a.symbol, false, false, None, None);
    if a.line == 0 || lines.None? then none
    else
      var total := |lines.value|;
      var known := none.(exists_ := true, inRange := a.line <= total);
      if a.symbol.None? || a.line > total then known
      else
        var first :=
          if compiles(a.symbol.value)
          then FirstMatch(isWord, lines.value, WindowLow(a.line), WindowHigh(a.line, total), a.symbol.value) else None;
        if first.Some? then known.(symbolFound := Some(true), windowLine := Some(first.value + 1))
        else known.(symbolFound := Some(false))
  }

  /** Line `w`, counted from 1, exists, lies within the window around `line`, and holds the symbol. */
  predicate InWindow(isWord: WordChars, lines: seq<string>, line: nat, w: nat, symbol: string) {
    && 1 <= w <= |lines| && line - 2 <= w <= line + 2
    && IsMatch(isWord, lines[w - 1], symbol)
  }

  /** What a result says, in 1-based lines: a zero line or an unreadable file never verifies, and the
      reported line is the first one within two lines of the cited line that holds the symbol. */
  lemma ResultMeaning(isWord: WordChars, compiles: string -> bool, a: AnchorItem, lines: Option<seq<string>>)
    ensures var r := VerifyOne(isWord, compiles, a, lines);
      && r.path == a.path && r.line == a.line && r.symbol == a.symbol
      && (r.exists_ <==> a.line >= 1 && lines.Some?)
      && (r.inRange <==> r.exists_ && a.line <= |lines.value|)
      && (r.symbolFound.Some? <==> r.inRange && a.symbol.Some?)
      && (r.windowLine.Some? <==> r.symbolFound == Some(true))
      && (r.symbolFound.Some? ==>
            (r.symbolFound.value <==>
             compiles(a.symbol.value) && exists w: nat :: InWindow(isWord, lines.value, a.line, w, a.symbol.value)))
      && (r.windowLine.Some? ==>
            && InWindow(isWord, lines.value, a.line, r.windowLine.value, a.symbol.value)
            && forall w: nat :: InWindow(isWord, lines.value, a.line, w, a.symbol.value) ==> r.windowLine.value <= w)
  {
    hide IsMatch;
    var r := VerifyOne(isWord, compiles, a, lines);
    if r.symbolFound.Some? && compiles(a.symbol.value) {
      var lo, hi := WindowLow(a.line), WindowHigh(a.line, |lines.value|);
      var first := FirstMatch(isWord, lines.value, lo, hi, a.symbol.value);
      if first.Some? {
        assert InWindow(isWord, lines.value, a.line, first.value + 1, a.symbol.value);
      }
      forall w: nat | InWindow(isWord, lines.value, a.line, w, a.symbol.value)
        ensures first.Some? && first.value + 1 <= w
      {
        assert lo <= w - 1 < hi && IsMatch(isWord, lines.value[w - 1], a.symbol.value);
      }
    }
  }

  /** What the server makes of a file's text: nothing when it cannot be read. */
  function ServerText(content: Option<string>): Option<seq<string>> {
    if content.None? then None else Some(ServerLines(content.value))
  }

  function ScorerText(content: Option<string>): Option<seq<string>> {
    if content.None? then None else Some(ScorerLines(content.value))
  }

  /** The scorer's check of one anchor: the cited line exists and the joined window holds the symbol. */
  predicate ScorerVerifies(isWord: WordChars, lines: Option<seq<string>>, line: nat, symbol: string) {
    && lines.Some? && 1 <= line <= |lines.value|
    && IsMatch(isWord, Join(lines.value[WindowLow(line)..WindowHigh(line, |lines.value|)]), symbol)
  }

  lemma SameMatches(a: WordChars, b: WordChars, text: string, symbol: string)
    requires forall i :: 0 <= i < |text| ==> a(text[i]) == b(text[i])
    ensures IsMatch(a, text, symbol) <==> IsMatch(b, text, symbol)
  {
    forall i | 0 <= i <= |text| ensures MatchAt(a, text, symbol, i) <==> MatchAt(b, text, symbol, i) {
      assert forall k :: WordAt(a, text, k) == WordAt(b, text, k);
    }
  }

  /** On the same lines, the window of lines and the joined window give the same answer. */
  lemma WindowsAgree(isWord: WordChars, compiles: string -> bool, a: AnchorItem, lines: Option<seq<string>>)
    requires a.symbol.Some? && NL !in a.symbol.value && compiles(a.symbol.value)
    ensures VerifyOne(isWord, compiles, a, lines).symbolFound == Some(true) <==>
            ScorerVerifies(isWord, lines, a.line, a.symbol.value)
  {
    hide IsMatch;
    if a.line >= 1 && lines.Some? && a.line <= |lines.value| {
      var lo, hi := WindowLow(a.line), WindowHigh(a.line, |lines.value|);
      var window := lines.value[lo..hi];
      JoinedSearchIsLineSearch(isWord, window, a.symbol.value);
      if k :| 0 <= k < |window| && IsMatch(isWord, window[k], a.symbol.value) {
        assert lines.value[lo + k] == window[k];
      }
      if k :| lo <= k < hi && IsMatch(isWord, lines.value[k], a.symbol.value) {
        assert window[k - lo] == lines.value[k];
      }
    }
  }

  lemma {:induction false} FirstMatchSame(
      v: WordChars, w: WordChars, lines: seq<string>, lo: nat, hi: nat, symbol: string)
    requires lo <= hi <= |lines|
    requires forall k :: 0 <= k < |lines| ==> (IsMatch(v, lines[k], symbol) <==> IsMatch(w, lines[k], symbol))
    ensures FirstMatch(v, lines, lo, hi, symbol) == FirstMatch(w, lines, lo, hi, symbol)
    decreases hi - lo
  {
    hide IsMatch;
    if lo < hi {
      FirstMatchSame(v, w, lines, lo + 1, hi, symbol);
    }
  }

  /** The server and the scorer agree on every anchor whose symbol holds no newline, in every file with
      plain line breaks on whose characters the two engines' word classes agree. */
  lemma ServerAgreesWithScorer(
      serverWord: WordChars, scorerWord: WordChars, compiles: string -> bool, a: AnchorItem, content: Option<string>)
    requires a.symbol.Some? && NL !in a.symbol.value && compiles(a.symbol.value)
    requires content.Some? ==> PlainBreaks(content.value)
    requires content.Some? ==> forall c :: c in content.value ==> serverWord(c) == scorerWord(c)
    ensures VerifyOne(serverWord, compiles, a, ServerText(content)).symbolFound == Some(true) <==>
            ScorerVerifies(scorerWord, ScorerText(content), a.line, a.symbol.value)
  {
    hide IsMatch, ScorerVerifies, PlainBreaks, FirstMatch, ServerLines, ScorerLines;
    WindowsAgree(scorerWord, compiles, a, ScorerText(content));
    if content.Some? {
      SameLinesIff(content.value);
      var lines := ServerLines(content.value);
      forall k | 0 <= k < |lines|
        ensures IsMatch(serverWord, lines[k], a.symbol.value) <==> IsMatch(scorerWord, lines[k], a.symbol.value)
      {
        forall i | 0 <= i < |lines[k]| ensures serverWord(lines[k][i]) == scorerWord(lines[k][i]) {
          LineCharacters(content.value, k, i);
        }
        SameMatches(serverWord, scorerWord, lines[k], a.symbol.value);
      }
      if a.line >= 1 && a.line <= |lines| {
        FirstMatchSame(serverWord, scorerWord, lines, WindowLow(a.line), WindowHigh(a.line, |lines|), a.symbol.value);
      }
    }
  }

  // ----- The scorer's loop -----

  /** The distinct citations. */
  ghost function DistinctCites(cites: seq<(string, nat)>): set<(string, nat)> {
    set c | c in cites
  }

  /** Those that the scorer verifies. */
  ghost function Verified(
      isWord: WordChars, read: string -> Option<string>, cites: set<(string, nat)>, symbol: string): set<(string, nat)>
  {
    set c | c in cites && ScorerVerifies(isWord, ScorerText(read(c.0)), c.1, symbol)
  }

  lemma OneMoreCite(
      isWord: WordChars, read: string -> Option<string>, cites: set<(string, nat)>, c: (string, nat), symbol: string)
    requires c !in cites
    ensures |cites + {c}| == |cites| + 1
    ensures |Verified(isWord, read, cites + {c}, symbol)| ==
      |Verified(isWord, read, cites, symbol)| + (if ScorerVerifies(isWord, ScorerText(read(c.0)), c.1, symbol) then 1 else 0)
  {
    hide ScorerVerifies;
    var before, after := Verified(isWord, read, cites, symbol), Verified(isWord, read, cites + {c}, symbol);
    if ScorerVerifies(isWord, ScorerText(read(c.0)), c.1, symbol) {
      assert after == before + {c};
    } else {
      assert after == before;
    }
  }

  lemma DistinctSnoc(cites: seq<(string, nat)>, c: (string, nat))
    ensures DistinctCites(cites + [c]) == DistinctCites(cites) + {c}
  {
  }

  /** `verify_anchors` of the scorer: repeated citations are skipped, each distinct one is either verified
      or fabricated. `cites` are the `path:line` citations of the answer text, in order. */
  method ScoreAnchors(isWord: WordChars, read: string -> Option<string>, cites: seq<(string, nat)>, symbol: string)
    returns (verified: nat, fabricated: nat)
    ensures verified == |Verified(isWord, read, DistinctCites(cites), symbol)|
    ensures verified + fabricated == |DistinctCites(cites)|
  {
    hide ScorerVerifies;
    verified, fabricated := 0, 0;
    var seen: set<(string, nat)> := {};
    assert Verified(isWord, read, {}, symbol) == {};
    hide Verified;
    for n := 0 to |cites|
      invariant seen == DistinctCites(cites[..n])
      invariant verified == |Verified(isWord, read, seen, symbol)| && verified + fabricated == |seen|
    {
      var c := cites[n];
      assert cites[..n + 1] == cites[..n] + [c];
      DistinctSnoc(cites[..n], c);
      if c in seen {
        assert seen + {c} == seen;
      } else {
        OneMoreCite(isWord, read, seen, c, symbol);
        seen := seen + {c};
        if ScorerVerifies(isWord, ScorerText(read(c.0)), c.1, symbol) {
          verified := verified + 1;
        } else {
          fabricated := fabricated + 1;
        }
      }
    }
    assert cites[..|cites|] == cites;
  }

  // ----- The batch -----

  ghost predicate CacheOk(compiles: string -> bool, cache: map<string, bool>) {
    forall s :: s in cache ==> cache[s] == compiles(s)
  }

  /** `verify_grouped`, with the cache of compiled patterns. */
  method VerifyGrouped(
      isWord: WordChars, compiles: string -> bool, a: AnchorItem, lines: Option<seq<string>>, cache: map<string, bool>)
    returns (r: AnchorResult, cache': map<string, bool>)
    requires CacheOk(compiles, cache)
    ensures r == VerifyOne(isWord, compiles, a, lines)
    ensures CacheOk(compiles, cache')
  {
    hide IsMatch;
    cache' := cache;
    r := AnchorResult(a.path, a.line, a.symbol, false, false, None, None);
    if a.line == 0 || lines.None? {
      return;
    }
    var text := lines.value;
    r := r.(exists_ := true, inRange := a.line <= |text|);
    if a.symbol.None? || !r.inRange {
      return;
    }
    var symbol := a.symbol.value;
    var lo, hi := WindowLow(a.line), WindowHigh(a.line, |text|);
    if symbol !in cache' {
      cache' := cache'[symbol := compiles(symbol)];
    }
    if cache'[symbol] {
      for k := lo to hi
        invariant FirstMatch(isWord, text, lo, hi, symbol) == FirstMatch(isWord, text, k, hi, symbol)
      {
        if IsMatch(isWord, text[k], symbol) {
          r := r.(symbolFound := Some(true), windowLine := Some(k + 1));
          return;
        }
      }
    }
    r := r.(symbolFound := Some(false));
  }

  /** Every anchor index appears under its own path, and under no other. */
  ghost predicate Grouped(anchors: seq<AnchorItem>, n: nat, byPath: map<string, seq<nat>>) {
    && n <= |anchors|
    && (forall i :: 0 <= i < n ==> anchors[i].path in byPath && i in byPath[anchors[i].path])
    && (forall p :: p in byPath ==> byPath[p] != [])
    && (forall p, k :: p in byPath && 0 <= k < |byPath[p]| ==> byPath[p][k] < n && anchors[byPath[p][k]].path == p)
  }

  method GroupByPath(anchors: seq<AnchorItem>) returns (byPath: map<string, seq<nat>>)
    ensures Grouped(anchors, |anchors|, byPath)
  {
    byPath := map[];
    for n := 0 to |anchors|
      invariant Grouped(anchors, n, byPath)
    {
      var p := anchors[n].path;
      var group := (if p in byPath then byPath[p] else []) + [n];
      GroupExtended(anchors, n, byPath);
      byPath := byPath[p := group];
    }
  }

  lemma GroupExtended(anchors: seq<AnchorItem>, n: nat, byPath: map<string, seq<nat>>)
    requires Grouped(anchors, n, byPath) && n < |anchors|
    ensures var p := anchors[n].path;
      Grouped(anchors, n + 1, byPath[p := (if p in byPath then byPath[p] else []) + [n]])
  {
    var p := anchors[n].path;
    var earlier := if p in byPath then byPath[p] else [];
    var group := earlier + [n];
    var after := byPath[p := group];
    forall i | 0 <= i < n + 1 ensures anchors[i].path in after && i in after[anchors[i].path] {
      if i == n {
        assert group[|earlier|] == n;
      } else if anchors[i].path == p {
        assert i in earlier;
      }
    }
    forall q, k | q in after && 0 <= k < |after[q]| ensures after[q][k] < n + 1 && anchors[after[q][k]].path == q {
      if q != p {
        assert after[q] == byPath[q];
      } else if k < |earlier| {
        assert group[k] == earlier[k];
      }
    }
  }

  /** The anchors of one file: their slots are filled, the others stay as they were. */
  method VerifyFile(
      isWord: WordChars, compiles: string -> bool, anchors: seq<AnchorItem>, content: Option<seq<string>>,
      p: string, indices: seq<nat>, slots: seq<Option<AnchorResult>>, cache: map<string, bool>)
    returns (slots': seq<Option<AnchorResult>>, cache': map<string, bool>)
    requires CacheOk(compiles, cache) && |slots| == |anchors|
    requires forall k :: 0 <= k < |indices| ==> indices[k] < |anchors| && anchors[indices[k]].path == p
    requires forall i :: 0 <= i < |anchors| && anchors[i].path == p ==> i in indices
    ensures CacheOk(compiles, cache') && |slots'| == |anchors|
    ensures forall i :: 0 <= i < |anchors| ==>
      slots'[i] == if anchors[i].path == p then Some(VerifyOne(isWord, compiles, anchors[i], content)) else slots[i]
  {
    hide VerifyOne, CacheOk;
    slots', cache' := slots, cache;
    for k := 0 to |indices|
      invariant CacheOk(compiles, cache') && |slots'| == |anchors|
      invariant forall i :: 0 <= i < |anchors| && anchors[i].path != p ==> slots'[i] == slots[i]
      invariant forall j :: 0 <= j < k ==>
        slots'[indices[j]] == Some(VerifyOne(isWord, compiles, anchors[indices[j]], content))
    {
      var r;
      r, cache' := VerifyGrouped(isWord, compiles, anchors[indices[k]], content, cache');
      slots' := slots'[indices[k] := Some(r)];
    }
  }

  /** `verify_anchors_with`. `read` is the snapshot: the text of a requested path, or nothing when it does
      not resolve below the root or cannot be read. The groups are visited in any order; `readLog` lists
      the paths in the order in which they are read. */
  method VerifyAnchors(
      isWord: WordChars, compiles: string -> bool, read: string -> Option<string>, anchors: seq<AnchorItem>)
    returns (results: seq<AnchorResult>, readLog: seq<string>)
    ensures |results| == |anchors|
    ensures forall i :: 0 <= i < |anchors| ==>
      results[i] == VerifyOne(isWord, compiles, anchors[i], ServerText(read(anchors[i].path)))
    ensures forall i, j :: 0 <= i < j < |readLog| ==> readLog[i] != readLog[j]
    ensures forall p :: p in readLog <==> exists i :: 0 <= i < |anchors| && anchors[i].path == p
  {
    hide VerifyOne;
    var byPath := GroupByPath(anchors);
    var cache: map<string, bool> := map[];
    var slots: seq<Option<AnchorResult>> := seq(|anchors|, _ => None);
    readLog := [];
    var todo := byPath.Keys;
    while todo != {}
      invariant todo <= byPath.Keys && CacheOk(compiles, cache) && |slots| == |anchors|
      invariant forall i :: 0 <= i < |anchors| && anchors[i].path !in todo ==>
        slots[i] == Some(VerifyOne(isWord, compiles, anchors[i], ServerText(read(anchors[i].path))))
      invariant forall p :: p in readLog <==> p in byPath && p !in todo
      invariant forall i, j :: 0 <= i < j < |readLog| ==> readLog[i] != readLog[j]
      decreases todo
    {
      var p :| p in todo;
      var content := ServerText(read(p));
      readLog := readLog + [p];
      slots, cache := VerifyFile(isWord, compiles, anchors, content, p, byPath[p], slots, cache);
      todo := todo - {p};
    }
    forall p ensures p in readLog <==> exists i :: 0 <= i < |anchors| && anchors[i].path == p {
      if p in byPath {
        assert anchors[byPath[p][0]].path == p;
      }
    }
    results := Unwrap(slots);
  }

  /** `results.into_iter().flatten().collect()` when every slot is filled. */
  function Unwrap(slots: seq<Option<AnchorResult>>): (r: seq<AnchorResult>)
    requires forall i :: 0 <= i < |slots| ==> slots[i].Some?
    ensures |r| == |slots| && forall i :: 0 <= i < |slots| ==> slots[i] == Some(r[i])
  {
    seq(|slots|, i requires 0 <= i < |slots| => slots[i].value)
  }
}

/** The commands that the closer scan accepts, described as a grammar, and the round trip with a
    printer of here-documents. */
module HeredocGrammar {
  import opened Text
  import opened TrimEnd
  import opened TrimIndex
  import opened Heredoc

  datatype Word = Bare(text: string) | Escaped(text: string) | InQuotes(quote: char, text: string)

  /** A command is a sequence of ordinary characters, quoted runs and here-documents. A
      here-document consists of its operator, blanks, a delimiter word, the raw lines up to the
      closing line, and the closing line. */
  datatype Piece =
    | Plain(c: char)
    | Quoted(quote: char, body: string, closed: bool)
    | Here(strip: bool, gap: string, word: Word, lines: seq<string>, closer: string)

  function Concat(lines: seq<string>): string {
    if lines == [] then [] else lines[0] + Concat(lines[1..])
  }

  function PrintWord(w: Word): string {
    match w
    case Bare(t) => t
    case Escaped(t) => [BACKSLASH] + t
    case InQuotes(q, t) => [q] + t + [q]
  }

  function Opener(strip: bool): string {
    if strip then [LT, LT, '-'] else [LT, LT]
  }

  function Print(p: Piece): string {
    match p
    case Plain(c) => [c]
    case Quoted(q, b, closed) => [q] + b + (if closed then [q] else [])
    case Here(strip, gap, word, body, closer) => Opener(strip) + (gap + (PrintWord(word) + (Concat(body) + closer)))
  }

  predicate IsGap(c: char) {
    c in {' ', '\t', '\n', '\U{0C}', '\r'}
  }

  predicate IsWordEnd(c: char) {
    c in {' ', '\t', '\n', '\U{0C}', '\r', '<'}
  }

  predicate IsMark(c: char) {
    c in {'\'', '"'}
  }

  /** The scanner knows the same blanks, word ends and quotes. */
  lemma SameClasses()
    ensures forall c :: IsAsciiSpace(c) <==> IsGap(c)
    ensures forall c :: EndsWord(c) <==> IsWordEnd(c)
    ensures forall c :: IsQuote(c) <==> IsMark(c)
  {
  }

  predicate NoWordEnd(t: string) {
    forall i :: 0 <= i < |t| ==> !IsWordEnd(t[i])
  }

  /** A non-empty delimiter word that ends where `after` begins. */
  predicate WordOk(w: Word, after: string) {
    && w.text != []
    && match w
       case Bare(t) => !IsMark(t[0]) && t[0] != BACKSLASH && NoWordEnd(t) && (after == [] || IsWordEnd(after[0]))
       case Escaped(t) => NoWordEnd(t) && (after == [] || IsWordEnd(after[0]))
       case InQuotes(q, t) => IsMark(q) && q !in t
  }

  function Tabs(n: nat): (t: string)
    ensures |t| == n && forall i :: 0 <= i < n ==> t[i] == '\t'
  {
    seq(n, _ => '\t')
  }

  /** `line` is the delimiter behind `n` tabs, with or without a newline. */
  predicate ClosesAt(line: string, n: nat, delimiter: string) {
    line == Tabs(n) + delimiter || line == Tabs(n) + delimiter + [NL]
  }

  /** `line` closes a document: it is the delimiter, or for `<<-` the delimiter behind any number of tabs.
      A delimiter with a newline is never found, and with `<<-` none that starts with a tab. */
  ghost predicate Closes(line: string, strip: bool, delimiter: string) {
    && NL !in delimiter
    && if strip then (delimiter == [] || delimiter[0] != '\t') && exists n :: ClosesAt(line, n, delimiter) else ClosesAt(line, 0, delimiter)
  }

  /** `closer` closes the document; only the end of the command may replace its newline. */
  ghost predicate CloserOk(closer: string, strip: bool, delimiter: string, rest: string) {
    && closer != [] && IsLine(closer) && (EndsWithNewline(closer) || rest == [])
    && Closes(closer, strip, delimiter)
  }

  /** Complete lines none of which closes the document. */
  ghost predicate BodyOk(body: seq<string>, strip: bool, delimiter: string) {
    forall i :: 0 <= i < |body| ==>
      IsLine(body[i]) && EndsWithNewline(body[i]) && !Closes(body[i], strip, delimiter)
  }

  ghost predicate PieceOk(p: Piece, rest: string) {
    match p
    case Plain(c) => !IsMark(c) && !(c == LT && rest != [] && rest[0] == LT)
    case Quoted(q, b, closed) => IsMark(q) && q !in b && (closed || rest == [])
    case Here(strip, gap, word, body, closer) =>
      && (forall i :: 0 <= i < |gap| ==> IsGap(gap[i]))
      && (strip || gap != [] || (PrintWord(word) != [] && PrintWord(word)[0] != '-'))
      && WordOk(word, Concat(body) + (closer + rest))
      && BodyOk(body, strip, word.text)
      && CloserOk(closer, strip, word.text, rest)
  }

  /** `s` splits into the given pieces. */
  ghost predicate Parses(s: string, pieces: seq<Piece>)
    decreases |pieces|
  {
    if pieces == [] then s == []
    else
      var head := Print(pieces[0]);
      head <= s && PieceOk(pieces[0], s[|head|..]) && Parses(s[|head|..], pieces[1..])
  }

  /** The here-documents of a split command, each with the length of the text after it. */
  ghost function Heredocs(s: string, pieces: seq<Piece>): seq<(string, nat)>
    requires Parses(s, pieces)
    decreases |pieces|
  {
    if pieces == [] then []
    else
      var rest := s[|Print(pieces[0])|..];
      (if pieces[0].Here? then [(pieces[0].word.text, |rest|)] else []) + Heredocs(rest, pieces[1..])
  }

  // ----- Closing lines -----

  lemma {:induction false} StripTabsSplits(line: string) returns (n: nat)
    ensures line == Tabs(n) + StripTabs(line)
    ensures StripTabs(line) == [] || StripTabs(line)[0] != TAB
  {
    if line != [] && line[0] == TAB {
      var m := StripTabsSplits(line[1..]);
      n := m + 1;
      assert Tabs(n) == [TAB] + Tabs(m);
    } else {
      n := 0;
    }
  }

  lemma {:induction false} StripTabsOfTabs(n: nat, d: string)
    requires d != [] && d[0] != TAB
    ensures StripTabs(Tabs(n) + d) == d
  {
    var s := Tabs(n) + d;
    if n == 0 {
      assert s == d;
    } else {
      assert s[1..] == Tabs(n - 1) + d;
      StripTabsOfTabs(n - 1, d);
    }
  }

  lemma StripOneNewline(line: string)
    ensures StripNewline(line + [NL]) == line && EndsWithNewline(line + [NL])
    ensures NL !in line ==> IsLine(line + [NL])
  {
    assert (line + [NL])[..|line|] == line;
  }

  lemma LineShape(line: string)
    requires IsLine(line)
    ensures NL !in StripNewline(line)
    ensures line == if EndsWithNewline(line) then StripNewline(line) + [NL] else StripNewline(line)
  {
  }

  lemma UnstrippedLine(text: string)
    requires NL !in text
    ensures StripNewline(text) == text
  {
  }

  /** The scanner's comparison of a line with the delimiter decides whether the line closes the document. */
  lemma ClosesIff(line: string, strip: bool, delimiter: string)
    requires IsLine(line) && delimiter != []
    ensures Candidate(line, strip) == delimiter <==> Closes(line, strip, delimiter)
  {
    hide StripNewline, EndsWithNewline, IsLine, StripTabs;
    LineShape(line);
    var text := StripNewline(line);
    if Candidate(line, strip) == delimiter {
      if strip {
        var n := StripTabsSplits(text);
        assert ClosesAt(line, n, delimiter);
      } else {
        assert Tabs(0) + delimiter == delimiter;
      }
    }
    if Closes(line, strip, delimiter) {
      var n :| ClosesAt(line, n, delimiter) && (n == 0 || strip);
      var shown := Tabs(n) + delimiter;
      UnstrippedLine(shown);
      StripOneNewline(shown);
      assert text == shown;
      assert n == 0 ==> shown == delimiter;
      if strip {
        StripTabsOfTabs(n, delimiter);
      }
    }
  }

  // ----- Lines and spans -----

  lemma SpanUnique(s: string, stop: Stop, n: nat)
    requires n <= |s| && forall i :: 0 <= i < n ==> !StopsAt(stop, s[i])
    requires n < |s| ==> StopsAt(stop, s[n])
    ensures SpanTo(s, stop) == n
  {
    var m := SpanTo(s, stop);
    assert m < |s| ==> StopsAt(stop, s[m]);
  }

  lemma {:induction false} FirstLineOf(line: string, rest: string)
    requires line != [] && IsLine(line) && (EndsWithNewline(line) || rest == [])
    ensures AfterLine(line + rest) == |line|
  {
    var s := line + rest;
    if |line| > 1 {
      assert line[0] == StripNewline(line)[0];
      assert s[1..] == line[1..] + rest;
      assert StripNewline(line[1..]) == StripNewline(line)[1..];
      FirstLineOf(line[1..], rest);
    }
  }

  lemma {:induction false} CloserFound(body: seq<string>, closer: string, rest: string, strip: bool, delimiter: string)
    requires BodyOk(body, strip, delimiter) && CloserOk(closer, strip, delimiter, rest) && delimiter != []
    ensures FindCloser(Concat(body) + (closer + rest), strip, delimiter) == Some(|Concat(body)| + |closer|)
    decreases |body|
  {
    hide IsLine, EndsWithNewline, Candidate, FindCloser, AfterLine, SplitInclusive, Closes;
    var s := Concat(body) + (closer + rest);
    if body == [] {
      assert s == closer + rest;
      ClosesIff(closer, strip, delimiter);
      FirstLineOf(closer, rest);
      CloserStep(s, strip, delimiter);
      assert s[..|closer|] == closer;
    } else {
      var tail := Concat(body[1..]) + (closer + rest);
      assert s == body[0] + tail;
      ClosesIff(body[0], strip, delimiter);
      assert body[0] != [] by { NonEmptyLine(body[0]); }
      FirstLineOf(body[0], tail);
      CloserStep(s, strip, delimiter);
      assert s[..|body[0]|] == body[0] && s[|body[0]|..] == tail;
      CloserFound(body[1..], closer, rest, strip, delimiter);
    }
  }

  lemma NonEmptyLine(line: string)
    requires EndsWithNewline(line)
    ensures line != []
  {
  }

  lemma WordParsed(w: Word, after: string)
    requires WordOk(w, after)
    ensures PrintWord(w) != []
    ensures ParseWord(PrintWord(w) + after) == Some((w.text, |PrintWord(w)|))
    ensures !IsAsciiSpace(PrintWord(w)[0])
  {
    SameClasses();
    match w
    case Bare(t) => BareParsed(t, after);
    case Escaped(t) => EscapedParsed(t, after);
    case InQuotes(q, t) => QuotedParsed(q, t, after);
  }

  lemma BareParsed(t: string, after: string)
    requires WordOk(Bare(t), after)
    ensures ParseWord(t + after) == Some((t, |t|))
  {
    hide IsAsciiSpace;
    SameClasses();
    var s := t + after;
    assert s[0] == t[0];
    SpanUnique(s, AtWordEnd, |t|);
  }

  lemma EscapedParsed(t: string, after: string)
    requires WordOk(Escaped(t), after)
    ensures ParseWord([BACKSLASH] + t + after) == Some((t, 1 + |t|))
  {
    hide IsAsciiSpace;
    SameClasses();
    var s := [BACKSLASH] + t + after;
    assert s[1..] == t + after;
    SpanUnique(s[1..], AtWordEnd, |t|);
    assert s[1..1 + |t|] == t;
  }

  lemma QuotedParsed(q: char, t: string, after: string)
    requires WordOk(InQuotes(q, t), after)
    ensures ParseWord([q] + t + [q] + after) == Some((t, |t| + 2))
  {
    hide IsAsciiSpace;
    SameClasses();
    var s := [q] + t + [q] + after;
    assert s[1..] == t + ([q] + after);
    SpanUnique(s[1..], At(q), |t|);
    assert s[1..1 + |t|] == t;
  }

  // ----- Every split command is accepted -----

  lemma {:induction false} ScanQuoted(b: string, q: char, closed: bool, rest: string)
    requires q !in b && (closed || rest == [])
    ensures Scan(b + ((if closed then [q] else []) + rest), Some(q)) == Scan(rest, None)
    decreases |b|
  {
    var tail := (if closed then [q] else []) + rest;
    if b == [] {
      assert b + tail == tail;
      if closed {
        assert tail[1..] == rest;
      }
    } else {
      assert (b + tail)[1..] == b[1..] + tail;
      ScanQuoted(b[1..], q, closed, rest);
    }
  }

  /** The text of a here-document and what follows, regrouped from the left. */
  lemma PrintHere(p: Piece, rest: string)
    requires p.Here?
    ensures Print(p) + rest ==
      Opener(p.strip) + (p.gap + (PrintWord(p.word) + (Concat(p.lines) + (p.closer + rest))))
  {
    hide PrintWord, Concat, Opener;
    var w, b := PrintWord(p.word), Concat(p.lines);
    assert (b + p.closer) + rest == b + (p.closer + rest);
    assert (w + (b + p.closer)) + rest == w + (b + (p.closer + rest));
    assert (p.gap + (w + (b + p.closer))) + rest == p.gap + (w + (b + (p.closer + rest)));
  }

  lemma WordStartFound(s: string, strip: bool, gap: string, wordOn: string)
    requires s == Opener(strip) + (gap + wordOn)
    requires forall i :: 0 <= i < |gap| ==> IsAsciiSpace(gap[i])
    requires wordOn != [] && !IsAsciiSpace(wordOn[0]) && (strip || gap != [] || wordOn[0] != '-')
    ensures StartsHeredoc(s) && StripsTabs(s) == strip
    ensures WordStart(s) == |Opener(strip)| + |gap| && s[WordStart(s)..] == wordOn
  {
    var d, on := |Opener(strip)|, gap + wordOn;
    assert s[d..] == on;
    assert on[|gap|] == wordOn[0];
    SpanUnique(on, AtNonSpace, |gap|);
    assert !strip ==> s[2] == on[0];
    assert s[d + |gap|..] == on[|gap|..] == wordOn;
  }

  lemma HeredocIntro(s: string, strip: bool, gap: string, word: string, after: string, text: string, n: nat)
    requires s == Opener(strip) + (gap + (word + after))
    requires forall i :: 0 <= i < |gap| ==> IsAsciiSpace(gap[i])
    requires word != [] && !IsAsciiSpace(word[0]) && (strip || gap != [] || word[0] != '-')
    requires ParseWord(word + after) == Some((text, |word|)) && text != []
    requires FindCloser(after, strip, text) == Some(n)
    ensures StartsHeredoc(s) && HeredocAt(s) == Some((text, |Opener(strip)| + |gap| + |word| + n))
  {
    hide ParseWord, FindCloser, IsAsciiSpace, WordStart;
    WordStartFound(s, strip, gap, word + after);
    var i := WordStart(s);
    assert s[i + |word|..] == s[i..][|word|..] == after;
  }

  lemma HereFound(p: Piece, rest: string)
    requires p.Here? && PieceOk(p, rest)
    ensures var s := Print(p) + rest;
      StartsHeredoc(s) && HeredocAt(s) == Some((p.word.text, |Print(p)|))
  {
    hide ParseWord, FindCloser, IsAsciiSpace, IsLine, BodyOk, CloserOk, HeredocAt, Concat, PrintWord;
    SameClasses();
    var after := Concat(p.lines) + (p.closer + rest);
    PrintHere(p, rest);
    WordParsed(p.word, after);
    CloserFound(p.lines, p.closer, rest, p.strip, p.word.text);
    HeredocIntro(Print(p) + rest, p.strip, p.gap, PrintWord(p.word), after, p.word.text,
                 |Concat(p.lines)| + |p.closer|);
  }

  lemma ScanEmpty()
    ensures Scan([], None) == Some([])
  {
  }

  lemma ScanPlain(c: char, rest: string)
    requires PieceOk(Plain(c), rest)
    ensures Scan([c] + rest, None) == Scan(rest, None)
  {
    SameClasses();
    var s := [c] + rest;
    assert s[1..] == rest;
    assert |s| > 1 ==> s[1] == rest[0];
  }

  lemma ScanOpenQuote(q: char, tail: string)
    requires IsQuote(q)
    ensures Scan([q] + tail, None) == Scan(tail, Some(q))
  {
    assert ([q] + tail)[1..] == tail;
  }

  lemma ScanHere(s: string, text: string, n: nat)
    requires StartsHeredoc(s) && HeredocAt(s) == Some((text, n))
    ensures var later := Scan(s[n..], None);
      Scan(s, None) == if later.None? then None else Some([(text, |s[n..]|)] + later.value)
  {
    hide HeredocAt;
    assert !IsQuote(s[0]);
  }

  lemma ParsesStep(s: string, pieces: seq<Piece>)
    requires Parses(s, pieces)
    ensures pieces == [] ==> s == []
    ensures pieces != [] ==>
      var n := |Print(pieces[0])|;
      && n <= |s| && s == Print(pieces[0]) + s[n..]
      && PieceOk(pieces[0], s[n..]) && Parses(s[n..], pieces[1..])
      && (pieces[0].Plain? ==> Print(pieces[0]) == [pieces[0].c])
  {
    hide PieceOk, Concat, PrintWord, Opener;
    if pieces != [] {
      PrefixSplits(Print(pieces[0]), s);
    }
  }

  lemma PrefixSplits(a: string, s: string)
    requires a <= s
    ensures s == a + s[|a|..]
  {
  }

  lemma ScanQuotedPiece(p: Piece, rest: string)
    requires p.Quoted? && PieceOk(p, rest)
    ensures Scan(Print(p) + rest, None) == Scan(rest, None)
  {
    hide HeredocAt, Scan;
    SameClasses();
    var tail := (if p.closed then [p.quote] else []) + rest;
    assert Print(p) + rest == [p.quote] + (p.body + tail);
    ScanOpenQuote(p.quote, p.body + tail);
    ScanQuoted(p.body, p.quote, p.closed, rest);
  }

  lemma NoHeredocs(s: string, pieces: seq<Piece>)
    requires pieces == [] && Parses(s, pieces)
    ensures Heredocs(s, pieces) == []
  {
  }

  lemma HeredocsStep(s: string, pieces: seq<Piece>)
    requires pieces != [] && Parses(s, pieces)
    ensures var rest := s[|Print(pieces[0])|..]; var later := Heredocs(rest, pieces[1..]);
      Heredocs(s, pieces) == if pieces[0].Here? then [(pieces[0].word.text, |rest|)] + later else later
  {
    hide PieceOk, Print;
  }

  /** Soundness of the grammar: the scan accepts every split command and finds exactly its
      here-documents, resuming after each closing line. */
  lemma {:induction false} SplitIsAccepted(s: string, pieces: seq<Piece>)
    requires Parses(s, pieces)
    ensures Scan(s, None) == Some(Heredocs(s, pieces))
    decreases |pieces|
  {
    hide HeredocAt, IsAsciiSpace, Scan, Heredocs, PieceOk, Print;
    ParsesStep(s, pieces);
    if pieces == [] {
      NoHeredocs(s, pieces);
      ScanEmpty();
    } else {
      var p := pieces[0];
      var rest := s[|Print(p)|..];
      assert s == Print(p) + rest;
      SplitIsAccepted(rest, pieces[1..]);
      HeredocsStep(s, pieces);
      match p
      case Plain(c) => ScanPlain(c, rest);
      case Quoted(q, b, closed) => ScanQuotedPiece(p, rest);
      case Here(_, _, _, _, _) =>
        HereFound(p, rest);
        ScanHere(s, p.word.text, |Print(p)|);
    }
  }

  // ----- Every accepted command splits -----

  lemma {:induction false} CloserLines(s: string, strip: bool, delimiter: string)
    returns (body: seq<string>, closer: string, rest: string)
    requires FindCloser(s, strip, delimiter).Some? && delimiter != []
    ensures s == Concat(body) + (closer + rest)
    ensures FindCloser(s, strip, delimiter).value == |Concat(body)| + |closer|
    ensures BodyOk(body, strip, delimiter) && CloserOk(closer, strip, delimiter, rest)
    decreases |s|
  {
    hide Candidate, IsLine, FindCloser, AfterLine, EndsWithNewline, Closes;
    if s == [] {
      NoCloserInEmpty(strip, delimiter);
    }
    var n := AfterLine(s);
    var line := s[..n];
    CloserStep(s, strip, delimiter);
    FirstLineIsLine(s);
    ClosesIff(line, strip, delimiter);
    if Candidate(line, strip) == delimiter {
      body, closer, rest := [], line, s[n..];
      assert s == [] + (line + rest);
    } else {
      var body', closer', rest' := CloserLines(s[n..], strip, delimiter);
      body, closer, rest := [line] + body', closer', rest';
      assert body[1..] == body';
      assert s == line + s[n..];
      assert line + (Concat(body') + (closer + rest)) == (line + Concat(body')) + (closer + rest);
    }
  }

  lemma WordOf(s: string) returns (w: Word, after: string)
    requires s != [] && !IsAsciiSpace(s[0])
    requires ParseWord(s).Some? && ParseWord(s).value.0 != []
    ensures s == PrintWord(w) + after && WordOk(w, after)
    ensures ParseWord(s).value == (w.text, |PrintWord(w)|)
  {
    hide IsAsciiSpace, SpanTo;
    SameClasses();
    if IsQuote(s[0]) {
      w, after := QuotedWordOf(s);
    } else if s[0] == BACKSLASH {
      w, after := EscapedWordOf(s);
    } else {
      var n := SpanTo(s, AtWordEnd);
      w, after := Bare(s[..n]), s[n..];
      forall i | 0 <= i < n ensures !EndsWord(s[..n][i]) { assert s[..n][i] == s[i]; }
    }
  }

  lemma QuotedWordOf(s: string) returns (w: Word, after: string)
    requires s != [] && IsQuote(s[0])
    requires ParseWord(s).Some? && ParseWord(s).value.0 != []
    ensures s == PrintWord(w) + after && WordOk(w, after)
    ensures ParseWord(s).value == (w.text, |PrintWord(w)|)
  {
    hide SpanTo;
    SameClasses();
    var n := SpanTo(s[1..], At(s[0]));
    var t := s[1..1 + n];
    w, after := InQuotes(s[0], t), s[n + 2..];
    assert s[1 + n] == s[1..][n];
    assert s == [s[0]] + t + [s[1 + n]] + after;
    forall i | 0 <= i < n ensures t[i] != s[0] { assert t[i] == s[1..][i]; }
  }

  lemma EscapedWordOf(s: string) returns (w: Word, after: string)
    requires s != [] && s[0] == BACKSLASH
    requires ParseWord(s).Some? && ParseWord(s).value.0 != []
    ensures s == PrintWord(w) + after && WordOk(w, after)
    ensures ParseWord(s).value == (w.text, |PrintWord(w)|)
  {
    hide SpanTo, IsAsciiSpace;
    SameClasses();
    var n := SpanTo(s[1..], AtWordEnd);
    var t := s[1..1 + n];
    w, after := Escaped(t), s[n + 1..];
    assert s == [s[0]] + t + after;
    forall i | 0 <= i < n ensures !EndsWord(t[i]) { assert t[i] == s[1..][i]; }
    if after != [] { assert after[0] == s[1..][n]; }
  }

  lemma GapOf(s: string) returns (strip: bool, gap: string)
    requires StartsHeredoc(s) && WordStart(s) < |s|
    ensures strip == StripsTabs(s)
    ensures s == Opener(strip) + (gap + s[WordStart(s)..])
    ensures WordStart(s) == |Opener(strip)| + |gap|
    ensures forall k :: 0 <= k < |gap| ==> IsAsciiSpace(gap[k])
    ensures !IsAsciiSpace(s[WordStart(s)])
    ensures strip || gap != [] || s[WordStart(s)] != '-'
  {
    strip := StripsTabs(s);
    var d := if strip then 3 else 2;
    var i := WordStart(s);
    gap := s[d..i];
    assert i - d == SpanTo(s[d..], AtNonSpace);
    forall k | 0 <= k < |gap| ensures IsAsciiSpace(gap[k]) { assert gap[k] == s[d..][k]; }
    assert s[i] == s[d..][i - d];
    assert s[..d] == Opener(strip);
  }

  lemma HereOf(s: string) returns (p: Piece, rest: string)
    requires StartsHeredoc(s) && HeredocAt(s).Some?
    ensures p.Here? && s == Print(p) + rest && PieceOk(p, rest)
    ensures HeredocAt(s).value == (p.word.text, |Print(p)|)
  {
    hide ParseWord, FindCloser, IsAsciiSpace, WordOk, BodyOk, CloserOk, WordStart, Concat, PrintWord, StripsTabs;
    SameClasses();
    var i := WordStart(s);
    var strip, gap := GapOf(s);
    var t := s[i..];
    var w, after := WordOf(t);
    assert s[i + |PrintWord(w)|..] == t[|PrintWord(w)|..] == after;
    var body, closer, r := CloserLines(after, strip, w.text);
    p, rest := Here(strip, gap, w, body, closer), r;
    PrintHere(p, rest);
    PrintWordNonEmpty(w, after);
    assert PrintWord(w)[0] == t[0];
  }

  lemma PrintWordNonEmpty(w: Word, after: string)
    requires WordOk(w, after)
    ensures PrintWord(w) != []
  {
  }

  lemma {:induction false} QuotedOf(s: string, q: char) returns (b: string, closed: bool, rest: string)
    requires Scan(s, Some(q)).Some?
    ensures s == b + ((if closed then [q] else []) + rest)
    ensures q !in b && (closed || rest == [])
    ensures Scan(rest, None).Some?
    decreases |s|
  {
    hide HeredocAt;
    if s == [] {
      b, closed, rest := [], false, [];
    } else if s[0] == q {
      b, closed, rest := [], true, s[1..];
    } else {
      b, closed, rest := QuotedOf(s[1..], q);
      b := [s[0]] + b;
    }
  }

  lemma {:induction false} SplitOf(s: string) returns (pieces: seq<Piece>)
    requires Scan(s, None).Some?
    ensures Parses(s, pieces)
    decreases |s|
  {
    hide HeredocAt, PieceOk;
    SameClasses();
    if s == [] {
      pieces := [];
    } else {
      var p: Piece, rest: string;
      if IsQuote(s[0]) {
        var b, closed, r := QuotedOf(s[1..], s[0]);
        p, rest := Quoted(s[0], b, closed), r;
        assert s == Print(p) + rest;
        assert PieceOk(p, rest) by { QuotedPieceOk(s[0], b, closed, rest); }
      } else if StartsHeredoc(s) {
        p, rest := HereOf(s);
        assert s[|Print(p)|..] == rest;
      } else {
        p, rest := Plain(s[0]), s[1..];
        assert PieceOk(p, rest) by { PlainPieceOk(s); }
      }
      assert s[|Print(p)|..] == rest && Print(p) <= s;
      var more := SplitOf(rest);
      pieces := [p] + more;
      assert pieces[1..] == more;
    }
  }

  lemma QuotedPieceOk(q: char, b: string, closed: bool, rest: string)
    requires IsQuote(q) && q !in b && (closed || rest == [])
    ensures PieceOk(Quoted(q, b, closed), rest)
  {
    SameClasses();
  }

  lemma PlainPieceOk(s: string)
    requires s != [] && !IsQuote(s[0]) && !StartsHeredoc(s)
    ensures PieceOk(Plain(s[0]), s[1..])
  {
    SameClasses();
  }

  ghost predicate Splits(s: string) {
    exists pieces :: Parses(s, pieces)
  }

  /** The scan accepts a command exactly when it splits into ordinary characters, quoted runs and
      properly closed here-documents. */
  lemma AcceptedIffSplits(s: string)
    ensures Scan(s, None).Some? <==> Splits(s)
  {
    hide Scan, Parses;
    if Scan(s, None).Some? {
      var pieces := SplitOf(s);
    }
    if pieces :| Parses(s, pieces) {
      SplitIsAccepted(s, pieces);
    }
  }

  // ----- Round trip with a printer -----

  datatype Style = Unquoted | WithBackslash | WithQuotes(quote: char)

  /** Text without quotes or `<`, a quoted run, and a here-document with a plain delimiter: whether its
      operator is `<<-`, the blanks before the delimiter, how the delimiter is written, what follows it on
      its line, the lines of the document, and the tabs before the closing delimiter. */
  datatype Chunk =
    | Prose(text: string)
    | Run(quote: char, body: string)
    | Document(strip: bool, gap: string, style: Style, delimiter: string, tail: string, content: seq<string>, tabs: nat)

  predicate IsAlphanumeric(c: char) {
    'a' <= c <= 'z' || 'A' <= c <= 'Z' || '0' <= c <= '9'
  }

  predicate ProseOk(text: string) {
    forall i :: 0 <= i < |text| ==> text[i] !in {'\'', '"', '<'}
  }

  /** Only `<<-` allows tabs before the closing delimiter, and then no line of the document may be the
      delimiter behind any number of tabs. */
  ghost predicate LineOk(line: string, strip: bool, delimiter: string) {
    && NL !in line && line != delimiter
    && (strip ==> forall n :: line != Tabs(n) + delimiter)
  }

  ghost predicate ChunkOk(c: Chunk) {
    match c
    case Prose(text) => ProseOk(text)
    case Run(q, body) => q in {'\'', '"'} && q !in body
    case Document(strip, gap, style, delimiter, tail, content, tabs) =>
      && (forall i :: 0 <= i < |gap| ==> gap[i] in {' ', '\t'})
      && (style.WithQuotes? ==> style.quote in {'\'', '"'})
      && delimiter != [] && (forall i :: 0 <= i < |delimiter| ==> IsAlphanumeric(delimiter[i]))
      && NL !in tail && (tail == [] || tail[0] == ' ')
      && (forall i :: 0 <= i < |content| ==> LineOk(content[i], strip, delimiter))
      && (tabs > 0 ==> strip)
  }

  function Unlines(content: seq<string>): (lines: seq<string>)
    ensures |lines| == |content|
    ensures forall i :: 0 <= i < |content| ==> lines[i] == content[i] + [NL]
  {
    seq(|content|, i requires 0 <= i < |content| => content[i] + [NL])
  }

  function PrintDelimiter(style: Style, delimiter: string): string {
    match style
    case Unquoted => delimiter
    case WithBackslash => "\\" + delimiter
    case WithQuotes(q) => [q] + delimiter + [q]
  }

  /** A here-document up to its closing line. */
  function PrintOpen(c: Chunk): string
    requires c.Document?
  {
    (if c.strip then "<<-" else "<<") +
    (c.gap + (PrintDelimiter(c.style, c.delimiter) + ((c.tail + [NL]) + Concat(Unlines(c.content)))))
  }

  function PrintClose(c: Chunk): string
    requires c.Document?
  {
    Tabs(c.tabs) + c.delimiter + [NL]
  }

  function PrintChunk(c: Chunk): string {
    match c
    case Prose(text) => text
    case Run(q, body) => [q] + body + [q]
    case Document(_, _, _, _, _, _, _) => PrintOpen(c) + PrintClose(c)
  }

  function PrintAll(chunks: seq<Chunk>): string {
    if chunks == [] then [] else PrintChunk(chunks[0]) + PrintAll(chunks[1..])
  }

  /** The documents of a chunk list, each with the length of what comes after it, when `after` more
      characters follow the list. */
  function Documents(chunks: seq<Chunk>, after: nat): seq<(string, nat)> {
    if chunks == [] then []
    else
      (if chunks[0].Document? then [(chunks[0].delimiter, |PrintAll(chunks[1..])| + after)] else []) +
      Documents(chunks[1..], after)
  }

  // ----- Printed lines -----

  /** A permitted line of a document does not close it. */
  lemma ContentLine(line: string, strip: bool, delimiter: string)
    requires LineOk(line, strip, delimiter)
    ensures var raw := line + [NL]; IsLine(raw) && EndsWithNewline(raw) && !Closes(raw, strip, delimiter)
  {
    hide StripNewline, EndsWithNewline, IsLine;
    StripOneNewline(line);
    var raw := line + [NL];
    forall n | ClosesAt(raw, n, delimiter) && NL !in delimiter ensures line == Tabs(n) + delimiter {
      SameLine(line, Tabs(n) + delimiter);
    }
    assert Tabs(0) + delimiter == delimiter;
  }

  lemma SameLine(line: string, shown: string)
    requires NL !in shown && (line + [NL] == shown || line + [NL] == shown + [NL])
    ensures line == shown
  {
    assert (line + [NL])[|line|] == NL;
    assert (line + [NL])[..|line|] == line;
    assert line + [NL] == shown + [NL] ==> (shown + [NL])[..|shown|] == shown;
  }

  /** Neither does the rest of the line of the operator. */
  lemma TailLine(tail: string, strip: bool, delimiter: string)
    requires NL !in tail && (tail == [] || tail[0] == ' ')
    requires delimiter != [] && IsAlphanumeric(delimiter[0])
    ensures var raw := tail + [NL]; IsLine(raw) && EndsWithNewline(raw) && !Closes(raw, strip, delimiter)
  {
    hide StripNewline, EndsWithNewline, IsLine;
    StripOneNewline(tail);
    var raw := tail + [NL];
    forall n ensures !ClosesAt(raw, n, delimiter) {
      var shown := Tabs(n) + delimiter;
      assert shown[0] in {TAB, delimiter[0]} && (shown + [NL])[0] == shown[0];
      assert raw[0] in {' ', NL};
    }
  }

  lemma CloserLine(c: Chunk, rest: string)
    requires c.Document? && ChunkOk(c)
    ensures CloserOk(PrintClose(c), c.strip, c.delimiter, rest)
  {
    hide StripNewline, EndsWithNewline, IsLine, LineOk;
    var d := c.delimiter;
    AlphanumericWord(d);
    assert NL !in Tabs(c.tabs);
    StripOneNewline(Tabs(c.tabs) + d);
    assert IsAlphanumeric(d[0]);
    assert ClosesAt(PrintClose(c), c.tabs, d);
  }

  // ----- Documents are found -----

  function WordOfChunk(c: Chunk): Word
    requires c.Document?
  {
    match c.style
    case Unquoted => Bare(c.delimiter)
    case WithBackslash => Escaped(c.delimiter)
    case WithQuotes(q) => InQuotes(q, c.delimiter)
  }

  function BodyOf(c: Chunk): seq<string>
    requires c.Document?
  {
    [c.tail + [NL]] + Unlines(c.content)
  }

  lemma DelimiterOk(c: Chunk, more: string)
    requires c.Document? && ChunkOk(c)
    ensures c.delimiter != [] && WordOk(WordOfChunk(c), Concat(BodyOf(c)) + more)
    ensures PrintWord(WordOfChunk(c)) == PrintDelimiter(c.style, c.delimiter)
    ensures PrintWord(WordOfChunk(c)) != [] && PrintWord(WordOfChunk(c))[0] != '-'
    ensures !IsAsciiSpace(PrintWord(WordOfChunk(c))[0])
  {
    hide IsAlphanumeric, LineOk, Concat;
    SameClasses();
    AlphanumericWord(c.delimiter);
    var after := Concat(BodyOf(c)) + more;
    BodyHead(c);
    assert EndsWord(' ');
  }

  lemma BodyHead(c: Chunk)
    requires c.Document? && (c.tail == [] || c.tail[0] == ' ')
    ensures Concat(BodyOf(c)) == (c.tail + [NL]) + Concat(Unlines(c.content))
    ensures Concat(BodyOf(c))[0] in {' ', NL}
  {
    assert BodyOf(c)[1..] == Unlines(c.content);
  }

  lemma BodyLines(c: Chunk)
    requires c.Document? && ChunkOk(c)
    ensures BodyOk(BodyOf(c), c.strip, c.delimiter)
  {
    hide Closes, IsLine, EndsWithNewline, LineOk;
    var lines := BodyOf(c);
    forall i | 0 <= i < |lines|
      ensures IsLine(lines[i]) && EndsWithNewline(lines[i]) && !Closes(lines[i], c.strip, c.delimiter)
    {
      if i == 0 {
        TailLine(c.tail, c.strip, c.delimiter);
      } else {
        ContentLine(c.content[i - 1], c.strip, c.delimiter);
      }
    }
  }

  lemma GapOk(c: Chunk)
    requires c.Document? && ChunkOk(c)
    ensures forall i :: 0 <= i < |c.gap| ==> IsAsciiSpace(c.gap[i])
  {
    SameClasses();
  }

  /** A printed document, regrouped from the left. */
  lemma PrintedFromLeft(c: Chunk, rest: string)
    requires c.Document? && ChunkOk(c)
    ensures PrintOpen(c) + rest == Opener(c.strip) + (c.gap + (PrintWord(WordOfChunk(c)) + (Concat(BodyOf(c)) + rest)))
  {
    hide Concat, PrintDelimiter, PrintWord, ChunkOk;
    assert ChunkOk(c) ==> (c.tail == [] || c.tail[0] == ' ') by { TailShape(c); }
    BodyHead(c);
    DelimiterOk(c, []);
    var w, b := PrintWord(WordOfChunk(c)), Concat(BodyOf(c));
    assert (w + b) + rest == w + (b + rest);
    assert (c.gap + (w + b)) + rest == c.gap + (w + (b + rest));
  }

  lemma TailShape(c: Chunk)
    requires c.Document?
    ensures ChunkOk(c) ==> (c.tail == [] || c.tail[0] == ' ')
  {
  }

  lemma DocumentFound(c: Chunk, rest: string)
    requires c.Document? && ChunkOk(c)
    ensures var s := PrintChunk(c) + rest;
      StartsHeredoc(s) && HeredocAt(s) == Some((c.delimiter, |PrintChunk(c)|))
  {
    hide HeredocAt, ParseWord, FindCloser, IsAsciiSpace, BodyOk, CloserOk, Concat, PrintWord, PrintOpen, PrintClose, ChunkOk,
      PrintDelimiter, WordOk;
    var close := PrintClose(c);
    var w, b := WordOfChunk(c), BodyOf(c);
    var after := Concat(b) + (close + rest);
    assert PrintChunk(c) + rest == PrintOpen(c) + (close + rest);
    PrintedFromLeft(c, close + rest);
    PrintedFromLeft(c, []);
    DelimiterOk(c, close + rest);
    WordParsed(w, after);
    BodyLines(c);
    CloserLine(c, rest);
    CloserFound(b, close, rest, c.strip, c.delimiter);
    GapOk(c);
    HeredocIntro(PrintChunk(c) + rest, c.strip, c.gap, PrintWord(w), after, c.delimiter, |Concat(b)| + |close|);
  }

  lemma {:induction false} NoCloser(body: seq<string>, strip: bool, delimiter: string)
    requires BodyOk(body, strip, delimiter) && delimiter != []
    ensures FindCloser(Concat(body), strip, delimiter) == None
    decreases |body|
  {
    hide IsLine, EndsWithNewline, Candidate, FindCloser, AfterLine, SplitInclusive, Closes;
    var s := Concat(body);
    if body == [] {
      NoCloserInEmpty(strip, delimiter);
    } else {
      var tail := Concat(body[1..]);
      assert body[0] != [] by { NonEmptyLine(body[0]); }
      ClosesIff(body[0], strip, delimiter);
      FirstLineOf(body[0], tail);
      CloserStep(s, strip, delimiter);
      assert s[..|body[0]|] == body[0] && s[|body[0]|..] == tail;
      NoCloser(body[1..], strip, delimiter);
    }
  }

  lemma HeredocMissing(s: string, strip: bool, gap: string, word: string, after: string, text: string)
    requires s == Opener(strip) + (gap + (word + after))
    requires forall i :: 0 <= i < |gap| ==> IsAsciiSpace(gap[i])
    requires word != [] && !IsAsciiSpace(word[0]) && (strip || gap != [] || word[0] != '-')
    requires ParseWord(word + after) == Some((text, |word|))
    requires FindCloser(after, strip, text) == None
    ensures StartsHeredoc(s) && HeredocAt(s) == None
  {
    hide ParseWord, FindCloser, IsAsciiSpace, WordStart;
    WordStartFound(s, strip, gap, word + after);
    var i := WordStart(s);
    assert s[i + |word|..] == s[i..][|word|..] == after;
  }

  lemma OpenDocumentMissing(c: Chunk)
    requires c.Document? && ChunkOk(c)
    ensures StartsHeredoc(PrintOpen(c)) && HeredocAt(PrintOpen(c)) == None
  {
    hide HeredocAt, ParseWord, FindCloser, IsAsciiSpace, BodyOk, Concat, PrintWord, PrintOpen, ChunkOk, PrintDelimiter, WordOk;
    var w, b := WordOfChunk(c), BodyOf(c);
    PrintedFromLeft(c, []);
    assert PrintOpen(c) + [] == PrintOpen(c) && Concat(b) + [] == Concat(b);
    DelimiterOk(c, []);
    WordParsed(w, Concat(b));
    BodyLines(c);
    NoCloser(b, c.strip, c.delimiter);
    GapOk(c);
    HeredocMissing(PrintOpen(c), c.strip, c.gap, PrintWord(w), Concat(b), c.delimiter);
  }

  lemma AlphanumericWord(d: string)
    requires d != [] && forall i :: 0 <= i < |d| ==> IsAlphanumeric(d[i])
    ensures NoWordEnd(d) && NL !in d && SQ !in d && DQ !in d && d[0] != BACKSLASH && d[0] != '-'
    ensures !IsAsciiSpace(d[0]) && d[0] != TAB
    ensures EndsWord(NL)
  {
    SameClasses();
    assert IsAlphanumeric(d[0]);
    forall i | 0 <= i < |d| ensures !EndsWord(d[i]) && d[i] != NL && !IsQuote(d[i]) {
      assert IsAlphanumeric(d[i]);
    }
  }

  lemma {:induction false} ScanProse(text: string, rest: string)
    requires ProseOk(text)
    ensures Scan(text + rest, None) == Scan(rest, None)
  {
    hide HeredocAt;
    if text == [] {
      assert text + rest == rest;
    } else {
      assert text + rest == [text[0]] + (text[1..] + rest);
      ScanPlain(text[0], text[1..] + rest);
      ScanProse(text[1..], rest);
    }
  }

  // ----- The round trip -----

  lemma PrintAllStep(chunks: seq<Chunk>)
    requires chunks != []
    ensures PrintAll(chunks) == PrintChunk(chunks[0]) + PrintAll(chunks[1..])
  {
    hide PrintChunk;
  }

  lemma DocumentsStep(chunks: seq<Chunk>, after: nat)
    requires chunks != []
    ensures var c, later := chunks[0], Documents(chunks[1..], after);
      Documents(chunks, after) ==
      if c.Document? then [(c.delimiter, |PrintAll(chunks[1..])| + after)] + later else later
  {
    hide PrintChunk, PrintAll;
    if !chunks[0].Document? {
      assert [] + Documents(chunks[1..], after) == Documents(chunks[1..], after);
    }
  }

  lemma NoChunks(after: nat)
    ensures PrintAll([]) == [] && Documents([], after) == []
  {
  }

  lemma JoinSeqs<T>(a: seq<T>, b: seq<T>, c: seq<T>)
    ensures (a + b) + c == a + (b + c)
  {
  }

  /** The scan of printed chunks finds their documents and goes on with what follows them. */
  lemma {:induction false} ScanPastPrint(chunks: seq<Chunk>, rest: string)
    requires forall i :: 0 <= i < |chunks| ==> ChunkOk(chunks[i])
    ensures var later := Scan(rest, None);
      Scan(PrintAll(chunks) + rest, None) ==
      if later.None? then None else Some(Documents(chunks, |rest|) + later.value)
  {
    hide HeredocAt, Scan, ChunkOk, PrintChunk, PrintAll, Documents, StartsHeredoc;
    var later := Scan(rest, None);
    if chunks == [] {
      NoChunks(|rest|);
      assert [] + rest == rest;
      assert later.Some? ==> [] + later.value == later.value;
    } else {
      var c, more := chunks[0], PrintAll(chunks[1..]) + rest;
      PrintAllStep(chunks);
      DocumentsStep(chunks, |rest|);
      ScanPastPrint(chunks[1..], rest);
      JoinSeqs(PrintChunk(c), PrintAll(chunks[1..]), rest);
      ChunkPassed(c, more);
      if later.Some? && c.Document? {
        JoinSeqs([(c.delimiter, |more|)], Documents(chunks[1..], |rest|), later.value);
      }
    }
  }

  /** The scan of one printed chunk. */
  lemma ChunkPassed(c: Chunk, more: string)
    requires ChunkOk(c)
    ensures var later := Scan(more, None);
      Scan(PrintChunk(c) + more, None) ==
      if c.Document? && later.Some? then Some([(c.delimiter, |more|)] + later.value) else later
  {
    hide HeredocAt, Scan, ChunkOk, PrintChunk;
    match c
    case Prose(text) =>
      PrintedProse(c);
      ScanProse(text, more);
    case Run(q, body) => RunPassed(c, more);
    case Document(_, _, _, _, _, _, _) =>
      DocumentFound(c, more);
      var s, n := PrintChunk(c) + more, |PrintChunk(c)|;
      assert s[n..] == more;
      ScanHere(s, c.delimiter, n);
  }

  lemma RunPassed(c: Chunk, rest: string)
    requires c.Run? && ChunkOk(c)
    ensures Scan(PrintChunk(c) + rest, None) == Scan(rest, None)
  {
    SameClasses();
    var p := Quoted(c.quote, c.body, true);
    ScanQuotedPiece(p, rest);
  }

  lemma PrintedProse(c: Chunk)
    requires c.Prose? && ChunkOk(c)
    ensures PrintChunk(c) == c.text && ProseOk(c.text)
  {
  }

  /** Scanning what was printed recovers every delimiter and resumes just after every closing line. */
  lemma ScanOfPrint(chunks: seq<Chunk>)
    requires forall i :: 0 <= i < |chunks| ==> ChunkOk(chunks[i])
    ensures Scan(PrintAll(chunks), None) == Some(Documents(chunks, 0))
  {
    hide Scan, ChunkOk, PrintAll, Documents;
    ScanPastPrint(chunks, []);
    assert PrintAll(chunks) + [] == PrintAll(chunks) && Documents(chunks, 0) + [] == Documents(chunks, 0);
    ScanEmpty();
  }

  /** A command whose last document lacks its closing line is rejected. */
  lemma UnclosedIsRejected(chunks: seq<Chunk>, c: Chunk)
    requires forall i :: 0 <= i < |chunks| ==> ChunkOk(chunks[i])
    requires c.Document? && ChunkOk(c)
    ensures Scan(PrintAll(chunks) + PrintOpen(c), None) == None
  {
    hide HeredocAt, ChunkOk, PrintAll, Documents, PrintOpen;
    OpenDocumentMissing(c);
    ScanMissing(PrintOpen(c));
    hide Scan;
    ScanPastPrint(chunks, PrintOpen(c));
  }

  lemma ScanMissing(s: string)
    requires StartsHeredoc(s) && HeredocAt(s) == None
    ensures Scan(s, None) == None
  {
    hide HeredocAt;
    assert !IsQuote(s[0]);
    assert HeredocAt(s).None?;
  }
}

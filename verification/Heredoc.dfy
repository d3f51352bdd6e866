/** The closer scan of `validate_heredocs` (its second phase): every here-document opened outside
    quotes must be closed by a line that consists of its delimiter.

    Delimiters and closing lines are those of section 2.7.4 (Here-Document) of the POSIX Shell
    Command Language, IEEE Std 1003.1-2017, as far as the scanner knows them. */
module Heredoc {
  import opened Text
  import opened TrimEnd
  import opened TrimIndex

  const SQ: char := '\''
  const DQ: char := '"'
  const LT: char := '<'
  const TAB: char := '\t'
  const BACKSLASH: char := '\\'

  /** `char::is_ascii_whitespace`. */
  predicate IsAsciiSpace(c: char) {
    c == ' ' || c == TAB || c == NL || c == '\U{0C}' || c == CR
  }

  predicate IsQuote(c: char) {
    c == SQ || c == DQ
  }

  /** A character that ends an unquoted delimiter word. */
  predicate EndsWord(c: char) {
    IsAsciiSpace(c) || c == LT
  }

  // ----- The scanner as a function of the remaining text -----

  /** What a character loop of the scanner runs up to. */
  datatype Stop = At(c: char) | AtWordEnd | AtNonSpace

  predicate StopsAt(stop: Stop, c: char) {
    match stop
    case At(q) => c == q
    case AtWordEnd => EndsWord(c)
    case AtNonSpace => !IsAsciiSpace(c)
  }

  /** Number of leading characters up to the first at which the loop stops. */
  function SpanTo(s: string, stop: Stop): (n: nat)
    ensures n <= |s|
    ensures forall i :: 0 <= i < n ==> !StopsAt(stop, s[i])
    ensures n < |s| ==> StopsAt(stop, s[n])
  {
    if s == [] || StopsAt(stop, s[0]) then 0 else 1 + SpanTo(s[1..], stop)
  }

  /** Delimiter and length of the delimiter word at the start of `s`; nothing when a quote is unclosed. */
  function ParseWord(s: string): (r: Option<(string, nat)>)
    requires s != []
    ensures r.Some? ==> r.value.1 <= |s|
  {
    if IsQuote(s[0]) then
      var n := SpanTo(s[1..], At(s[0]));
      if 1 + n >= |s| then None else Some((s[1..1 + n], n + 2))
    else if s[0] == BACKSLASH then
      var n := SpanTo(s[1..], AtWordEnd);
      Some((s[1..1 + n], n + 1))
    else
      var n := SpanTo(s, AtWordEnd);
      Some((s[..n], n))
  }

  /** `line.trim_start_matches('\t')`. */
  function StripTabs(line: string): string {
    if line != [] && line[0] == TAB then StripTabs(line[1..]) else line
  }

  /** The text of a raw line that is compared with the delimiter. */
  function Candidate(rawLine: string, strip: bool): string {
    if strip then StripTabs(StripNewline(rawLine)) else StripNewline(rawLine)
  }

  /** Length of the text up to and including the first closing line. */
  function FindCloser(s: string, strip: bool, delimiter: string): (r: Option<nat>)
    ensures r.Some? ==> r.value <= |s|
  {
    if s == [] then None
    else
      var n := AfterLine(s);
      if Candidate(s[..n], strip) == delimiter then Some(n)
      else
        var later := FindCloser(s[n..], strip, delimiter);
        if later.Some? then Some(n + later.value) else None
  }

  predicate StartsHeredoc(s: string) {
    |s| >= 2 && s[0] == LT && s[1] == LT
  }

  /** Position just after the `<<` or `<<-` and the whitespace that follows it. */
  function WordStart(s: string): (n: nat)
    requires StartsHeredoc(s)
    ensures 2 <= n <= |s|
  {
    var i := if |s| > 2 && s[2] == '-' then 3 else 2;
    i + SpanTo(s[i..], AtNonSpace)
  }

  predicate StripsTabs(s: string)
    requires StartsHeredoc(s)
  {
    |s| > 2 && s[2] == '-'
  }

  /** Delimiter and total length of the here-document at the start of `s`. */
  function HeredocAt(s: string): (r: Option<(string, nat)>)
    requires StartsHeredoc(s)
    ensures r.Some? ==> 2 <= r.value.1 <= |s|
  {
    var i := WordStart(s);
    if i >= |s| then None
    else
      var word := ParseWord(s[i..]);
      if word.None? || word.value.0 == [] then None
      else
        var j := i + word.value.1;
        var closer := FindCloser(s[j..], StripsTabs(s), word.value.0);
        if closer.None? then None else Some((word.value.0, j + closer.value))
  }

  /** The whole scan from a given quote state: the here-documents found, each with the length of the
      text that remains after its closing line, or nothing when one is malformed or unclosed. */
  function Scan(s: string, quote: Option<char>): Option<seq<(string, nat)>>
    decreases |s|
  {
    if s == [] then Some([])
    else if quote.Some? then Scan(s[1..], if s[0] == quote.value then None else quote)
    else if IsQuote(s[0]) then Scan(s[1..], Some(s[0]))
    else if StartsHeredoc(s) then
      var here := HeredocAt(s);
      if here.None? then None
      else
        var rest := s[here.value.1..];
        var later := Scan(rest, None);
        if later.None? then None else Some([(here.value.0, |rest|)] + later.value)
    else Scan(s[1..], None)
  }

  // ----- The scanner as the program runs it -----

  method SkipTo(command: string, from: nat, stop: Stop) returns (i: nat)
    requires from <= |command|
    ensures from <= i <= |command| && i - from == SpanTo(command[from..], stop)
  {
    i := from;
    while i < |command| && !StopsAt(stop, command[i])
      invariant from <= i <= |command|
      invariant i - from + SpanTo(command[i..], stop) == SpanTo(command[from..], stop)
    {
      assert command[i..][1..] == command[i + 1..];
      i := i + 1;
    }
  }

  method ScanWord(command: string, from: nat) returns (ok: bool, delimiter: string, i: nat)
    requires from < |command|
    ensures ok == ParseWord(command[from..]).Some?
    ensures ok ==> from <= i <= |command| && ParseWord(command[from..]) == Some((delimiter, i - from))
  {
    var s := command[from..];
    assert s[1..] == command[from + 1..];
    i, delimiter := from, [];
    if IsQuote(command[i]) {
      var quote := command[i];
      i := i + 1;
      var start := i;
      i := SkipTo(command, i, At(quote));
      if i >= |command| {
        return false, [], i;
      }
      delimiter := command[start..i];
      assert delimiter == s[1..1 + (i - start)];
      i := i + 1;
    } else if command[i] == BACKSLASH {
      i := i + 1;
      var start := i;
      i := SkipTo(command, i, AtWordEnd);
      delimiter := command[start..i];
      assert delimiter == s[1..1 + (i - start)];
    } else {
      i := SkipTo(command, i, AtWordEnd);
      delimiter := command[from..i];
      assert delimiter == s[..i - from];
    }
    ok := true;
  }

  method ScanCloser(command: string, from: nat, strip: bool, delimiter: string) returns (found: bool, i: nat)
    requires from <= |command|
    ensures found == FindCloser(command[from..], strip, delimiter).Some?
    ensures found ==> from <= i <= |command| && FindCloser(command[from..], strip, delimiter) == Some(i - from)
  {
    hide FindCloser, Candidate, SplitInclusive, AfterLine;
    var lines := SplitInclusive(command[from..]);
    var consumed := from;
    found, i := false, from;
    ghost var target := FindCloser(command[from..], strip, delimiter);
    for k := 0 to |lines|
      invariant from <= consumed <= |command|
      invariant lines[k..] == SplitInclusive(command[consumed..])
      invariant target == Shift(FindCloser(command[consumed..], strip, delimiter), consumed - from)
    {
      var rest := command[consumed..];
      SplitEmpty(rest);
      assert rest != [];
      CloserStep(rest, strip, delimiter);
      var n := AfterLine(rest);
      assert rest[n..] == command[consumed + n..];
      var line := lines[k];
      if Candidate(line, strip) == delimiter {
        return true, consumed + |line|;
      }
      consumed := consumed + |line|;
    }
    SplitEmpty(command[consumed..]);
    NoCloserInEmpty(strip, delimiter);
  }

  function Shift(r: Option<nat>, n: nat): Option<nat> {
    if r.Some? then Some(r.value + n) else None
  }

  lemma CloserStep(s: string, strip: bool, delimiter: string)
    requires s != []
    ensures var n := AfterLine(s); var line := s[..n];
      && SplitInclusive(s) == [line] + SplitInclusive(s[n..])
      && FindCloser(s, strip, delimiter) ==
         if Candidate(line, strip) == delimiter then Some(n) else Shift(FindCloser(s[n..], strip, delimiter), n)
  {
  }

  lemma NoCloserInEmpty(strip: bool, delimiter: string)
    ensures FindCloser([], strip, delimiter) == None
  {
  }

  /** Phase 2 of `validate_heredocs`. */
  method ValidateClosers(command: string) returns (ok: bool)
    ensures ok == Scan(command, None).Some?
  {
    hide HeredocAt;
    var quote: Option<char> := None;
    var i := 0;
    while i < |command|
      invariant 0 <= i <= |command|
      invariant quote.Some? ==> IsQuote(quote.value)
      invariant Scan(command, None).Some? == Scan(command[i..], quote).Some?
    {
      var s := command[i..];
      assert s[1..] == command[i + 1..];
      var c := command[i];
      if IsQuote(c) && (quote.None? || quote == Some(c)) {
        quote := if quote.None? then Some(c) else None;
        i := i + 1;
      } else if quote.Some? {
        i := i + 1;
      } else if c == LT && i + 1 < |command| && command[i + 1] == LT {
        assert StartsHeredoc(s);
        var found, end := ScanHeredoc(command, i);
        if !found {
          return false;
        }
        assert s[end - i..] == command[end..];
        i := end;
      } else {
        i := i + 1;
      }
    }
    ok := true;
  }

  method ScanHeredoc(command: string, at: nat) returns (found: bool, i: nat)
    requires at <= |command| && StartsHeredoc(command[at..])
    ensures found == HeredocAt(command[at..]).Some?
    ensures found ==> at + 2 <= i <= |command| && HeredocAt(command[at..]).value.1 == i - at
  {
    hide ParseWord, FindCloser, IsAsciiSpace;
    var s := command[at..];
    i := at + 2;
    var strip := false;
    if i < |command| && command[i] == '-' {
      strip := true;
      i := i + 1;
    }
    assert command[i..] == s[i - at..];
    i := SkipTo(command, i, AtNonSpace);
    assert i - at == WordStart(s);
    if i >= |command| {
      return false, i;
    }
    assert command[i..] == s[i - at..];
    var ok, delimiter, j := ScanWord(command, i);
    if !ok || delimiter == [] {
      return false, i;
    }
    assert command[j..] == s[j - at..];
    found, i := ScanCloser(command, j, strip, delimiter);
  }
}

/** `format_function_list_wrapped`: greedy wrapping of signatures into lines of at most 100 bytes. */
module Wrapping {
  import opened Text

  const INDENT: string := "  "
  const SEPARATOR: string := ", "
  const WIDTH: nat := 100

  // ----- Lines -----

  function Join(items: seq<string>): string
    requires items != []
  {
    if |items| == 1 then items[0] else Join(items[..|items| - 1]) + SEPARATOR + items[|items| - 1]
  }

  function Line(items: seq<string>): string
    requires items != []
  {
    INDENT + Join(items)
  }

  /** Length of a line in bytes. */
  function LineLen(items: seq<string>): nat
    requires items != []
  {
    if |items| == 1 then 2 + Utf8Len(items[0])
    else LineLen(items[..|items| - 1]) + Utf8Len(items[|items| - 1]) + 2
  }

  lemma {:induction false} LineLenIsLength(items: seq<string>)
    requires items != []
    ensures Utf8Len(Line(items)) == LineLen(items)
  {
    hide Utf8Len, Line, LineLen;
    ShortLengths();
    var front, last := items[..|items| - 1], items[|items| - 1];
    LineUnfold(items);
    if |items| == 1 {
      Utf8LenConcat(INDENT, last);
    } else {
      LineLenIsLength(front);
      Utf8LenConcat(Line(front), SEPARATOR + last);
      Utf8LenConcat(SEPARATOR, last);
    }
  }

  lemma LineUnfold(items: seq<string>)
    requires items != []
    ensures var front, last := items[..|items| - 1], items[|items| - 1];
      if |items| == 1 then Line(items) == INDENT + last && LineLen(items) == 2 + Utf8Len(last)
      else Line(items) == Line(front) + (SEPARATOR + last) && LineLen(items) == LineLen(front) + Utf8Len(last) + 2
  {
    hide Utf8Len;
  }

  lemma ShortLengths()
    ensures Utf8Len(INDENT) == 2 && Utf8Len(SEPARATOR) == 2
  {
    assert INDENT[1..] == " " && SEPARATOR[1..] == " ";
    assert " "[1..] == [];
  }

  lemma {:induction false} LineLenGrows(items: seq<string>, k: nat)
    requires 1 <= k <= |items|
    ensures LineLen(items[..k]) <= LineLen(items)
  {
    if k < |items| {
      var front := items[..|items| - 1];
      LineLenGrows(front, k);
      assert front[..k] == items[..k];
    } else {
      assert items[..k] == items;
    }
  }

  // ----- Signatures -----

  datatype FunctionInfo = FunctionInfo(
    name: string, line: nat, endLine: nat, parameters: seq<string>, returnType: Option<string>)

  const MAX_PARAMS_DISPLAY_LEN: nat := 80
  const TRUNCATION_POINT: nat := 77
  const BULLET: char := '\U{2022}'

  /** A number in decimal digits. */
  function Decimal(n: nat): (digits: string)
    ensures digits != []
  {
    (if n < 10 then [] else Decimal(n / 10)) + [('0' as int + n % 10) as char]
  }

  /** The number that decimal digits denote. */
  function DecimalValue(digits: string): int {
    if digits == [] then 0
    else 10 * DecimalValue(digits[..|digits| - 1]) + (digits[|digits| - 1] as int - '0' as int)
  }

  lemma {:induction false} DecimalIsExact(n: nat)
    ensures DecimalValue(Decimal(n)) == n
  {
    if n >= 10 {
      DecimalIsExact(n / 10);
      assert Decimal(n)[..|Decimal(n)| - 1] == Decimal(n / 10);
    }
  }

  /** `str::floor_char_boundary`: how many whole characters fit into `bytes` bytes. */
  function FloorCharBoundary(s: string, bytes: nat): (k: nat)
    ensures k <= |s|
  {
    if s == [] || Utf8Width(s[0]) > bytes then 0 else 1 + FloorCharBoundary(s[1..], bytes - Utf8Width(s[0]))
  }

  lemma {:induction false} FloorIsLargest(s: string, bytes: nat)
    ensures var k := FloorCharBoundary(s, bytes);
      && Utf8Len(s[..k]) <= bytes
      && (k < |s| ==> Utf8Len(s[..k + 1]) > bytes)
  {
    if s != [] && Utf8Width(s[0]) <= bytes {
      var rest := s[1..];
      var k := FloorCharBoundary(rest, bytes - Utf8Width(s[0]));
      FloorIsLargest(rest, bytes - Utf8Width(s[0]));
      assert s[..k + 1][1..] == rest[..k];
      if k < |rest| {
        assert s[..k + 2][1..] == rest[..k + 1];
      }
    } else if s != [] {
      assert s[..1][1..] == [];
    }
  }

  /** The parameter list as shown: in full up to 80 bytes, cut at a character boundary otherwise. */
  function ShownParameters(parameters: seq<string>): string {
    if parameters == [] then []
    else
      var all := Join(parameters);
      if Utf8Len(all) > MAX_PARAMS_DISPLAY_LEN then all[..FloorCharBoundary(all, TRUNCATION_POINT)] + "..." else all
  }

  lemma DotsLength()
    ensures Utf8Len("...") == 3
  {
    assert "..."[1..] == ".." && ".."[1..] == "." && "."[1..] == [];
  }

  /** The parameters shown never exceed 80 bytes, and are cut only when the full list does. What is cut
      is shown by dots after as many whole characters as fit into 77 bytes. */
  lemma ShownParametersFit(parameters: seq<string>)
    requires parameters != []
    ensures var shown, all := ShownParameters(parameters), Join(parameters);
      && Utf8Len(shown) <= 80
      && (shown == all <==> Utf8Len(all) <= 80)
      && (Utf8Len(all) > 80 ==>
            |shown| >= 3 && var k := |shown| - 3;
            && k < |all| && shown == all[..k] + "..."
            && Utf8Len(all[..k]) <= 77 < Utf8Len(all[..k + 1]))
  {
    hide Utf8Len, Join, FloorCharBoundary;
    var all := Join(parameters);
    var k := FloorCharBoundary(all, TRUNCATION_POINT);
    FloorIsLargest(all, TRUNCATION_POINT);
    Utf8LenConcat(all[..k], "...");
    DotsLength();
    assert all[..|all|] == all;
  }

  /** `compact_signature`. */
  function CompactSignature(f: FunctionInfo): string {
    f.name + "(" + ShownParameters(f.parameters) + ")" +
    (if f.returnType.Some? then " -> " + f.returnType.value else "") +
    " :" + Decimal(f.line) + "-" + Decimal(f.endLine)
  }

  /** A signature with its call count, shown when the function is called more than three times. */
  function Marker(f: FunctionInfo, callFrequency: map<string, nat>): string {
    CompactSignature(f) +
    (if f.name in callFrequency && callFrequency[f.name] > 3 then [BULLET] + Decimal(callFrequency[f.name]) else [])
  }

  function Markers(functions: seq<FunctionInfo>, callFrequency: map<string, nat>): (items: seq<string>)
    ensures |items| == |functions|
  {
    seq(|functions|, i requires 0 <= i < |functions| => Marker(functions[i], callFrequency))
  }

  // ----- Reading a signature back -----

  predicate IsDigit(c: char) {
    '0' <= c <= '9'
  }

  /** Number of digits at the end of `s`. */
  function TrailingDigits(s: string): (n: nat)
    ensures n <= |s|
  {
    if s == [] || !IsDigit(s[|s| - 1]) then 0 else 1 + TrailingDigits(s[..|s| - 1])
  }

  /** The text before the number at the end of `s`, and that number. */
  function SplitNumber(s: string): (string, int) {
    var k := |s| - TrailingDigits(s);
    (s[..k], DecimalValue(s[k..]))
  }

  lemma {:induction false} DecimalDigits(n: nat)
    ensures forall i :: 0 <= i < |Decimal(n)| ==> IsDigit(Decimal(n)[i])
  {
    if n >= 10 {
      DecimalDigits(n / 10);
    }
  }

  lemma {:induction false} TrailingRun(a: string, digits: string)
    requires a == [] || !IsDigit(a[|a| - 1])
    requires forall i :: 0 <= i < |digits| ==> IsDigit(digits[i])
    ensures TrailingDigits(a + digits) == |digits|
  {
    if digits == [] {
      assert a + digits == a;
    } else {
      var front := digits[..|digits| - 1];
      assert (a + digits)[..|a| + |digits| - 1] == a + front;
      TrailingRun(a, front);
    }
  }

  /** A number printed after a character that is no digit is read back. */
  lemma NumberReadsBack(a: string, n: nat)
    requires a != [] && !IsDigit(a[|a| - 1])
    ensures SplitNumber(a + Decimal(n)) == (a, n)
  {
    hide Decimal, DecimalValue, TrailingDigits;
    DecimalDigits(n);
    TrailingRun(a, Decimal(n));
    DecimalIsExact(n);
    var s := a + Decimal(n);
    assert s[..|a|] == a && s[|a|..] == Decimal(n);
  }

  /** Read from the end, a signature shows the last line, a dash, the first line and " :"; before that
      stand the name with the parameters and, if there is one, the return type. */
  lemma SignatureReadsBack(f: FunctionInfo)
    ensures var (front, last) := SplitNumber(CompactSignature(f));
      && last == f.endLine && front != [] && front[|front| - 1] == '-'
      && var (head, first) := SplitNumber(front[..|front| - 1]);
      && first == f.line
      && head == f.name + "(" + ShownParameters(f.parameters) + ")" +
                 (match f.returnType case Some(r) => " -> " + r case None => []) + " :"
  {
    hide ShownParameters, Decimal, SplitNumber;
    var head := f.name + "(" + ShownParameters(f.parameters) + ")" +
                (match f.returnType case Some(r) => " -> " + r case None => []) + " :";
    var front := head + Decimal(f.line) + "-";
    assert CompactSignature(f) == front + Decimal(f.endLine);
    NumberReadsBack(front, f.endLine);
    assert front[..|front| - 1] == head + Decimal(f.line);
    NumberReadsBack(head, f.line);
  }

  /** A marker ends with a bullet and a number exactly when the function is called more than three times;
      the number is the call count and what stands before the bullet is the signature. */
  lemma MarkerReadsBack(f: FunctionInfo, callFrequency: map<string, nat>)
    ensures var (front, count) := SplitNumber(Marker(f, callFrequency));
      && front != []
      && (front[|front| - 1] == '\U{2022}' <==> f.name in callFrequency && callFrequency[f.name] > 3)
      && (front[|front| - 1] == '\U{2022}' ==> count == callFrequency[f.name] && front[..|front| - 1] == CompactSignature(f))
      && (front[|front| - 1] != '\U{2022}' ==> Marker(f, callFrequency) == CompactSignature(f))
  {
    hide CompactSignature, Decimal, SplitNumber;
    var s := CompactSignature(f);
    SignatureReadsBack(f);
    if f.name in callFrequency && callFrequency[f.name] > 3 {
      assert Marker(f, callFrequency) == (s + [BULLET]) + Decimal(callFrequency[f.name]);
      NumberReadsBack(s + [BULLET], callFrequency[f.name]);
      assert (s + [BULLET])[..|s|] == s;
    } else {
      assert Marker(f, callFrequency) == s;
    }
  }

  // ----- Breaking into lines -----

  /** A line may hold one signature of any length, or several within the width. */
  predicate Fits(items: seq<string>) {
    items != [] && (|items| == 1 || LineLen(items) <= WIDTH)
  }

  function Flatten(groups: seq<seq<string>>): seq<string> {
    if groups == [] then [] else groups[0] + Flatten(groups[1..])
  }

  /** An order-preserving division of `items` into permitted lines. */
  ghost predicate IsBreak(items: seq<string>, groups: seq<seq<string>>) {
    Flatten(groups) == items && forall i :: 0 <= i < |groups| ==> Fits(groups[i])
  }

  /** Number of signatures the greedy rule puts on a line that already holds the first `k`. */
  function FitFrom(items: seq<string>, k: nat): (n: nat)
    requires 1 <= k <= |items|
    ensures k <= n <= |items|
    decreases |items| - k
  {
    if k < |items| && !(LineLen(items[..k]) + Utf8Len(items[k]) + 2 > WIDTH) then FitFrom(items, k + 1) else k
  }

  function Greedy(items: seq<string>): seq<seq<string>> {
    if items == [] then []
    else
      var n := FitFrom(items, 1);
      [items[..n]] + Greedy(items[n..])
  }

  lemma LineLenSnoc(items: seq<string>, k: nat)
    requires 1 <= k < |items|
    ensures LineLen(items[..k + 1]) == LineLen(items[..k]) + Utf8Len(items[k]) + 2
  {
    assert items[..k + 1][..k] == items[..k];
  }

  /** The greedy line is permitted, and no longer prefix is. */
  lemma {:induction false} FitIsMaximal(items: seq<string>, k: nat)
    requires 1 <= k <= |items| && Fits(items[..k])
    ensures Fits(items[..FitFrom(items, k)])
    ensures forall m :: FitFrom(items, k) < m <= |items| ==> !Fits(items[..m])
    decreases |items| - k
  {
    if k < |items| {
      LineLenSnoc(items, k);
      if LineLen(items[..k + 1]) <= WIDTH {
        FitIsMaximal(items, k + 1);
      } else {
        forall m | k < m <= |items| ensures !Fits(items[..m]) {
          LineLenGrows(items[..m], k + 1);
          assert items[..m][..k + 1] == items[..k + 1];
        }
      }
    }
  }

  lemma GreedyLine(items: seq<string>)
    requires items != []
    ensures var n := FitFrom(items, 1);
      && Fits(items[..n]) && forall m :: n < m <= |items| ==> !Fits(items[..m])
  {
    FitIsMaximal(items, 1);
  }

  /** The greedy division is a permitted division. */
  lemma {:induction false} GreedyIsBreak(items: seq<string>)
    ensures IsBreak(items, Greedy(items))
  {
    if items != [] {
      GreedyLine(items);
      var n := FitFrom(items, 1);
      GreedyIsBreak(items[n..]);
      assert items == items[..n] + items[n..];
    }
  }

  // ----- Optimality -----

  lemma {:induction false} SuffixLineLen(items: seq<string>)
    requires |items| >= 2
    ensures LineLen(items[1..]) <= LineLen(items)
  {
    if |items| == 2 {
      assert items[..1] == [items[0]] && items[1..] == [items[1]];
    } else {
      var front := items[..|items| - 1];
      SuffixLineLen(front);
      assert front[1..] == items[1..][..|items| - 2];
    }
  }

  lemma GreedySize(items: seq<string>)
    ensures |Greedy(items)| == if items == [] then 0 else 1 + |Greedy(items[FitFrom(items, 1)..])|
  {
    hide FitFrom;
  }

  lemma DropDrop(items: seq<string>, i: nat, k: nat)
    requires i + k <= |items|
    ensures items[i..][k..] == items[i + k..]
  {
  }

  /** Dropping signatures from the front never needs more lines. */
  lemma {:induction false} SuffixNeedsNoMore(items: seq<string>, j: nat)
    requires j <= |items|
    ensures |Greedy(items[j..])| <= |Greedy(items)|
    decreases |items|, j
  {
    hide FitFrom, LineLen, Greedy;
    if j == 0 {
      assert items[0..] == items;
    } else {
      var n, tail := FitFrom(items, 1), items[1..];
      GreedySize(items);
      SuffixNeedsNoMore(tail, j - 1);
      DropDrop(items, 1, j - 1);
      if n > 1 {
        var m, after := FitFrom(tail, 1), items[n..];
        GreedySize(tail);
        TailLineReaches(items);
        SuffixNeedsNoMore(after, 1 + m - n);
        DropDrop(items, n, 1 + m - n);
        DropDrop(items, 1, m);
        assert |Greedy(tail)| <= |Greedy(items)|;
      }
    }
  }

  /** The line that starts at the second signature reaches at least as far as the first line. */
  lemma TailLineReaches(items: seq<string>)
    requires items != [] && FitFrom(items, 1) > 1
    ensures 1 + FitFrom(items[1..], 1) >= FitFrom(items, 1)
  {
    hide FitFrom, LineLen;
    var n, tail := FitFrom(items, 1), items[1..];
    GreedyLine(items);
    GreedyLine(tail);
    SuffixLineLen(items[..n]);
    assert items[..n][1..] == tail[..n - 1];
    assert Fits(tail[..n - 1]);
  }

  /** Greedy wrapping is optimal: no permitted division uses fewer lines. */
  lemma {:induction false} GreedyIsOptimal(items: seq<string>, groups: seq<seq<string>>)
    requires IsBreak(items, groups)
    ensures |Greedy(items)| <= |groups|
    decreases |groups|
  {
    if groups != [] {
      var g := groups[0];
      var k := |g|;
      assert items[..k] == g && items[k..] == Flatten(groups[1..]);
      GreedyLine(items);
      var n := FitFrom(items, 1);
      assert n >= k;
      GreedyIsOptimal(items[k..], groups[1..]);
      SuffixNeedsNoMore(items[k..], n - k);
      assert items[k..][n - k..] == items[n..];
    }
  }

  // ----- The program's loop -----

  /** Each line followed by a newline. */
  function Render(groups: seq<seq<string>>): string
    requires forall i :: 0 <= i < |groups| ==> groups[i] != []
  {
    if groups == [] then []
    else Render(groups[..|groups| - 1]) + (Line(groups[|groups| - 1]) + [NL])
  }

  /** `line.trim().is_empty()`. */
  predicate IsBlank(line: string) {
    forall i :: 0 <= i < |line| ==> IsWhitespace(line[i])
  }

  lemma GroupsNonEmpty(items: seq<string>)
    ensures forall i :: 0 <= i < |Greedy(items)| ==> Greedy(items)[i] != []
  {
    GreedyIsBreak(items);
  }

  /** The lines of the greedy division; a last line of only blanks is not printed. */
  function Output(items: seq<string>): string {
    GroupsNonEmpty(items);
    var groups := Greedy(items);
    if groups == [] then []
    else Render(if IsBlank(Line(groups[|groups| - 1])) then groups[..|groups| - 1] else groups)
  }

  lemma RenderStep(all: seq<seq<string>>)
    requires all != [] && forall i :: 0 <= i < |all| ==> all[i] != []
    ensures Render(all) == Render(all[..|all| - 1]) + (Line(all[|all| - 1]) + [NL])
  {
    hide Line;
  }

  lemma JoinThree(a: string, b: string, c: string)
    ensures a + (b + c) == a + b + c
  {
  }

  lemma RenderSnoc(groups: seq<seq<string>>, g: seq<string>)
    requires g != [] && forall i :: 0 <= i < |groups| ==> groups[i] != []
    ensures Render(groups + [g]) == Render(groups) + Line(g) + [NL]
  {
    hide Line, Render;
    var all := groups + [g];
    RenderStep(all);
    assert all[..|all| - 1] == groups && all[|all| - 1] == g;
    JoinThree(Render(groups), Line(g), [NL]);
  }

  lemma GreedyStep(rest: seq<string>, k: nat)
    requires 1 <= k <= |rest| && FitFrom(rest, 1) == FitFrom(rest, k)
    requires k < |rest| ==> LineLen(rest[..k]) + Utf8Len(rest[k]) + 2 > WIDTH
    ensures Greedy(rest) == [rest[..k]] + Greedy(rest[k..])
  {
  }

  lemma LineSnoc(items: seq<string>, last: string)
    requires items != []
    ensures Line(items + [last]) == Line(items) + SEPARATOR + last
  {
    assert (items + [last])[..|items|] == items;
  }

  /** What the loop has done when the current line holds the signatures from `from` up to `i`. */
  ghost predicate Progress(items: seq<string>, done: seq<seq<string>>, from: nat, i: nat) {
    && from < i <= |items|
    && done + Greedy(items[from..]) == Greedy(items)
    && FitFrom(items[from..], 1) == FitFrom(items[from..], i - from)
  }

  lemma ProgressStep(items: seq<string>, done: seq<seq<string>>, from: nat, i: nat)
    requires Progress(items, done, from, i) && i < |items|
    ensures if LineLen(items[from..i]) + Utf8Len(items[i]) + 2 > WIDTH
      then Progress(items, done + [items[from..i]], i, i + 1)
      else Progress(items, done, from, i + 1)
  {
    hide LineLen, Utf8Len;
    var rest, k := items[from..], i - from;
    assert rest[..k] == items[from..i] && rest[k] == items[i] && rest[k..] == items[i..];
    if LineLen(items[from..i]) + Utf8Len(items[i]) + 2 > WIDTH {
      GreedyStep(rest, k);
    }
  }

  lemma ProgressEnd(items: seq<string>, done: seq<seq<string>>, from: nat)
    requires Progress(items, done, from, |items|)
    ensures Greedy(items) == done + [items[from..]]
  {
    var rest := items[from..];
    GreedyStep(rest, |rest|);
    assert rest[..|rest|] == rest && rest[|rest|..] == [];
  }

  /** `format_function_list_wrapped`. */
  method FormatWrapped(functions: seq<FunctionInfo>, callFrequency: map<string, nat>) returns (output: string)
    ensures output == Output(Markers(functions, callFrequency))
  {
    hide Utf8Len, LineLen, Greedy, Render, Line, Progress, IsBlank, CompactSignature;
    output := [];
    var line := INDENT;
    ghost var items := Markers(functions, callFrequency);
    ghost var done: seq<seq<string>> := [];
    ghost var from: nat := 0;
    if items == [] {
      BlankIndent();
      EmptyOutput();
    } else {
      FirstLine(items);
    }
    for i := 0 to |functions|
      invariant forall j :: 0 <= j < |done| ==> done[j] != []
      invariant i == 0 ==> line == INDENT && output == [] && done == [] && from == 0
      invariant i > 0 ==> from < i && Progress(items, done, from, i)
      invariant i > 0 ==> line == Line(items[from..i]) && output == Render(done)
    {
      var marker := CompactSignature(functions[i]);
      if functions[i].name in callFrequency && callFrequency[functions[i].name] > 3 {
        marker := marker + ([BULLET] + Decimal(callFrequency[functions[i].name]));
      }
      assert marker == items[i];
      if i == 0 {
        line := line + marker;
      } else {
        LineLenIsLength(items[from..i]);
        ProgressStep(items, done, from, i);
        if Utf8Len(line) + Utf8Len(marker) + 2 > WIDTH {
          RenderSnoc(done, items[from..i]);
          output := output + line;
          output := output + [NL];
          done := done + [items[from..i]];
          line := INDENT + marker;
          from := i;
          OneItemLine(items, i);
        } else {
          assert items[from..i + 1] == items[from..i] + [marker];
          LineSnoc(items[from..i], marker);
          line := line + SEPARATOR;
          line := line + marker;
        }
      }
    }
    if items != [] {
      ProgressEnd(items, done, from);
      assert items[from..|items|] == items[from..];
      assert Greedy(items)[..|done|] == done;
      RenderSnoc(done, items[from..]);
    }
    if !IsBlank(line) {
      output := output + line;
      output := output + [NL];
    }
  }

  lemma OneItemLine(items: seq<string>, i: nat)
    requires i < |items|
    ensures Line(items[i..i + 1]) == INDENT + items[i]
  {
    assert items[i..i + 1] == [items[i]];
  }

  lemma FirstLine(items: seq<string>)
    requires items != []
    ensures Line(items[0..1]) == INDENT + items[0]
    ensures Progress(items, [], 0, 1) && Render([]) == []
  {
    OneItemLine(items, 0);
    assert items[0..] == items;
  }

  lemma EmptyOutput()
    ensures Output([]) == []
  {
  }

  lemma BlankIndent()
    ensures IsBlank(INDENT)
  {
    assert IsWhitespace(' ');
  }

  /** What the output shows: every line with two or more signatures keeps to the width, the lines hold
      all signatures once and in order, and no permitted division has fewer lines. */
  lemma WrappingIsOptimal(items: seq<string>)
    ensures Flatten(Greedy(items)) == items
    ensures forall i :: 0 <= i < |Greedy(items)| ==>
      Greedy(items)[i] != [] && (|Greedy(items)[i]| >= 2 ==> Utf8Len(Line(Greedy(items)[i])) <= WIDTH)
    ensures forall groups :: IsBreak(items, groups) ==> |Greedy(items)| <= |groups|
  {
    hide Greedy, LineLen;
    GreedyIsBreak(items);
    forall i | 0 <= i < |Greedy(items)|
      ensures Greedy(items)[i] != [] && (|Greedy(items)[i]| >= 2 ==> Utf8Len(Line(Greedy(items)[i])) <= WIDTH)
    {
      assert Fits(Greedy(items)[i]);
      LineLenIsLength(Greedy(items)[i]);
    }
    forall groups | IsBreak(items, groups) ensures |Greedy(items)| <= |groups| {
      GreedyIsOptimal(items, groups);
    }
  }

  // ----- The printed text -----

  /** Which divisions are permitted, in terms of the printed line. */
  lemma FitsIff(items: seq<string>)
    ensures Fits(items) <==> items != [] && (|items| == 1 || Utf8Len("  " + Join(items)) <= 100)
  {
    hide Join, LineLen, Utf8Len;
    if items != [] {
      LineLenIsLength(items);
      LineIs(items);
    }
  }

  /** Signatures on a line are separated by a comma and a blank. */
  lemma JoinIs(items: seq<string>, last: string)
    ensures Join([last]) == last
    ensures items != [] ==> Join(items + [last]) == Join(items) + ", " + last
  {
    assert (items + [last])[..|items|] == items;
  }

  lemma LineIs(items: seq<string>)
    requires items != []
    ensures Line(items) == "  " + Join(items)
  {
  }

  lemma {:induction false} RenderHead(groups: seq<seq<string>>)
    requires groups != [] && forall i :: 0 <= i < |groups| ==> groups[i] != []
    ensures Render(groups) == Line(groups[0]) + ([NL] + Render(groups[1..]))
  {
    hide Line, Render;
    var n := |groups| - 1;
    var last := Line(groups[n]) + [NL];
    RenderStep(groups);
    RenderNothing();
    if n == 0 {
      assert groups[..0] == [] && groups[1..] == [];
      assert [] + last == Line(groups[0]) + ([NL] + []);
    } else {
      var front, rest := groups[..n], groups[1..];
      RenderHead(front);
      RenderStep(rest);
      assert rest[..n - 1] == front[1..] && rest[n - 1] == groups[n];
      Regroup(Line(groups[0]), Render(front[1..]), last);
    }
  }

  lemma RenderNothing()
    ensures Render([]) == []
  {
  }

  lemma Regroup(a: string, b: string, c: string)
    ensures (a + ([NL] + b)) + c == a + ([NL] + (b + c))
  {
  }

  /** Splitting rendered lines at newlines gives those lines back. */
  lemma {:induction false} PiecesOfRender(groups: seq<seq<string>>)
    requires forall i :: 0 <= i < |groups| ==> groups[i] != [] && NL !in Line(groups[i])
    ensures |Pieces(Render(groups))| == |groups| + 1 && Pieces(Render(groups))[|groups|] == []
    ensures forall i :: 0 <= i < |groups| ==> Pieces(Render(groups))[i] == Line(groups[i])
  {
    hide Line, Render, Pieces;
    if groups == [] {
      RenderNothing();
      assert Pieces([]) == [[]] by { NoPieces(); }
    } else {
      var rest := groups[1..];
      RenderHead(groups);
      PiecesOfRender(rest);
      PiecesOfLine(Line(groups[0]), Render(rest));
      forall i | 0 < i < |groups| ensures Pieces(Render(groups))[i] == Line(groups[i]) {
        assert groups[i] == rest[i - 1];
      }
    }
  }

  lemma NoPieces()
    ensures Pieces([]) == [[]]
  {
  }

  lemma {:induction false} JoinWithoutNewlines(items: seq<string>)
    requires items != [] && forall i :: 0 <= i < |items| ==> NL !in items[i]
    ensures NL !in Join(items)
  {
    if |items| > 1 {
      JoinWithoutNewlines(items[..|items| - 1]);
    }
  }

  lemma {:induction false} GroupItems(groups: seq<seq<string>>, i: nat, j: nat)
    requires i < |groups| && j < |groups[i]|
    ensures groups[i][j] in Flatten(groups)
  {
    if i > 0 {
      GroupItems(groups[1..], i - 1, j);
    }
  }

  /** A marker shows an opening parenthesis, so no line is blank. */
  lemma MarkerNotBlank(f: FunctionInfo, callFrequency: map<string, nat>)
    ensures '(' in Marker(f, callFrequency)
  {
    hide ShownParameters, Decimal;
    var s := CompactSignature(f);
    assert s[|f.name|] == '(';
    assert Marker(f, callFrequency)[|f.name|] == s[|f.name|];
  }

  lemma LineNotBlank(items: seq<string>)
    requires items != [] && '(' in items[|items| - 1]
    ensures !IsBlank(Line(items))
  {
    var last := items[|items| - 1];
    var k :| 0 <= k < |last| && last[k] == '(';
    var line := Line(items);
    assert line[|line| - |last| + k] == '(';
    assert !IsWhitespace('(');
  }

  /** Every group of the greedy division is printed. */
  lemma NothingDropped(functions: seq<FunctionInfo>, callFrequency: map<string, nat>)
    ensures var items := Markers(functions, callFrequency);
      && (forall i :: 0 <= i < |Greedy(items)| ==> Greedy(items)[i] != [])
      && Output(items) == Render(Greedy(items))
  {
    hide Line, Greedy, IsBlank, Render, Marker;
    var items := Markers(functions, callFrequency);
    GroupsNonEmpty(items);
    GreedyIsBreak(items);
    RenderNothing();
    var groups := Greedy(items);
    if groups != [] {
      var i := |groups| - 1;
      var j := |groups[i]| - 1;
      GroupItems(groups, i, j);
      var k :| 0 <= k < |items| && items[k] == groups[i][j];
      MarkerNotBlank(functions[k], callFrequency);
      LineNotBlank(groups[i]);
    }
  }

  /** What is printed: the lines of a division of the signatures, in order, into permitted lines, each
      indented by two blanks and joined by commas; no line with several signatures exceeds 100 bytes; and
      no other permitted division has fewer lines. Splitting the text at its newlines gives exactly these
      lines, as long as no signature holds a newline of its own. */
  lemma PrintedTextIsOptimal(functions: seq<FunctionInfo>, callFrequency: map<string, nat>)
    returns (groups: seq<seq<string>>)
    ensures var items := Markers(functions, callFrequency);
      && IsBreak(items, groups)
      && (forall other :: IsBreak(items, other) ==> |groups| <= |other|)
      && (forall i :: 0 <= i < |groups| ==>
            groups[i] != [] && (|groups[i]| >= 2 ==> Utf8Len("  " + Join(groups[i])) <= 100))
      && ((forall k :: 0 <= k < |items| ==> NL !in items[k]) ==>
            && |Pieces(Output(items))| == |groups| + 1 && Pieces(Output(items))[|groups|] == []
            && forall i :: 0 <= i < |groups| ==> Pieces(Output(items))[i] == "  " + Join(groups[i]))
  {
    hide Utf8Len, Join, Greedy, Output, Render, Pieces, Fits;
    var items := Markers(functions, callFrequency);
    groups := Greedy(items);
    WrappingIsOptimal(items);
    NothingDropped(functions, callFrequency);
    GreedyIsBreak(items);
    forall i | 0 <= i < |groups|
      ensures Line(groups[i]) == "  " + Join(groups[i])
      ensures (forall k :: 0 <= k < |items| ==> NL !in items[k]) ==> NL !in Line(groups[i])
    {
      LineIs(groups[i]);
      if forall k :: 0 <= k < |items| ==> NL !in items[k] {
        forall j | 0 <= j < |groups[i]| ensures NL !in groups[i][j] {
          GroupItems(groups, i, j);
        }
        JoinWithoutNewlines(groups[i]);
      }
    }
    if forall k :: 0 <= k < |items| ==> NL !in items[k] {
      PiecesOfRender(groups);
    }
  }
}

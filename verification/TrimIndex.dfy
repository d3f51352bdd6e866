/** The line-by-line form of trimming: the tables that `build_trim_end_index` fills and the
    binary-searched lookups in them, proved equal to the character maps of module TrimEnd. */
module TrimIndex {
  import opened Text
  import opened Crlf
  import opened TrimEnd

  /** `s.split_inclusive('\n')`. */
  function SplitInclusive(s: string): (lines: seq<string>)
    ensures s != [] ==> lines != []
  {
    if s == [] then [] else [s[..AfterLine(s)]] + SplitInclusive(s[AfterLine(s)..])
  }

  predicate EndsWithNewline(line: string) {
    line != [] && line[|line| - 1] == NL
  }

  /** `line.strip_suffix('\n').unwrap_or(line)`. */
  function StripNewline(line: string): string {
    if EndsWithNewline(line) then line[..|line| - 1] else line
  }

  /** `body.trim_end()`. */
  function TrimEndOf(body: string): string {
    if body != [] && IsWhitespace(body[|body| - 1]) then TrimEndOf(body[..|body| - 1]) else body
  }

  /** A piece of `split_inclusive`: a newline may only come last. */
  predicate IsLine(line: string) {
    NL !in StripNewline(line)
  }

  // ----- One line at a time -----

  lemma {:induction false} FirstLineIsLine(s: string)
    requires s != []
    ensures IsLine(s[..AfterLine(s)])
    ensures EndsWithNewline(s[..AfterLine(s)]) || AfterLine(s) == |s|
  {
    if s[0] != NL && |s| > 1 {
      FirstLineIsLine(s[1..]);
      var n := AfterLine(s);
      assert s[..n] == [s[0]] + s[1..][..n - 1];
    }
  }

  lemma {:induction false} SolidUnchanged(body: string)
    requires body != [] && NL !in body && !IsWhitespace(body[|body| - 1])
    ensures Trim(body) == body && !BlankHead(body)
  {
    if |body| > 1 {
      SolidUnchanged(body[1..]);
    }
  }

  lemma {:induction false} TrimEndOfIsTrim(body: string)
    requires NL !in body
    ensures TrimEndOf(body) == Trim(body)
  {
    if body == [] {
    } else if IsWhitespace(body[|body| - 1]) {
      var b := body[..|body| - 1];
      assert body == b + [body[|body| - 1]];
      TrimEndOfIsTrim(b);
      TrimTrailing(b, [body[|body| - 1]]);
    } else {
      SolidUnchanged(body);
    }
  }

  /** Trimming one line body and keeping its newline is trimming the line. */
  lemma TrimOneLine(line: string)
    requires IsLine(line)
    ensures Trim(line) == TrimEndOf(StripNewline(line)) + (if EndsWithNewline(line) then [NL] else [])
  {
    var body := StripNewline(line);
    TrimEndOfIsTrim(body);
    if EndsWithNewline(line) {
      assert line == body + [NL] + [];
      TrimAtNewline(body, []);
    }
  }

  /** The first line and the rest are trimmed independently. */
  lemma TrimFirstLine(s: string)
    requires s != []
    ensures var n := AfterLine(s); Trim(s) == Trim(s[..n]) + Trim(s[n..])
  {
    hide Trim;
    BlankTrimsAway([]);
    var n := AfterLine(s);
    FirstLineIsLine(s);
    if EndsWithNewline(s[..n]) {
      var a, b := s[..n - 1], s[n..];
      assert s == a + [NL] + b;
      assert s[..n] == a + [NL] + [];
      TrimAtNewline(a, b);
      TrimAtNewline(a, []);
    } else {
      assert s[..n] == s;
    }
  }

  // ----- The tables -----

  datatype TrimEndIndex = TrimEndIndex(
    trimmed: string, lineTrimStarts: seq<nat>, lineNormStarts: seq<nat>, normLen: nat)

  /** Trimmed offset at which each line of `s` starts, when `s` itself starts at `base`. */
  function TrimStarts(s: string, base: nat): (starts: seq<nat>)
    ensures s != [] ==> starts != [] && starts[0] == base
  {
    if s == [] then []
    else [base] + TrimStarts(s[AfterLine(s)..], base + |Trim(s[..AfterLine(s)])|)
  }

  function NormStarts(s: string, base: nat): (starts: seq<nat>)
    ensures s != [] ==> starts != [] && starts[0] == base
  {
    if s == [] then [] else [base] + NormStarts(s[AfterLine(s)..], base + AfterLine(s))
  }

  function IndexOf(s: string): TrimEndIndex {
    TrimEndIndex(Trim(s), TrimStarts(s, 0), NormStarts(s, 0), |s|)
  }

  lemma NoStarts(t: nat, b: nat)
    ensures TrimStarts([], t) == [] && NormStarts([], b) == []
  {
  }

  lemma {:induction false} StartsSameLength(s: string, t: nat, n: nat)
    ensures |TrimStarts(s, t)| == |NormStarts(s, n)|
    decreases |s|
  {
    hide Trim, AfterLine, TrimStarts, NormStarts;
    if s == [] {
      NoStarts(t, n);
    } else {
      OneStart(s, t, n);
      StartsSameLength(s[AfterLine(s)..], t + |Trim(s[..AfterLine(s)])|, n + AfterLine(s));
    }
  }

  lemma OneStart(s: string, t: nat, b: nat)
    requires s != []
    ensures var n := AfterLine(s); var tl := |Trim(s[..n])|;
      && TrimStarts(s, t) == [t] + TrimStarts(s[n..], t + tl)
      && NormStarts(s, b) == [b] + NormStarts(s[n..], b + n)
      && (s[n..] == [] ==> TrimStarts(s, t) == [t] && NormStarts(s, b) == [b])
  {
    hide Trim, AfterLine;
  }

  /** One line's entry comes before the tables of the remaining lines. */
  lemma StartsStep(s: string, t: nat, b: nat)
    requires s != []
    ensures var n := AfterLine(s); var tl := |Trim(s[..n])|;
      && TrimStarts(s, t) == [t] + TrimStarts(s[n..], t + tl)
      && NormStarts(s, b) == [b] + NormStarts(s[n..], b + n)
      && |TrimStarts(s[n..], t + tl)| == |NormStarts(s[n..], b + n)|
      && (s[n..] == [] ==> TrimStarts(s, t) == [t] && NormStarts(s, b) == [b])
  {
    hide Trim, AfterLine, TrimStarts, NormStarts;
    OneStart(s, t, b);
    StartsSameLength(s[AfterLine(s)..], t + |Trim(s[..AfterLine(s)])|, b + AfterLine(s));
  }

  /** What the loop has built when `rest` is still to be read. */
  ghost predicate IndexProgress(norm: string, rest: string, trimmed: string, trimStarts: seq<nat>, normStarts: seq<nat>,
                                trimOff: nat, normOff: nat) {
    && trimmed + Trim(rest) == Trim(norm)
    && trimStarts + TrimStarts(rest, trimOff) == TrimStarts(norm, 0)
    && normStarts + NormStarts(rest, normOff) == NormStarts(norm, 0)
  }

  /** Appending one line's trimmed form and table entries moves the loop one line on. */
  lemma IndexStep(norm: string, rest: string, trimmed: string, trimStarts: seq<nat>, normStarts: seq<nat>,
                  trimOff: nat, normOff: nat)
    requires rest != [] && IndexProgress(norm, rest, trimmed, trimStarts, normStarts, trimOff, normOff)
    ensures var n := AfterLine(rest); var t := Trim(rest[..n]);
      IndexProgress(norm, rest[n..], trimmed + t, trimStarts + [trimOff], normStarts + [normOff], trimOff + |t|, normOff + n)
  {
    hide Trim, TrimStarts, NormStarts, AfterLine;
    StartsStep(rest, trimOff, normOff);
    TrimFirstLine(rest);
  }

  lemma IndexStart(norm: string)
    ensures IndexProgress(norm, norm, [], [], [], 0, 0)
  {
  }

  lemma IndexEnd(norm: string, trimmed: string, trimStarts: seq<nat>, normStarts: seq<nat>, trimOff: nat, normOff: nat)
    requires IndexProgress(norm, [], trimmed, trimStarts, normStarts, trimOff, normOff)
    ensures TrimEndIndex(trimmed, trimStarts, normStarts, |norm|) == IndexOf(norm)
  {
    BlankTrimsAway([]);
  }

  /** What one iteration over `split_inclusive` pieces needs to know about its line. */
  lemma LineStep(s: string)
    requires s != []
    ensures var n := AfterLine(s); var line := s[..n];
      && SplitInclusive(s) == [line] + SplitInclusive(s[n..])
      && Trim(line) == TrimEndOf(StripNewline(line)) + (if EndsWithNewline(line) then [NL] else [])
      && Trim(s) == Trim(line) + Trim(s[n..])
  {
    hide Trim, TrimEndOf;
    FirstLineIsLine(s);
    TrimFirstLine(s);
    TrimOneLine(s[..AfterLine(s)]);
  }

  /** `trim_end_lines`. */
  method TrimEndLines(norm: string) returns (out: string)
    ensures out == Trim(norm)
  {
    hide Trim, TrimEndOf, SplitInclusive, StripNewline, EndsWithNewline, AfterLine;
    var lines := SplitInclusive(norm);
    out := [];
    ghost var rest := norm;
    for k := 0 to |lines|
      invariant lines[k..] == SplitInclusive(rest)
      invariant out + Trim(rest) == Trim(norm)
    {
      var line := lines[k];
      assert rest != [] by { SplitEmpty(rest); }
      LineStep(rest);
      var body := StripNewline(line);
      out := out + TrimEndOf(body);
      if EndsWithNewline(line) {
        out := out + [NL];
      }
      rest := rest[AfterLine(rest)..];
    }
    SplitEmpty(rest);
  }

  lemma SplitEmpty(s: string)
    ensures SplitInclusive(s) == [] <==> s == []
    ensures s == [] ==> Trim(s) == []
    ensures s == [] ==> forall b: nat :: TrimStarts(s, b) == [] && NormStarts(s, b) == []
  {
  }

  /** `build_trim_end_index`. */
  method BuildTrimEndIndex(norm: string) returns (index: TrimEndIndex)
    ensures index == IndexOf(norm)
  {
    hide Trim, TrimEndOf, SplitInclusive, TrimStarts, NormStarts, StripNewline, EndsWithNewline, AfterLine, IndexProgress;
    var lines := SplitInclusive(norm);
    var trimmed: string := [];
    var trimStarts: seq<nat>, normStarts: seq<nat> := [], [];
    var trimOff: nat, normOff: nat := 0, 0;
    ghost var rest := norm;
    IndexStart(norm);
    for k := 0 to |lines|
      invariant lines[k..] == SplitInclusive(rest)
      invariant IndexProgress(norm, rest, trimmed, trimStarts, normStarts, trimOff, normOff)
    {
      var line := lines[k];
      assert rest != [] by { SplitEmpty(rest); }
      LineStep(rest);
      IndexStep(norm, rest, trimmed, trimStarts, normStarts, trimOff, normOff);
      ghost var before := trimmed;
      trimStarts := trimStarts + [trimOff];
      normStarts := normStarts + [normOff];
      var body := StripNewline(line);
      var t := TrimEndOf(body);
      trimmed := trimmed + t;
      trimOff := trimOff + |t|;
      if EndsWithNewline(line) {
        trimmed := trimmed + [NL];
        trimOff := trimOff + 1;
      }
      assert trimmed == before + Trim(line);
      normOff := normOff + |line|;
      rest := rest[AfterLine(rest)..];
    }
    SplitEmpty(rest);
    IndexEnd(norm, trimmed, trimStarts, normStarts, trimOff, normOff);
    index := TrimEndIndex(trimmed, trimStarts, normStarts, |norm|);
  }

  // ----- The lookups -----

  /** Index of the last line that starts at or before `off`, or -1. */
  function LineOf(starts: seq<nat>, off: nat): (idx: int)
    ensures -1 <= idx < |starts|
  {
    CountBelow(starts, off + 1) - 1
  }

  predicate ValidLookup(index: TrimEndIndex, off: nat) {
    && |index.lineTrimStarts| == |index.lineNormStarts|
    && index.lineTrimStarts != [] && index.lineTrimStarts[0] <= off
  }

  /** `TrimEndIndex::map_to_norm`. */
  function MapToNorm(index: TrimEndIndex, off: nat): nat
    requires ValidLookup(index, off)
  {
    var idx := LineOf(index.lineTrimStarts, off);
    index.lineNormStarts[idx] + (off - index.lineTrimStarts[idx])
  }

  /** `TrimEndIndex::map_end_to_norm`. */
  function MapEndToNorm(index: TrimEndIndex, off: nat): nat
    requires ValidLookup(index, off)
  {
    if !(off == |index.trimmed| || (off < |index.trimmed| && index.trimmed[off] == NL)) then
      MapToNorm(index, off)
    else
      var idx := LineOf(index.lineTrimStarts, off);
      if idx + 1 < |index.lineNormStarts| then index.lineNormStarts[idx + 1] else index.normLen
  }

  // ----- The lookups compute the character maps -----

  lemma {:induction false} WithinLine(s: string, off: nat)
    requires off <= |Trim(s)|
    requires NL !in Trim(s)[..off]
    ensures StartMap(s, off) == off
  {
    if off > 0 {
      HeadOfTrim(s);
      assert Trim(s)[0] == Trim(s)[..off][0];
      assert Trim(s)[..off] == [s[0]] + Trim(s[1..])[..off - 1];
      WithinLine(s[1..], off - 1);
    }
  }

  /** Within the trimmed first line offsets are unchanged. */
  lemma FirstLineIdentity(s: string, off: nat)
    requires s != [] && off < |Trim(s[..AfterLine(s)])|
    ensures off < |Trim(s)| && StartMap(s, off) == off
  {
    var line := s[..AfterLine(s)];
    FirstLineIsLine(s);
    TrimFirstLine(s);
    TrimOneLine(line);
    NoNewlineAdded(StripNewline(line));
    TrimEndOfIsTrim(StripNewline(line));
    assert Trim(s)[..off] == Trim(StripNewline(line))[..off];
    WithinLine(s, off);
  }

  lemma {:induction false} NoNewlineAdded(s: string)
    requires NL !in s
    ensures NL !in Trim(s)
  {
    if s != [] {
      NoNewlineAdded(s[1..]);
    }
  }

  lemma {:induction false} AcrossNewline(a: string, b: string, k: nat)
    requires k <= |Trim(b)|
    requires |Trim(a)| + 1 + k <= |Trim(a + [NL] + b)|
    ensures StartMap(a + [NL] + b, |Trim(a)| + 1 + k) == |a| + 1 + StartMap(b, k)
  {
    hide Trim, StartMap, BlankHead;
    var s := a + [NL] + b;
    TrimAtNewline(a, b);
    MapStep(s, |Trim(a)| + 1 + k);
    BlankTrimsAway([]);
    if a == [] {
      assert s == [NL] + b;
      assert s[1..] == b;
    } else {
      assert s[1..] == a[1..] + [NL] + b;
      TrimAtNewline(a[1..], b);
      AcrossNewline(a[1..], b, k);
    }
  }

  /** A first line that is not the last one, without its newline. */
  lemma FirstLineBody(s: string) returns (a: string)
    requires s != [] && AfterLine(s) < |s|
    ensures var n := AfterLine(s);
      && |a| + 1 == n && s == a + [NL] + s[n..]
      && |Trim(s[..n])| == |Trim(a)| + 1
      && |Trim(s)| == |Trim(a)| + 1 + |Trim(s[n..])|
  {
    hide Trim;
    var n := AfterLine(s);
    FirstLineIsLine(s);
    hide AfterLine;
    a := s[..n - 1];
    assert s == a + [NL] + s[n..];
    assert s[..n] == a + [NL] + [];
    TrimAtNewline(a, s[n..]);
    TrimAtNewline(a, []);
    BlankTrimsAway([]);
  }

  /** Past the first line the map is the map of the rest. */
  lemma RestOfLines(s: string, k: nat)
    requires s != [] && AfterLine(s) < |s|
    requires k <= |Trim(s[AfterLine(s)..])|
    ensures var n := AfterLine(s); var t := |Trim(s[..n])|;
      && t + k <= |Trim(s)|
      && StartMap(s, t + k) == n + StartMap(s[n..], k)
  {
    hide Trim, StartMap, AfterLine;
    var a := FirstLineBody(s);
    AcrossNewline(a, s[AfterLine(s)..], k);
  }

  lemma {:induction false} AfterLineShift(s: string, p: nat)
    requires p < AfterLine(s)
    ensures p + AfterLine(s[p..]) == AfterLine(s)
  {
    if p > 0 {
      AfterLineShift(s[1..], p - 1);
      assert s[1..][p - 1..] == s[p..];
    } else {
      assert s[0..] == s;
    }
  }

  /** The first line of the table is selected exactly for offsets inside that line. */
  lemma LineOfCons(t: nat, rest: seq<nat>, off: nat)
    requires t <= off
    ensures LineOf([t] + rest, off) == 1 + LineOf(rest, off)
    ensures rest == [] || rest[0] > off ==> LineOf(rest, off) == -1
  {
    assert ([t] + rest)[1..] == rest;
  }

  lemma {:induction false} LookupIsStartMap(s: string, t: nat, b: nat, off: nat)
    requires off < |Trim(s)|
    ensures var ts, ns := TrimStarts(s, t), NormStarts(s, b); var idx := LineOf(ts, t + off);
      && 0 <= idx < |ts| == |ns|
      && ns[idx] + (t + off - ts[idx]) == b + StartMap(s, off)
    decreases |s|
  {
    hide Trim, StartMap, TrimStarts, NormStarts, LineOf;
    StartsStep(s, t, b);
    TrimFirstLine(s);
    var n := AfterLine(s);
    var tl := |Trim(s[..n])|;
    LineOfCons(t, TrimStarts(s[n..], t + tl), t + off);
    if s[n..] == [] || off < tl {
      FirstLineIdentity(s, off);
    } else {
      LookupIsStartMap(s[n..], t + tl, b + n, off - tl);
      assert t + tl + (off - tl) == t + off;
      RestOfLines(s, off - tl);
    }
  }

  lemma {:induction false} LookupIsEndMap(s: string, t: nat, b: nat, off: nat)
    requires s != [] && off <= |Trim(s)| && AtLineEnd(s, off)
    ensures var ts, ns := TrimStarts(s, t), NormStarts(s, b); var idx := LineOf(ts, t + off);
      && 0 <= idx < |ts| == |ns|
      && (if idx + 1 < |ns| then ns[idx + 1] else b + |s|) == b + EndMap(s, off)
    decreases |s|
  {
    hide Trim, StartMap, TrimStarts, NormStarts, LineOf, AfterLine;
    StartsStep(s, t, b);
    TrimFirstLine(s);
    var n := AfterLine(s);
    var tl := |Trim(s[..n])|;
    LineOfCons(t, TrimStarts(s[n..], t + tl), t + off);
    var rest := s[n..];
    if rest == [] {
      EndInLastLine(s, off);
    } else if off < tl {
      FirstLineIdentity(s, off);
      AfterLineShift(s, off);
    } else {
      LookupIsEndMap(rest, t + tl, b + n, off - tl);
      assert t + tl + (off - tl) == t + off;
      EndInRest(s, off - tl);
    }
  }

  lemma EndInLastLine(s: string, off: nat)
    requires s != [] && AfterLine(s) == |s|
    requires off <= |Trim(s)| && AtLineEnd(s, off)
    ensures EndMap(s, off) == |s|
  {
    hide Trim, StartMap;
    var p := StartMap(s, off);
    if p < |s| {
      AfterLineShift(s, p);
    }
  }

  lemma EndInRest(s: string, k: nat)
    requires s != [] && AfterLine(s) < |s|
    requires k <= |Trim(s[AfterLine(s)..])|
    ensures var n := AfterLine(s); var t := |Trim(s[..n])|;
      && t + k <= |Trim(s)|
      && AtLineEnd(s, t + k) == AtLineEnd(s[n..], k)
      && EndMap(s, t + k) == n + EndMap(s[n..], k)
  {
    hide Trim, StartMap, AfterLine;
    TrimFirstLine(s);
    RestOfLines(s, k);
    var n := AfterLine(s);
    var p := StartMap(s[n..], k);
    assert s[n..][p..] == s[n + p..];
  }

  /** `map_to_norm` on the built tables is the character map, for every offset inside the trimmed text. */
  lemma MapToNormIsStartMap(s: string, off: nat)
    requires off < |Trim(s)|
    ensures ValidLookup(IndexOf(s), off)
    ensures MapToNorm(IndexOf(s), off) == StartMap(s, off)
  {
    hide Trim, StartMap, TrimStarts, NormStarts, LineOf;
    StartsSameLength(s, 0, 0);
    LookupIsStartMap(s, 0, 0, off);
    FirstStart(s);
  }

  lemma FirstStart(s: string)
    requires Trim(s) != [] || s != []
    ensures TrimStarts(s, 0) != [] && TrimStarts(s, 0)[0] == 0
  {
  }

  /** `map_end_to_norm` on the built tables is the character map, for every offset up to the end. */
  lemma MapEndToNormIsEndMap(s: string, off: nat)
    requires s != [] && off <= |Trim(s)|
    ensures ValidLookup(IndexOf(s), off)
    ensures MapEndToNorm(IndexOf(s), off) == EndMap(s, off)
  {
    hide Trim, StartMap, TrimStarts, NormStarts, LineOf;
    StartsSameLength(s, 0, 0);
    if AtLineEnd(s, off) {
      LookupIsEndMap(s, 0, 0, off);
    } else {
      LookupIsStartMap(s, 0, 0, off);
    }
  }
}

/** Per-line trailing-whitespace removal, and the maps from trimmed offsets back to the text.

    The definitions here go character by character and never split the text into
    lines; module TrimIndex proves that the line tables of the program compute them. */
module TrimEnd {
  import opened Text
  import opened Matching

  /** `s` continues with whitespace up to the end of the current line. */
  predicate BlankHead(s: string) {
    s == [] || s[0] == NL || (IsWhitespace(s[0]) && BlankHead(s[1..]))
  }

  /** The first character survives trimming. */
  predicate KeepsHead(s: string)
    requires s != []
  {
    s[0] == NL || !BlankHead(s)
  }

  function Trim(s: string): (t: string)
    ensures |t| <= |s|
  {
    if s == [] then []
    else if KeepsHead(s) then [s[0]] + Trim(s[1..])
    else Trim(s[1..])
  }

  /** A character that can end a trimmed text. */
  predicate Solid(c: char) {
    c == NL || !IsWhitespace(c)
  }

  predicate Blank(s: string) {
    forall i :: 0 <= i < |s| ==> IsWhitespace(s[i]) && s[i] != NL
  }

  // ----- Trimming and concatenation -----

  lemma {:induction false} BlankHeadBlank(w: string, b: string)
    requires Blank(w)
    ensures BlankHead(w + b) == BlankHead(b)
  {
    if w == [] {
      assert w + b == b;
    } else {
      assert (w + b)[1..] == w[1..] + b;
      BlankHeadBlank(w[1..], b);
    }
  }

  /** Whether the head of `a + b` is blank depends on `b` only when `a` is one blank stretch. */
  lemma {:induction false} BlankHeadConcat(a: string, b: string)
    ensures !Blank(a) ==> BlankHead(a + b) == BlankHead(a)
    ensures Blank(a) ==> BlankHead(a)
  {
    if a != [] {
      assert (a + b)[1..] == a[1..] + b;
      assert a == [a[0]] + a[1..];
      BlankHeadConcat(a[1..], b);
    }
  }

  lemma {:induction false} BlankTrimsAway(w: string)
    requires Blank(w)
    ensures Trim(w) == []
  {
    if w != [] {
      BlankHeadConcat(w, []);
      BlankTrimsAway(w[1..]);
    }
  }

  /** Whitespace at the very end is always trimmed. */
  lemma {:induction false} TrimTrailing(a: string, w: string)
    requires Blank(w)
    ensures Trim(a + w) == Trim(a)
  {
    if a == [] {
      assert a + w == w;
      BlankTrimsAway(w);
    } else {
      assert (a + w)[1..] == a[1..] + w;
      TrimTrailing(a[1..], w);
      BlankHeadConcat(a, w);
      if Blank(a) {
        BlankHeadConcat(w, []);
        BlankHeadBlank(a, w);
      }
    }
  }

  /** Lines are trimmed independently of each other. */
  lemma TrimStep(s: string)
    ensures Trim(s) == if s == [] then [] else if KeepsHead(s) then [s[0]] + Trim(s[1..]) else Trim(s[1..])
  {
  }

  /** What follows a line does not matter to whether a character of the line is kept. */
  lemma KeptBeforeNewline(a: string, b: string)
    requires a != []
    ensures KeepsHead(a + ([NL] + b)) == KeepsHead(a)
  {
    hide Blank;
    assert BlankHead([NL] + b);
    BlankHeadConcat(a, [NL] + b);
    if Blank(a) {
      BlankHeadBlank(a, [NL] + b);
    }
  }

  lemma TrimNewlineFirst(b: string)
    ensures Trim([NL] + b) == [NL] + Trim(b)
  {
    hide Trim;
    var s := [NL] + b;
    TrimStep(s);
    assert s[1..] == b;
  }

  lemma {:induction false} TrimLine(a: string, b: string)
    ensures Trim(a + ([NL] + b)) == Trim(a) + Trim([NL] + b)
  {
    hide Trim, KeepsHead;
    var y := [NL] + b;
    TrimStep(a);
    if a == [] {
      assert a + y == y;
    } else {
      TrimStep(a + y);
      KeptBeforeNewline(a, b);
      assert (a + y)[1..] == a[1..] + y;
      TrimLine(a[1..], b);
    }
  }

  lemma TrimAtNewline(a: string, b: string)
    ensures Trim(a + [NL] + b) == Trim(a) + [NL] + Trim(b)
  {
    hide Trim;
    assert a + [NL] + b == a + ([NL] + b);
    TrimLine(a, b);
    TrimNewlineFirst(b);
  }

  /** Text that follows never removes anything from what was already kept. */
  lemma {:induction false} TrimPrefix(y: string, z: string)
    ensures Trim(y) <= Trim(y + z)
  {
    if Blank(y) {
      BlankTrimsAway(y);
    } else {
      assert (y + z)[1..] == y[1..] + z;
      BlankHeadConcat(y, z);
      TrimPrefix(y[1..], z);
    }
  }

  /** Text that precedes never changes how what follows is trimmed. */
  lemma {:induction false} TrimSuffix(x: string, u: string)
    ensures |Trim(u)| <= |Trim(x + u)|
    ensures Trim(x + u)[|Trim(x + u)| - |Trim(u)|..] == Trim(u)
  {
    if x == [] {
      assert x + u == u;
    } else {
      assert (x + u)[1..] == x[1..] + u;
      TrimSuffix(x[1..], u);
    }
  }

  lemma MiddleOccurs(x: string, y: string, z: string) returns (i: nat)
    ensures OccursAt(Trim(x + (y + z)), Trim(y), i)
  {
    TrimSuffix(x, y + z);
    TrimPrefix(y, z);
    OccursInSuffix(Trim(x + (y + z)), Trim(y + z), Trim(y));
    i := |Trim(x + (y + z))| - |Trim(y + z)|;
  }

  /** The trimmed form of a region occurs in the trimmed form of the whole text. */
  lemma RegionOccurs(s: string, p: nat, q: nat) returns (i: nat)
    requires p <= q <= |s|
    ensures OccursAt(Trim(s), Trim(s[p..q]), i)
  {
    assert s == s[..p] + (s[p..q] + s[q..]);
    i := MiddleOccurs(s[..p], s[p..q], s[q..]);
  }

  lemma {:induction false} TrimEndsSolid(s: string)
    requires Trim(s) != []
    ensures Solid(Trim(s)[|Trim(s)| - 1])
  {
    if Trim(s[1..]) != [] {
      TrimEndsSolid(s[1..]);
    } else if s[0] != NL {
      assert !BlankHead(s);
      TrimEmpty(s[1..]);
    }
  }

  /** Only blank text trims to nothing. */
  lemma {:induction false} TrimEmpty(s: string)
    requires Trim(s) == []
    ensures Blank(s) && BlankHead(s)
  {
    if s != [] {
      TrimEmpty(s[1..]);
    }
  }

  // ----- The offset maps -----

  /** Position in `s` at which trimmed offset `off` starts. */
  function StartMap(s: string, off: nat): (p: nat)
    requires off <= |Trim(s)|
    ensures off <= p <= |s|
    ensures off == 0 ==> p == 0
  {
    if off == 0 then 0
    else 1 + StartMap(s[1..], if KeepsHead(s) then off - 1 else off)
  }

  /** Length of the current line, its newline included. */
  function AfterLine(s: string): (n: nat)
    ensures n <= |s| && (s != [] ==> n > 0)
  {
    if s == [] then 0 else if s[0] == NL then 1 else 1 + AfterLine(s[1..])
  }

  predicate AtLineEnd(s: string, off: nat)
    requires off <= |Trim(s)|
  {
    off == |Trim(s)| || Trim(s)[off] == NL
  }

  /** Position in `s` at which a match ending at trimmed offset `off` ends: past the
      rest of the line, newline included, when nothing visible follows on that line. */
  function EndMap(s: string, off: nat): (q: nat)
    requires off <= |Trim(s)|
    ensures StartMap(s, off) <= q <= |s|
  {
    var p := StartMap(s, off);
    if AtLineEnd(s, off) then p + AfterLine(s[p..]) else p
  }

  /** One step of trimming and of the map. */
  lemma MapStep(s: string, off: nat)
    requires 0 < off <= |Trim(s)|
    ensures s != []
    ensures var off' := if KeepsHead(s) then off - 1 else off;
      && Trim(s) == (if KeepsHead(s) then [s[0]] else []) + Trim(s[1..])
      && off' <= |Trim(s[1..])|
      && StartMap(s, off) == 1 + StartMap(s[1..], off')
  {
  }

  lemma {:induction false} StartMapSuffix(s: string, off: nat)
    requires off <= |Trim(s)|
    ensures Trim(s[StartMap(s, off)..]) == Trim(s)[off..]
  {
    hide Trim, StartMap, KeepsHead;
    if off == 0 {
      assert s[0..] == s;
    } else {
      MapStep(s, off);
      var t := s[1..];
      var off' := if KeepsHead(s) then off - 1 else off;
      var p := StartMap(t, off');
      StartMapSuffix(t, off');
      assert s[1 + p..] == t[p..];
      assert Trim(s)[off..] == Trim(t)[off'..];
    }
  }

  lemma {:induction false} StartMapPrefix(s: string, off: nat)
    requires off <= |Trim(s)|
    requires off > 0 ==> Solid(Trim(s)[off - 1])
    ensures Trim(s[..StartMap(s, off)]) == Trim(s)[..off]
    ensures off > 0 ==> !Blank(s[..StartMap(s, off)])
  {
    hide StartMap, Trim, BlankHead;
    if off == 0 {
      BlankTrimsAway([]);
    } else {
      MapStep(s, off);
      var t := s[1..];
      var off' := if KeepsHead(s) then off - 1 else off;
      var p := StartMap(t, off');
      StartMapPrefix(t, off');
      var x := s[..1 + p];
      assert x[1..] == t[..p];
      assert s == x + s[1 + p..];
      if off' == 0 {
        assert x == [s[0]];
      } else {
        assert exists i :: 0 <= i < |t[..p]| && !(IsWhitespace(t[..p][i]) && t[..p][i] != NL);
        var i :| 0 <= i < |t[..p]| && !(IsWhitespace(t[..p][i]) && t[..p][i] != NL);
        assert x[i + 1] == t[..p][i];
      }
      BlankHeadConcat(x, s[1 + p..]);
      KeptPrefix(s, x, off, off');
    }
  }

  lemma KeptPrefix(s: string, x: string, off: nat, off': nat)
    requires s != [] && x != [] && x[0] == s[0] && BlankHead(x) == BlankHead(s)
    requires off <= |Trim(s)| && off' <= |Trim(s[1..])| && off == off' + (if KeepsHead(s) then 1 else 0)
    requires Trim(x[1..]) == Trim(s[1..])[..off']
    ensures Trim(x) == Trim(s)[..off]
  {
  }

  lemma {:induction false} StartMapComposes(s: string, i: nat, m: nat)
    requires i + m <= |Trim(s)|
    requires m <= |Trim(s[StartMap(s, i)..])|
    ensures StartMap(s, i + m) == StartMap(s, i) + StartMap(s[StartMap(s, i)..], m)
  {
    hide Trim, StartMap, KeepsHead;
    if i == 0 {
      assert StartMap(s, 0) == 0;
      assert s[0..] == s;
    } else {
      MapStep(s, i);
      MapStep(s, i + m);
      var t := s[1..];
      var i' := if KeepsHead(s) then i - 1 else i;
      var p := StartMap(t, i');
      assert s[1 + p..] == t[p..];
      StartMapComposes(t, i', m);
    }
  }

  /** The offset map is strictly increasing. */
  lemma {:induction false} StartMapIncreasing(s: string, i: nat, j: nat)
    requires i < j <= |Trim(s)|
    ensures StartMap(s, i) < StartMap(s, j)
  {
    if i > 0 {
      var k := if KeepsHead(s) then 1 else 0;
      StartMapIncreasing(s[1..], i - k, j - k);
    }
  }

  /** A visible character keeps its place under the map; a newline maps to the blank
      stretch that ends its line. */
  lemma StartMapAgrees(s: string, off: nat)
    requires off < |Trim(s)|
    ensures StartMap(s, off) < |s|
    ensures Trim(s)[off] != NL ==> s[StartMap(s, off)] == Trim(s)[off]
    ensures Trim(s)[off] == NL ==> BlankHead(s[StartMap(s, off)..])
  {
    var p := StartMap(s, off);
    var u := s[p..];
    StartMapSuffix(s, off);
    assert Trim(u)[0] == Trim(s)[off];
    HeadOfTrim(u);
  }

  lemma {:induction false} HeadOfTrim(u: string)
    ensures BlankHead(u) <==> Trim(u) == [] || Trim(u)[0] == NL
    ensures !BlankHead(u) ==> Trim(u)[0] == u[0]
  {
    if u != [] {
      HeadOfTrim(u[1..]);
    }
  }

  // ----- Spans -----

  /** Appending the rest of a blank line adds at most its newline. */
  lemma {:induction false} AppendBlankLine(a: string, u: string)
    requires BlankHead(u)
    ensures Trim(a + u[..AfterLine(u)]) == Trim(a) + (if Trim(u) == [] then [] else [NL])
    decreases |u|
  {
    if u == [] {
      assert a + u[..0] == a;
    } else if u[0] == NL {
      assert a + u[..1] == a + [NL] + [];
      TrimAtNewline(a, []);
    } else {
      var n := AfterLine(u[1..]);
      assert a + u[..1 + n] == (a + [u[0]]) + u[1..][..n];
      AppendBlankLine(a + [u[0]], u[1..]);
      TrimTrailing(a, [u[0]]);
    }
  }

  /** Soundness of one span: a match of `n` in the trimmed text maps back to a non-empty
      region that trims to `n`, or to `n` and one newline when the match ends a line. */
  lemma SpanTrims(s: string, n: string, i: nat)
    requires n != [] && Solid(n[|n| - 1])
    requires OccursAt(Trim(s), n, i)
    ensures var p, q := StartMap(s, i), EndMap(s, i + |n|);
      && p < q <= |s|
      && Trim(s[p..q]) == n + (if i + |n| < |Trim(s)| && Trim(s)[i + |n|] == NL then [NL] else [])
  {
    hide Trim, StartMap, EndMap;
    var off := i + |n|;
    var p := StartMap(s, i);
    StartMapIncreasing(s, i, off);
    TrimmedRegion(s, n, i);
    EndOfSpan(s, p, off);
    if off < |Trim(s)| && Trim(s)[off] == NL {
      assert Trim(s[p..EndMap(s, off)]) == n + [NL];
    } else {
      assert Trim(s[p..EndMap(s, off)]) == n;
    }
  }

  lemma EndOfSpan(s: string, p: nat, off: nat)
    requires off <= |Trim(s)| && p <= StartMap(s, off)
    ensures Trim(s[p..EndMap(s, off)]) ==
            Trim(s[p..StartMap(s, off)]) + (if off < |Trim(s)| && Trim(s)[off] == NL then [NL] else [])
  {
    hide Trim, StartMap, BlankHead, AfterLine;
    if AtLineEnd(s, off) {
      LineEndIsBlank(s, off);
      ExtendOverBlankLine(s, p, StartMap(s, off));
    }
  }

  lemma LineEndIsBlank(s: string, off: nat)
    requires off <= |Trim(s)| && AtLineEnd(s, off)
    ensures var u := s[StartMap(s, off)..];
      BlankHead(u) && (Trim(u) == [] <==> off == |Trim(s)|)
  {
    StartMapSuffix(s, off);
    HeadOfTrim(s[StartMap(s, off)..]);
  }

  /** A blank line's rest: white space up to its newline or to the end of the text. */
  lemma {:induction false} BlankLine(u: string)
    requires BlankHead(u)
    ensures var n := AfterLine(u);
      && (forall i :: 0 <= i < n ==> IsWhitespace(u[i]))
      && (forall i :: 0 <= i < n - 1 ==> u[i] != NL)
      && (n < |u| ==> n > 0 && u[n - 1] == NL)
  {
    if u != [] && u[0] != NL {
      BlankLine(u[1..]);
    } else {
      assert IsWhitespace(NL);
    }
  }

  /** What the end of a span takes in beyond the last matched character: nothing when the match ends within
      a line; otherwise all that is left of the line, white space only, up to and including its newline. */
  lemma EndTakesRestOfLine(s: string, off: nat)
    requires off <= |Trim(s)|
    ensures var p, q := StartMap(s, off), EndMap(s, off);
      if off < |Trim(s)| && Trim(s)[off] != NL then q == p
      else
        && (forall i :: p <= i < q ==> IsWhitespace(s[i]))
        && (forall i :: p <= i < q - 1 ==> s[i] != NL)
        && (q < |s| ==> q > p && s[q - 1] == NL)
  {
    hide Trim, StartMap, BlankHead, AfterLine;
    if AtLineEnd(s, off) {
      var p := StartMap(s, off);
      LineEndIsBlank(s, off);
      BlankLine(s[p..]);
      forall i | p <= i < |s| ensures s[i] == s[p..][i - p] {
      }
    }
  }

  lemma ExtendOverBlankLine(s: string, p: nat, e: nat)
    requires p <= e <= |s| && BlankHead(s[e..])
    ensures Trim(s[p..e + AfterLine(s[e..])]) == Trim(s[p..e]) + (if Trim(s[e..]) == [] then [] else [NL])
  {
    var u := s[e..];
    assert s[p..e + AfterLine(u)] == s[p..e] + u[..AfterLine(u)];
    AppendBlankLine(s[p..e], u);
  }

  /** Up to the mapped start of its end, a match's region trims to exactly the needle. */
  lemma TrimmedRegion(s: string, n: string, i: nat)
    requires n != [] && Solid(n[|n| - 1])
    requires OccursAt(Trim(s), n, i)
    ensures StartMap(s, i) <= StartMap(s, i + |n|)
    ensures Trim(s[StartMap(s, i)..StartMap(s, i + |n|)]) == n
  {
    hide Trim, StartMap;
    var p := StartMap(s, i);
    var u := s[p..];
    StartMapSuffix(s, i);
    assert Trim(u)[..|n|] == n;
    StartMapComposes(s, i, |n|);
    StartMapPrefix(u, |n|);
    assert s[p..p + StartMap(u, |n|)] == u[..StartMap(u, |n|)];
  }

  ghost predicate TrimsTo(s: string, p: nat, q: nat, n: string) {
    p <= q <= |s| && Trim(s[p..q]) == n
  }

  /** Some region of `s` has the trimmed form `n`. */
  ghost predicate HasRegion(s: string, n: string) {
    exists p: nat, q: nat :: TrimsTo(s, p, q, n)
  }

  /** The needle occurs in the trimmed text exactly when some region of the text trims to it. */
  lemma OccursIffRegion(s: string, n: string)
    requires n != [] && Solid(n[|n| - 1])
    ensures Occurs(Trim(s), n) <==> HasRegion(s, n)
  {
    if i: nat :| OccursAt(Trim(s), n, i) {
      TrimmedRegion(s, n, i);
      assert TrimsTo(s, StartMap(s, i), StartMap(s, i + |n|), n);
    }
    if p: nat, q: nat :| TrimsTo(s, p, q, n) {
      var i := RegionOccurs(s, p, q);
    }
  }

  lemma {:induction false} BlankLineAdvance(u: string, m: nat)
    requires BlankHead(u) && 0 < m <= |Trim(u)|
    ensures AfterLine(u) <= StartMap(u, m)
  {
    if u[0] != NL {
      BlankLineAdvance(u[1..], m);
    }
  }

  /** Whether the end of one match lies beyond the start of another that begins at
      trimmed offset `j >= off`: exactly when they abut at the end of a line. */
  lemma EndVersusStart(s: string, off: nat, j: nat)
    requires off <= j < |Trim(s)|
    ensures EndMap(s, off) <= StartMap(s, j) <==> !(off == j && Trim(s)[off] == NL)
  {
    hide Trim, StartMap, BlankHead;
    var p := StartMap(s, off);
    var u := s[p..];
    StartMapSuffix(s, off);
    HeadOfTrim(u);
    if off == j {
      StartMapAgrees(s, off);
    } else {
      StartMapIncreasing(s, off, j);
      if AtLineEnd(s, off) {
        StartMapComposes(s, off, j - off);
        BlankLineAdvance(u, j - off);
      }
    }
  }
}

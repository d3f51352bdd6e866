/** How `edit_replace` locates its target: exact matches in the CRLF-normalized text first, and
    only when there are none, matches after per-line trailing-whitespace removal. */
module EditMatch {
  import opened Text
  import opened Crlf
  import opened Matching
  import opened TrimEnd
  import opened TrimIndex
  import opened Splice

  // ----- Reference definitions, in coordinates of the normalized text -----

  function RepsAt(ms: seq<nat>, len: nat, text: string): (reps: seq<Replacement>)
    ensures |reps| == |ms|
    ensures forall k :: 0 <= k < |ms| ==> reps[k] == Replacement(ms[k], ms[k] + len, text)
  {
    seq(|ms|, k requires 0 <= k < |ms| => Replacement(ms[k], ms[k] + len, text))
  }

  /** The replacements of the exact matches of `want` in `norm`. */
  function ExactReps(norm: string, want: string, text: string): (reps: seq<Replacement>)
    requires want != []
    ensures |reps| == |MatchIndices(norm, want, 0)|
  {
    RepsAt(MatchIndices(norm, want, 0), |want|, text)
  }

  /** The replacements of the matches of the trimmed `want` in the trimmed `norm`, mapped back to `norm`. */
  function TrimReps(norm: string, want: string, text: string): (reps: seq<Replacement>)
    ensures Trim(want) == [] ==> reps == []
    ensures Trim(want) != [] ==> |reps| == |MatchIndices(Trim(norm), Trim(want), 0)|
  {
    var n := Trim(want);
    if n == [] then []
    else
      var ms := MatchIndices(Trim(norm), n, 0);
      MatchesAreSound(Trim(norm), n, 0);
      seq(|ms|, k requires 0 <= k < |ms| => Replacement(StartMap(norm, ms[k]), EndMap(norm, ms[k] + |n|), text))
  }

  lemma TrimRepAt(norm: string, want: string, text: string, k: nat)
    requires k < |TrimReps(norm, want, text)|
    ensures var n := Trim(want); var t := Trim(norm);
      && n != [] && k < |MatchIndices(t, n, 0)|
      && var m := MatchIndices(t, n, 0)[k];
      && OccursAt(t, n, m)
      && TrimReps(norm, want, text)[k] == Replacement(StartMap(norm, m), EndMap(norm, m + |n|), text)
  {
    hide MatchIndices, Trim, StartMap, EndMap;
    MatchesAreSound(Trim(norm), Trim(want), 0);
  }

  /** Exact matches win; the fallback is used only when there are none. */
  function NormReps(norm: string, want: string, text: string): seq<Replacement>
    requires want != []
  {
    if MatchIndices(norm, want, 0) != [] then ExactReps(norm, want, text) else TrimReps(norm, want, text)
  }

  predicate InBounds(reps: seq<Replacement>, len: nat) {
    forall k :: 0 <= k < |reps| ==> reps[k].start < reps[k].end <= len
  }

  // ----- Soundness -----

  /** What a region found for `want` looks like: `want` itself, or text with the same trimmed form,
      up to one final newline. */
  ghost predicate RegionMatches(region: string, want: string) {
    region == want || Trim(region) == Trim(want) || Trim(region) == Trim(want) + [NL]
  }

  lemma OccursSlice(hay: string, pat: string, i: nat)
    requires OccursAt(hay, pat, i)
    ensures i + |pat| <= |hay| && hay[i..i + |pat|] == pat
  {
  }

  lemma ExactRepsSound(norm: string, want: string, text: string)
    requires want != []
    ensures var reps := ExactReps(norm, want, text);
      && InBounds(reps, |norm|)
      && InOrder(reps, 0, |norm|)
      && forall k :: 0 <= k < |reps| ==> norm[reps[k].start..reps[k].end] == want
  {
    hide MatchIndices, OccursAt, InOrder;
    MatchesAreSound(norm, want, 0);
    var ms := MatchIndices(norm, want, 0);
    var reps := ExactReps(norm, want, text);
    forall k | 0 <= k < |reps|
      ensures reps[k].start < reps[k].end <= |norm| && norm[reps[k].start..reps[k].end] == want
    {
      assert reps[k] == Replacement(ms[k], ms[k] + |want|, text);
      OccursSlice(norm, want, ms[k]);
    }
    InOrderIntro(reps, 0, |norm|);
  }

  lemma NoRoomNoMatch(hay: string, pat: string, from: nat)
    requires pat != [] && from + |pat| > |hay|
    ensures MatchIndices(hay, pat, from) == []
  {
  }

  lemma {:induction false} SpliceIsReplaceAll(hay: string, pat: string, text: string, cursor: nat, from: nat)
    requires pat != [] && cursor <= from <= |hay|
    requires InOrder(RepsAt(MatchIndices(hay, pat, from), |pat|, text), cursor, |hay|)
    ensures SpliceFrom(hay, RepsAt(MatchIndices(hay, pat, from), |pat|, text), cursor) ==
            hay[cursor..from] + ReplaceAll(hay, pat, text, from)
    decreases |hay| - from
  {
    hide OccursAt, SpliceFrom, InOrder, MatchIndices, RepsAt;
    if from + |pat| <= |hay| {
      MatchStep(hay, pat, from);
    } else {
      NoRoomNoMatch(hay, pat, from);
    }
    var reps := RepsAt(MatchIndices(hay, pat, from), |pat|, text);
    SpliceStep(hay, reps, cursor);
    hide ReplaceAll;
    ReplaceStep(hay, pat, text, from);
    if from + |pat| > |hay| {
      assert hay[cursor..] == hay[cursor..from] + hay[from..];
    } else if OccursAt(hay, pat, from) {
      var next := from + |pat|;
      assert reps[1..] == RepsAt(MatchIndices(hay, pat, next), |pat|, text);
      SpliceIsReplaceAll(hay, pat, text, next, next);
      var tail := ReplaceAll(hay, pat, text, next);
      assert hay[next..next] + tail == tail;
    } else {
      SpliceIsReplaceAll(hay, pat, text, cursor, from + 1);
      ShiftOne(hay, cursor, from, ReplaceAll(hay, pat, text, from + 1));
    }
  }

  lemma ShiftOne(s: string, a: nat, b: nat, tail: string)
    requires a <= b < |s|
    ensures s[a..b + 1] + tail == s[a..b] + ([s[b]] + tail)
  {
  }

  /** Splicing at the exact matches is replacing all leftmost non-overlapping occurrences. */
  lemma ExactSpliceIsReplaceAll(norm: string, want: string, text: string)
    requires want != []
    ensures InOrder(ExactReps(norm, want, text), 0, |norm|)
    ensures SpliceFrom(norm, ExactReps(norm, want, text), 0) == ReplaceAll(norm, want, text, 0)
  {
    hide MatchIndices, InOrder, SpliceFrom, ReplaceAll;
    ExactRepsSound(norm, want, text);
    SpliceIsReplaceAll(norm, want, text, 0, 0);
    assert norm[0..0] == [];
  }

  lemma TrimRepSound(norm: string, want: string, text: string, k: nat)
    requires k < |TrimReps(norm, want, text)|
    ensures var r := TrimReps(norm, want, text)[k];
      && r.start < r.end <= |norm|
      && (Trim(norm[r.start..r.end]) == Trim(want) || Trim(norm[r.start..r.end]) == Trim(want) + [NL])
  {
    hide MatchIndices, Trim, StartMap, EndMap, TrimReps, OccursAt;
    var n := Trim(want);
    TrimRepAt(norm, want, text, k);
    TrimEndsSolid(want);
    SpanTrims(norm, n, MatchIndices(Trim(norm), n, 0)[k]);
  }

  /** Every reported region is non-empty, in bounds, and reads as `want` up to trailing whitespace. */
  lemma RepsSound(norm: string, want: string, text: string)
    requires want != []
    ensures var reps := NormReps(norm, want, text);
      && InBounds(reps, |norm|)
      && forall k :: 0 <= k < |reps| ==> RegionMatches(norm[reps[k].start..reps[k].end], want)
  {
    hide MatchIndices, Trim, TrimReps, ExactReps;
    if MatchIndices(norm, want, 0) != [] {
      ExactRepsSound(norm, want, text);
    } else {
      forall k | 0 <= k < |TrimReps(norm, want, text)|
        ensures var r := TrimReps(norm, want, text)[k];
          && r.start < r.end <= |norm| && RegionMatches(norm[r.start..r.end], want)
      {
        TrimRepSound(norm, want, text, k);
      }
    }
  }

  // ----- Completeness -----

  lemma ExactIsRegion(norm: string, want: string) returns (i: nat)
    requires Occurs(norm, want)
    ensures TrimsTo(norm, i, i + |want|, Trim(want)) && HasRegion(norm, Trim(want))
  {
    hide Trim;
    i :| OccursAt(norm, want, i);
    assert TrimsTo(norm, i, i + |want|, Trim(want));
  }

  /** The fallback is a true relaxation: wherever there is an exact occurrence, its own search finds the
      trimmed text in the trimmed file. */
  lemma ExactImpliesTrimmed(norm: string, want: string, text: string)
    requires Occurs(norm, want)
    ensures Occurs(Trim(norm), Trim(want))
    ensures Trim(want) != [] ==> TrimReps(norm, want, text) != []
  {
    hide Trim, Occurs, HasRegion;
    var i := ExactIsRegion(norm, want);
    if Trim(want) == [] {
      EmptyOccurs(Trim(norm));
    } else {
      TrimEndsSolid(want);
      OccursIffRegion(norm, Trim(want));
      MatchesIffOccurs(Trim(norm), Trim(want));
    }
  }

  lemma EmptyOccurs(s: string)
    ensures Occurs(s, [])
  {
    assert OccursAt(s, [], 0);
  }

  /** Nothing is found exactly when nothing is there: no region of the normalized file has the
      trimmed form of `want` or, when that form is empty, `want` occurs nowhere. */
  lemma NotFoundIffAbsent(norm: string, want: string, text: string)
    requires want != []
    ensures Trim(want) != [] ==> (NormReps(norm, want, text) == [] <==> !HasRegion(norm, Trim(want)))
    ensures Trim(want) == [] ==> (NormReps(norm, want, text) == [] <==> !Occurs(norm, want))
  {
    hide MatchIndices, Trim, Occurs, HasRegion;
    var n := Trim(want);
    MatchesIffOccurs(norm, want);
    if n != [] {
      TrimEndsSolid(want);
      MatchesIffOccurs(Trim(norm), n);
      OccursIffRegion(norm, n);
      if Occurs(norm, want) {
        var i := ExactIsRegion(norm, want);
      }
    }
  }

  // ----- Disjointness -----

  /** Two consecutive matches of the trimmed needle touch. */
  predicate HasAbuttingMatches(ms: seq<nat>, len: nat) {
    exists k :: 0 <= k < |ms| - 1 && ms[k] + len == ms[k + 1]
  }

  /** The fallback's spans overlap: the trimmed `want` starts with a newline and two of its matches touch. */
  predicate TrimOverlap(norm: string, want: string) {
    var n := Trim(want);
    n != [] && n[0] == NL && HasAbuttingMatches(MatchIndices(Trim(norm), n, 0), |n|)
  }

  lemma TrimNeighbours(norm: string, want: string, text: string, k: nat)
    requires k + 1 < |TrimReps(norm, want, text)|
    ensures var reps := TrimReps(norm, want, text); var n := Trim(want); var ms := MatchIndices(Trim(norm), n, 0);
      n != [] && k + 1 < |ms| &&
      (reps[k].end <= reps[k + 1].start <==> !(ms[k] + |n| == ms[k + 1] && n[0] == NL))
  {
    hide MatchIndices, Trim, StartMap, EndMap, TrimReps;
    var n := Trim(want);
    TrimRepAt(norm, want, text, k);
    TrimRepAt(norm, want, text, k + 1);
    var ms := MatchIndices(Trim(norm), n, 0);
    MatchesAreSound(Trim(norm), n, 0);
    EndVersusStart(norm, ms[k] + |n|, ms[k + 1]);
    assert Trim(norm)[ms[k + 1]] == Trim(norm)[ms[k + 1]..ms[k + 1] + |n|][0];
  }

  /** The exact condition under which the spans of one edit can be spliced in one pass. Exact
      matches always can; fallback spans can unless they overlap as `TrimOverlap` says. */
  lemma RepsInOrderIff(norm: string, want: string, text: string)
    requires want != []
    ensures InOrder(NormReps(norm, want, text), 0, |norm|) <==>
            MatchIndices(norm, want, 0) != [] || !TrimOverlap(norm, want)
  {
    hide MatchIndices, Trim, InOrder, TrimReps, ExactReps;
    if MatchIndices(norm, want, 0) != [] {
      ExactRepsSound(norm, want, text);
    } else {
      var reps := TrimReps(norm, want, text);
      var n := Trim(want);
      if n == [] {
        InOrderFromNeighbours(reps, 0, |norm|);
      } else {
        var ms := MatchIndices(Trim(norm), n, 0);
        if TrimOverlap(norm, want) {
          var k :| 0 <= k < |ms| - 1 && ms[k] + |n| == ms[k + 1];
          TrimNeighbours(norm, want, text, k);
          if InOrder(reps, 0, |norm|) {
            InOrderBounds(reps, 0, |norm|);
          }
        } else {
          forall k | 0 <= k < |reps|
            ensures reps[k].start <= reps[k].end <= |norm|
          {
            TrimRepSound(norm, want, text, k);
          }
          forall k | 0 <= k < |reps| - 1
            ensures reps[k].end <= reps[k + 1].start
          {
            TrimNeighbours(norm, want, text, k);
          }
          InOrderFromNeighbours(reps, 0, |norm|);
        }
      }
    }
  }

  lemma TrimExamples()
    ensures Trim("\na\na") == "\na\na"
    ensures Trim("\na ") == "\na"
  {
    SolidUnchanged("a");
    assert IsWhitespace(' ');
    assert "a\na" == "a" + [NL] + "a" && "\na\na" == [] + [NL] + "a\na";
    TrimAtNewline("a", "a");
    TrimAtNewline([], "a\na");
    assert "a " == "a" + " " && "\na " == [] + [NL] + "a ";
    TrimTrailing("a", " ");
    TrimAtNewline([], "a ");
  }

  /** The overlap does happen: replacing "\na " in "\na\na" finds two overlapping regions. */
  lemma OverlapExample()
    ensures TrimOverlap("\na\na", "\na ")
    ensures MatchIndices("\na\na", "\na ", 0) == []
  {
    hide Trim;
    TrimExamples();
    var s, o := "\na\na", "\na ";
    assert OccursAt(s, "\na", 0) && OccursAt(s, "\na", 2);
    assert MatchIndices(s, "\na", 4) == [];
    assert MatchIndices(s, "\na", 2) == [2];
    var ms := MatchIndices(s, "\na", 0);
    assert ms == [0, 2] && ms[0] + 2 == ms[0 + 1];
    assert s[0..3][2] != o[2] && s[1..4][0] != o[0];
    assert MatchIndices(s, o, 2) == [];
    assert MatchIndices(s, o, 1) == [];
  }

  // ----- The program's computation of the spans, in original coordinates -----

  /** `exact_matches` of the program. */
  function ExactMatches(normContent: string, normOld: string, text: string, positions: seq<nat>): seq<Replacement>
    requires normOld != []
  {
    var ms := MatchIndices(normContent, normOld, 0);
    seq(|ms|, k requires 0 <= k < |ms| =>
      Replacement(NormToOriginal(ms[k], positions), NormToOriginal(ms[k] + |normOld|, positions), text))
  }

  /** `find_trim_end_matches`. */
  method FindTrimEndMatches(normContent: string, normOld: string, text: string, positions: seq<nat>, ghost content: string)
    returns (spans: seq<Replacement>)
    requires normContent == ReplaceCrlf(content) && positions == CrlfPositions(content, 0)
    ensures InBounds(TrimReps(normContent, normOld, text), |normContent|)
    ensures spans == ToOriginal(content, TrimReps(normContent, normOld, text))
  {
    hide MatchIndices, Trim, StartMap, EndMap, TrimReps, ReplaceCrlf, CrlfPositions, OriginalOffset, NormToOriginal;
    hide MapToNorm, MapEndToNorm, ValidLookup, TrimStarts, NormStarts, OccursAt;
    var trimmedOld := TrimEndLines(normOld);
    ghost var reps := TrimReps(normContent, normOld, text);
    forall k | 0 <= k < |reps|
      ensures reps[k].start < reps[k].end <= |normContent|
    {
      TrimRepSound(normContent, normOld, text, k);
    }
    if trimmedOld == [] {
      return [];
    }
    var index := BuildTrimEndIndex(normContent);
    spans := [];
    var ms := MatchIndices(index.trimmed, trimmedOld, 0);
    for k := 0 to |ms|
      invariant |spans| == k
      invariant forall i :: 0 <= i < k ==> spans[i] == ToOriginal(content, reps)[i]
    {
      var start := ms[k];
      TrimRepAt(normContent, normOld, text, k);
      OccursBounds(index.trimmed, trimmedOld, start);
      var end := start + |trimmedOld|;
      MapToNormIsStartMap(normContent, start);
      MapEndToNormIsEndMap(normContent, end);
      var normStart := MapToNorm(index, start);
      var normEnd := MapEndToNorm(index, end);
      NormToOriginalIsOffset(content, normStart);
      NormToOriginalIsOffset(content, normEnd);
      spans := spans + [Replacement(NormToOriginal(normStart, positions), NormToOriginal(normEnd, positions), text)];
    }
  }

  /** Exact-first matching: both branches deliver the reference spans in original coordinates. */
  method FindMatches(normContent: string, normOld: string, text: string, positions: seq<nat>, ghost content: string)
    returns (spans: seq<Replacement>)
    requires normOld != []
    requires normContent == ReplaceCrlf(content) && positions == CrlfPositions(content, 0)
    ensures InBounds(NormReps(normContent, normOld, text), |normContent|)
    ensures spans == ToOriginal(content, NormReps(normContent, normOld, text))
  {
    hide MatchIndices, Trim, TrimReps, ReplaceCrlf, CrlfPositions, OriginalOffset, NormToOriginal;
    var exact := ExactMatches(normContent, normOld, text, positions);
    if exact == [] {
      spans := FindTrimEndMatches(normContent, normOld, text, positions, content);
    } else {
      ExactRepsSound(normContent, normOld, text);
      ghost var ms := MatchIndices(normContent, normOld, 0);
      forall k | 0 <= k < |ms|
        ensures exact[k] == ToOriginal(content, ExactReps(normContent, normOld, text))[k]
      {
        assert ExactReps(normContent, normOld, text)[k].end <= |normContent|;
        NormToOriginalIsOffset(content, ms[k]);
        NormToOriginalIsOffset(content, ms[k] + |normOld|);
      }
      spans := exact;
    }
  }
}

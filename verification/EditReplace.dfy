/** `edit_replace_block`: one exact-text replacement in one file. */
module EditReplace {
  import opened Text
  import opened Crlf
  import opened Matching
  import opened TrimEnd
  import opened Splice
  import opened EditMatch

  datatype EditError =
    | Io
    | NotAFile
    | StaleContentHash(expected: string, actual: string)
    | InvalidParams
    | NotFound
    | Ambiguous(count: nat, matchLines: seq<nat>)
    | BatchValidationFailed(failures: seq<BatchFailure>)

  datatype BatchFailureClass = EmptyOldText | OldTextNotFound | AmbiguousMatch | OverlappingEdits

  datatype BatchFailure = BatchFailure(index: nat, class_: BatchFailureClass)

  datatype EditOutput = EditOutput(bytesBefore: nat, bytesAfter: nat, occurrencesReplaced: nat)

  /** `Panicked` stands for the abort of the calling thread on an out-of-order slice or an
      underflowing size computation. */
  datatype Outcome = Done(output: EditOutput) | Failed(error: EditError) | Panicked

  /** What a call finds out from the file system, and the hash it checks the content against. */
  datatype Env = Env(
    isDirectory: bool, readable: bool, writable: bool,
    expectedHash: Option<string>, hash: string -> string)

  datatype Request = Request(oldText: string, newText: string, replaceAll: bool, env: Env)

  // ----- Specification -----

  /** The replacements of one edit, in coordinates of the original file. */
  function Reps(content: string, oldText: string, newText: string): (reps: seq<Replacement>)
    requires ReplaceCrlf(oldText) != []
  {
    RepsSound(ReplaceCrlf(content), ReplaceCrlf(oldText), newText);
    ToOriginal(content, NormReps(ReplaceCrlf(content), ReplaceCrlf(oldText), newText))
  }

  function MatchLines(content: string, reps: seq<Replacement>): (lines: seq<nat>)
    requires InBounds(reps, |content|)
    ensures |lines| == |reps|
  {
    seq(|reps|, k requires 0 <= k < |reps| => LineAt(content, reps[k].start))
  }

  /** Checks made before any matching. */
  function Precheck(env: Env, content: string): Option<EditError> {
    if env.isDirectory then Some(NotAFile)
    else if !env.readable then Some(Io)
    else if env.expectedHash.Some? && env.hash(content) != env.expectedHash.value then
      Some(StaleContentHash(env.expectedHash.value, env.hash(content)))
    else None
  }

  function BlockOutcome(q: Request, content: string): Outcome {
    if Precheck(q.env, content).Some? then Failed(Precheck(q.env, content).value)
    else if ReplaceCrlf(q.oldText) == [] then Failed(InvalidParams)
    else
      var reps := Reps(content, q.oldText, q.newText);
      RepsInBounds(content, q.oldText, q.newText);
      if reps == [] then Failed(NotFound)
      else if |reps| > 1 && !q.replaceAll then Failed(Ambiguous(|reps|, MatchLines(content, reps)))
      else if !InOrder(reps, 0, |content|) then Panicked
      else if !q.env.writable then Failed(Io)
      else Done(EditOutput(Utf8Len(content), Utf8Len(SpliceFrom(content, reps, 0)), |reps|))
  }

  /** The file after the call: spliced on success, untouched otherwise. */
  function FileAfter(q: Request, content: string): string {
    if BlockOutcome(q, content).Done? then SpliceFrom(content, Reps(content, q.oldText, q.newText), 0) else content
  }

  // ----- Laws of the spans -----

  lemma RepsInBounds(content: string, oldText: string, newText: string)
    requires ReplaceCrlf(oldText) != []
    ensures InBounds(Reps(content, oldText, newText), |content|)
  {
    hide ReplaceCrlf, OriginalOffset, NormReps;
    var norm := ReplaceCrlf(content);
    var nreps := NormReps(norm, ReplaceCrlf(oldText), newText);
    RepsSound(norm, ReplaceCrlf(oldText), newText);
    forall k | 0 <= k < |nreps|
      ensures OriginalOffset(content, nreps[k].start) < OriginalOffset(content, nreps[k].end) <= |content|
    {
      OffsetStrictlyIncreasing(content, nreps[k].start, nreps[k].end);
    }
  }

  /** Every span of the original file, once normalized, reads as the wanted text up to trailing whitespace. */
  lemma SpansMatch(content: string, oldText: string, newText: string, k: nat)
    requires ReplaceCrlf(oldText) != [] && k < |Reps(content, oldText, newText)|
    ensures var r := Reps(content, oldText, newText)[k];
      && r.start < r.end <= |content| && r.text == newText
      && RegionMatches(ReplaceCrlf(content[r.start..r.end]), ReplaceCrlf(oldText))
  {
    hide ReplaceCrlf, OriginalOffset, RegionMatches, MatchIndices;
    var norm := ReplaceCrlf(content);
    var nreps := NormReps(norm, ReplaceCrlf(oldText), newText);
    RepsSound(norm, ReplaceCrlf(oldText), newText);
    RepsInBounds(content, oldText, newText);
    SliceCommutes(content, nreps[k].start, nreps[k].end);
  }

  lemma {:induction false} InOrderReflects(content: string, reps: seq<Replacement>, cursor: nat)
    requires cursor <= |ReplaceCrlf(content)|
    requires InBounds(reps, |ReplaceCrlf(content)|)
    requires InOrder(ToOriginal(content, reps), OriginalOffset(content, cursor), |content|)
    ensures InOrder(reps, cursor, |ReplaceCrlf(content)|)
    decreases |reps|
  {
    hide ReplaceCrlf, OriginalOffset;
    if reps != [] {
      var rest := reps[1..];
      assert ToOriginal(content, reps)[1..] == ToOriginal(content, rest);
      if reps[0].start < cursor {
        OffsetStrictlyIncreasing(content, reps[0].start, cursor);
      }
      InOrderReflects(content, rest, reps[0].end);
    }
  }

  /** The spans of one edit can be spliced exactly when the match was exact or the fallback spans
      do not overlap. */
  lemma SpliceableIff(content: string, oldText: string, newText: string)
    requires ReplaceCrlf(oldText) != []
    ensures var norm, want := ReplaceCrlf(content), ReplaceCrlf(oldText);
      InOrder(Reps(content, oldText, newText), 0, |content|) <==>
      MatchIndices(norm, want, 0) != [] || !TrimOverlap(norm, want)
  {
    hide ReplaceCrlf, InOrder, NormReps, MatchIndices, TrimOverlap;
    var norm, want := ReplaceCrlf(content), ReplaceCrlf(oldText);
    var nreps := NormReps(norm, want, newText);
    RepsSound(norm, want, newText);
    RepsInOrderIff(norm, want, newText);
    if InOrder(nreps, 0, |norm|) {
      ToOriginalInOrder(content, nreps, 0);
    }
    if InOrder(Reps(content, oldText, newText), 0, |content|) {
      InOrderReflects(content, nreps, 0);
    }
  }

  /** The line numbers in an ambiguity report are those of the normalized text too. */
  lemma MatchLinesAgree(content: string, oldText: string, newText: string, k: nat)
    requires ReplaceCrlf(oldText) != [] && k < |Reps(content, oldText, newText)|
    ensures var norm := ReplaceCrlf(content); var nreps := NormReps(norm, ReplaceCrlf(oldText), newText);
      && k < |nreps| && nreps[k].start <= |norm|
      && Reps(content, oldText, newText)[k].start <= |content|
      && LineAt(content, Reps(content, oldText, newText)[k].start) == LineAt(norm, nreps[k].start)
  {
    hide ReplaceCrlf, NormReps, OriginalOffset;
    var norm := ReplaceCrlf(content);
    RepsSound(norm, ReplaceCrlf(oldText), newText);
    LineNumbersAgree(content, NormReps(norm, ReplaceCrlf(oldText), newText)[k].start);
  }

  // ----- Laws of the outcome -----

  /** Which error, if any, a call reports before it looks for a match. */
  lemma PrecheckExact(env: Env, content: string)
    ensures Precheck(env, content) == Some(NotAFile) <==> env.isDirectory
    ensures Precheck(env, content) == Some(Io) <==> !env.isDirectory && !env.readable
    ensures forall expected, actual ::
      Precheck(env, content) == Some(StaleContentHash(expected, actual)) <==>
      && !env.isDirectory && env.readable && env.expectedHash == Some(expected)
      && actual == env.hash(content) && expected != actual
    ensures Precheck(env, content).None? <==>
      !env.isDirectory && env.readable && (env.expectedHash == None || env.expectedHash == Some(env.hash(content)))
  {
  }

  /** A call is refused as stale exactly when the file can be read and its hash is not the expected one. */
  lemma StaleIff(q: Request, content: string, expected: string, actual: string)
    ensures BlockOutcome(q, content) == Failed(StaleContentHash(expected, actual)) <==>
      && !q.env.isDirectory && q.env.readable && q.env.expectedHash == Some(expected)
      && actual == q.env.hash(content) && expected != actual
  {
    hide ReplaceCrlf, InOrder, Reps, SpliceFrom, Utf8Len;
    PrecheckExact(q.env, content);
  }

  /** The file changes only when the call succeeds; it then was a readable and writable file whose hash is
      the expected one, if the caller named one, and its new text is the old one with every match of the
      old text replaced, from right to left, by the new text. */
  lemma ChangeIsGuarded(q: Request, content: string)
    ensures FileAfter(q, content) != content ==> BlockOutcome(q, content).Done?
    ensures BlockOutcome(q, content).Done? ==>
      && !q.env.isDirectory && q.env.readable && q.env.writable
      && (q.env.expectedHash == None || q.env.expectedHash == Some(q.env.hash(content)))
      && ReplaceCrlf(q.oldText) != []
      && var reps := Reps(content, q.oldText, q.newText);
      && InOrder(reps, 0, |content|)
      && FileAfter(q, content) == ApplyRightToLeft(content, reps, 0)
      && forall k :: 0 <= k < |reps| ==> reps[k].text == q.newText
  {
    hide ReplaceCrlf, InOrder, NormReps, SpliceFrom, Utf8Len, ApplyRightToLeft;
    PrecheckExact(q.env, content);
    if BlockOutcome(q, content).Done? {
      SpliceIsRightToLeft(content, Reps(content, q.oldText, q.newText), 0);
      TextsOfReps(ReplaceCrlf(content), ReplaceCrlf(q.oldText), q.newText);
    }
  }

  /** An edit is ambiguous exactly when several regions match and not all are to be replaced. The report
      gives their number and, in order, the line of the normalized file on which each starts. */
  lemma AmbiguousIff(q: Request, content: string, count: nat, lines: seq<nat>)
    ensures BlockOutcome(q, content) == Failed(Ambiguous(count, lines)) <==>
      && Precheck(q.env, content).None? && ReplaceCrlf(q.oldText) != [] && !q.replaceAll
      && var norm := ReplaceCrlf(content); var nreps := NormReps(norm, ReplaceCrlf(q.oldText), q.newText);
      && count == |nreps| == |lines| && count >= 2
      && forall k :: 0 <= k < count ==> nreps[k].start <= |norm| && lines[k] == LineAt(norm, nreps[k].start)
  {
    hide ReplaceCrlf, InOrder, NormReps, SpliceFrom, Utf8Len, OriginalOffset;
    PrecheckExact(q.env, content);
    if Precheck(q.env, content).None? && ReplaceCrlf(q.oldText) != [] {
      var norm, reps := ReplaceCrlf(content), Reps(content, q.oldText, q.newText);
      RepsInBounds(content, q.oldText, q.newText);
      RepsSound(norm, ReplaceCrlf(q.oldText), q.newText);
      var nreps := NormReps(norm, ReplaceCrlf(q.oldText), q.newText);
      var own := MatchLines(content, reps);
      forall k | 0 <= k < |reps| ensures own[k] == LineAt(norm, nreps[k].start) {
        MatchLinesAgree(content, q.oldText, q.newText, k);
      }
      if count == |lines| == |reps| && forall k :: 0 <= k < count ==> lines[k] == LineAt(norm, nreps[k].start) {
        assert lines == own;
      }
    }
  }

  /** A call succeeds exactly when the file can be read and written and is not stale, the old text is not
      empty and matches, a second match is allowed, and fallback spans do not overlap. */
  lemma SucceedsIff(q: Request, content: string)
    ensures var norm, want := ReplaceCrlf(content), ReplaceCrlf(q.oldText);
      BlockOutcome(q, content).Done? <==>
        && !q.env.isDirectory && q.env.readable && q.env.writable
        && (q.env.expectedHash == None || q.env.expectedHash == Some(q.env.hash(content)))
        && q.oldText != [] && want != []
        && (if Trim(want) == [] then Occurs(norm, want) else HasRegion(norm, Trim(want)))
        && (|NormReps(norm, want, q.newText)| == 1 || q.replaceAll)
        && (q.replaceAll ==> MatchIndices(norm, want, 0) != [] || !TrimOverlap(norm, want))
  {
    hide ReplaceCrlf, InOrder, MatchIndices, NormReps, TrimReps, Trim, Occurs, HasRegion, SpliceFrom, Utf8Len, TrimOverlap;
    PrecheckExact(q.env, content);
    NotFoundIff(q, content);
    PanicsIff(q, content);
    EmptyNormalizesToEmpty(q.oldText);
  }

  lemma EmptyNormalizesToEmpty(s: string)
    ensures ReplaceCrlf(s) == [] <==> s == []
  {
  }

  /** The remaining errors: an empty old text, and a file that cannot be read or, once everything else is
      in order, cannot be written. */
  lemma OtherErrorsIff(q: Request, content: string)
    ensures BlockOutcome(q, content) == Failed(NotAFile) <==> q.env.isDirectory
    ensures BlockOutcome(q, content) == Failed(InvalidParams) <==> Precheck(q.env, content).None? && q.oldText == []
    ensures BlockOutcome(q, content) == Failed(Io) <==>
      && !q.env.isDirectory
      && (!q.env.readable ||
          (!q.env.writable && BlockOutcome(q.(env := q.env.(writable := true)), content).Done?))
    ensures !(BlockOutcome(q, content).Failed? && BlockOutcome(q, content).error.BatchValidationFailed?)
  {
    hide ReplaceCrlf, InOrder, Reps, SpliceFrom, Utf8Len;
    PrecheckExact(q.env, content);
    EmptyNormalizesToEmpty(q.oldText);
  }

  /** The call aborts exactly when several fallback matches were to be replaced and their spans overlap. */
  lemma PanicsIff(q: Request, content: string)
    ensures var norm, want := ReplaceCrlf(content), ReplaceCrlf(q.oldText);
      BlockOutcome(q, content).Panicked? <==>
        && Precheck(q.env, content).None? && want != [] && q.replaceAll
        && MatchIndices(norm, want, 0) == [] && TrimOverlap(norm, want)
  {
    hide ReplaceCrlf, InOrder, MatchIndices, NormReps, TrimReps, Trim;
    var norm, want := ReplaceCrlf(content), ReplaceCrlf(q.oldText);
    if Precheck(q.env, content).None? && want != [] {
      var reps := Reps(content, q.oldText, q.newText);
      SpliceableIff(content, q.oldText, q.newText);
      RepsInBounds(content, q.oldText, q.newText);
      if |reps| <= 1 {
        InOrderFromNeighbours(reps, 0, |content|);
      }
    }
  }

  /** The abort does happen: replacing every "\na " in a file that holds "\na\na". */
  lemma OverlapPanics(env: Env)
    requires Precheck(env, "\na\na").None?
    ensures BlockOutcome(Request("\na ", "b", true, env), "\na\na").Panicked?
  {
    hide BlockOutcome, TrimOverlap, MatchIndices;
    OverlapExample();
    NoCrUnchanged("\na\na");
    NoCrUnchanged("\na ");
    PanicsIff(Request("\na ", "b", true, env), "\na\na");
  }

  /** An edit is reported as not found exactly when the file holds no matching region. */
  lemma NotFoundIff(q: Request, content: string)
    ensures var norm, want := ReplaceCrlf(content), ReplaceCrlf(q.oldText);
      BlockOutcome(q, content) == Failed(NotFound) <==>
        && Precheck(q.env, content).None? && want != []
        && (if Trim(want) == [] then !Occurs(norm, want) else !HasRegion(norm, Trim(want)))
  {
    hide ReplaceCrlf, InOrder, NormReps, Trim, Occurs, HasRegion;
    var norm, want := ReplaceCrlf(content), ReplaceCrlf(q.oldText);
    if Precheck(q.env, content).None? && want != [] {
      NotFoundIffAbsent(norm, want, q.newText);
    }
  }

  /** Sizes reported by a successful call: every byte is accounted for. */
  lemma BytesConserved(q: Request, content: string)
    requires BlockOutcome(q, content).Done?
    ensures ReplaceCrlf(q.oldText) != []
    ensures var out := BlockOutcome(q, content).output; var reps := Reps(content, q.oldText, q.newText);
      && InBounds(reps, |content|)
      && out.bytesBefore == Utf8Len(content)
      && out.bytesAfter == Utf8Len(FileAfter(q, content))
      && out.occurrencesReplaced == |reps| >= 1
      && (!q.replaceAll ==> out.occurrencesReplaced == 1)
      && SpanBytes(content, reps) <= out.bytesBefore
      && out.bytesAfter == out.bytesBefore + out.occurrencesReplaced * Utf8Len(q.newText) - SpanBytes(content, reps)
  {
    hide ReplaceCrlf, InOrder, NormReps, SpliceFrom, Utf8Len;
    var reps := Reps(content, q.oldText, q.newText);
    RepsInBounds(content, q.oldText, q.newText);
    SpliceBytes(content, reps, 0);
    TextsOfReps(ReplaceCrlf(content), ReplaceCrlf(q.oldText), q.newText);
    SameTextBytes(reps, q.newText);
    assert content[0..] == content;
  }

  /** The size subtraction before the splice never underflows when the splice itself can be done. */
  lemma CapacitySuffices(content: string, oldText: string, newText: string)
    requires ReplaceCrlf(oldText) != []
    ensures InBounds(Reps(content, oldText, newText), |content|)
    ensures var reps := Reps(content, oldText, newText);
      InOrder(reps, 0, |content|) ==> SpanBytes(content, reps) <= Utf8Len(content) + Utf8Len(newText) * |reps|
  {
    hide ReplaceCrlf, InOrder, NormReps, SpliceFrom, Utf8Len;
    var reps := Reps(content, oldText, newText);
    RepsInBounds(content, oldText, newText);
    if InOrder(reps, 0, |content|) {
      SpliceBytes(content, reps, 0);
      assert content[0..] == content;
    }
  }

  lemma {:induction false} SameTextBytes(reps: seq<Replacement>, text: string)
    requires forall k :: 0 <= k < |reps| ==> reps[k].text == text
    ensures TextBytes(reps) == |reps| * Utf8Len(text)
  {
    if reps != [] {
      SameTextBytes(reps[1..], text);
      var n, u := |reps| - 1, Utf8Len(text);
      assert (n + 1) * u == n * u + u;
    }
  }

  /** Replacement commutes with CRLF normalization: when the file has no lone CR and the new text no
      CR, normalizing the new file is replacing, in the normalized old file, the spans found there. */
  lemma ReplaceCommutesWithNormalize(q: Request, content: string)
    requires BlockOutcome(q, content).Done?
    requires NoLoneCr(content) && CR !in q.newText
    ensures ReplaceCrlf(q.oldText) != []
    ensures var norm := ReplaceCrlf(content); var nreps := NormReps(norm, ReplaceCrlf(q.oldText), q.newText);
      && InOrder(nreps, 0, |norm|)
      && ReplaceCrlf(FileAfter(q, content)) == SpliceFrom(norm, nreps, 0)
  {
    hide ReplaceCrlf, InOrder, NormReps, SpliceFrom, OriginalOffset;
    var norm, want := ReplaceCrlf(content), ReplaceCrlf(q.oldText);
    var nreps := NormReps(norm, want, q.newText);
    RepsSound(norm, want, q.newText);
    InOrderReflects(content, nreps, 0);
    TextsOfReps(norm, want, q.newText);
    NoCrUnchanged(q.newText);
    SpliceCommutesWithNormalize(content, nreps);
    assert NormalizeTexts(nreps) == nreps;
  }

  /** On the exact path the normalized new file is the normalized old file with every leftmost
      non-overlapping occurrence of the normalized old text replaced, as `str::replace` does it. */
  lemma ExactEditIsReplaceAll(q: Request, content: string)
    requires BlockOutcome(q, content).Done?
    requires NoLoneCr(content) && CR !in q.newText
    requires Occurs(ReplaceCrlf(content), ReplaceCrlf(q.oldText))
    ensures ReplaceCrlf(q.oldText) != []
    ensures ReplaceCrlf(FileAfter(q, content)) ==
            ReplaceAll(ReplaceCrlf(content), ReplaceCrlf(q.oldText), q.newText, 0)
  {
    hide ReplaceCrlf, FileAfter, ExactReps, TrimReps, MatchIndices, SpliceFrom, ReplaceAll, InOrder, Occurs;
    var norm, want := ReplaceCrlf(content), ReplaceCrlf(q.oldText);
    ReplaceCommutesWithNormalize(q, content);
    MatchesIffOccurs(norm, want);
    ExactSpliceIsReplaceAll(norm, want, q.newText);
  }

  lemma TextsOfReps(norm: string, want: string, text: string)
    requires want != []
    ensures forall k :: 0 <= k < |NormReps(norm, want, text)| ==> NormReps(norm, want, text)[k].text == text
  {
  }
}

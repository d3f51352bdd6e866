/** The edited file and the two operations on it, as the program carries them out. */
module EditFile {
  import opened Text
  import opened Crlf
  import opened Splice
  import opened Sorting
  import opened EditMatch
  import opened EditReplace
  import opened EditBatch
  import opened EditBatchLaws

  class TargetFile {
    var content: string

    constructor (initial: string)
      ensures content == initial
    {
      content := initial;
    }

    /** `edit_replace_block_inner`. */
    method EditReplaceBlock(q: Request) returns (outcome: Outcome)
      modifies this
      ensures outcome == BlockOutcome(q, old(content))
      ensures content == FileAfter(q, old(content))
    {
      hide ReplaceCrlf, NormReps, Utf8Len, OriginalOffset, CrlfPositions, SpliceFrom, InOrder, Normalize, SpanBytes;
      if q.env.isDirectory {
        return Failed(NotAFile);
      }
      if !q.env.readable {
        return Failed(Io);
      }
      if q.env.expectedHash.Some? {
        var actual := q.env.hash(content);
        if actual != q.env.expectedHash.value {
          return Failed(StaleContentHash(q.env.expectedHash.value, actual));
        }
      }
      var normContent, normOld := Normalize(content), Normalize(q.oldText);
      NormalizeIsReplaceCrlf(content);
      NormalizeIsReplaceCrlf(q.oldText);
      if normOld == [] {
        return Failed(InvalidParams);
      }
      var positions := BuildCrlfPositions(content);
      var matches := FindMatches(normContent, normOld, q.newText, positions, content);
      assert matches == Reps(content, q.oldText, q.newText);
      RepsInBounds(content, q.oldText, q.newText);
      if matches == [] {
        return Failed(NotFound);
      }
      if |matches| > 1 && !q.replaceAll {
        return Failed(Ambiguous(|matches|, MatchLines(content, matches)));
      }
      var bytesBefore := Utf8Len(content);
      CapacitySuffices(content, q.oldText, q.newText);
      if bytesBefore + Utf8Len(q.newText) * |matches| < SpanBytes(content, matches) {
        return Panicked;
      }
      var ok, result := SpliceLoop(content, matches);
      if !ok {
        return Panicked;
      }
      if !q.env.writable {
        return Failed(Io);
      }
      content := result;
      return Done(EditOutput(bytesBefore, Utf8Len(result), |matches|));
    }

    /** `edit_replace_batch`. */
    method EditReplaceBatch(env: Env, edits: seq<BatchEdit>) returns (outcome: BatchOutcome)
      modifies this
      ensures outcome == BatchOutcomeOf(env, edits, old(content))
      ensures content == BatchFileAfter(env, edits, old(content))
      ensures outcome.BatchDone? ==>
        outcome.output.occurrencesReplaced == Sum(outcome.output.perEdit)
    {
      hide Utf8Len, SpliceFrom, InOrder, PerEditCounts, Sweep, SortBy, CollectFailures, Collect, BatchReps;
      if env.isDirectory {
        return BatchFailed(NotAFile);
      }
      if !env.readable {
        return BatchFailed(Io);
      }
      if env.expectedHash.Some? {
        var actual := env.hash(content);
        if actual != env.expectedHash.value {
          return BatchFailed(StaleContentHash(env.expectedHash.value, actual));
        }
      }
      var bytesBefore := Utf8Len(content);
      var allSpans, failures := CollectAll(content, edits);
      CollectIndices(content, edits, 0);
      var sorted := SortSpans(allSpans);
      var overlaps := SweepLoop(sorted);
      failures := failures + overlaps;
      if failures != [] {
        failures := SortBy(failures, FailureLe);
        return BatchFailed(BatchValidationFailed(failures));
      }
      ValidInOrder(content, edits);
      CountsAddUp(content, edits);
      var result, counts := SpliceBatch(content, edits);
      if !env.writable {
        return BatchFailed(Io);
      }
      content := result;
      return BatchDone(BatchOutput(bytesBefore, Utf8Len(result), Sum(counts), counts, env.hash(result)));
    }
  }

  /** One pass of the collection loop: the spans of a valid edit, or what is wrong with it. */
  method ValidateEdit(content: string, normContent: string, positions: seq<nat>, edit: BatchEdit)
    returns (verdict: Option<BatchFailureClass>, reps: seq<Replacement>)
    requires normContent == ReplaceCrlf(content) && positions == CrlfPositions(content, 0)
    ensures verdict == Verdict(content, edit)
    ensures reps == EditReps(content, edit)
  {
    hide ReplaceCrlf, NormReps, OriginalOffset, CrlfPositions, Normalize;
    var normOld := Normalize(edit.oldText);
    NormalizeIsReplaceCrlf(edit.oldText);
    if normOld == [] {
      return Some(EmptyOldText), [];
    }
    var matches := FindMatches(normContent, normOld, edit.newText, positions, content);
    assert matches == Reps(content, edit.oldText, edit.newText);
    if matches == [] {
      return Some(OldTextNotFound), [];
    }
    if |matches| > 1 && !ReplacesAll(edit) {
      return Some(AmbiguousMatch), [];
    }
    return None, matches;
  }

  /** The collection loop: spans of valid edits, failures of the others. */
  method CollectAll(content: string, edits: seq<BatchEdit>)
    returns (allSpans: seq<IndexedSpan>, failures: seq<BatchFailure>)
    ensures allSpans == Collect(content, edits, 0)
    ensures failures == CollectFailures(content, edits, 0)
  {
    hide Verdict, EditReps, CrlfPositions, ReplaceCrlf, Normalize;
    var normContent := Normalize(content);
    NormalizeIsReplaceCrlf(content);
    var positions := BuildCrlfPositions(content);
    allSpans, failures := [], [];
    for index := 0 to |edits|
      invariant allSpans + Collect(content, edits, index) == Collect(content, edits, 0)
      invariant failures + CollectFailures(content, edits, index) == CollectFailures(content, edits, 0)
    {
      var verdict, reps := ValidateEdit(content, normContent, positions, edits[index]);
      if verdict.Some? {
        failures := failures + [BatchFailure(index, verdict.value)];
      }
      allSpans := allSpans + Indexed(reps, index);
    }
  }

  /** The running-maximum pass. */
  method SweepLoop(spans: seq<IndexedSpan>) returns (failures: seq<BatchFailure>)
    ensures failures == Sweep(spans, None)
  {
    hide Sweep;
    failures := [];
    var lastEnd: Option<nat> := None;
    assert spans[0..] == spans;
    for k := 0 to |spans|
      invariant failures + Sweep(spans[k..], lastEnd) == Sweep(spans, None)
    {
      var s := spans[k];
      assert spans[k..][1..] == spans[k + 1..];
      SweepStep(spans[k..], lastEnd);
      if lastEnd.Some? && s.start < lastEnd.value {
        lastEnd := Some(Max(s.end, lastEnd.value));
        failures := failures + [BatchFailure(s.index, OverlappingEdits)];
      } else {
        lastEnd := Some(match lastEnd case Some(prev) => Max(prev, s.end) case None => s.end);
      }
    }
    SweepNothing(lastEnd);
  }

  lemma SweepStep(spans: seq<IndexedSpan>, lastEnd: Option<nat>)
    requires spans != []
    ensures Sweep(spans, lastEnd) ==
      (if lastEnd.Some? && spans[0].start < lastEnd.value
       then [BatchFailure(spans[0].index, OverlappingEdits)] else []) +
      Sweep(spans[1..], Some(NextEnd(lastEnd, spans[0].end)))
  {
  }

  lemma SweepNothing(lastEnd: Option<nat>)
    ensures Sweep([], lastEnd) == []
  {
  }

  lemma {:induction false} CountIndexSnoc(spans: seq<IndexedSpan>, s: IndexedSpan, index: nat)
    ensures CountIndex(spans + [s], index) == CountIndex(spans, index) + (if s.index == index then 1 else 0)
  {
    CountAppend(spans, [s], index);
  }

  /** The batch splice loop with its per-edit counters. */
  method SpliceBatch(content: string, edits: seq<BatchEdit>) returns (result: string, counts: seq<nat>)
    requires Valid(content, edits)
    ensures result == BatchResult(content, edits)
    ensures counts == PerEditCounts(content, edits)
  {
    hide Failures, SortedSpans, SpliceFrom;
    ValidInOrder(content, edits);
    var spans := SortedSpans(content, edits);
    var reps := RepsOf(edits, spans);
    var ok;
    ok, result := SpliceLoop(content, reps);
    counts := seq(|edits|, _ => 0);
    for k := 0 to |spans|
      invariant |counts| == |edits|
      invariant forall i :: 0 <= i < |edits| ==> counts[i] == CountIndex(spans[..k], i)
    {
      assert spans[..k + 1] == spans[..k] + [spans[k]];
      forall i | 0 <= i < |edits|
        ensures CountIndex(spans[..k + 1], i) == CountIndex(spans[..k], i) + (if spans[k].index == i then 1 else 0)
      {
        CountIndexSnoc(spans[..k], spans[k], i);
      }
      counts := counts[spans[k].index := counts[spans[k].index] + 1];
    }
    assert spans[..|spans|] == spans;
    forall i | 0 <= i < |edits|
      ensures counts[i] == |EditReps(content, edits[i])|
    {
      PerEditCountExact(content, edits, i);
    }
  }
}

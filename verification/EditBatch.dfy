/** `edit_replace_batch`: several replacements in one file, applied together or not at all. */
module EditBatch {
  import opened Text
  import opened Crlf
  import opened Splice
  import opened Sorting
  import opened EditMatch
  import opened EditReplace

  datatype BatchEdit = BatchEdit(oldText: string, newText: string, replaceAll: Option<bool>)

  /** An entry of the program's span list. */
  datatype IndexedSpan = IndexedSpan(start: nat, end: nat, index: nat)

  datatype BatchOutput = BatchOutput(
    bytesBefore: nat, bytesAfter: nat, occurrencesReplaced: nat, perEdit: seq<nat>, contentHash: string)

  datatype BatchOutcome = BatchDone(output: BatchOutput) | BatchFailed(error: EditError)

  // ----- Validation of one edit -----

  predicate ReplacesAll(edit: BatchEdit) {
    edit.replaceAll.Some? && edit.replaceAll.value
  }

  function Verdict(content: string, edit: BatchEdit): Option<BatchFailureClass> {
    if ReplaceCrlf(edit.oldText) == [] then Some(EmptyOldText)
    else
      var n := |Reps(content, edit.oldText, edit.newText)|;
      if n == 0 then Some(OldTextNotFound)
      else if n > 1 && !ReplacesAll(edit) then Some(AmbiguousMatch)
      else None
  }

  /** The replacements that one edit contributes: none when it is invalid. */
  function EditReps(content: string, edit: BatchEdit): (reps: seq<Replacement>)
    ensures InBounds(reps, |content|)
  {
    if Verdict(content, edit).Some? then []
    else
      RepsInBounds(content, edit.oldText, edit.newText);
      Reps(content, edit.oldText, edit.newText)
  }

  // ----- Collecting spans and failures -----

  function Indexed(reps: seq<Replacement>, index: nat): (spans: seq<IndexedSpan>)
    ensures |spans| == |reps|
    ensures forall k :: 0 <= k < |reps| ==> spans[k] == IndexedSpan(reps[k].start, reps[k].end, index)
  {
    seq(|reps|, k requires 0 <= k < |reps| => IndexedSpan(reps[k].start, reps[k].end, index))
  }

  /** Spans of the edits from position `n` on, in request order. */
  function Collect(content: string, edits: seq<BatchEdit>, n: nat): seq<IndexedSpan>
    requires n <= |edits|
    decreases |edits| - n
  {
    if n == |edits| then [] else Indexed(EditReps(content, edits[n]), n) + Collect(content, edits, n + 1)
  }

  function CollectFailures(content: string, edits: seq<BatchEdit>, n: nat): seq<BatchFailure>
    requires n <= |edits|
    decreases |edits| - n
  {
    if n == |edits| then []
    else
      (match Verdict(content, edits[n]) case Some(c) => [BatchFailure(n, c)] case None => []) +
      CollectFailures(content, edits, n + 1)
  }

  /** The replacement that a span stands for. */
  function RepsOf(edits: seq<BatchEdit>, spans: seq<IndexedSpan>): (reps: seq<Replacement>)
    requires forall k :: 0 <= k < |spans| ==> spans[k].index < |edits|
    ensures |reps| == |spans|
    ensures forall k :: 0 <= k < |spans| ==>
      reps[k] == Replacement(spans[k].start, spans[k].end, edits[spans[k].index].newText)
  {
    seq(|spans|, k requires 0 <= k < |spans| =>
      Replacement(spans[k].start, spans[k].end, edits[spans[k].index].newText))
  }

  // ----- Order and overlap -----

  predicate SpanLe(a: IndexedSpan, b: IndexedSpan) {
    || a.start < b.start
    || (a.start == b.start && a.end < b.end)
    || (a.start == b.start && a.end == b.end && a.index <= b.index)
  }

  predicate FailureLe(a: BatchFailure, b: BatchFailure) {
    a.index <= b.index
  }

  lemma SortSpansFacts(spans: seq<IndexedSpan>)
    ensures var r := SortBy(spans, SpanLe);
      && multiset(r) == multiset(spans)
      && (forall i, j :: 0 <= i < j < |r| ==> r[i].start <= r[j].start)
      && (forall k :: 0 <= k < |r| ==> r[k] in spans)
  {
    hide SortBy;
    var r := SortBy(spans, SpanLe);
    SortMultiset(spans, SpanLe);
    SpanLeIsOrder();
    SortSorted(spans, SpanLe);
    hide TotalPreorder;
    forall k | 0 <= k < |r| ensures r[k] in spans {
      assert r[k] in multiset(r);
    }
  }

  lemma SpanLeIsOrder()
    ensures TotalPreorder(SpanLe)
  {
  }

  function SortSpans(spans: seq<IndexedSpan>): (r: seq<IndexedSpan>)
    ensures multiset(r) == multiset(spans) && |r| == |spans|
    ensures forall i, j :: 0 <= i < j < |r| ==> r[i].start <= r[j].start
    ensures forall k :: 0 <= k < |r| ==> r[k] in spans
  {
    SortSpansFacts(spans);
    SortBy(spans, SpanLe)
  }

  predicate Intersect(a: IndexedSpan, b: IndexedSpan) {
    a.start < b.end && b.start < a.end
  }

  function Max(a: nat, b: nat): nat {
    if a < b then b else a
  }

  function NextEnd(lastEnd: Option<nat>, end: nat): nat {
    if lastEnd.Some? then Max(lastEnd.value, end) else end
  }

  /** The running-maximum pass over the sorted spans. */
  function Sweep(spans: seq<IndexedSpan>, lastEnd: Option<nat>): seq<BatchFailure> {
    if spans == [] then []
    else
      (if lastEnd.Some? && spans[0].start < lastEnd.value
       then [BatchFailure(spans[0].index, OverlappingEdits)] else []) +
      Sweep(spans[1..], Some(NextEnd(lastEnd, spans[0].end)))
  }

  predicate OverlapsEarlier(spans: seq<IndexedSpan>, k: nat)
    requires k < |spans|
  {
    exists i :: 0 <= i < k && Intersect(spans[i], spans[k])
  }

  /** Reference: one failure for each span that intersects one before it. */
  function Flags(spans: seq<IndexedSpan>, k: nat): seq<BatchFailure>
    requires k <= |spans|
    decreases |spans| - k
  {
    if k == |spans| then []
    else
      (if OverlapsEarlier(spans, k) then [BatchFailure(spans[k].index, OverlappingEdits)] else []) +
      Flags(spans, k + 1)
  }

  function MaxEnd(spans: seq<IndexedSpan>, k: nat): Option<nat>
    requires k <= |spans|
  {
    if k == 0 then None else Some(NextEnd(MaxEnd(spans, k - 1), spans[k - 1].end))
  }

  lemma {:induction false} MaxEndExceeds(spans: seq<IndexedSpan>, k: nat, x: nat)
    requires k <= |spans|
    ensures MaxEnd(spans, k).Some? && x < MaxEnd(spans, k).value <==> exists i :: 0 <= i < k && x < spans[i].end
  {
    if k > 0 {
      MaxEndExceeds(spans, k - 1, x);
    }
  }

  ghost predicate Ordered(spans: seq<IndexedSpan>) {
    && (forall i :: 0 <= i < |spans| ==> spans[i].start < spans[i].end)
    && (forall i, j :: 0 <= i < j < |spans| ==> spans[i].start <= spans[j].start)
  }

  /** The sweep flags a span exactly when it intersects an earlier one. */
  lemma {:induction false} SweepIsFlags(spans: seq<IndexedSpan>, k: nat)
    requires Ordered(spans) && k <= |spans|
    ensures Sweep(spans[k..], MaxEnd(spans, k)) == Flags(spans, k)
    decreases |spans| - k
  {
    hide OverlapsEarlier;
    if k < |spans| {
      var rest := spans[k..];
      assert rest[0] == spans[k] && rest[1..] == spans[k + 1..];
      OverlapTest(spans, k);
      SweepIsFlags(spans, k + 1);
    }
  }

  /** Comparing the start with the running maximum decides whether an earlier span is met. */
  lemma OverlapTest(spans: seq<IndexedSpan>, k: nat)
    requires Ordered(spans) && k < |spans|
    ensures OverlapsEarlier(spans, k) <==> MaxEnd(spans, k).Some? && spans[k].start < MaxEnd(spans, k).value
  {
    hide MaxEnd;
    MaxEndExceeds(spans, k, spans[k].start);
    if i :| 0 <= i < k && spans[k].start < spans[i].end {
      assert Intersect(spans[i], spans[k]);
    }
  }

  ghost predicate PairwiseDisjoint(spans: seq<IndexedSpan>) {
    forall i, j :: 0 <= i < j < |spans| ==> !Intersect(spans[i], spans[j])
  }

  lemma {:induction false} FlagsEmptyIff(spans: seq<IndexedSpan>, k: nat)
    requires k <= |spans|
    ensures Flags(spans, k) == [] <==> forall i, j :: 0 <= i < j < |spans| && k <= j ==> !Intersect(spans[i], spans[j])
    decreases |spans| - k
  {
    if k < |spans| {
      FlagsEmptyIff(spans, k + 1);
    }
  }

  /** Soundness and completeness of the overlap check: no failure exactly when no two spans
      intersect. Spans that merely touch are accepted. */
  lemma SweepExact(spans: seq<IndexedSpan>)
    requires Ordered(spans)
    ensures Sweep(spans, None) == Flags(spans, 0)
    ensures Sweep(spans, None) == [] <==> PairwiseDisjoint(spans)
  {
    SweepIsFlags(spans, 0);
    FlagsEmptyIff(spans, 0);
    assert spans[0..] == spans;
  }

  // ----- Specification of the batch -----

  lemma {:induction false} CollectIndices(content: string, edits: seq<BatchEdit>, n: nat)
    requires n <= |edits|
    ensures forall k :: 0 <= k < |Collect(content, edits, n)| ==>
      && n <= Collect(content, edits, n)[k].index < |edits|
      && Collect(content, edits, n)[k].start < Collect(content, edits, n)[k].end <= |content|
    decreases |edits| - n
  {
    hide EditReps;
    if n < |edits| {
      CollectIndices(content, edits, n + 1);
    }
  }

  /** The spans in splice order. */
  function SortedSpans(content: string, edits: seq<BatchEdit>): (spans: seq<IndexedSpan>)
    ensures forall k :: 0 <= k < |spans| ==>
      spans[k].index < |edits| && spans[k].start < spans[k].end <= |content|
    ensures Ordered(spans)
  {
    CollectIndices(content, edits, 0);
    SortSpans(Collect(content, edits, 0))
  }

  function Failures(content: string, edits: seq<BatchEdit>): seq<BatchFailure> {
    SortBy(CollectFailures(content, edits, 0) + Sweep(SortedSpans(content, edits), None), FailureLe)
  }

  /** The replacements of the whole batch in splice order. */
  function BatchReps(content: string, edits: seq<BatchEdit>): seq<Replacement> {
    RepsOf(edits, SortedSpans(content, edits))
  }

  ghost predicate Valid(content: string, edits: seq<BatchEdit>) {
    Failures(content, edits) == []
  }

  lemma ValidInOrder(content: string, edits: seq<BatchEdit>)
    requires Failures(content, edits) == []
    ensures InOrder(BatchReps(content, edits), 0, |content|)
  {
    hide Sweep, SortedSpans, CollectFailures;
    var spans := SortedSpans(content, edits);
    SweepExact(spans);
    var reps := BatchReps(content, edits);
    assert forall i, j :: 0 <= i < j < |spans| ==> !Intersect(spans[i], spans[j]);
    InOrderIntro(reps, 0, |content|);
  }

  function CountIndex(spans: seq<IndexedSpan>, index: nat): nat {
    if spans == [] then 0 else (if spans[0].index == index then 1 else 0) + CountIndex(spans[1..], index)
  }

  function PerEditCounts(content: string, edits: seq<BatchEdit>): seq<nat> {
    seq(|edits|, i requires 0 <= i < |edits| => |EditReps(content, edits[i])|)
  }

  function BatchResult(content: string, edits: seq<BatchEdit>): string
    requires Failures(content, edits) == []
  {
    ValidInOrder(content, edits);
    SpliceFrom(content, BatchReps(content, edits), 0)
  }

  function BatchOutcomeOf(env: Env, edits: seq<BatchEdit>, content: string): BatchOutcome {
    if Precheck(env, content).Some? then BatchFailed(Precheck(env, content).value)
    else if Failures(content, edits) != [] then BatchFailed(BatchValidationFailed(Failures(content, edits)))
    else if !env.writable then BatchFailed(Io)
    else
      var result := BatchResult(content, edits);
      BatchDone(BatchOutput(Utf8Len(content), Utf8Len(result), |BatchReps(content, edits)|,
                            PerEditCounts(content, edits), env.hash(result)))
  }

  function BatchFileAfter(env: Env, edits: seq<BatchEdit>, content: string): string {
    if BatchOutcomeOf(env, edits, content).BatchDone? then BatchResult(content, edits) else content
  }
}

/** What a batch means: order-independence, sequential reading, counts, failures, and agreement
    with the single edit. */
module EditBatchLaws {
  import opened Text
  import opened Crlf
  import opened Matching
  import opened TrimEnd
  import opened Splice
  import opened Sorting
  import opened EditMatch
  import opened EditReplace
  import opened EditBatch

  // ----- Failures -----

  lemma {:induction false} FailuresListed(content: string, edits: seq<BatchEdit>, n: nat)
    requires n <= |edits|
    ensures forall f :: f in CollectFailures(content, edits, n) <==>
      n <= f.index < |edits| && Verdict(content, edits[f.index]) == Some(f.class_)
    decreases |edits| - n
  {
    hide Verdict;
    if n < |edits| {
      FailuresListed(content, edits, n + 1);
    }
  }

  /** The report holds exactly the invalid edits with their class and the spans that intersect an
      earlier span, ordered by edit. */
  lemma FailuresAccount(content: string, edits: seq<BatchEdit>)
    ensures multiset(Failures(content, edits)) ==
      multiset(CollectFailures(content, edits, 0)) + multiset(Flags(SortedSpans(content, edits), 0))
    ensures forall i, j :: 0 <= i < j < |Failures(content, edits)| ==>
      Failures(content, edits)[i].index <= Failures(content, edits)[j].index
    ensures forall f :: f in CollectFailures(content, edits, 0) <==>
      f.index < |edits| && Verdict(content, edits[f.index]) == Some(f.class_)
  {
    hide CollectFailures, Sweep, Flags, SortedSpans, Verdict;
    var all := CollectFailures(content, edits, 0) + Sweep(SortedSpans(content, edits), None);
    SortMultiset(all, FailureLe);
    SortSorted(all, FailureLe);
    SweepExact(SortedSpans(content, edits));
    FailuresListed(content, edits, 0);
  }

  ghost predicate AllAccepted(content: string, edits: seq<BatchEdit>) {
    forall i :: 0 <= i < |edits| ==> Verdict(content, edits[i]).None?
  }

  /** A batch is accepted exactly when every edit is valid by itself and no two spans intersect. */
  lemma ValidIff(content: string, edits: seq<BatchEdit>)
    ensures Valid(content, edits) <==>
      AllAccepted(content, edits) && PairwiseDisjoint(SortedSpans(content, edits))
  {
    hide Sweep, SortedSpans, CollectFailures, Verdict, SortBy;
    SweepExact(SortedSpans(content, edits));
    var bad := CollectFailures(content, edits, 0);
    FailuresListed(content, edits, 0);
    if bad != [] {
      assert bad[0] in bad;
    }
    if i :| 0 <= i < |edits| && Verdict(content, edits[i]).Some? {
      assert BatchFailure(i, Verdict(content, edits[i]).value) in bad;
    }
  }

  // ----- The replacements as a multiset -----

  /** All replacements, in request order. */
  function AllReps(content: string, edits: seq<BatchEdit>): seq<Replacement> {
    if edits == [] then [] else EditReps(content, edits[0]) + AllReps(content, edits[1..])
  }

  lemma EditTexts(content: string, edit: BatchEdit)
    ensures forall k :: 0 <= k < |EditReps(content, edit)| ==> EditReps(content, edit)[k].text == edit.newText
  {
    hide NormReps, ReplaceCrlf;
    if ReplaceCrlf(edit.oldText) != [] {
      TextsOfReps(ReplaceCrlf(content), ReplaceCrlf(edit.oldText), edit.newText);
    }
  }

  lemma {:induction false} CollectedReps(content: string, edits: seq<BatchEdit>, n: nat)
    requires n <= |edits|
    ensures forall k :: 0 <= k < |Collect(content, edits, n)| ==> Collect(content, edits, n)[k].index < |edits|
    ensures RepsOf(edits, Collect(content, edits, n)) == AllReps(content, edits[n..])
    decreases |edits| - n
  {
    hide EditReps;
    CollectIndices(content, edits, n);
    if n < |edits| {
      CollectedReps(content, edits, n + 1);
      EditTexts(content, edits[n]);
      assert edits[n..][1..] == edits[n + 1..];
      var here := Indexed(EditReps(content, edits[n]), n);
      assert RepsOf(edits, here) == EditReps(content, edits[n]);
      assert RepsOf(edits, here + Collect(content, edits, n + 1)) ==
             RepsOf(edits, here) + RepsOf(edits, Collect(content, edits, n + 1));
    }
  }

  /** The sequence without its element at `j`. */
  function Omit<T>(s: seq<T>, j: nat): (r: seq<T>)
    requires j < |s|
    ensures |r| == |s| - 1
    ensures forall k :: 0 <= k < |r| ==> r[k] == s[if k < j then k else k + 1]
  {
    s[..j] + s[j + 1..]
  }

  lemma OmitMultiset<T>(s: seq<T>, j: nat)
    requires j < |s|
    ensures multiset(s) == multiset{s[j]} + multiset(Omit(s, j))
  {
    assert s == s[..j] + [s[j]] + s[j + 1..];
  }

  lemma FindInMultiset<T>(s: seq<T>, x: T) returns (j: nat)
    requires x in multiset(s)
    ensures j < |s| && s[j] == x
  {
    assert x in s;
    j :| 0 <= j < |s| && s[j] == x;
  }

  lemma CancelOne<T>(x: T, a: multiset<T>, b: multiset<T>)
    requires multiset{x} + a == multiset{x} + b
    ensures a == b
  {
    assert a == (multiset{x} + a) - multiset{x};
    assert b == (multiset{x} + b) - multiset{x};
  }

  /** Taking the head of `a` out of a permutation of `a` leaves a permutation of the tail. */
  lemma RemoveHead<T>(a: seq<T>, b: seq<T>) returns (j: nat)
    requires multiset(a) == multiset(b) && a != []
    ensures j < |b| && b[j] == a[0]
    ensures multiset(Omit(a, 0)) == multiset(Omit(b, j))
  {
    hide Omit;
    assert a[0] in multiset(a);
    j := FindInMultiset(b, a[0]);
    OmitMultiset(a, 0);
    OmitMultiset(b, j);
    CancelOne(a[0], multiset(Omit(a, 0)), multiset(Omit(b, j)));
  }

  lemma NothingToPermute<T>(a: seq<T>, b: seq<T>)
    requires multiset(a) == multiset(b) && a == []
    ensures b == []
  {
    assert |multiset(b)| == 0;
  }

  lemma RepsOfOmit(edits: seq<BatchEdit>, s: seq<IndexedSpan>, j: nat)
    requires forall k :: 0 <= k < |s| ==> s[k].index < |edits|
    requires j < |s|
    ensures multiset(RepsOf(edits, s)) ==
      multiset{Replacement(s[j].start, s[j].end, edits[s[j].index].newText)} + multiset(RepsOf(edits, Omit(s, j)))
  {
    var r := RepsOf(edits, s);
    OmitMultiset(r, j);
    assert Omit(r, j) == RepsOf(edits, Omit(s, j));
  }

  lemma {:induction false} RepsOfPermutes(edits: seq<BatchEdit>, a: seq<IndexedSpan>, b: seq<IndexedSpan>)
    requires multiset(a) == multiset(b)
    requires forall k :: 0 <= k < |a| ==> a[k].index < |edits|
    requires forall k :: 0 <= k < |b| ==> b[k].index < |edits|
    ensures multiset(RepsOf(edits, a)) == multiset(RepsOf(edits, b))
    decreases |a|
  {
    hide RepsOf, Omit;
    if a == [] {
      NothingToPermute(a, b);
    } else {
      var j := RemoveHead(a, b);
      RepsOfPermutes(edits, Omit(a, 0), Omit(b, j));
      RepsOfOmit(edits, a, 0);
      RepsOfOmit(edits, b, j);
    }
  }

  lemma BatchRepsMultiset(content: string, edits: seq<BatchEdit>)
    ensures multiset(BatchReps(content, edits)) == multiset(AllReps(content, edits))
  {
    hide SortSpans, Collect, AllReps;
    CollectedReps(content, edits, 0);
    assert edits[0..] == edits;
    RepsOfPermutes(edits, SortedSpans(content, edits), Collect(content, edits, 0));
  }

  lemma {:induction false} AllRepsAppend(content: string, a: seq<BatchEdit>, b: seq<BatchEdit>)
    ensures AllReps(content, a + b) == AllReps(content, a) + AllReps(content, b)
  {
    hide EditReps;
    if a == [] {
      assert a + b == b;
    } else {
      assert (a + b)[1..] == a[1..] + b;
      AllRepsAppend(content, a[1..], b);
    }
  }

  lemma AllRepsOmit(content: string, s: seq<BatchEdit>, j: nat)
    requires j < |s|
    ensures multiset(AllReps(content, s)) == multiset(EditReps(content, s[j])) + multiset(AllReps(content, Omit(s, j)))
  {
    hide EditReps, AllReps;
    var here, front, back := [s[j]], s[..j], s[j + 1..];
    assert s == front + (here + back);
    AllRepsAppend(content, front, here + back);
    AllRepsAppend(content, here, back);
    AllRepsAppend(content, front, back);
    AllRepsOne(content, s[j]);
  }

  lemma AllRepsOne(content: string, edit: BatchEdit)
    ensures AllReps(content, [edit]) == EditReps(content, edit)
  {
    hide EditReps;
    assert AllReps(content, [edit]) == EditReps(content, edit) + AllReps(content, []);
  }

  lemma {:induction false} AllRepsPermutes(content: string, a: seq<BatchEdit>, b: seq<BatchEdit>)
    requires multiset(a) == multiset(b)
    ensures multiset(AllReps(content, a)) == multiset(AllReps(content, b))
    decreases |a|
  {
    hide EditReps, AllReps, Omit;
    if a == [] {
      NothingToPermute(a, b);
    } else {
      var j := RemoveHead(a, b);
      AllRepsPermutes(content, Omit(a, 0), Omit(b, j));
      AllRepsOmit(content, a, 0);
      AllRepsOmit(content, b, j);
    }
  }

  // ----- Order independence -----

  ghost predicate StartsOrdered(reps: seq<Replacement>) {
    forall i, j :: 0 <= i < j < |reps| ==> reps[i].start <= reps[j].start
  }

  lemma HeadsAgree<T>(a: seq<T>, b: seq<T>)
    requires a != [] && b != [] && a[0] == b[0] && multiset(a) == multiset(b)
    ensures multiset(a[1..]) == multiset(b[1..])
  {
    TailMultiset(a);
    TailMultiset(b);
  }

  lemma TailMultiset<T>(a: seq<T>)
    requires a != []
    ensures multiset(a[1..]) == multiset(a) - multiset{a[0]}
  {
    assert a == [a[0]] + a[1..];
  }

  /** An overlap-free list of non-empty spans is determined by its elements: any listing of them by
      start is that list. */
  lemma {:induction false} OrderIsForced(a: seq<Replacement>, b: seq<Replacement>, cursor: nat, len: nat)
    requires InOrder(a, cursor, len) && InBounds(a, len) && StartsOrdered(b)
    requires multiset(a) == multiset(b)
    ensures a == b
    decreases |a|
  {
    InOrderBounds(a, cursor, len);
    if a == [] {
      NothingToPermute(a, b);
    } else {
      var j := RemoveHead(a, b);
      assert b[0] in multiset(b);
      var i := FindInMultiset(a, b[0]);
      assert b[0].start <= b[j].start;
      assert i == 0;
      HeadsAgree(a, b);
      OrderIsForced(a[1..], b[1..], a[0].end, len);
    }
  }

  lemma BatchRepsShape(content: string, edits: seq<BatchEdit>)
    ensures StartsOrdered(BatchReps(content, edits)) && InBounds(BatchReps(content, edits), |content|)
    ensures InOrder(BatchReps(content, edits), 0, |content|) ==> PairwiseDisjoint(SortedSpans(content, edits))
  {
    hide SortedSpans, InOrder;
    if InOrder(BatchReps(content, edits), 0, |content|) {
      InOrderBounds(BatchReps(content, edits), 0, |content|);
      var spans, reps := SortedSpans(content, edits), BatchReps(content, edits);
      forall i, j | 0 <= i < j < |spans|
        ensures !Intersect(spans[i], spans[j])
      {
        assert reps[i].end <= reps[j].start;
      }
    }
  }

  /** Reordering the edits changes neither acceptance nor the resulting file. */
  lemma OrderIndependent(content: string, a: seq<BatchEdit>, b: seq<BatchEdit>)
    requires multiset(a) == multiset(b)
    ensures Valid(content, a) <==> Valid(content, b)
    ensures Valid(content, a) && Valid(content, b) ==> BatchResult(content, a) == BatchResult(content, b)
  {
    hide Failures, BatchReps;
    if Valid(content, a) {
      SameReplacements(content, a, b);
    }
    if Valid(content, b) {
      SameReplacements(content, b, a);
    }
  }

  lemma SameReplacements(content: string, a: seq<BatchEdit>, b: seq<BatchEdit>)
    requires multiset(a) == multiset(b) && Valid(content, a)
    ensures Valid(content, b) && BatchReps(content, a) == BatchReps(content, b)
  {
    hide Failures, BatchReps, SortedSpans, Verdict, AllReps, InOrder;
    BatchRepsMultiset(content, a);
    BatchRepsMultiset(content, b);
    AllRepsPermutes(content, a, b);
    BatchRepsShape(content, a);
    BatchRepsShape(content, b);
    ValidInOrder(content, a);
    OrderIsForced(BatchReps(content, a), BatchReps(content, b), 0, |content|);
    ValidIff(content, a);
    ValidIff(content, b);
    forall i | 0 <= i < |b|
      ensures Verdict(content, b[i]).None?
    {
      assert b[i] in multiset(b);
      var j := FindInMultiset(a, b[i]);
    }
  }

  // ----- Sequential reading -----

  /** The single-pass batch is its replacements applied one at a time from right to left. */
  lemma BatchIsRightToLeft(content: string, edits: seq<BatchEdit>)
    requires Valid(content, edits)
    ensures InOrder(BatchReps(content, edits), 0, |content|)
    ensures BatchResult(content, edits) == ApplyRightToLeft(content, BatchReps(content, edits), 0)
  {
    hide Failures, BatchReps, SpliceFrom, ApplyRightToLeft;
    ValidInOrder(content, edits);
    SpliceIsRightToLeft(content, BatchReps(content, edits), 0);
  }

  /** Sizes reported by a successful batch: every byte is accounted for. */
  lemma BatchBytesConserved(env: Env, edits: seq<BatchEdit>, content: string)
    requires BatchOutcomeOf(env, edits, content).BatchDone?
    ensures Valid(content, edits)
    ensures var out := BatchOutcomeOf(env, edits, content).output; var reps := BatchReps(content, edits);
      && InBounds(reps, |content|)
      && out.bytesAfter == Utf8Len(BatchFileAfter(env, edits, content))
      && SpanBytes(content, reps) <= out.bytesBefore
      && out.bytesAfter == out.bytesBefore + TextBytes(reps) - SpanBytes(content, reps)
  {
    hide Failures, BatchReps, InOrder, SpliceFrom, Utf8Len, PerEditCounts;
    ValidInOrder(content, edits);
    BatchRepsShape(content, edits);
    SpliceBytes(content, BatchReps(content, edits), 0);
    assert content[0..] == content;
  }

  // ----- Counts -----

  lemma {:induction false} CountInsert(x: IndexedSpan, s: seq<IndexedSpan>, index: nat)
    ensures CountIndex(Insert(x, s, SpanLe), index) == CountIndex([x] + s, index)
  {
    assert ([x] + s)[1..] == s;
    if !(s == [] || SpanLe(x, s[0])) {
      CountInsert(x, s[1..], index);
      assert ([x] + s[1..])[1..] == s[1..];
      assert Insert(x, s, SpanLe)[1..] == Insert(x, s[1..], SpanLe);
    }
  }

  lemma {:induction false} CountSort(s: seq<IndexedSpan>, index: nat)
    ensures CountIndex(SortBy(s, SpanLe), index) == CountIndex(s, index)
  {
    if s != [] {
      CountSort(s[1..], index);
      var r := SortBy(s[1..], SpanLe);
      CountInsert(s[0], r, index);
      assert ([s[0]] + r)[1..] == r;
    }
  }

  lemma {:induction false} CountAppend(a: seq<IndexedSpan>, b: seq<IndexedSpan>, index: nat)
    ensures CountIndex(a + b, index) == CountIndex(a, index) + CountIndex(b, index)
  {
    if a == [] {
      assert a + b == b;
    } else {
      assert (a + b)[1..] == a[1..] + b;
      CountAppend(a[1..], b, index);
    }
  }

  lemma {:induction false} CountIndexed(reps: seq<Replacement>, n: nat, index: nat)
    ensures CountIndex(Indexed(reps, n), index) == if n == index then |reps| else 0
  {
    if reps != [] {
      CountIndexed(reps[1..], n, index);
      assert Indexed(reps, n)[1..] == Indexed(reps[1..], n);
    }
  }

  lemma {:induction false} CountCollected(content: string, edits: seq<BatchEdit>, n: nat, index: nat)
    requires n <= |edits| && index < |edits|
    ensures CountIndex(Collect(content, edits, n), index) ==
            if n <= index then |EditReps(content, edits[index])| else 0
    decreases |edits| - n
  {
    hide EditReps;
    if n < |edits| {
      CountCollected(content, edits, n + 1, index);
      var here := EditReps(content, edits[n]);
      CountIndexed(here, n, index);
      CountAppend(Indexed(here, n), Collect(content, edits, n + 1), index);
    }
  }

  /** The count the splice loop gathers for an edit is the number of its own replacements. */
  lemma PerEditCountExact(content: string, edits: seq<BatchEdit>, index: nat)
    requires index < |edits|
    ensures CountIndex(SortedSpans(content, edits), index) == |EditReps(content, edits[index])|
  {
    hide EditReps, Collect, SortBy;
    CountSort(Collect(content, edits, 0), index);
    CountCollected(content, edits, 0, index);
  }

  function Sum(s: seq<nat>): nat {
    if s == [] then 0 else s[0] + Sum(s[1..])
  }

  lemma {:induction false} CollectSize(content: string, edits: seq<BatchEdit>, n: nat)
    requires n <= |edits|
    ensures |Collect(content, edits, n)| == Sum(PerEditCounts(content, edits)[n..])
    decreases |edits| - n
  {
    hide EditReps;
    if n < |edits| {
      CollectSize(content, edits, n + 1);
      assert PerEditCounts(content, edits)[n..][1..] == PerEditCounts(content, edits)[n + 1..];
    }
  }

  /** The per-edit counts add up to the number of replacements. */
  lemma CountsAddUp(content: string, edits: seq<BatchEdit>)
    ensures Sum(PerEditCounts(content, edits)) == |BatchReps(content, edits)|
  {
    hide Collect, PerEditCounts;
    CollectSize(content, edits, 0);
    var counts := PerEditCounts(content, edits);
    assert counts[0..] == counts;
  }

  // ----- Spans of one edit -----

  ghost predicate StartsAscend(reps: seq<Replacement>) {
    forall i, j :: 0 <= i < j < |reps| ==> reps[i].start < reps[j].start
  }

  lemma NormStartsAscend(norm: string, want: string, text: string)
    requires want != []
    ensures StartsAscend(NormReps(norm, want, text))
  {
    hide MatchIndices, Trim, StartMap, TrimReps;
    if MatchIndices(norm, want, 0) != [] {
      MatchesAreSound(norm, want, 0);
    } else {
      var reps := TrimReps(norm, want, text);
      forall i, j | 0 <= i < j < |reps|
        ensures reps[i].start < reps[j].start
      {
        TrimRepAt(norm, want, text, i);
        TrimRepAt(norm, want, text, j);
        MatchesAreSound(Trim(norm), Trim(want), 0);
        var ms := MatchIndices(Trim(norm), Trim(want), 0);
        StartMapIncreasing(norm, ms[i], ms[j]);
      }
    }
  }

  lemma RepsStartsAscend(content: string, oldText: string, newText: string)
    requires ReplaceCrlf(oldText) != []
    ensures StartsAscend(Reps(content, oldText, newText))
  {
    hide ReplaceCrlf, NormReps, OriginalOffset;
    var norm := ReplaceCrlf(content);
    var nreps := NormReps(norm, ReplaceCrlf(oldText), newText);
    RepsSound(norm, ReplaceCrlf(oldText), newText);
    NormStartsAscend(norm, ReplaceCrlf(oldText), newText);
    forall i, j | 0 <= i < j < |nreps|
      ensures OriginalOffset(content, nreps[i].start) < OriginalOffset(content, nreps[j].start)
    {
      OffsetStrictlyIncreasing(content, nreps[i].start, nreps[j].start);
    }
  }

  lemma EditStartsAscend(content: string, edit: BatchEdit)
    ensures StartsAscend(EditReps(content, edit))
  {
    hide Reps, ReplaceCrlf;
    if Verdict(content, edit).None? {
      RepsStartsAscend(content, edit.oldText, edit.newText);
    }
  }

  // ----- Which edit is blamed for an overlap -----

  ghost predicate AllDistinct<T>(s: seq<T>) {
    forall i, j :: 0 <= i < j < |s| ==> s[i] != s[j]
  }

  lemma {:induction false} CollectDistinct(content: string, edits: seq<BatchEdit>, n: nat)
    requires n <= |edits|
    ensures AllDistinct(Collect(content, edits, n))
    decreases |edits| - n
  {
    hide EditReps;
    if n < |edits| {
      CollectDistinct(content, edits, n + 1);
      CollectIndices(content, edits, n + 1);
      EditStartsAscend(content, edits[n]);
      var here, later := Indexed(EditReps(content, edits[n]), n), Collect(content, edits, n + 1);
      assert forall i, j :: 0 <= i < j < |here| ==> here[i] != here[j];
      AppendDistinct(here, later);
    }
  }

  lemma AppendDistinct(a: seq<IndexedSpan>, b: seq<IndexedSpan>)
    requires AllDistinct(a) && AllDistinct(b)
    requires forall i, j :: 0 <= i < |a| && 0 <= j < |b| ==> a[i].index != b[j].index
    ensures AllDistinct(a + b)
  {
    var s := a + b;
    forall i, j | 0 <= i < j < |s| ensures s[i] != s[j] {
      if i < |a| <= j {
        assert s[i] == a[i] && s[j] == b[j - |a|];
      }
    }
  }

  lemma {:induction false} DistinctCounts<T>(s: seq<T>, x: T)
    requires AllDistinct(s)
    ensures multiset(s)[x] <= 1
  {
    if s != [] {
      DistinctCounts(s[1..], x);
      assert s == [s[0]] + s[1..];
      if x == s[0] {
        assert x !in s[1..];
      }
    }
  }

  lemma RepeatCounts<T>(s: seq<T>, i: nat, j: nat)
    requires i < j < |s|
    ensures s[i] == s[j] ==> multiset(s)[s[i]] >= 2
  {
    assert s == s[..i] + [s[i]] + (s[i + 1..j] + [s[j]] + s[j + 1..]);
  }

  lemma PermutedDistinct<T>(a: seq<T>, b: seq<T>)
    requires multiset(a) == multiset(b) && AllDistinct(a)
    ensures AllDistinct(b)
  {
    forall i, j | 0 <= i < j < |b| ensures b[i] != b[j] {
      DistinctCounts(a, b[i]);
      RepeatCounts(b, i, j);
    }
  }

  /** `a` comes strictly before `b` in the order of the sorted spans. */
  predicate Before(a: IndexedSpan, b: IndexedSpan) {
    || a.start < b.start
    || (a.start == b.start && a.end < b.end)
    || (a.start == b.start && a.end == b.end && a.index < b.index)
  }

  lemma {:induction false} FlagIff(spans: seq<IndexedSpan>, k: nat, f: BatchFailure)
    requires k <= |spans|
    ensures f in Flags(spans, k) <==>
      exists j :: k <= j < |spans| && OverlapsEarlier(spans, j) && f == BatchFailure(spans[j].index, OverlappingEdits)
    decreases |spans| - k
  {
    hide OverlapsEarlier;
    if k < |spans| {
      FlagIff(spans, k + 1, f);
    }
  }

  /** `sorted` lists the spans of `all`, each strictly before the next. */
  ghost predicate Rearranges(all: seq<IndexedSpan>, sorted: seq<IndexedSpan>) {
    && (forall x :: x in sorted <==> x in all)
    && (forall i, j :: 0 <= i < j < |sorted| ==> Before(sorted[i], sorted[j]))
  }

  lemma SortedRearranges(content: string, edits: seq<BatchEdit>)
    ensures Rearranges(Collect(content, edits, 0), SortedSpans(content, edits))
  {
    hide Collect, SortBy;
    var all, sorted := Collect(content, edits, 0), SortedSpans(content, edits);
    CollectDistinct(content, edits, 0);
    SpanLeIsOrder();
    SortSorted(all, SpanLe);
    SortMultiset(all, SpanLe);
    PermutedDistinct(all, sorted);
    forall x ensures x in sorted <==> x in all {
      assert x in multiset(sorted) <==> x in multiset(all);
    }
  }

  /** Two collected spans intersect, and the later one belongs to the edit. */
  ghost predicate Meets(all: seq<IndexedSpan>, a: IndexedSpan, b: IndexedSpan, index: nat) {
    && a in all && b in all && Before(a, b)
    && a.start < b.end && b.start < a.end && b.index == index
  }

  lemma FlaggedMeets(all: seq<IndexedSpan>, sorted: seq<IndexedSpan>, j: nat)
    requires Rearranges(all, sorted) && j < |sorted| && OverlapsEarlier(sorted, j)
    ensures exists a, b :: Meets(all, a, b, sorted[j].index)
  {
    var i :| 0 <= i < j && Intersect(sorted[i], sorted[j]);
    assert Meets(all, sorted[i], sorted[j], sorted[j].index);
  }

  lemma MeetsIsFlagged(all: seq<IndexedSpan>, sorted: seq<IndexedSpan>, a: IndexedSpan, b: IndexedSpan, index: nat)
    returns (j: nat)
    requires Rearranges(all, sorted) && Meets(all, a, b, index)
    ensures j < |sorted| && OverlapsEarlier(sorted, j) && sorted[j] == b
  {
    assert a in sorted && b in sorted;
    var i: nat :| i < |sorted| && sorted[i] == a;
    j :| 0 <= j < |sorted| && sorted[j] == b;
    assert i < j;
    assert Intersect(sorted[i], sorted[j]);
  }

  /** An edit is blamed for an overlap exactly when one of its spans intersects a span that comes before it
      by start, end and position of the edit. */
  lemma BlamedIff(content: string, edits: seq<BatchEdit>, index: nat)
    ensures BatchFailure(index, OverlappingEdits) in Failures(content, edits) <==>
      exists a, b :: Meets(Collect(content, edits, 0), a, b, index)
  {
    hide Failures, SortedSpans, Collect, Flags, CollectFailures, Verdict, Meets, Rearranges, OverlapsEarlier;
    var all, s, f := Collect(content, edits, 0), SortedSpans(content, edits), BatchFailure(index, OverlappingEdits);
    SortedRearranges(content, edits);
    OverlapReported(content, edits, index);
    FlagIff(s, 0, f);
    if j :| 0 <= j < |s| && OverlapsEarlier(s, j) && s[j].index == index {
      FlaggedMeets(all, s, j);
    }
    if a, b :| Meets(all, a, b, index) {
      var j := MeetsIsFlagged(all, s, a, b, index);
      assert b.index == index by { MeetsIndex(all, a, b, index); }
    }
  }

  lemma MeetsIndex(all: seq<IndexedSpan>, a: IndexedSpan, b: IndexedSpan, index: nat)
    requires Meets(all, a, b, index)
    ensures b.index == index
  {
  }

  lemma OverlapReported(content: string, edits: seq<BatchEdit>, index: nat)
    ensures var f := BatchFailure(index, OverlappingEdits);
      f in Failures(content, edits) <==> f in Flags(SortedSpans(content, edits), 0)
  {
    hide Failures, SortedSpans, Flags, CollectFailures, Verdict;
    var fs, bad, flags := Failures(content, edits), CollectFailures(content, edits, 0), Flags(SortedSpans(content, edits), 0);
    var f := BatchFailure(index, OverlappingEdits);
    FailuresAccount(content, edits);
    NoVerdictOverlaps(content, edits);
    assert f !in bad;
    assert f in fs <==> f in multiset(fs);
    assert f in flags <==> f in multiset(flags);
  }

  lemma NoVerdictOverlaps(content: string, edits: seq<BatchEdit>)
    ensures forall f :: f in CollectFailures(content, edits, 0) ==> f.class_ != OverlappingEdits
  {
    hide Reps, ReplaceCrlf;
    FailuresListed(content, edits, 0);
  }

  // ----- Agreement with the single edit -----

  /** A one-element batch is valid exactly when its edit is and its spans can be spliced; it then
      splices the same replacements. */
  lemma OneEditReps(content: string, edit: BatchEdit)
    ensures Valid(content, [edit]) <==>
      Verdict(content, edit).None? && InOrder(EditReps(content, edit), 0, |content|)
    ensures Valid(content, [edit]) ==> BatchReps(content, [edit]) == EditReps(content, edit)
  {
    hide Failures, BatchReps, SortedSpans, InOrder, Reps, ReplaceCrlf;
    var reps := EditReps(content, edit);
    var batch := BatchReps(content, [edit]);
    AllRepsOne(content, edit);
    BatchRepsMultiset(content, [edit]);
    BatchRepsShape(content, [edit]);
    ValidIff(content, [edit]);
    if Verdict(content, edit).None? {
      RepsStartsAscend(content, edit.oldText, edit.newText);
    }
    if Valid(content, [edit]) {
      ValidInOrder(content, [edit]);
      assert Verdict(content, [edit][0]).None?;
      OrderIsForced(batch, reps, 0, |content|);
    }
    if Verdict(content, edit).None? && InOrder(reps, 0, |content|) {
      OrderIsForced(reps, batch, 0, |content|);
    }
  }

  /** What a batch of one invalid edit reports: that edit's own failure and nothing else. */
  lemma OneInvalidEdit(content: string, edit: BatchEdit)
    requires Verdict(content, edit).Some?
    ensures Failures(content, [edit]) == [BatchFailure(0, Verdict(content, edit).value)]
  {
    hide Verdict;
    assert Collect(content, [edit], 0) == [];
    assert SortedSpans(content, [edit]) == [];
    assert CollectFailures(content, [edit], 0) == [BatchFailure(0, Verdict(content, edit).value)];
  }

  lemma {:induction false} FlagsOfOneEdit(spans: seq<IndexedSpan>, k: nat)
    requires k <= |spans| && forall i :: 0 <= i < |spans| ==> spans[i].index == 0
    ensures forall i :: 0 <= i < |Flags(spans, k)| ==> Flags(spans, k)[i] == BatchFailure(0, OverlappingEdits)
    decreases |spans| - k
  {
    hide OverlapsEarlier;
    if k < |spans| {
      FlagsOfOneEdit(spans, k + 1);
    }
  }

  /** What a batch of one valid edit reports when it fails: overlaps only. */
  lemma OneValidEdit(content: string, edit: BatchEdit)
    requires Verdict(content, edit).None?
    ensures forall k :: 0 <= k < |Failures(content, [edit])| ==>
      Failures(content, [edit])[k] == BatchFailure(0, OverlappingEdits)
  {
    hide Verdict, Failures, SortedSpans, Flags;
    var fs, spans := Failures(content, [edit]), SortedSpans(content, [edit]);
    FailuresAccount(content, [edit]);
    assert CollectFailures(content, [edit], 0) == [];
    assert multiset(fs) == multiset(Flags(spans, 0));
    FlagsOfOneEdit(spans, 0);
    forall k | 0 <= k < |fs| ensures fs[k] == BatchFailure(0, OverlappingEdits) {
      assert fs[k] in multiset(fs);
      var j := FindInMultiset(Flags(spans, 0), fs[k]);
    }
  }

  /** How the batch reports an error of the single edit. */
  function BatchError(e: EditError): EditError {
    match e
    case InvalidParams => BatchValidationFailed([BatchFailure(0, EmptyOldText)])
    case NotFound => BatchValidationFailed([BatchFailure(0, OldTextNotFound)])
    case Ambiguous(_, _) => BatchValidationFailed([BatchFailure(0, AmbiguousMatch)])
    case _ => e
  }

  /** The failures are overlaps of the only edit with itself. */
  predicate OverlapsOnly(failures: seq<BatchFailure>) {
    failures != [] && forall k :: 0 <= k < |failures| ==> failures[k] == BatchFailure(0, OverlappingEdits)
  }

  /** A batch of one edit answers as the single edit does: it writes exactly the same file and reports the
      same sizes, every error has its counterpart, and where the single edit aborts on overlapping spans
      the batch reports them. */
  lemma OneEditBatchAgrees(env: Env, edit: BatchEdit, content: string)
    ensures var q := Request(edit.oldText, edit.newText, edit.replaceAll == Some(true), env);
      var batch := BatchOutcomeOf(env, [edit], content);
      && BatchFileAfter(env, [edit], content) == FileAfter(q, content)
      && match BlockOutcome(q, content)
         case Done(out) =>
           && batch.BatchDone? && batch.output.perEdit == [out.occurrencesReplaced]
           && (batch.output.bytesBefore, batch.output.bytesAfter, batch.output.occurrencesReplaced) ==
              (out.bytesBefore, out.bytesAfter, out.occurrencesReplaced)
         case Failed(e) => batch == BatchFailed(BatchError(e))
         case Panicked =>
           batch.BatchFailed? && batch.error.BatchValidationFailed? && OverlapsOnly(batch.error.failures)
  {
    hide Failures, BatchReps, InOrder, Reps, ReplaceCrlf, SpliceFrom, Utf8Len;
    OneEditReps(content, edit);
    if Verdict(content, edit).Some? {
      OneInvalidEdit(content, edit);
    } else {
      OneValidEdit(content, edit);
    }
  }

  // ----- Laws of the outcome -----

  /** What is wrong with a single edit, in terms of the normalized texts. */
  lemma VerdictIff(content: string, edit: BatchEdit)
    ensures var norm, want, v := ReplaceCrlf(content), ReplaceCrlf(edit.oldText), Verdict(content, edit);
      && (v == Some(EmptyOldText) <==> edit.oldText == [])
      && (v == Some(OldTextNotFound) <==>
            want != [] && if Trim(want) == [] then !Occurs(norm, want) else !HasRegion(norm, Trim(want)))
      && (v == Some(AmbiguousMatch) <==>
            want != [] && |NormReps(norm, want, edit.newText)| >= 2 && edit.replaceAll != Some(true))
      && v != Some(OverlappingEdits)
  {
    hide ReplaceCrlf, NormReps, Trim, Occurs, HasRegion;
    EmptyNormalizesToEmpty(edit.oldText);
    if ReplaceCrlf(edit.oldText) != [] {
      NotFoundIffAbsent(ReplaceCrlf(content), ReplaceCrlf(edit.oldText), edit.newText);
    }
  }

  /** A batch is refused as stale exactly when the file can be read and its hash is not the expected one. */
  lemma BatchStaleIff(env: Env, edits: seq<BatchEdit>, content: string, expected: string, actual: string)
    ensures BatchOutcomeOf(env, edits, content) == BatchFailed(StaleContentHash(expected, actual)) <==>
      && !env.isDirectory && env.readable && env.expectedHash == Some(expected)
      && actual == env.hash(content) && expected != actual
  {
    hide Failures, BatchReps, BatchResult, Utf8Len, PerEditCounts;
    PrecheckExact(env, content);
  }

  /** A batch succeeds exactly when the file can be read and written and is not stale, every edit is valid
      by itself, and no two spans of the batch intersect. Otherwise an acceptable file gets the report of
      all failures. */
  lemma BatchSucceedsIff(env: Env, edits: seq<BatchEdit>, content: string)
    ensures BatchOutcomeOf(env, edits, content).BatchDone? <==>
      && !env.isDirectory && env.readable && env.writable
      && (env.expectedHash == None || env.expectedHash == Some(env.hash(content)))
      && AllAccepted(content, edits)
      && !exists a, b, index :: Meets(Collect(content, edits, 0), a, b, index)
    ensures Precheck(env, content).None? ==>
      (BatchOutcomeOf(env, edits, content) == BatchFailed(BatchValidationFailed(Failures(content, edits))) <==>
       !AllAccepted(content, edits) || exists a, b, index :: Meets(Collect(content, edits, 0), a, b, index))
  {
    hide Failures, BatchReps, BatchResult, Utf8Len, PerEditCounts, SortedSpans, Collect, Verdict, Meets, Rearranges;
    PrecheckExact(env, content);
    ValidIff(content, edits);
    SortedRearranges(content, edits);
    DisjointIff(Collect(content, edits, 0), SortedSpans(content, edits));
  }

  lemma DisjointIff(all: seq<IndexedSpan>, sorted: seq<IndexedSpan>)
    requires Rearranges(all, sorted)
    ensures PairwiseDisjoint(sorted) <==> !exists a, b, index :: Meets(all, a, b, index)
  {
    if a, b, index :| Meets(all, a, b, index) {
      var j := MeetsIsFlagged(all, sorted, a, b, index);
    }
    if !PairwiseDisjoint(sorted) {
      var i, j :| 0 <= i < j < |sorted| && Intersect(sorted[i], sorted[j]);
      FlaggedMeets(all, sorted, j);
    }
  }

  /** A batch that does not succeed leaves the file alone. One that does was allowed to write the file it
      found, reports for each edit the number of its own replacements, and returns a hash that lets the
      caller's next guarded edit of the new file through. */
  lemma BatchChangeIsGuarded(env: Env, edits: seq<BatchEdit>, content: string)
    ensures var batch, after := BatchOutcomeOf(env, edits, content), BatchFileAfter(env, edits, content);
      && (after != content ==> batch.BatchDone?)
      && (batch.BatchDone? ==>
            && !env.isDirectory && env.readable && env.writable
            && (env.expectedHash == None || env.expectedHash == Some(env.hash(content)))
            && InOrder(BatchReps(content, edits), 0, |content|)
            && after == ApplyRightToLeft(content, BatchReps(content, edits), 0)
            && |batch.output.perEdit| == |edits|
            && (forall i :: 0 <= i < |edits| ==>
                  batch.output.perEdit[i] == |EditReps(content, edits[i])| >= 1 &&
                  (edits[i].replaceAll != Some(true) ==> batch.output.perEdit[i] == 1))
            && Precheck(env.(expectedHash := Some(batch.output.contentHash)), after).None?
            && forall q: Request, other ::
                 q.env == env.(expectedHash := Some(batch.output.contentHash)) && env.hash(other) != env.hash(after) ==>
                 FileAfter(q, other) == other)
  {
    hide Failures, BatchReps, BatchResult, Utf8Len, Reps, ReplaceCrlf, SpliceFrom, InOrder, ApplyRightToLeft;
    PrecheckExact(env, content);
    var batch := BatchOutcomeOf(env, edits, content);
    if batch.BatchDone? {
      var after := BatchFileAfter(env, edits, content);
      PrecheckExact(env.(expectedHash := Some(batch.output.contentHash)), after);
      ValidIff(content, edits);
      BatchIsRightToLeft(content, edits);
    }
  }
}

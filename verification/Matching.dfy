/** `str::match_indices`: the leftmost non-overlapping occurrences of a pattern. */
module Matching {

  predicate OccursAt(hay: string, pat: string, i: nat) {
    i + |pat| <= |hay| && hay[i..i + |pat|] == pat
  }

  ghost predicate Occurs(hay: string, pat: string) {
    exists i: nat :: OccursAt(hay, pat, i)
  }

  function MatchIndices(hay: string, pat: string, from: nat): seq<nat>
    requires pat != []
    decreases |hay| - from
  {
    if from + |pat| > |hay| then []
    else if OccursAt(hay, pat, from) then [from] + MatchIndices(hay, pat, from + |pat|)
    else MatchIndices(hay, pat, from + 1)
  }

  lemma MatchStep(hay: string, pat: string, from: nat)
    requires pat != [] && from + |pat| <= |hay|
    ensures MatchIndices(hay, pat, from) ==
      if OccursAt(hay, pat, from) then [from] + MatchIndices(hay, pat, from + |pat|)
      else MatchIndices(hay, pat, from + 1)
  {
  }

  /** Positions at least `gap` apart. */
  predicate Separated(ms: seq<nat>, gap: nat) {
    forall i, j :: 0 <= i < j < |ms| ==> ms[i] + gap <= ms[j]
  }

  lemma {:induction false} MatchesAreSound(hay: string, pat: string, from: nat)
    requires pat != []
    ensures var ms := MatchIndices(hay, pat, from);
      && Separated(ms, |pat|)
      && forall i :: 0 <= i < |ms| ==> ms[i] >= from && OccursAt(hay, pat, ms[i])
    decreases |hay| - from
  {
    hide OccursAt;
    if from + |pat| > |hay| {
    } else if OccursAt(hay, pat, from) {
      MatchesAreSound(hay, pat, from + |pat|);
      var rest := MatchIndices(hay, pat, from + |pat|);
      assert MatchIndices(hay, pat, from) == [from] + rest;
    } else {
      MatchesAreSound(hay, pat, from + 1);
    }
  }

  /** Every occurrence is a reported match or overlaps an earlier reported one. */
  lemma {:induction false} MatchesAreComplete(hay: string, pat: string, from: nat, at: nat) returns (k: nat)
    requires pat != []
    requires from <= at && OccursAt(hay, pat, at)
    ensures var ms := MatchIndices(hay, pat, from);
      k < |ms| && ms[k] <= at < ms[k] + |pat|
    decreases |hay| - from
  {
    if OccursAt(hay, pat, from) {
      if at < from + |pat| {
        k := 0;
      } else {
        k := MatchesAreComplete(hay, pat, from + |pat|, at);
        k := k + 1;
      }
    } else {
      k := MatchesAreComplete(hay, pat, from + 1, at);
    }
  }

  lemma OccursBounds(hay: string, pat: string, i: nat)
    requires OccursAt(hay, pat, i)
    ensures i + |pat| <= |hay|
  {
  }

  lemma OccursInSuffix(hay: string, tail: string, pat: string)
    requires |tail| <= |hay| && hay[|hay| - |tail|..] == tail
    requires pat <= tail
    ensures OccursAt(hay, pat, |hay| - |tail|)
  {
    var i := |hay| - |tail|;
    assert hay[i..i + |pat|] == hay[i..][..|pat|];
  }

  /** There is a match exactly when the pattern occurs somewhere. */
  lemma MatchesIffOccurs(hay: string, pat: string)
    requires pat != []
    ensures MatchIndices(hay, pat, 0) != [] <==> Occurs(hay, pat)
  {
    var ms := MatchIndices(hay, pat, 0);
    MatchesAreSound(hay, pat, 0);
    if ms != [] {
      assert OccursAt(hay, pat, ms[0]);
    }
    if i: nat :| OccursAt(hay, pat, i) {
      var _ := MatchesAreComplete(hay, pat, 0, i);
    }
  }

  /** `str::replace`, character by character. */
  function ReplaceAll(hay: string, pat: string, text: string, from: nat): string
    requires pat != [] && from <= |hay|
    decreases |hay| - from
  {
    if from + |pat| > |hay| then hay[from..]
    else if OccursAt(hay, pat, from) then text + ReplaceAll(hay, pat, text, from + |pat|)
    else [hay[from]] + ReplaceAll(hay, pat, text, from + 1)
  }

  lemma ReplaceStep(hay: string, pat: string, text: string, from: nat)
    requires pat != [] && from <= |hay|
    ensures ReplaceAll(hay, pat, text, from) ==
      if from + |pat| > |hay| then hay[from..]
      else if OccursAt(hay, pat, from) then text + ReplaceAll(hay, pat, text, from + |pat|)
      else [hay[from]] + ReplaceAll(hay, pat, text, from + 1)
  {
  }
}

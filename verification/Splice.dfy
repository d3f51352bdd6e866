/** Splicing replacement texts into a text at a list of spans, in one left-to-right pass. */
module Splice {
  import opened Text
  import opened Crlf

  /** Replace the characters from `start` up to `end` by `text`. */
  datatype Replacement = Replacement(start: nat, end: nat, text: string)

  /** The spans lie in order, without overlap, between `cursor` and `len`. */
  predicate InOrder(reps: seq<Replacement>, cursor: nat, len: nat) {
    if reps == [] then cursor <= len
    else cursor <= reps[0].start <= reps[0].end && InOrder(reps[1..], reps[0].end, len)
  }

  /** The single-pass splice from `cursor` on: unmatched text is copied, each span is replaced. */
  function SpliceFrom(content: string, reps: seq<Replacement>, cursor: nat): string
    requires InOrder(reps, cursor, |content|)
  {
    InOrderBounds(reps, cursor, |content|);
    if reps == [] then content[cursor..]
    else content[cursor..reps[0].start] + (reps[0].text + SpliceFrom(content, reps[1..], reps[0].end))
  }

  lemma SpliceStep(content: string, reps: seq<Replacement>, cursor: nat)
    requires InOrder(reps, cursor, |content|)
    ensures cursor <= |content|
    ensures reps == [] ==> SpliceFrom(content, reps, cursor) == content[cursor..]
    ensures reps != [] ==>
      var r := reps[0];
      && cursor <= r.start <= r.end <= |content| && InOrder(reps[1..], r.end, |content|)
      && SpliceFrom(content, reps, cursor) ==
         content[cursor..r.start] + (r.text + SpliceFrom(content, reps[1..], r.end))
  {
    InOrderBounds(reps, cursor, |content|);
  }

  lemma InOrderStep(reps: seq<Replacement>, cursor: nat, len: nat)
    requires reps != []
    ensures InOrder(reps, cursor, len) <==>
      cursor <= reps[0].start <= reps[0].end && InOrder(reps[1..], reps[0].end, len)
  {
  }

  lemma {:induction false} InOrderBounds(reps: seq<Replacement>, cursor: nat, len: nat)
    requires InOrder(reps, cursor, len)
    ensures cursor <= len
    ensures forall i :: 0 <= i < |reps| ==> cursor <= reps[i].start <= reps[i].end <= len
    ensures forall i, j :: 0 <= i < j < |reps| ==> reps[i].end <= reps[j].start
  {
    if reps != [] {
      InOrderBounds(reps[1..], reps[0].end, len);
      assert forall i :: 0 < i < |reps| ==> reps[i] == reps[1..][i - 1];
    }
  }

  lemma {:induction false} InOrderIntro(reps: seq<Replacement>, cursor: nat, len: nat)
    requires cursor <= len
    requires forall i :: 0 <= i < |reps| ==> cursor <= reps[i].start <= reps[i].end <= len
    requires forall i, j :: 0 <= i < j < |reps| ==> reps[i].end <= reps[j].start
    ensures InOrder(reps, cursor, len)
  {
    if reps != [] {
      InOrderIntro(reps[1..], reps[0].end, len);
    }
  }

  lemma {:induction false} InOrderFromNeighbours(reps: seq<Replacement>, cursor: nat, len: nat)
    requires cursor <= len && (reps != [] ==> cursor <= reps[0].start)
    requires forall i :: 0 <= i < |reps| ==> reps[i].start <= reps[i].end <= len
    requires forall i :: 0 <= i < |reps| - 1 ==> reps[i].end <= reps[i + 1].start
    ensures InOrder(reps, cursor, len)
  {
    if reps != [] {
      assert forall i :: 0 <= i < |reps[1..]| ==> reps[1..][i] == reps[i + 1];
      InOrderFromNeighbours(reps[1..], reps[0].end, len);
    }
  }

  lemma InOrderEmpty(cursor: nat, len: nat)
    ensures InOrder([], cursor, len) <==> cursor <= len
  {
  }

  /** The splice loop. It slices `content[lastEnd..start]` at every span; `ok` is false when such
      a slice is out of order, where the program aborts. */
  method SpliceLoop(content: string, reps: seq<Replacement>) returns (ok: bool, result: string)
    requires forall i :: 0 <= i < |reps| ==> reps[i].start <= reps[i].end <= |content|
    ensures ok == InOrder(reps, 0, |content|)
    ensures ok ==> result == SpliceFrom(content, reps, 0)
  {
    hide InOrder, SpliceFrom;
    result := [];
    var lastEnd: nat := 0;
    assert reps[0..] == reps;
    for k := 0 to |reps|
      invariant lastEnd <= |content|
      invariant InOrder(reps[k..], lastEnd, |content|) == InOrder(reps, 0, |content|)
      invariant InOrder(reps, 0, |content|) ==>
        result + SpliceFrom(content, reps[k..], lastEnd) == SpliceFrom(content, reps, 0)
    {
      ghost var rest := reps[k..];
      assert rest[0] == reps[k] && rest[1..] == reps[k + 1..];
      InOrderStep(rest, lastEnd, |content|);
      if lastEnd > reps[k].start {
        return false, [];
      }
      if InOrder(reps, 0, |content|) {
        SpliceStep(content, rest, lastEnd);
      }
      result := result + content[lastEnd..reps[k].start];
      result := result + reps[k].text;
      lastEnd := reps[k].end;
    }
    assert reps[|reps|..] == [];
    InOrderEmpty(lastEnd, |content|);
    SpliceStep(content, [], lastEnd);
    result := result + content[lastEnd..];
    ok := true;
  }

  // ----- Sizes -----

  function TextBytes(reps: seq<Replacement>): nat {
    if reps == [] then 0 else Utf8Len(reps[0].text) + TextBytes(reps[1..])
  }

  function SpanBytes(content: string, reps: seq<Replacement>): nat
    requires forall i :: 0 <= i < |reps| ==> reps[i].start <= reps[i].end <= |content|
  {
    if reps == [] then 0
    else Utf8Len(content[reps[0].start..reps[0].end]) + SpanBytes(content, reps[1..])
  }

  /** Bytes are conserved: what is removed plus what remains plus what is added. In
      particular the removed bytes never exceed the bytes there were. */
  lemma {:induction false} SpliceBytes(content: string, reps: seq<Replacement>, cursor: nat)
    requires InOrder(reps, cursor, |content|)
    requires forall i :: 0 <= i < |reps| ==> reps[i].start <= reps[i].end <= |content|
    ensures cursor <= |content|
    ensures SpanBytes(content, reps) <= Utf8Len(content[cursor..])
    ensures Utf8Len(SpliceFrom(content, reps, cursor)) ==
            Utf8Len(content[cursor..]) + TextBytes(reps) - SpanBytes(content, reps)
  {
    hide Utf8Len, InOrder, SpliceFrom;
    SpliceStep(content, reps, cursor);
    if reps != [] {
      var r, tail := reps[0], SpliceFrom(content, reps[1..], reps[0].end);
      SpliceBytes(content, reps[1..], r.end);
      Utf8LenConcat(content[cursor..r.start], r.text + tail);
      Utf8LenConcat(r.text, tail);
      ThreeParts(content, cursor, r.start, r.end);
    }
  }

  lemma ThreeParts(s: string, a: nat, b: nat, c: nat)
    requires a <= b <= c <= |s|
    ensures Utf8Len(s[a..]) == Utf8Len(s[a..b]) + Utf8Len(s[b..c]) + Utf8Len(s[c..])
  {
    hide Utf8Len;
    assert s[a..] == s[a..b] + s[b..];
    Utf8LenConcat(s[a..b], s[b..]);
    assert s[b..] == s[b..c] + s[c..];
    Utf8LenConcat(s[b..c], s[c..]);
  }

  // ----- What stays and where -----

  /** How far the splice moves the text at position `p`: the growth of the spans that end at or before it. */
  function Shift(reps: seq<Replacement>, p: nat): int {
    if reps == [] then 0
    else (if reps[0].end <= p then |reps[0].text| - (reps[0].end - reps[0].start) else 0) + Shift(reps[1..], p)
  }

  predicate Outside(reps: seq<Replacement>, p: nat) {
    forall i :: 0 <= i < |reps| ==> p < reps[i].start || reps[i].end <= p
  }

  lemma {:induction false} NoShiftBefore(reps: seq<Replacement>, cursor: nat, len: nat, p: nat)
    requires InOrder(reps, cursor, len)
    requires reps != [] ==> p < reps[0].end
    ensures Shift(reps, p) == 0
  {
    if reps != [] {
      InOrderBounds(reps, cursor, len);
      if |reps| > 1 {
        assert reps[1..][0] == reps[1];
      }
      NoShiftBefore(reps[1..], reps[0].end, len, p);
    }
  }

  /** Every character outside the spans survives, at its shifted place. */
  lemma {:induction false} OutsideUnchanged(content: string, reps: seq<Replacement>, cursor: nat, p: nat)
    requires InOrder(reps, cursor, |content|)
    requires forall i :: 0 <= i < |reps| ==> reps[i].start < reps[i].end
    requires cursor <= p < |content| && Outside(reps, p)
    ensures var at := p - cursor + Shift(reps, p);
      && 0 <= at < |SpliceFrom(content, reps, cursor)|
      && SpliceFrom(content, reps, cursor)[at] == content[p]
  {
    hide InOrder, SpliceFrom;
    SpliceStep(content, reps, cursor);
    if reps != [] {
      var r, rest := reps[0], reps[1..];
      var tail := SpliceFrom(content, rest, r.end);
      if p < r.start {
        NoShiftBefore(reps, cursor, |content|, p);
      } else {
        assert forall i :: 0 <= i < |rest| ==> rest[i] == reps[i + 1];
        OutsideUnchanged(content, rest, r.end, p);
        var front := content[cursor..r.start] + r.text;
        assert front + tail == content[cursor..r.start] + (r.text + tail);
      }
    }
  }

  lemma SliceOfAppend(a: string, b: string, at: nat, n: nat)
    requires at + n <= |b|
    ensures (a + b)[|a| + at..|a| + at + n] == b[at..at + n]
  {
  }

  /** Every replacement text appears in the result at the shifted start of its span. */
  lemma {:induction false} TextInserted(content: string, reps: seq<Replacement>, cursor: nat, k: nat)
    requires InOrder(reps, cursor, |content|)
    requires k < |reps| && reps[k].start < reps[k].end
    ensures var at := reps[k].start - cursor + Shift(reps, reps[k].start);
      && 0 <= at && at + |reps[k].text| <= |SpliceFrom(content, reps, cursor)|
      && SpliceFrom(content, reps, cursor)[at..at + |reps[k].text|] == reps[k].text
  {
    hide InOrder, SpliceFrom;
    InOrderBounds(reps, cursor, |content|);
    SpliceStep(content, reps, cursor);
    var r, rest, text := reps[0], reps[1..], reps[k].text;
    var tail := SpliceFrom(content, rest, r.end);
    var front := content[cursor..r.start];
    if k == 0 {
      hide Shift;
      NoShiftBefore(reps, cursor, |content|, r.start);
      assert front + (text + tail) == (front + text) + tail;
    } else {
      assert rest[k - 1] == reps[k];
      TextInserted(content, rest, r.end, k - 1);
      var at := reps[k].start - r.end + Shift(rest, reps[k].start);
      assert front + (r.text + tail) == (front + r.text) + tail;
      SliceOfAppend(front + r.text, tail, at, |text|);
    }
  }

  // ----- One replacement at a time, from right to left -----

  function ApplyOne(s: string, r: Replacement): string
    requires r.start <= r.end <= |s|
  {
    s[..r.start] + r.text + s[r.end..]
  }

  /** The later replacements are applied first, so earlier offsets stay valid. */
  function ApplyRightToLeft(content: string, reps: seq<Replacement>, cursor: nat): (s: string)
    requires InOrder(reps, cursor, |content|)
    ensures |s| >= cursor && cursor <= |content| && s[..cursor] == content[..cursor]
  {
    InOrderBounds(reps, cursor, |content|);
    if reps == [] then content
    else
      var s := ApplyRightToLeft(content, reps[1..], reps[0].end);
      assert s[..reps[0].end][..reps[0].start] == s[..reps[0].start];
      ApplyOne(s, reps[0])
  }

  lemma {:induction false} SpliceIsRightToLeft(content: string, reps: seq<Replacement>, cursor: nat)
    requires InOrder(reps, cursor, |content|)
    ensures cursor <= |content|
    ensures content[..cursor] + SpliceFrom(content, reps, cursor) == ApplyRightToLeft(content, reps, cursor)
  {
    hide SpliceFrom, InOrder;
    SpliceStep(content, reps, cursor);
    if reps == [] {
      assert content[..cursor] + content[cursor..] == content;
    } else {
      var r, tail := reps[0], SpliceFrom(content, reps[1..], reps[0].end);
      SpliceIsRightToLeft(content, reps[1..], r.end);
      OneReplacement(content, r, tail, cursor);
    }
  }

  lemma OneReplacement(content: string, r: Replacement, tail: string, cursor: nat)
    requires cursor <= r.start <= r.end <= |content|
    ensures content[..cursor] + (content[cursor..r.start] + (r.text + tail)) ==
            ApplyOne(content[..r.end] + tail, r)
  {
    var s := content[..r.end] + tail;
    assert s[..r.start] == content[..cursor] + content[cursor..r.start];
    assert s[r.end..] == tail;
  }

  // ----- Splicing and CRLF normalization -----

  /** Move the spans of normalized coordinates to original coordinates. */
  function ToOriginal(content: string, reps: seq<Replacement>): (r: seq<Replacement>)
    requires forall i :: 0 <= i < |reps| ==> reps[i].start <= |ReplaceCrlf(content)| && reps[i].end <= |ReplaceCrlf(content)|
    ensures |r| == |reps|
    ensures forall i :: 0 <= i < |reps| ==>
      r[i] == Replacement(OriginalOffset(content, reps[i].start), OriginalOffset(content, reps[i].end), reps[i].text)
  {
    seq(|reps|, i requires 0 <= i < |reps| =>
      Replacement(OriginalOffset(content, reps[i].start), OriginalOffset(content, reps[i].end), reps[i].text))
  }

  /** The replacement texts normalized. */
  function NormalizeTexts(reps: seq<Replacement>): (r: seq<Replacement>)
    ensures |r| == |reps|
    ensures forall i :: 0 <= i < |reps| ==> r[i] == reps[i].(text := ReplaceCrlf(reps[i].text))
  {
    seq(|reps|, i requires 0 <= i < |reps| => reps[i].(text := ReplaceCrlf(reps[i].text)))
  }

  lemma OffsetMonotone(s: string, j: nat, k: nat)
    requires j <= k <= |ReplaceCrlf(s)|
    ensures OriginalOffset(s, j) <= OriginalOffset(s, k)
  {
    if j < k {
      OffsetStrictlyIncreasing(s, j, k);
    }
  }

  lemma ToOriginalInOrder(content: string, reps: seq<Replacement>, cursor: nat)
    requires InOrder(reps, cursor, |ReplaceCrlf(content)|)
    ensures cursor <= |ReplaceCrlf(content)|
    ensures forall i :: 0 <= i < |reps| ==> reps[i].start <= |ReplaceCrlf(content)| && reps[i].end <= |ReplaceCrlf(content)|
    ensures InOrder(ToOriginal(content, reps), OriginalOffset(content, cursor), |content|)
  {
    hide ReplaceCrlf, OriginalOffset, InOrder;
    InOrderBounds(reps, cursor, |ReplaceCrlf(content)|);
    var mapped := ToOriginal(content, reps);
    forall i | 0 <= i < |reps|
      ensures OriginalOffset(content, cursor) <= mapped[i].start <= mapped[i].end <= |content|
    {
      OffsetMonotone(content, cursor, reps[i].start);
      OffsetMonotone(content, reps[i].start, reps[i].end);
    }
    forall i, j | 0 <= i < j < |reps|
      ensures mapped[i].end <= mapped[j].start
    {
      OffsetMonotone(content, reps[i].end, reps[j].start);
    }
    InOrderIntro(mapped, OriginalOffset(content, cursor), |content|);
  }

  lemma NormalizeTextsInOrder(reps: seq<Replacement>, cursor: nat, len: nat)
    requires InOrder(reps, cursor, len)
    ensures InOrder(NormalizeTexts(reps), cursor, len)
  {
    hide ReplaceCrlf, InOrder;
    InOrderBounds(reps, cursor, len);
    InOrderIntro(NormalizeTexts(reps), cursor, len);
  }

  /** Number of CRLF pairs that the joins of a splice create. */
  function SeamCount(content: string, reps: seq<Replacement>, cursor: nat): nat
    requires InOrder(reps, cursor, |content|)
  {
    InOrderBounds(reps, cursor, |content|);
    if reps == [] then 0
    else
      var tail := SpliceFrom(content, reps[1..], reps[0].end);
      (if Seam(content[cursor..reps[0].start], reps[0].text + tail) then 1 else 0) +
      (if Seam(reps[0].text, tail) then 1 else 0) +
      SeamCount(content, reps[1..], reps[0].end)
  }

  lemma JoinThree(a: string, b: string, c: string)
    ensures !Seam(b, c) && !Seam(a, b + c) ==>
      ReplaceCrlf(a + (b + c)) == ReplaceCrlf(a) + (ReplaceCrlf(b) + ReplaceCrlf(c))
    ensures |ReplaceCrlf(a + (b + c))| + (if Seam(a, b + c) then 1 else 0) + (if Seam(b, c) then 1 else 0) ==
      |ReplaceCrlf(a)| + |ReplaceCrlf(b)| + |ReplaceCrlf(c)|
  {
    hide ReplaceCrlf;
    if Seam(b, c) {
      SeamLosesOne(b, c);
    } else {
      ReplaceCrlfConcat(b, c);
    }
    if Seam(a, b + c) {
      SeamLosesOne(a, b + c);
    } else {
      ReplaceCrlfConcat(a, b + c);
    }
  }

  /** Splicing in original coordinates and then normalizing, against splicing the normalized
      text: the two differ by exactly the CRLF pairs formed at the joins. */
  lemma {:induction false} SpliceVersusNormalize(content: string, reps: seq<Replacement>, cursor: nat)
    requires InOrder(reps, cursor, |ReplaceCrlf(content)|)
    requires forall i :: 0 <= i < |reps| ==> reps[i].start <= |ReplaceCrlf(content)| && reps[i].end <= |ReplaceCrlf(content)|
    requires cursor <= |ReplaceCrlf(content)|
    requires InOrder(ToOriginal(content, reps), OriginalOffset(content, cursor), |content|)
    requires InOrder(NormalizeTexts(reps), cursor, |ReplaceCrlf(content)|)
    ensures var raw := SpliceFrom(content, ToOriginal(content, reps), OriginalOffset(content, cursor));
      var clean := SpliceFrom(ReplaceCrlf(content), NormalizeTexts(reps), cursor);
      var seams := SeamCount(content, ToOriginal(content, reps), OriginalOffset(content, cursor));
      && |ReplaceCrlf(raw)| + seams == |clean|
      && (seams == 0 ==> ReplaceCrlf(raw) == clean)
    decreases |reps|
  {
    hide ReplaceCrlf, OriginalOffset;
    var o := OriginalOffset(content, cursor);
    if reps == [] {
      CutCommutes(content, cursor);
    } else {
      var r, rest := reps[0], reps[1..];
      var os := ToOriginal(content, reps);
      assert os[1..] == ToOriginal(content, rest);
      assert NormalizeTexts(reps)[1..] == NormalizeTexts(rest);
      SpliceVersusNormalize(content, rest, r.end);
      SliceCommutes(content, cursor, r.start);
      var tail := SpliceFrom(content, os[1..], os[0].end);
      JoinThree(content[o..os[0].start], r.text, tail);
    }
  }

  /** A mapped offset never falls between the CR and the NL of a pair. */
  lemma {:induction false} OffsetNeverSplitsPair(s: string, k: nat)
    requires k <= |ReplaceCrlf(s)|
    ensures var o := OriginalOffset(s, k); 0 < o < |s| ==> !(s[o - 1] == CR && s[o] == NL)
  {
    hide ReplaceCrlf, OriginalOffset;
    if k > 0 {
      HeadStep(s, k);
      var w := HeadWidth(s);
      var t := s[w..];
      OffsetNeverSplitsPair(t, k - 1);
      var o := OriginalOffset(t, k - 1);
      if o > 0 {
        assert t[o - 1] == s[w + o - 1];
      }
      if o < |t| {
        assert t[o] == s[w + o];
      }
    }
  }

  /** Without lone CRs in the file and without a CR at the end of a replacement, no join forms a pair. */
  lemma {:induction false} NoSeams(content: string, reps: seq<Replacement>, cursor: nat)
    requires NoLoneCr(content)
    requires InOrder(reps, cursor, |content|)
    requires forall i :: 0 <= i < |reps| ==>
      && (reps[i].text != [] ==> reps[i].text[|reps[i].text| - 1] != CR)
      && (0 < reps[i].start < |content| ==> !(content[reps[i].start - 1] == CR && content[reps[i].start] == NL))
    ensures SeamCount(content, reps, cursor) == 0
  {
    if reps != [] {
      InOrderBounds(reps, cursor, |content|);
      NoSeams(content, reps[1..], reps[0].end);
    }
  }

  /** Replacement commutes with normalization: normalizing the spliced file is splicing the
      normalized file, exactly when the joins form no CRLF; they form none when the file has
      no lone CR and no replacement text ends in CR. */
  lemma SpliceCommutesWithNormalize(content: string, reps: seq<Replacement>)
    requires InOrder(reps, 0, |ReplaceCrlf(content)|)
    ensures forall i :: 0 <= i < |reps| ==> reps[i].start <= |ReplaceCrlf(content)| && reps[i].end <= |ReplaceCrlf(content)|
    ensures InOrder(ToOriginal(content, reps), 0, |content|)
    ensures InOrder(NormalizeTexts(reps), 0, |ReplaceCrlf(content)|)
    ensures ReplaceCrlf(SpliceFrom(content, ToOriginal(content, reps), 0)) ==
            SpliceFrom(ReplaceCrlf(content), NormalizeTexts(reps), 0) <==>
            SeamCount(content, ToOriginal(content, reps), 0) == 0
    ensures NoLoneCr(content) && (forall i :: 0 <= i < |reps| ==>
              reps[i].text != [] ==> reps[i].text[|reps[i].text| - 1] != CR) ==>
            SeamCount(content, ToOriginal(content, reps), 0) == 0
  {
    hide ReplaceCrlf, SpliceFrom, SeamCount, InOrder;
    ToOriginalInOrder(content, reps, 0);
    NormalizeTextsInOrder(reps, 0, |ReplaceCrlf(content)|);
    SpliceVersusNormalize(content, reps, 0);
    if NoLoneCr(content) && forall i :: 0 <= i < |reps| ==> reps[i].text != [] ==> reps[i].text[|reps[i].text| - 1] != CR {
      forall i | 0 <= i < |reps| {
        OffsetNeverSplitsPair(content, reps[i].start);
      }
      NoSeams(content, ToOriginal(content, reps), 0);
    }
  }
}

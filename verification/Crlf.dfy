/** CRLF normalization and the map from normalized offsets back to original offsets. */
module Crlf {
  import opened Text
  import opened Matching

  predicate StartsWithCrlf(s: string) {
    |s| >= 2 && s[0] == CR && s[1] == NL
  }

  /** Number of original characters that make up the first normalized character. */
  function HeadWidth(s: string): (w: nat)
    requires s != []
    ensures 1 <= w <= |s|
  {
    if StartsWithCrlf(s) then 2 else 1
  }

  function HeadChar(s: string): char
    requires s != []
  {
    if StartsWithCrlf(s) then NL else s[0]
  }

  /** `s.replace("\r\n", "\n")`. */
  function ReplaceCrlf(s: string): (r: string)
    ensures |r| <= |s|
  {
    if s == [] then [] else [HeadChar(s)] + ReplaceCrlf(s[HeadWidth(s)..])
  }

  /** `normalize_for_match`: the text itself when it holds no CR at all. */
  function Normalize(s: string): string {
    if CR !in s then s else ReplaceCrlf(s)
  }

  /** The borrowing fast path is invisible: `Normalize` always replaces exactly the CRLF pairs. */
  lemma {:induction false} NormalizeIsReplaceCrlf(s: string)
    ensures Normalize(s) == ReplaceCrlf(s) == ReplaceAll(s, [CR, NL], [NL], 0)
  {
    ReplaceCrlfIsReplaceAll(s);
    if CR !in s {
      NoCrUnchanged(s);
    }
  }

  lemma CrlfStep(s: string)
    ensures ReplaceCrlf(s) == if s == [] then [] else [HeadChar(s)] + ReplaceCrlf(s[HeadWidth(s)..])
  {
  }

  lemma CrlfAt(s: string, from: nat)
    requires from + 2 <= |s|
    ensures OccursAt(s, [CR, NL], from) <==> StartsWithCrlf(s[from..])
  {
    assert s[from..from + 2] == [s[from], s[from + 1]];
  }

  lemma {:induction false} ReplaceFrom(s: string, from: nat)
    requires from <= |s|
    ensures ReplaceAll(s, [CR, NL], [NL], from) == ReplaceCrlf(s[from..])
    decreases |s| - from
  {
    hide ReplaceAll, ReplaceCrlf, OccursAt;
    var t := s[from..];
    ReplaceStep(s, [CR, NL], [NL], from);
    CrlfStep(t);
    if from + 2 > |s| {
      if t != [] {
        assert t[1..] == [];
        CrlfStep([]);
      }
    } else {
      CrlfAt(s, from);
      var w := HeadWidth(t);
      assert t[w..] == s[from + w..];
      ReplaceFrom(s, from + w);
    }
  }

  /** `ReplaceCrlf` is the library's replacement of every "\r\n" by "\n". */
  lemma ReplaceCrlfIsReplaceAll(s: string)
    ensures ReplaceCrlf(s) == ReplaceAll(s, [CR, NL], [NL], 0)
  {
    ReplaceFrom(s, 0);
    assert s[0..] == s;
  }

  lemma {:induction false} NoCrUnchanged(s: string)
    requires CR !in s
    ensures ReplaceCrlf(s) == s
  {
    if s != [] {
      NoCrUnchanged(s[1..]);
    }
  }

  // ----- The table of CRLF positions -----

  /** Normalized offsets of the newlines that stand for a CRLF, when `s` starts at normalized offset `base`. */
  function CrlfPositions(s: string, base: nat): seq<nat> {
    if s == [] then []
    else if StartsWithCrlf(s) then [base] + CrlfPositions(s[2..], base + 1)
    else CrlfPositions(s[1..], base + 1)
  }

  /** `build_crlf_positions`. */
  method BuildCrlfPositions(original: string) returns (positions: seq<nat>)
    ensures positions == CrlfPositions(original, 0)
  {
    positions := [];
    var normPos := 0;
    var i := 0;
    while i < |original|
      invariant 0 <= i <= |original|
      invariant positions + CrlfPositions(original[i..], normPos) == CrlfPositions(original, 0)
    {
      if original[i] == CR && i + 1 < |original| && original[i + 1] == NL {
        assert original[i..][2..] == original[i + 2..];
        positions := positions + [normPos];
        normPos := normPos + 1;
        i := i + 2;
      } else {
        assert original[i..][1..] == original[i + 1..];
        normPos := normPos + 1;
        i := i + 1;
      }
    }
  }

  /** Length of the longest prefix of `s` whose elements are all below `bound`:
      `s.partition_point(|&x| x < bound)` for a sorted `s`. */
  function CountBelow(s: seq<nat>, bound: nat): (n: nat)
    ensures n <= |s|
    ensures forall i :: 0 <= i < n ==> s[i] < bound
    ensures n < |s| ==> s[n] >= bound
  {
    if s == [] || s[0] >= bound then 0 else 1 + CountBelow(s[1..], bound)
  }

  predicate StrictlyIncreasing(s: seq<nat>) {
    forall i, j :: 0 <= i < j < |s| ==> s[i] < s[j]
  }

  lemma {:induction false} CrlfPositionsSorted(s: string, base: nat)
    ensures StrictlyIncreasing(CrlfPositions(s, base))
    ensures forall x :: x in CrlfPositions(s, base) ==> x >= base
  {
    if s == [] {
    } else if StartsWithCrlf(s) {
      CrlfPositionsSorted(s[2..], base + 1);
      var t := CrlfPositions(s[2..], base + 1);
      assert forall j :: 0 <= j < |t| ==> t[j] in t;
    } else {
      CrlfPositionsSorted(s[1..], base + 1);
    }
  }

  /** The binary search has a well-defined answer: the table is partitioned by every bound. */
  lemma PartitionPointIsExact(s: string, bound: nat)
    ensures var t := CrlfPositions(s, 0);
      forall i :: 0 <= i < |t| ==> (t[i] < bound <==> i < CountBelow(t, bound))
  {
    CrlfPositionsSorted(s, 0);
    var t := CrlfPositions(s, 0);
    var n := CountBelow(t, bound);
    if n < |t| {
      assert forall i :: n <= i < |t| ==> t[i] >= t[n];
    }
  }

  /** `norm_to_original_offset`. */
  function NormToOriginal(k: nat, positions: seq<nat>): nat {
    if positions == [] then k else k + CountBelow(positions, k)
  }

  // ----- Reference definition of the map and its laws -----

  /** Number of original characters that the first `k` normalized characters stand for. */
  function OriginalOffset(s: string, k: nat): (o: nat)
    requires k <= |ReplaceCrlf(s)|
    ensures k <= o <= |s|
    ensures k == 0 ==> o == 0
  {
    if k == 0 then 0 else HeadWidth(s) + OriginalOffset(s[HeadWidth(s)..], k - 1)
  }

  /** One step of normalization and of the map. */
  lemma HeadStep(s: string, k: nat)
    requires 0 < k <= |ReplaceCrlf(s)|
    ensures s != []
    ensures var t := s[HeadWidth(s)..];
      && ReplaceCrlf(s) == [HeadChar(s)] + ReplaceCrlf(t)
      && OriginalOffset(s, k) == HeadWidth(s) + OriginalOffset(t, k - 1)
  {
  }

  lemma {:induction false} CountBelowIsOffset(s: string, base: nat, k: nat)
    requires k <= |ReplaceCrlf(s)|
    ensures k + CountBelow(CrlfPositions(s, base), base + k) == OriginalOffset(s, k)
  {
    hide ReplaceCrlf, OriginalOffset;
    CrlfPositionsSorted(s, base);
    var t := CrlfPositions(s, base);
    if k == 0 {
      assert t != [] ==> t[0] in t;
    } else {
      HeadStep(s, k);
      var rest := s[HeadWidth(s)..];
      CountBelowIsOffset(rest, base + 1, k - 1);
      assert base + 1 + (k - 1) == base + k;
      if StartsWithCrlf(s) {
        assert t[1..] == CrlfPositions(rest, base + 1);
      }
    }
  }

  /** The table lookup computes the reference map. */
  lemma NormToOriginalIsOffset(s: string, k: nat)
    requires k <= |ReplaceCrlf(s)|
    ensures NormToOriginal(k, CrlfPositions(s, 0)) == OriginalOffset(s, k)
  {
    CountBelowIsOffset(s, 0, k);
  }

  lemma {:induction false} CutSuffix(s: string, k: nat)
    requires k <= |ReplaceCrlf(s)|
    ensures ReplaceCrlf(s[OriginalOffset(s, k)..]) == ReplaceCrlf(s)[k..]
  {
    hide ReplaceCrlf, OriginalOffset;
    if k == 0 {
      assert s[0..] == s;
    } else {
      HeadStep(s, k);
      var w := HeadWidth(s);
      var t := s[w..];
      var o := OriginalOffset(t, k - 1);
      CutSuffix(t, k - 1);
      assert s[w + o..] == t[o..];
    }
  }

  lemma {:induction false} CutPrefix(s: string, k: nat)
    requires k <= |ReplaceCrlf(s)|
    ensures ReplaceCrlf(s[..OriginalOffset(s, k)]) == ReplaceCrlf(s)[..k]
  {
    hide ReplaceCrlf, OriginalOffset;
    if k == 0 {
      CrlfStep([]);
    } else {
      HeadStep(s, k);
      var w := HeadWidth(s);
      var t := s[w..];
      var x := s[..w + OriginalOffset(t, k - 1)];
      CutPrefix(t, k - 1);
      assert x[w..] == t[..OriginalOffset(t, k - 1)];
      PrefixStep(x, HeadChar(s), w);
    }
  }

  lemma PrefixStep(x: string, c: char, w: nat)
    requires x != [] && HeadWidth(x) == w && HeadChar(x) == c
    ensures ReplaceCrlf(x) == [c] + ReplaceCrlf(x[w..])
  {
  }

  /** Cutting the original at a mapped offset cuts the normalized text at that offset. */
  lemma CutCommutes(s: string, k: nat)
    requires k <= |ReplaceCrlf(s)|
    ensures var o := OriginalOffset(s, k);
      && ReplaceCrlf(s[..o]) == ReplaceCrlf(s)[..k]
      && ReplaceCrlf(s[o..]) == ReplaceCrlf(s)[k..]
  {
    CutPrefix(s, k);
    CutSuffix(s, k);
  }

  lemma {:induction false} OffsetStrictlyIncreasing(s: string, j: nat, k: nat)
    requires j < k <= |ReplaceCrlf(s)|
    ensures OriginalOffset(s, j) < OriginalOffset(s, k)
  {
    if j > 0 {
      OffsetStrictlyIncreasing(s[HeadWidth(s)..], j - 1, k - 1);
    }
  }

  lemma {:induction false} OffsetOfEnd(s: string)
    ensures OriginalOffset(s, |ReplaceCrlf(s)|) == |s|
  {
    if s != [] {
      OffsetOfEnd(s[HeadWidth(s)..]);
    }
  }

  lemma {:induction false} OffsetInPrefix(s: string, j: nat, k: nat)
    requires j <= k <= |ReplaceCrlf(s)|
    requires j <= |ReplaceCrlf(s[..OriginalOffset(s, k)])|
    ensures OriginalOffset(s[..OriginalOffset(s, k)], j) == OriginalOffset(s, j)
  {
    hide ReplaceCrlf, OriginalOffset;
    if j > 0 {
      HeadStep(s, k);
      HeadStep(s, j);
      var w := HeadWidth(s);
      var t := s[w..];
      var e := OriginalOffset(t, k - 1);
      var x := s[..w + e];
      assert x[w..] == t[..e];
      assert HeadWidth(x) == w;
      HeadStep(x, j);
      OffsetInPrefix(t, j - 1, k - 1);
    }
  }

  /** Any region of the normalized text is the normalization of the mapped region of the original. */
  lemma SliceCommutes(s: string, j: nat, k: nat)
    requires j <= k <= |ReplaceCrlf(s)|
    ensures OriginalOffset(s, j) <= OriginalOffset(s, k)
    ensures ReplaceCrlf(s[OriginalOffset(s, j)..OriginalOffset(s, k)]) == ReplaceCrlf(s)[j..k]
  {
    var o, e := OriginalOffset(s, j), OriginalOffset(s, k);
    CutPrefix(s, k);
    OffsetInPrefix(s, j, k);
    CutSuffix(s[..e], j);
    assert s[..e][o..] == s[o..e];
    assert ReplaceCrlf(s)[..k][j..] == ReplaceCrlf(s)[j..k];
  }

  lemma {:induction false} NewlinesPreserved(s: string)
    ensures CountNewlines(ReplaceCrlf(s)) == CountNewlines(s)
  {
    if s == [] {
    } else if StartsWithCrlf(s) {
      NewlinesPreserved(s[2..]);
      assert s[1..][1..] == s[2..];
    } else {
      NewlinesPreserved(s[1..]);
    }
  }

  /** Line numbers computed in either coordinate system agree. */
  lemma LineNumbersAgree(s: string, k: nat)
    requires k <= |ReplaceCrlf(s)|
    ensures LineAt(s, OriginalOffset(s, k)) == LineAt(ReplaceCrlf(s), k)
  {
    CutCommutes(s, k);
    NewlinesPreserved(s[..OriginalOffset(s, k)]);
  }

  /** The main law of the offset table, stated for the table lookup itself. */
  lemma OffsetMapLaw(s: string, k: nat)
    requires k <= |Normalize(s)|
    ensures var o := NormToOriginal(k, CrlfPositions(s, 0));
      && o <= |s|
      && Normalize(s[..o]) == Normalize(s)[..k]
      && Normalize(s[o..]) == Normalize(s)[k..]
      && LineAt(s, o) == LineAt(Normalize(s), k)
      && (k == 0 ==> o == 0)
      && (k == |Normalize(s)| ==> o == |s|)
      && (forall j :: 0 <= j < k ==> NormToOriginal(j, CrlfPositions(s, 0)) < o)
  {
    NormalizeIsReplaceCrlf(s);
    NormToOriginalIsOffset(s, k);
    var o := OriginalOffset(s, k);
    NormalizeIsReplaceCrlf(s[..o]);
    NormalizeIsReplaceCrlf(s[o..]);
    CutCommutes(s, k);
    LineNumbersAgree(s, k);
    OffsetOfEnd(s);
    forall j | 0 <= j < k
      ensures NormToOriginal(j, CrlfPositions(s, 0)) < o
    {
      NormToOriginalIsOffset(s, j);
      OffsetStrictlyIncreasing(s, j, k);
    }
  }

  // ----- Concatenation -----

  /** The texts on either side of a join would form a new CRLF. */
  predicate Seam(a: string, b: string) {
    a != [] && b != [] && a[|a| - 1] == CR && b[0] == NL
  }

  /** Normalization distributes over a join that is not a seam. */
  lemma {:induction false} ReplaceCrlfConcat(a: string, b: string)
    requires !Seam(a, b)
    ensures ReplaceCrlf(a + b) == ReplaceCrlf(a) + ReplaceCrlf(b)
  {
    hide ReplaceCrlf;
    CrlfStep(a);
    if a == [] {
      assert a + b == b;
    } else {
      var w := HeadWidth(a);
      var t := a[w..];
      CrlfStep(a + b);
      assert StartsWithCrlf(a + b) == StartsWithCrlf(a);
      assert (a + b)[w..] == t + b;
      ReplaceCrlfConcat(t, b);
    }
  }

  /** At a seam the join loses one character. */
  lemma SeamLosesOne(a: string, b: string)
    requires Seam(a, b)
    ensures |ReplaceCrlf(a + b)| + 1 == |ReplaceCrlf(a)| + |ReplaceCrlf(b)|
  {
    var a', b' := a[..|a| - 1], b[1..];
    assert a == a' + [CR];
    assert a + b == a' + ([CR, NL] + b');
    assert ([CR, NL] + b')[2..] == b';
    ReplaceCrlfConcat(a', [CR]);
    ReplaceCrlfConcat(a', [CR, NL] + b');
  }

  /** No CR stands outside a CRLF pair. */
  predicate NoLoneCr(s: string) {
    forall i :: 0 <= i < |s| && s[i] == CR ==> i + 1 < |s| && s[i + 1] == NL
  }
}

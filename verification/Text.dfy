/** Characters and lengths shared by the models of the text-processing code.

    A Rust `str` is modelled as the sequence of its Unicode scalar values. Offsets
    are therefore character offsets; lengths that the program reports in bytes are
    computed with `Utf8Len`. */
module Text {

  datatype Option<+T> = None | Some(value: T)

  const NL: char := '\n'
  const CR: char := '\r'

  /** `char::is_whitespace`: the Unicode White_Space property. */
  predicate IsWhitespace(c: char) {
    var n := c as int;
    || 0x09 <= n <= 0x0D
    || n == 0x20 || n == 0x85 || n == 0xA0 || n == 0x1680
    || 0x2000 <= n <= 0x200A
    || n == 0x2028 || n == 0x2029 || n == 0x202F || n == 0x205F || n == 0x3000
  }

  /** The 25 characters with the White_Space property, one by one. */
  lemma WhitespaceIs(c: char)
    ensures IsWhitespace(c) <==> c in {
      '\t', '\n', '\U{0B}', '\U{0C}', '\r', ' ', '\U{85}', '\U{A0}', '\U{1680}',
      '\U{2000}', '\U{2001}', '\U{2002}', '\U{2003}', '\U{2004}', '\U{2005}', '\U{2006}', '\U{2007}',
      '\U{2008}', '\U{2009}', '\U{200A}', '\U{2028}', '\U{2029}', '\U{202F}', '\U{205F}', '\U{3000}'}
  {
  }

  /** Number of bytes of the UTF-8 encoding of one character. */
  function Utf8Width(c: char): (w: nat)
    ensures 1 <= w <= 4
  {
    var n := c as int;
    if n < 0x80 then 1 else if n < 0x800 then 2 else if n < 0x1_0000 then 3 else 4
  }

  /** `str::len`. */
  function Utf8Len(s: string): nat {
    if s == [] then 0 else Utf8Width(s[0]) + Utf8Len(s[1..])
  }

  lemma {:induction false} Utf8LenConcat(a: string, b: string)
    ensures Utf8Len(a + b) == Utf8Len(a) + Utf8Len(b)
  {
    if a == [] {
      assert a + b == b;
    } else {
      assert (a + b)[1..] == a[1..] + b;
      Utf8LenConcat(a[1..], b);
    }
  }

  function CountNewlines(s: string): nat {
    if s == [] then 0 else (if s[0] == NL then 1 else 0) + CountNewlines(s[1..])
  }

  lemma {:induction false} CountNewlinesConcat(a: string, b: string)
    ensures CountNewlines(a + b) == CountNewlines(a) + CountNewlines(b)
  {
    if a == [] {
      assert a + b == b;
    } else {
      assert (a + b)[1..] == a[1..] + b;
      CountNewlinesConcat(a[1..], b);
    }
  }

  /** 1-based number of the line on which offset `k` lies. */
  function LineAt(s: string, k: nat): (line: nat)
    requires k <= |s|
    ensures line >= 1
  {
    CountNewlines(s[..k]) + 1
  }

  /** `str` and `OsStr` order. */
  predicate NameLe(a: string, b: string) {
    a == [] || (b != [] && (a[0] < b[0] || (a[0] == b[0] && NameLe(a[1..], b[1..]))))
  }

  lemma {:induction false} NameLeAntisymmetric(a: string, b: string)
    requires NameLe(a, b) && NameLe(b, a)
    ensures a == b
  {
    if a != [] && b != [] {
      NameLeAntisymmetric(a[1..], b[1..]);
    }
  }

  lemma {:induction false} NameLeTransitive(a: string, b: string, c: string)
    requires NameLe(a, b) && NameLe(b, c)
    ensures NameLe(a, c)
  {
    if a != [] && a[0] == b[0] && b[0] == c[0] {
      NameLeTransitive(a[1..], b[1..], c[1..]);
    }
  }

  lemma {:induction false} NameLeTotal(a: string, b: string)
    ensures NameLe(a, b) || NameLe(b, a)
  {
    if a != [] && b != [] && a[0] == b[0] {
      NameLeTotal(a[1..], b[1..]);
    }
  }

  /** Offset of the first newline, or the length. */
  function FirstNewline(s: string): (n: nat)
    ensures n <= |s| && (n < |s| ==> s[n] == NL)
    ensures forall i :: 0 <= i < n ==> s[i] != NL
  {
    if s == [] || s[0] == NL then 0 else 1 + FirstNewline(s[1..])
  }

  /** The text split at its newlines. */
  function Pieces(s: string): (ps: seq<string>)
    ensures ps != []
  {
    var n := FirstNewline(s);
    if n == |s| then [s] else [s[..n]] + Pieces(s[n + 1..])
  }

  /** Offset at which piece number `n`, counted from 0, starts. */
  function PieceStart(ps: seq<string>, n: nat): nat
    requires n <= |ps|
  {
    if n == 0 then 0 else |ps[0]| + 1 + PieceStart(ps[1..], n - 1)
  }

  lemma {:induction false} NoNewlines(s: string)
    requires forall i :: 0 <= i < |s| ==> s[i] != NL
    ensures CountNewlines(s) == 0
  {
    if s != [] {
      NoNewlines(s[1..]);
    }
  }

  lemma PiecesStep(s: string)
    requires FirstNewline(s) < |s|
    ensures var f := FirstNewline(s); Pieces(s) == [s[..f]] + Pieces(s[f + 1..])
  {
    hide FirstNewline;
  }

  lemma CountPastNewline(s: string, k: nat)
    requires FirstNewline(s) < k <= |s|
    ensures var f := FirstNewline(s); CountNewlines(s[..k]) == 1 + CountNewlines(s[f + 1..][..k - f - 1])
  {
    hide FirstNewline, CountNewlines;
    var f := FirstNewline(s);
    CutAtNewline(s, f, k);
    NoNewlines(s[..f]);
    CountNewlinesConcat(s[..f], [NL] + s[f + 1..][..k - f - 1]);
    CountOne(s[f + 1..][..k - f - 1]);
  }

  lemma CutAtNewline(s: string, f: nat, k: nat)
    requires f < k <= |s| && s[f] == NL
    ensures s[..k] == s[..f] + ([NL] + s[f + 1..][..k - f - 1])
  {
    assert s[..k] == s[..f] + [s[f]] + s[f + 1..k];
    assert s[f + 1..k] == s[f + 1..][..k - f - 1];
  }

  lemma CountOne(s: string)
    ensures CountNewlines([NL] + s) == 1 + CountNewlines(s)
  {
    assert ([NL] + s)[1..] == s;
  }

  /** `LineAt` is the number of the piece in which the offset lies, its end included. */
  lemma {:induction false} LineAtIsPiece(s: string, k: nat)
    requires k <= |s|
    ensures var n, ps := LineAt(s, k), Pieces(s);
      n <= |ps| && PieceStart(ps, n - 1) <= k <= PieceStart(ps, n - 1) + |ps[n - 1]|
    decreases |s|
  {
    hide FirstNewline, CountNewlines, Pieces;
    var f := FirstNewline(s);
    if k <= f {
      NoNewlines(s[..k]);
      FirstPiece(s);
    } else {
      PiecesStep(s);
      CountPastNewline(s, k);
      LineAtIsPiece(s[f + 1..], k - f - 1);
    }
  }

  lemma FirstPiece(s: string)
    ensures Pieces(s)[0] == s[..FirstNewline(s)]
  {
  }

  /** Splitting takes a line off the front of a text. */
  lemma PiecesOfLine(line: string, rest: string)
    requires NL !in line
    ensures Pieces(line + ([NL] + rest)) == [line] + Pieces(rest)
  {
    hide FirstNewline;
    var s := line + ([NL] + rest);
    var f := FirstNewline(s);
    assert s[|line|] == NL;
    forall i | 0 <= i < |line| ensures s[i] != NL {
      assert s[i] == line[i];
    }
    assert f == |line|;
    assert s[..f] == line && s[f + 1..] == rest;
  }
}

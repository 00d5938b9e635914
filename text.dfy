/**
 * Character classes and the small string operations the core relies on:
 * Python's `str.isspace`, `str.strip` and `str.split(sep)`, and the
 * ECMAScript `\s` class, `String.prototype.trim` and line terminators.
 */
module Text {

  /** Python's `str.isspace()` for one character (whitespace bidi classes and category Zs). */
  predicate IsPySpace(c: char)
  {
    ('\t' <= c <= '\r') || ('\U{001C}' <= c <= '\U{001F}') || c == ' ' ||
    c == '\U{0085}' || c == '\U{00A0}' || c == '\U{1680}' ||
    ('\U{2000}' <= c <= '\U{200A}') || c == '\U{2028}' || c == '\U{2029}' ||
    c == '\U{202F}' || c == '\U{205F}' || c == '\U{3000}'
  }

  /** ECMAScript LineTerminator: the characters `.` does not match. */
  predicate IsLineTerminator(c: char)
  {
    c == '\n' || c == '\r' || c == '\U{2028}' || c == '\U{2029}'
  }

  /** ECMAScript `\s`: WhiteSpace or LineTerminator; also what `trim()` removes. */
  predicate IsJsSpace(c: char)
  {
    c == '\t' || c == '\U{000B}' || c == '\U{000C}' || c == ' ' || c == '\U{00A0}' ||
    c == '\U{FEFF}' || c == '\U{1680}' || ('\U{2000}' <= c <= '\U{200A}') ||
    c == '\U{202F}' || c == '\U{205F}' || c == '\U{3000}' || IsLineTerminator(c)
  }

  /** ASCII digit: ECMAScript `\d`. */
  predicate IsDigit(c: char)
  {
    '0' <= c <= '9'
  }

  /** ECMAScript `\w`: ASCII letters, digits and underscore. */
  predicate IsWordChar(c: char)
  {
    ('a' <= c <= 'z') || ('A' <= c <= 'Z') || IsDigit(c) || c == '_'
  }

  predicate AllBy(s: string, p: char -> bool)
  {
    forall k :: 0 <= k < |s| ==> p(s[k])
  }

  predicate NoneBy(s: string, p: char -> bool)
  {
    forall k :: 0 <= k < |s| ==> !p(s[k])
  }

  /** The end of the run of `p` characters starting at `p0`. */
  function RunEnd(s: string, p0: nat, p: char -> bool): (e: nat)
    requires p0 <= |s|
    ensures p0 <= e <= |s|
    ensures AllBy(s[p0..e], p)
    ensures e < |s| ==> !p(s[e])
    decreases |s| - p0
  {
    if p0 < |s| && p(s[p0]) then
      var e := RunEnd(s, p0 + 1, p);
      assert s[p0..e] == [s[p0]] + s[p0 + 1..e];
      e
    else p0
  }

  /** A run that is followed by a non-member (or the end) is the maximal run. */
  lemma RunEndUnique(s: string, p0: nat, e: nat, p: char -> bool)
    requires p0 <= e <= |s| && AllBy(s[p0..e], p) && (e < |s| ==> !p(s[e]))
    ensures RunEnd(s, p0, p) == e
  {
    var r := RunEnd(s, p0, p);
    assert forall k :: p0 <= k < e ==> s[p0..e][k - p0] == s[k];
    assert forall k :: p0 <= k < r ==> s[p0..r][k - p0] == s[k];
  }

  /** The start of the run of `p` characters that ends at `hi`, looking no further back than `lo`. */
  function RunStart(s: string, lo: nat, hi: nat, p: char -> bool): (b: nat)
    requires lo <= hi <= |s|
    ensures lo <= b <= hi
    ensures AllBy(s[b..hi], p)
    ensures lo < b ==> !p(s[b - 1])
    decreases hi - lo
  {
    if lo < hi && p(s[hi - 1]) then
      var b := RunStart(s, lo, hi - 1, p);
      assert s[b..hi] == s[b..hi - 1] + [s[hi - 1]];
      b
    else hi
  }

  /** A run that is preceded by a non-member (or `lo`) is the maximal run. */
  lemma RunStartUnique(s: string, lo: nat, b: nat, hi: nat, p: char -> bool)
    requires lo <= b <= hi <= |s| && AllBy(s[b..hi], p) && (lo < b ==> !p(s[b - 1]))
    ensures RunStart(s, lo, hi, p) == b
  {
    var r := RunStart(s, lo, hi, p);
    assert forall k :: r <= k < hi ==> s[r..hi][k - r] == s[k];
    assert forall k :: b <= k < hi ==> s[b..hi][k - b] == s[k];
  }

  /** Drops the characters that satisfy `sp` at both ends: Python's `strip()` with `IsPySpace`, ECMAScript `trim()` with `IsJsSpace`. */
  function TrimBy(s: string, sp: char -> bool): (r: string)
    ensures exists i :: TrimmedAt(s, r, i, sp)
    ensures r != [] ==> !sp(r[0]) && !sp(r[|r| - 1])
  {
    var a := RunEnd(s, 0, sp);
    var b := RunStart(s, a, |s|, sp);
    Framing(s, a, b, sp);
    s[a..b]
  }

  /** The slice between a leading and a trailing run of `sp` characters is framed by them. */
  lemma Framing(s: string, a: nat, b: nat, sp: char -> bool)
    requires a <= b <= |s| && AllBy(s[0..a], sp) && AllBy(s[b..|s|], sp)
    requires a < b ==> !sp(s[a]) && !sp(s[b - 1])
    ensures TrimmedAt(s, s[a..b], a, sp)
    ensures s[a..b] != [] ==> !sp(s[a..b][0]) && !sp(s[a..b][b - a - 1])
  {
    assert s[..a] == s[0..a];
    assert s[b..] == s[b..|s|];
  }

  /** `r` sits at `i` in `s`, and everything before and after it satisfies `sp`. */
  ghost predicate TrimmedAt(s: string, r: string, i: int, sp: char -> bool)
  {
    0 <= i <= |s| - |r| && r == s[i..i + |r|] && AllBy(s[..i], sp) && AllBy(s[i + |r|..], sp)
  }

  function Strip(s: string): string
  {
    TrimBy(s, IsPySpace)
  }

  function JsTrim(s: string): string
  {
    TrimBy(s, IsJsSpace)
  }

  /**
   * Trimming is determined by its characterisation: whatever is framed by
   * two runs of `sp` characters and neither starts nor ends with one is the
   * trimmed string.
   */
  lemma TrimUnique(a: string, m: string, b: string, sp: char -> bool)
    requires AllBy(a, sp) && AllBy(b, sp)
    requires m != [] ==> !sp(m[0]) && !sp(m[|m| - 1])
    ensures TrimBy(a + m + b, sp) == m
  {
    var s := a + m + b;
    var i := |a|;
    var j := |a| + |m|;
    if m == [] {
      assert s[0..|s|] == a + b;
      RunEndUnique(s, 0, |s|, sp);
      RunStartUnique(s, |s|, |s|, |s|, sp);
    } else {
      assert s[0..i] == a;
      assert s[i] == m[0];
      RunEndUnique(s, 0, i, sp);
      assert s[j..|s|] == b;
      assert s[j - 1] == m[|m| - 1];
      RunStartUnique(s, i, j, |s|, sp);
      assert s[i..j] == m;
    }
  }

  /** A string that neither starts nor ends with an `sp` character is its own trimmed form. */
  lemma TrimOfTrimmed(m: string, sp: char -> bool)
    requires m != [] ==> !sp(m[0]) && !sp(m[|m| - 1])
    ensures TrimBy(m, sp) == m
  {
    TrimUnique([], m, [], sp);
    assert [] + m + [] == m;
  }

  /** No string occurs twice. */
  predicate NoDuplicates(s: seq<string>)
  {
    forall i, j :: 0 <= i < j < |s| ==> s[i] != s[j]
  }

  /** The pieces of `parts` glued back together with `sep` between them. */
  function Join(parts: seq<string>, sep: char): string
  {
    if |parts| == 0 then "" else if |parts| == 1 then parts[0]
    else parts[0] + [sep] + Join(parts[1..], sep)
  }

  function Count(s: string, c: char): nat
  {
    if s == [] then 0 else (if s[0] == c then 1 else 0) + Count(s[1..], c)
  }

  /**
   * Python's `s.split(sep)` for a one-character separator: the maximal
   * separator-free pieces, one more than there are separators.
   */
  function Split(s: string, sep: char): (parts: seq<string>)
    ensures |parts| == Count(s, sep) + 1
    ensures forall k :: 0 <= k < |parts| ==> sep !in parts[k]
    ensures Join(parts, sep) == s
  {
    if s == [] then [""]
    else
      var rest := Split(s[1..], sep);
      assert s == [s[0]] + s[1..];
      if s[0] == sep then
        JoinAfterEmpty(rest, sep);
        [""] + rest
      else
        JoinWidenHead(s[0], rest, sep);
        [[s[0]] + rest[0]] + rest[1..]
  }

  /** An empty first piece contributes only its separator. */
  lemma JoinAfterEmpty(rest: seq<string>, sep: char)
    requires |rest| > 0
    ensures Join([""] + rest, sep) == [sep] + Join(rest, sep)
  {
    assert ([""] + rest)[1..] == rest;
  }

  /** A character put in front of the first piece is put in front of the joined string. */
  lemma JoinWidenHead(c: char, rest: seq<string>, sep: char)
    requires |rest| > 0
    ensures Join([[c] + rest[0]] + rest[1..], sep) == [c] + Join(rest, sep)
  {
    var parts := [[c] + rest[0]] + rest[1..];
    if |rest| > 1 {
      assert parts[1..] == rest[1..];
    }
  }

  /** A separator-free piece, a separator and the rest split as that piece followed by the rest's pieces. */
  lemma {:induction false} SplitAfterPiece(a: string, b: string, sep: char)
    requires sep !in a
    ensures Split(a + [sep] + b, sep) == [a] + Split(b, sep)
    decreases |a|
  {
    var s := a + [sep] + b;
    if a == [] {
      assert s[1..] == b;
    } else {
      assert s[1..] == a[1..] + [sep] + b;
      SplitAfterPiece(a[1..], b, sep);
      assert [a[0]] + a[1..] == a;
    }
  }

  /** A string without the separator is a single piece. */
  lemma {:induction false} SplitOfPiece(a: string, sep: char)
    requires sep !in a
    ensures Split(a, sep) == [a]
    decreases |a|
  {
    if a != [] {
      SplitOfPiece(a[1..], sep);
      assert [a[0]] + a[1..] == a;
    }
  }

  /** Splitting undoes joining separator-free pieces. */
  lemma {:induction false} SplitJoin(parts: seq<string>, sep: char)
    requires |parts| > 0
    requires forall k :: 0 <= k < |parts| ==> sep !in parts[k]
    ensures Split(Join(parts, sep), sep) == parts
    decreases |parts|
  {
    if |parts| == 1 {
      SplitOfPiece(parts[0], sep);
    } else {
      SplitJoin(parts[1..], sep);
      SplitAfterPiece(parts[0], Join(parts[1..], sep), sep);
      assert [parts[0]] + parts[1..] == parts;
    }
  }
}

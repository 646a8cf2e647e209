/**
 * The few Qt string and file primitives the core relies on, as functions on
 * `seq<char>` (a QString after UTF-8 decoding):
 * QChar::isSpace, QString::trimmed, QString::splitRef with one separator
 * character (empty parts kept) and the line chunks QFile::readLine returns.
 */
module QtText {

  /**
   * QChar::isSpace: the ASCII controls TAB, LF, VT, FF, CR, the space, NEL,
   * and the Unicode separators (categories Zs, Zl and Zp).
   */
  predicate IsSpace(c: char) {
    c == ' ' || ('\t' <= c <= '\r')
    || c == '\U{85}' || c == '\U{A0}' || c == '\U{1680}'
    || ('\U{2000}' <= c <= '\U{200A}')
    || c == '\U{2028}' || c == '\U{2029}' || c == '\U{202F}' || c == '\U{205F}' || c == '\U{3000}'
  }

  /** True when every character of `s` is a space in the sense of IsSpace. */
  predicate AllSpace(s: string) {
    forall i :: 0 <= i < |s| ==> IsSpace(s[i])
  }

  /** The index of the first non-space character of `s`, or |s| when there is none. */
  function LeadingSpaces(s: string): (n: nat)
    ensures n <= |s| && AllSpace(s[..n])
    ensures n < |s| ==> !IsSpace(s[n])
  {
    if s == [] || !IsSpace(s[0]) then 0
    else
      var n := 1 + LeadingSpaces(s[1..]);
      assert s[..n] == [s[0]] + s[1..][..n - 1];
      n
  }

  /** The index just past the last non-space character of `s`, or 0 when there is none. */
  function TrailingEnd(s: string): (n: nat)
    ensures n <= |s| && AllSpace(s[n..])
    ensures n > 0 ==> !IsSpace(s[n - 1])
  {
    if s == [] || !IsSpace(s[|s| - 1]) then |s|
    else
      var n := TrailingEnd(s[..|s| - 1]);
      assert s[n..] == s[..|s| - 1][n..] + [s[|s| - 1]];
      n
  }

  /**
   * QString::trimmed: `s` without its leading and trailing spaces. The result
   * is a contiguous piece of `s` that neither starts nor ends with a space, and
   * everything cut off is space.
   */
  function Trimmed(s: string): (r: string)
    ensures exists i, j :: 0 <= i <= j <= |s| && r == s[i..j] && AllSpace(s[..i]) && AllSpace(s[j..])
    ensures r != [] ==> !IsSpace(r[0]) && !IsSpace(r[|r| - 1])
  {
    var i := LeadingSpaces(s);
    if i == |s| then
      assert s[i..i] == [] && s[i..] == [];
      []
    else
      var j := TrailingEnd(s);
      s[i..j]
  }

  /** A line is blank when trimming leaves nothing, which holds exactly when it is all space. */
  lemma BlankIffAllSpace(s: string)
    ensures Trimmed(s) == [] <==> AllSpace(s)
  {
    if AllSpace(s) {
      assert LeadingSpaces(s) == |s|;
    } else {
      var k :| 0 <= k < |s| && !IsSpace(s[k]);
      NonSpaceKept(s, k);
    }
  }

  /** A string with a non-space character somewhere keeps that character when trimmed. */
  lemma NonSpaceKept(s: string, k: nat)
    requires k < |s| && !IsSpace(s[k])
    ensures Trimmed(s) != []
  {
    var i, j :| 0 <= i <= j <= |s| && Trimmed(s) == s[i..j] && AllSpace(s[..i]) && AllSpace(s[j..]);
    if k < i {
      assert s[..i][k] == s[k];
    } else if j <= k {
      assert s[j..][k - j] == s[k];
    } else {
      assert Trimmed(s)[k - i] == s[k];
    }
  }

  /** Trimming keeps a string that neither starts nor ends with a space and drops trailing space after it. */
  lemma TrimmedKeeps(s: string, tail: string)
    requires s != [] && !IsSpace(s[0]) && !IsSpace(s[|s| - 1])
    requires AllSpace(tail)
    ensures Trimmed(s + tail) == s
  {
    var x := s + tail;
    assert x[0] == s[0];
    var j := TrailingEnd(x);
    assert x[..|s|] == s;
  }

  /** The number of occurrences of `c` in `s`. */
  function Count(s: string, c: char): nat {
    if s == [] then 0 else (if s[0] == c then 1 else 0) + Count(s[1..], c)
  }

  /** The parts joined back together with `sep` between them. */
  function Join(parts: seq<string>, sep: char): string
    requires parts != []
  {
    if |parts| == 1 then parts[0] else parts[0] + [sep] + Join(parts[1..], sep)
  }

  /**
   * QString::splitRef(sep) with empty parts kept: the pieces of `s` between
   * occurrences of `sep`.
   */
  function Split(s: string, sep: char): (parts: seq<string>)
    ensures parts != []
    ensures |parts| == Count(s, sep) + 1
    ensures forall k :: 0 <= k < |parts| ==> sep !in parts[k]
  {
    if s == [] then [[]]
    else
      var tail := Split(s[1..], sep);
      if s[0] == sep then [[]] + tail
      else [[s[0]] + tail[0]] + tail[1..]
  }

  /** Splitting loses nothing: joining the parts with the separator gives the string back. */
  lemma {:induction false} JoinSplit(s: string, sep: char)
    ensures Join(Split(s, sep), sep) == s
  {
    if s != [] {
      JoinSplit(s[1..], sep);
      var tail := Split(s[1..], sep);
      if s[0] != sep && |tail| > 1 {
        assert Join(Split(s, sep), sep) == [s[0]] + tail[0] + [sep] + Join(tail[1..], sep);
      }
    }
  }

  /** Splitting a join of separator-free parts gives the parts back. */
  lemma {:induction false} SplitJoin(parts: seq<string>, sep: char)
    requires parts != []
    requires forall k :: 0 <= k < |parts| ==> sep !in parts[k]
    ensures Split(Join(parts, sep), sep) == parts
  {
    if |parts| == 1 {
      SplitFree(parts[0], sep);
    } else {
      var rest := Join(parts[1..], sep);
      SplitJoin(parts[1..], sep);
      assert ([sep] + rest)[1..] == rest;
      assert Split([sep] + rest, sep) == [[]] + parts[1..];
      SplitPrefix(parts[0], [sep] + rest, sep);
      assert parts[0] + [sep] + rest == parts[0] + ([sep] + rest);
      assert parts[0] + [] == parts[0];
      assert parts == [parts[0]] + parts[1..];
    }
  }

  /** A string without the separator is a single part. */
  lemma {:induction false} SplitFree(s: string, sep: char)
    requires sep !in s
    ensures Split(s, sep) == [s]
  {
    if s != [] {
      SplitFree(s[1..], sep);
      assert [s[0]] + s[1..] == s;
    }
  }

  /** A separator-free prefix is glued onto the first part. */
  lemma {:induction false} SplitPrefix(a: string, b: string, sep: char)
    requires sep !in a
    ensures Split(a + b, sep) == [a + Split(b, sep)[0]] + Split(b, sep)[1..]
  {
    if a == [] {
      var parts := Split(b, sep);
      assert parts == [parts[0]] + parts[1..];
      assert a + b == b && a + parts[0] == parts[0];
    } else {
      SplitPrefix(a[1..], b, sep);
      assert (a + b)[1..] == a[1..] + b;
      assert [a[0]] + (a[1..] + Split(b, sep)[0]) == a + Split(b, sep)[0];
    }
  }

  /** All lines concatenated, as they sit one after another in a file. */
  function Concat(lines: seq<string>): string {
    if lines == [] then [] else lines[0] + Concat(lines[1..])
  }

  /** A chunk as QFile::readLine returns it: non-empty, with a newline at most at its end. */
  predicate IsLineChunk(line: string) {
    line != [] && '\n' !in line[..|line| - 1]
  }

  /**
   * The successive results of QFile::readLine on a file holding `text`: each
   * chunk runs up to and including the next newline, the last one possibly
   * without. readLine returns an empty chunk only at the end of the file.
   */
  function ReadLines(text: string): (lines: seq<string>)
    ensures forall k :: 0 <= k < |lines| ==> IsLineChunk(lines[k])
    ensures forall k :: 0 <= k < |lines| - 1 ==> lines[k] != [] && lines[k][|lines[k]| - 1] == '\n'
    ensures Concat(lines) == text
    decreases |text|
  {
    if text == [] then []
    else
      var n := LineLength(text);
      var rest := ReadLines(text[n..]);
      var lines := [text[..n]] + rest;
      assert lines[1..] == rest;
      assert text[..n] + text[n..] == text;
      assert rest != [] ==> n < |text|;
      assert forall k :: 1 <= k < |lines| ==> lines[k] == rest[k - 1];
      lines
  }

  /** The length of the first chunk of a non-empty text. */
  function LineLength(text: string): (n: nat)
    requires text != []
    ensures 0 < n <= |text| && IsLineChunk(text[..n])
    ensures n < |text| ==> text[n - 1] == '\n'
  {
    if text[0] == '\n' || |text| == 1 then 1
    else
      var n := 1 + LineLength(text[1..]);
      assert text[..n][..n - 1] == [text[0]] + text[1..][..n - 1][..n - 2];
      n
  }

  /**
   * The QString that Qt 5's QString(const QByteArray &) builds from a chunk:
   * the characters before the first NUL, all of them when there is none.
   */
  function UpToNul(chunk: string): (s: string)
    ensures s <= chunk && '\0' !in s
    ensures |s| < |chunk| ==> chunk[|s|] == '\0'
  {
    if chunk == [] || chunk[0] == '\0' then []
    else
      var s := [chunk[0]] + UpToNul(chunk[1..]);
      assert chunk == [chunk[0]] + chunk[1..];
      s
  }

  /** A chunk without a NUL becomes a QString of all its characters. */
  lemma UpToNulKeeps(chunk: string)
    requires '\0' !in chunk
    ensures UpToNul(chunk) == chunk
  {
  }

  /** Reading back what was written as newline-terminated lines gives those lines again. */
  lemma {:induction false} ReadLinesConcat(lines: seq<string>)
    requires forall k :: 0 <= k < |lines| ==> IsLineChunk(lines[k]) && lines[k][|lines[k]| - 1] == '\n'
    ensures ReadLines(Concat(lines)) == lines
  {
    if lines != [] {
      var text := Concat(lines);
      var l := lines[0];
      FirstLineLength(l, Concat(lines[1..]));
      assert text[..|l|] == l && text[|l|..] == Concat(lines[1..]);
      ReadLinesConcat(lines[1..]);
    }
  }

  /** The first chunk of a text that starts with a newline-terminated line is that line. */
  lemma {:induction false} FirstLineLength(l: string, rest: string)
    requires IsLineChunk(l) && l[|l| - 1] == '\n'
    ensures LineLength(l + rest) == |l|
  {
    if |l| > 1 {
      assert l[0] != '\n' by { assert l[..|l| - 1][0] == l[0]; }
      assert (l + rest)[1..] == l[1..] + rest;
      assert l[1..][..|l| - 2] == l[..|l| - 1][1..];
      FirstLineLength(l[1..], rest);
    }
  }
}

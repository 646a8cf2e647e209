/**
 * The line tokenizer of the assembler: the regular expression
 * `([A-Z]+:)?[ \t]*([A-Z]+)[ \t]*(.+)?` that asmparser.cpp matches against
 * every non-blank line, with the leftmost-first, greedy semantics of
 * QRegularExpression (PCRE).
 *
 * `IsMatch` says when a choice of group boundaries is a match of the pattern
 * somewhere in a line; `Match` computes the match the engine reports and is
 * proved to be one, to start no later than any other match, to take the
 * optional label whenever a match at that start can, and to be greedy in
 * every repetition. A line has a match exactly when it holds an ASCII
 * uppercase letter.
 */
module AsmTokenizer {
  import opened Wrappers

  predicate IsUpper(c: char) {
    'A' <= c <= 'Z'
  }

  /** The class `[ \t]`. */
  predicate IsBlank(c: char) {
    c == ' ' || c == '\t'
  }

  /** `s` holds an uppercase letter somewhere. */
  predicate HasUpper(s: string) {
    exists k :: 0 <= k < |s| && IsUpper(s[k])
  }

  /** Every character in s[i..j] is an uppercase letter. */
  predicate Uppers(s: string, i: nat, j: nat)
    requires i <= j <= |s|
  {
    forall k :: i <= k < j ==> IsUpper(s[k])
  }

  /** Every character in s[i..j] is a blank. */
  predicate Blanks(s: string, i: nat, j: nat)
    requires i <= j <= |s|
  {
    forall k :: i <= k < j ==> IsBlank(s[k])
  }

  /** No character in s[i..j] is a newline: what `.` may match. */
  predicate NoNewlines(s: string, i: nat, j: nat)
    requires i <= j <= |s|
  {
    forall k :: i <= k < j ==> s[k] != '\n'
  }

  /** Where the run of uppercase letters starting at i ends. */
  function UpperEnd(s: string, i: nat): (n: nat)
    requires i <= |s|
    ensures i <= n <= |s| && Uppers(s, i, n)
    ensures n < |s| ==> !IsUpper(s[n])
    decreases |s| - i
  {
    if i < |s| && IsUpper(s[i]) then UpperEnd(s, i + 1) else i
  }

  /** Where the run of blanks starting at i ends. */
  function BlankEnd(s: string, i: nat): (n: nat)
    requires i <= |s|
    ensures i <= n <= |s| && Blanks(s, i, n)
    ensures n < |s| ==> !IsBlank(s[n])
    decreases |s| - i
  {
    if i < |s| && IsBlank(s[i]) then BlankEnd(s, i + 1) else i
  }

  /** The first newline at or after i, or |s|. */
  function LineEnd(s: string, i: nat): (n: nat)
    requires i <= |s|
    ensures i <= n <= |s| && NoNewlines(s, i, n)
    ensures n < |s| ==> s[n] == '\n'
    decreases |s| - i
  {
    if i < |s| && s[i] != '\n' then LineEnd(s, i + 1) else i
  }

  /** The first uppercase letter at or after i, or |s| when there is none. */
  function FirstUpper(s: string, i: nat): (n: nat)
    requires i <= |s|
    ensures i <= n <= |s|
    ensures forall k :: i <= k < n ==> !IsUpper(s[k])
    ensures n < |s| ==> IsUpper(s[n])
    decreases |s| - i
  {
    if i == |s| || IsUpper(s[i]) then i else FirstUpper(s, i + 1)
  }

  /** Where the run of blanks that ends at u starts. */
  function BlankStart(s: string, u: nat): (p: nat)
    requires u <= |s|
    ensures p <= u && Blanks(s, p, u)
    ensures p > 0 ==> !IsBlank(s[p - 1])
  {
    if u > 0 && IsBlank(s[u - 1]) then BlankStart(s, u - 1) else u
  }

  /**
   * The boundaries of one match: group 1 (the label with its colon) is
   * s[start..labelEnd], empty when the group does not take part; group 2 (the
   * mnemonic) is s[insnStart..insnEnd]; group 3 (the rest) is s[argsStart..end].
   */
  datatype Span = Span(start: nat, labelEnd: nat, insnStart: nat, insnEnd: nat, argsStart: nat, end: nat)

  /** `m` matches the pattern in `s`: each piece of the line between its boundaries is what the pattern asks for there. */
  predicate IsMatch(s: string, m: Span) {
    m.start <= m.labelEnd <= m.insnStart < m.insnEnd <= m.argsStart <= m.end <= |s|
    && (m.labelEnd == m.start
        || (m.start + 1 < m.labelEnd && Uppers(s, m.start, m.labelEnd - 1) && s[m.labelEnd - 1] == ':'))
    && Blanks(s, m.labelEnd, m.insnStart)
    && Uppers(s, m.insnStart, m.insnEnd)
    && Blanks(s, m.insnEnd, m.argsStart)
    && NoNewlines(s, m.argsStart, m.end)
  }

  /** Every repetition after the label took as much as it could. */
  predicate Greedy(s: string, m: Span)
    requires m.insnEnd <= m.argsStart <= m.end <= |s|
  {
    (m.insnEnd < |s| ==> !IsUpper(s[m.insnEnd]))
    && (m.argsStart < |s| ==> !IsBlank(s[m.argsStart]))
    && (m.end < |s| ==> s[m.end] == '\n')
  }

  /** The match that starts at `start`, with its label (if any) ending at labelEnd and the mnemonic at insnStart. */
  function MatchFrom(s: string, start: nat, labelEnd: nat, insnStart: nat): (m: Span)
    requires start <= labelEnd <= insnStart < |s| && IsUpper(s[insnStart])
  {
    var e := UpperEnd(s, insnStart);
    var a := BlankEnd(s, e);
    Span(start, labelEnd, insnStart, e, a, LineEnd(s, a))
  }

  /**
   * The match QRegularExpression::match reports, None when there is none.
   * The only place a match can start is the blank run before the first
   * uppercase letter; a label is possible only when that letter itself
   * starts the match.
   */
  function Match(s: string): (r: Option<Span>)
    ensures r.Some? ==> IsMatch(s, r.value) && Greedy(s, r.value)
  {
    var u := FirstUpper(s, 0);
    if u == |s| then None
    else
      var p := BlankStart(s, u);
      var q := UpperEnd(s, u);
      if p == u && q < |s| && s[q] == ':' && BlankEnd(s, q + 1) < |s| && IsUpper(s[BlankEnd(s, q + 1)])
      then Some(MatchFrom(s, u, q + 1, BlankEnd(s, q + 1)))
      else Some(MatchFrom(s, p, p, u))
  }

  /** A line has a match exactly when it holds an uppercase letter. */
  lemma MatchExists(s: string)
    ensures Match(s).Some? <==> HasUpper(s)
  {
    if Match(s).None? {
      assert forall k :: 0 <= k < |s| ==> !IsUpper(s[k]);
    }
  }

  /** Leftmost: no match of the pattern starts before the reported one. */
  lemma MatchLeftmost(s: string, m: Span)
    requires IsMatch(s, m)
    ensures Match(s).Some? && Match(s).value.start <= m.start
  {
    var u := FirstUpper(s, 0);
    assert IsUpper(s[m.insnStart]);
    if m.labelEnd > m.start {
      assert IsUpper(s[m.start]);
    } else if m.start <= u {
      BlankStartLeast(s, u, m.start);
    }
  }

  /** BlankStart finds the start of the whole blank run. */
  lemma {:induction false} BlankStartLeast(s: string, u: nat, i: nat)
    requires i <= u <= |s| && Blanks(s, i, u)
    ensures BlankStart(s, u) <= i
  {
    if i < u {
      BlankStartLeast(s, u - 1, i);
    }
  }

  /** The label group takes part whenever some match at the same start has a label, and the two labels coincide. */
  lemma MatchPrefersLabel(s: string, m: Span)
    requires IsMatch(s, m) && m.labelEnd > m.start
    requires Match(s).Some? && Match(s).value.start == m.start
    ensures Match(s).value.labelEnd == m.labelEnd
  {
    var u := FirstUpper(s, 0);
    assert IsUpper(s[m.start]);
    var q := UpperEnd(s, u);
    assert !IsUpper(s[m.labelEnd - 1]);
    assert q == m.labelEnd - 1;
    var b := BlankEnd(s, q + 1);
    assert IsUpper(s[m.insnStart]);
  }

  /** The three captured texts; a group that does not take part, or a line without a match, captures nothing. */
  datatype Captures = Captures(labelText: string, insnText: string, argsText: string)

  function Captured(s: string): (c: Captures)
    ensures Match(s).None? ==> c == Captures([], [], [])
  {
    match Match(s)
    case None => Captures([], [], [])
    case Some(m) => Captures(s[m.start..m.labelEnd], s[m.insnStart..m.insnEnd], s[m.argsStart..m.end])
  }

  /** The mnemonic capture is empty exactly when the line has no uppercase letter; otherwise it is all uppercase. */
  lemma CapturedInsn(s: string)
    ensures var c := Captured(s);
      (c.insnText == [] <==> forall k :: 0 <= k < |s| ==> !IsUpper(s[k]))
      && forall k :: 0 <= k < |c.insnText| ==> IsUpper(c.insnText[k])
  {
    MatchExists(s);
    if Match(s).Some? {
      var m := Match(s).value;
      var t := s[m.insnStart..m.insnEnd];
      assert t[0] == s[m.insnStart];
      forall k | 0 <= k < |t| ensures IsUpper(t[k]) {
        assert t[k] == s[m.insnStart + k];
      }
    }
  }

  /** A label capture is a run of uppercase letters followed by its colon. */
  lemma CapturedLabel(s: string)
    ensures var l := Captured(s).labelText;
      l != [] ==>
        |l| >= 2 && l[|l| - 1] == ':' && forall k :: 0 <= k < |l| - 1 ==> IsUpper(l[k])
  {
    if Match(s).Some? {
      var m := Match(s).value;
      var l := s[m.start..m.labelEnd];
      forall k | 0 <= k < |l| - 1 ensures IsUpper(l[k]) {
        assert l[k] == s[m.start + k];
      }
    }
  }
}

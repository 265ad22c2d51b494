/**
 * Text normalisation used by `aiCreateNote` and `aiSummarizeNote`:
 * ECMAScript `String.prototype.trim`, and the title taken from the first
 * match of the multiline pattern `^#\s+(.+)$`, with the ECMAScript
 * matching rules (leftmost start, greedy `\s+` that gives characters back
 * until `.+` can start).
 */
module Markdown {
  import opened Wrappers

  /** Title used when the generated text has no first-level heading. */
  const FallbackTitle: string := "AI Generated Note"

  /** ECMAScript LineTerminator: what `.` does not match and what `^`/`$` see as a line break. */
  predicate IsLineTerminator(c: char) {
    c == '\n' || c == '\r' || c == '\U{2028}' || c == '\U{2029}'
  }

  /** ECMAScript WhiteSpace or LineTerminator: the class `\s`, and what `trim` removes. */
  predicate IsWhitespace(c: char) {
    || IsLineTerminator(c)
    || c == '\t' || c == '\U{000B}' || c == '\U{000C}' || c == ' '
    || c == '\U{00A0}' || c == '\U{1680}' || ('\U{2000}' <= c <= '\U{200A}')
    || c == '\U{202F}' || c == '\U{205F}' || c == '\U{3000}' || c == '\U{FEFF}'
  }

  predicate AllWhitespace(s: string) {
    forall i :: 0 <= i < |s| ==> IsWhitespace(s[i])
  }

  /** Neither starts nor ends with whitespace: what `trim` produces. */
  predicate Trimmed(s: string) {
    s == [] || (!IsWhitespace(s[0]) && !IsWhitespace(s[|s| - 1]))
  }

  /** r is the slice of s starting at i, with only whitespace around it in s and none at its ends. */
  ghost predicate TrimAt(s: string, r: string, i: nat) {
    i <= |s| - |r| && r == s[i..i + |r|]
    && AllWhitespace(s[..i]) && AllWhitespace(s[i + |r|..]) && Trimmed(r)
  }

  /** r is s with surrounding whitespace removed. */
  ghost predicate IsTrimOf(s: string, r: string) {
    exists i: nat :: TrimAt(s, r, i)
  }

  /** Length of the whitespace prefix of s. */
  function LeadingWhitespace(s: string): (n: nat)
    ensures n <= |s|
    ensures forall i :: 0 <= i < n ==> IsWhitespace(s[i])
    ensures n < |s| ==> !IsWhitespace(s[n])
  {
    if |s| > 0 && IsWhitespace(s[0]) then 1 + LeadingWhitespace(s[1..]) else 0
  }

  /** Length of the whitespace suffix of s. */
  function TrailingWhitespace(s: string): (n: nat)
    ensures n <= |s|
    ensures forall i :: |s| - n <= i < |s| ==> IsWhitespace(s[i])
    ensures n < |s| ==> !IsWhitespace(s[|s| - 1 - n])
  {
    if |s| > 0 && IsWhitespace(s[|s| - 1]) then 1 + TrailingWhitespace(s[..|s| - 1]) else 0
  }

  /** `s.trim()`. */
  function Trim(s: string): (r: string)
    ensures IsTrimOf(s, r)
  {
    var a := LeadingWhitespace(s);
    if a == |s| then
      assert TrimAt(s, [], 0) by { assert AllWhitespace(s[..0]) && AllWhitespace(s[0..]); }
      []
    else
      var b := TrailingWhitespace(s);
      assert |s| - b > a;
      var r := s[a..|s| - b];
      assert TrimAt(s, r, a) by {
        assert r == s[a..a + |r|] && AllWhitespace(s[..a]) && AllWhitespace(s[a + |r|..]);
      }
      r
  }

  /** A whitespace prefix followed by a non-whitespace character is the whole leading whitespace. */
  lemma PrefixIsLeadingWhitespace(s: string, i: nat)
    requires i < |s| && AllWhitespace(s[..i]) && !IsWhitespace(s[i])
    ensures i == LeadingWhitespace(s)
  {
    var n := LeadingWhitespace(s);
  }

  /** A whitespace suffix preceded by a non-whitespace character is the whole trailing whitespace. */
  lemma SuffixIsTrailingWhitespace(s: string, j: nat)
    requires 0 < j <= |s| && AllWhitespace(s[j..]) && !IsWhitespace(s[j - 1])
    ensures j == |s| - TrailingWhitespace(s)
  {
  }

  /** A string around an empty trim is blank. */
  lemma BlankAroundEmptyTrim(s: string, i: nat)
    requires i <= |s| && AllWhitespace(s[..i]) && AllWhitespace(s[i..])
    ensures AllWhitespace(s)
  {
    forall k | 0 <= k < |s| ensures IsWhitespace(s[k]) {
      if k < i { assert s[..i][k] == s[k]; } else { assert s[i..][k - i] == s[k]; }
    }
  }

  /** Where a trim of s sits in s: nowhere when s is blank, else between the whitespace prefix and suffix. */
  lemma {:induction false} TrimSliceBounds(s: string, r: string, i: nat)
    requires TrimAt(s, r, i)
    ensures r == [] ==> AllWhitespace(s)
    ensures r != [] ==> i == LeadingWhitespace(s) && i + |r| == |s| - TrailingWhitespace(s)
  {
    if r == [] {
      BlankAroundEmptyTrim(s, i);
    } else {
      assert s[i] == r[0] && !IsWhitespace(s[i]);
      PrefixIsLeadingWhitespace(s, i);
      assert s[i + |r| - 1] == r[|r| - 1] && !IsWhitespace(s[i + |r| - 1]);
      SuffixIsTrailingWhitespace(s, i + |r|);
    }
  }

  /** The contract of Trim determines its result: there is only one trim of a string. */
  lemma TrimUnique(s: string, r1: string, r2: string)
    requires IsTrimOf(s, r1) && IsTrimOf(s, r2)
    ensures r1 == r2
  {
    var i1: nat :| TrimAt(s, r1, i1);
    var i2: nat :| TrimAt(s, r2, i2);
    TrimSliceBounds(s, r1, i1);
    TrimSliceBounds(s, r2, i2);
    assert r1 != [] ==> s[i1] == r1[0];
    assert r2 != [] ==> s[i2] == r2[0];
  }

  /** Trimming an already trimmed string changes nothing. */
  lemma TrimmedIsFixed(s: string)
    requires Trimmed(s)
    ensures Trim(s) == s
  {
    assert TrimAt(s, s, 0) by {
      assert s == s[0..0 + |s|] && AllWhitespace(s[..0]) && AllWhitespace(s[0 + |s|..]);
    }
    TrimUnique(s, Trim(s), s);
  }

  /** `trim` is idempotent. */
  lemma TrimIdempotent(s: string)
    ensures Trim(Trim(s)) == Trim(s)
  {
    TrimmedIsFixed(Trim(s));
  }

  /** Trim gives the empty string exactly when the input is all whitespace. */
  lemma TrimEmptyIffBlank(s: string)
    ensures Trim(s) == [] <==> AllWhitespace(s)
  {
    var r := Trim(s);
    var i: nat :| TrimAt(s, r, i);
    if r == [] {
      forall k | 0 <= k < |s| ensures IsWhitespace(s[k]) {
        if k < i { assert s[..i][k] == s[k]; } else { assert s[i..][k - i] == s[k]; }
      }
    } else {
      assert s[i] == r[0];
    }
  }

  /** A slice of the input keeps the input's absence of line terminators: Trim only removes characters. */
  lemma TrimKeepsCharacters(s: string)
    ensures forall c :: c in Trim(s) ==> c in s
  {
    var r := Trim(s);
    var i: nat :| TrimAt(s, r, i);
    forall k | 0 <= k < |r| ensures r[k] in s {
      assert r[k] == s[i + k];
    }
  }

  // ---------------------------------------------------------------------
  // The pattern /^#\s+(.+)$/m

  /** `^` with the multiline flag: the start of the text or just after a line terminator. */
  predicate AtLineStart(s: string, p: nat)
    requires p <= |s|
  {
    p == 0 || IsLineTerminator(s[p - 1])
  }

  /** Where the line containing position k ends: the first line terminator at or after k, or |s|. */
  function LineEnd(s: string, k: nat): (e: nat)
    requires k <= |s|
    ensures k <= e <= |s|
    ensures forall i :: k <= i < e ==> !IsLineTerminator(s[i])
    ensures e == |s| || IsLineTerminator(s[e])
    decreases |s| - k
  {
    if k == |s| || IsLineTerminator(s[k]) then k else LineEnd(s, k + 1)
  }

  /** Where the greedy `\s+` starting at k stops: the end of the whitespace run at k. */
  function WhitespaceRunEnd(s: string, k: nat): (q: nat)
    requires k <= |s|
    ensures k <= q <= |s|
    ensures forall i :: k <= i < q ==> IsWhitespace(s[i])
    ensures q == |s| || !IsWhitespace(s[q])
    decreases |s| - k
  {
    if k == |s| || !IsWhitespace(s[k]) then k else WhitespaceRunEnd(s, k + 1)
  }

  /**
   * Backtracking of `\s+`: the largest k in [lo, hi] at which `.+` can start
   * (a character that is not a line terminator), trying hi first.
   */
  function LastContentStart(s: string, lo: nat, hi: nat): (r: Option<nat>)
    requires lo <= hi <= |s|
    ensures r.Some? ==> lo <= r.value <= hi && r.value < |s| && !IsLineTerminator(s[r.value])
    ensures r.Some? ==> forall k :: r.value < k <= hi && k < |s| ==> IsLineTerminator(s[k])
    ensures r.None? ==> forall k :: lo <= k <= hi && k < |s| ==> IsLineTerminator(s[k])
    decreases hi - lo
  {
    if hi < |s| && !IsLineTerminator(s[hi]) then Some(hi)
    else if hi == lo then None
    else LastContentStart(s, lo, hi - 1)
  }

  /**
   * The pattern matches at p with `\s+` covering s[p+1..k] and the group
   * `(.+)` covering s[k..e]: the definition of a match, read off the pattern.
   */
  ghost predicate PatternMatch(s: string, p: nat, k: nat, e: nat) {
    && p + 1 < k < e <= |s|
    && AtLineStart(s, p)
    && s[p] == '#'
    && (forall i :: p + 1 <= i < k ==> IsWhitespace(s[i]))
    && (forall i :: k <= i < e ==> !IsLineTerminator(s[i]))
    && (e == |s| || IsLineTerminator(s[e]))
  }

  /** The capture of group 1 when the engine tries the pattern at position p, if it matches there. */
  function MatchAt(s: string, p: nat): (r: Option<string>)
    requires p <= |s|
    ensures r.Some? ==> p < |s| && AtLineStart(s, p) && s[p] == '#'
    ensures r.Some? ==> r.value != [] && forall i :: 0 <= i < |r.value| ==> !IsLineTerminator(r.value[i])
  {
    if !AtLineStart(s, p) || p == |s| || s[p] != '#' then None
    else
      var q := WhitespaceRunEnd(s, p + 1);
      if q == p + 1 then None
      else
        match LastContentStart(s, p + 2, q)
        case None => None
        case Some(k) => Some(s[k..LineEnd(s, k)])
  }

  /**
   * What MatchAt returns is a match of the pattern, and the one the greedy
   * `\s+` prefers: no match at p has a longer `\s+` part.
   */
  lemma MatchAtSound(s: string, p: nat)
    requires p <= |s| && MatchAt(s, p).Some?
    ensures exists k: nat, e: nat ::
              && PatternMatch(s, p, k, e) && MatchAt(s, p).value == s[k..e]
              && (forall k': nat, e': nat :: PatternMatch(s, p, k', e') ==> k' <= k)
  {
    var q := WhitespaceRunEnd(s, p + 1);
    var k := LastContentStart(s, p + 2, q).value;
    var e := LineEnd(s, k);
    assert PatternMatch(s, p, k, e);
    forall k': nat, e': nat | PatternMatch(s, p, k', e') ensures k' <= k {
      assert k' <= q;
      assert !IsLineTerminator(s[k']);
    }
  }

  /** Whenever the pattern can match at p, MatchAt finds a match there. */
  lemma MatchAtComplete(s: string, p: nat, k: nat, e: nat)
    requires PatternMatch(s, p, k, e)
    ensures MatchAt(s, p).Some?
  {
    var q := WhitespaceRunEnd(s, p + 1);
    assert q >= p + 2 by { assert IsWhitespace(s[p + 1]); }
    if k <= q {
      assert !IsLineTerminator(s[k]);
    }
  }

  /**
   * `String.prototype.match` without the global flag: the first position,
   * from `from` on, at which the pattern matches.
   */
  function FirstMatchFrom(s: string, from: nat): (r: Option<nat>)
    requires from <= |s|
    ensures r.Some? ==> from <= r.value <= |s| && MatchAt(s, r.value).Some?
    ensures r.Some? ==> forall p :: from <= p < r.value ==> MatchAt(s, p).None?
    ensures r.None? ==> forall p :: from <= p <= |s| ==> MatchAt(s, p).None?
    decreases |s| - from
  {
    if MatchAt(s, from).Some? then Some(from)
    else if from == |s| then None
    else FirstMatchFrom(s, from + 1)
  }

  /** The title `aiCreateNote` stores for the (already trimmed) generated text. */
  function DeriveTitle(markdown: string): (t: string)
    ensures (forall p :: 0 <= p <= |markdown| ==> MatchAt(markdown, p).None?) ==> t == FallbackTitle
    ensures Trimmed(t)
    ensures forall c :: c in t ==> !IsLineTerminator(c)
  {
    match FirstMatchFrom(markdown, 0)
    case None => FallbackTitle
    case Some(p) =>
      var line := MatchAt(markdown, p).value;
      TrimKeepsCharacters(line);
      Trim(line)
  }

  /** With no match of the pattern anywhere, the title is exactly the fallback. */
  lemma NoMatchGivesFallback(s: string)
    requires forall p: nat, k: nat, e: nat :: !PatternMatch(s, p, k, e)
    ensures DeriveTitle(s) == FallbackTitle
  {
    match FirstMatchFrom(s, 0)
    case None =>
    case Some(p) =>
      MatchAtSound(s, p);
      assert false;
  }

  /** A `#` followed by another `#`, by a non-whitespace character or by nothing never starts a match. */
  lemma HashWithoutSpaceNeverMatches(s: string, p: nat)
    requires p + 1 <= |s| && s[p] == '#'
    requires p + 1 == |s| || !IsWhitespace(s[p + 1])
    ensures MatchAt(s, p).None?
    ensures forall k: nat, e: nat :: !PatternMatch(s, p, k, e)
  {
    forall k: nat, e: nat | PatternMatch(s, p, k, e) ensures false {
    }
    if MatchAt(s, p).Some? {
      MatchAtSound(s, p);
    }
  }

  // ---------------------------------------------------------------------
  // On trimmed text (what aiCreateNote scans) the pattern is a plain
  // line test: a line starting with `#` and a whitespace character.

  /** Line p starts with `#` followed by a whitespace character. */
  predicate HeadingAt(s: string, p: nat)
    requires p <= |s|
  {
    p + 1 < |s| && AtLineStart(s, p) && s[p] == '#' && IsWhitespace(s[p + 1])
  }

  /**
   * The heading text of the `#` at p: from the first non-whitespace character
   * after it to the end of that character's line, trimmed. That line may
   * come after line p, since `\s+` crosses line breaks.
   */
  function HeadingText(s: string, p: nat): string
    requires p + 1 <= |s|
  {
    var k := WhitespaceRunEnd(s, p + 1);
    Trim(s[k..LineEnd(s, k)])
  }

  /** On trimmed text, MatchAt succeeds exactly at heading lines, and needs no backtracking. */
  lemma TrimmedMatchAt(s: string, p: nat)
    requires Trimmed(s) && p <= |s|
    ensures MatchAt(s, p).Some? <==> HeadingAt(s, p)
    ensures HeadingAt(s, p) ==>
      var k := WhitespaceRunEnd(s, p + 1);
      k < |s| && !IsWhitespace(s[k]) && MatchAt(s, p) == Some(s[k..LineEnd(s, k)])
  {
    if p < |s| && s[p] == '#' && AtLineStart(s, p) && p + 1 < |s| && IsWhitespace(s[p + 1]) {
      var q := WhitespaceRunEnd(s, p + 1);
      assert !IsLineTerminator(s[q]);
    }
  }

  /** On trimmed text without a heading line, the title is exactly the fallback. */
  lemma NoHeadingGivesFallback(s: string)
    requires Trimmed(s)
    requires forall p :: 0 <= p <= |s| ==> !HeadingAt(s, p)
    ensures DeriveTitle(s) == FallbackTitle
  {
    match FirstMatchFrom(s, 0)
    case None =>
    case Some(p) =>
      TrimmedMatchAt(s, p);
      assert false;
  }

  /**
   * On trimmed text, the title comes from the first heading: it is that
   * heading's text, it is not empty, holds no line break, and trimming it
   * again changes nothing.
   */
  lemma FirstHeadingGivesTitle(s: string, p: nat)
    requires Trimmed(s) && p <= |s| && HeadingAt(s, p)
    requires forall p' :: 0 <= p' < p ==> !HeadingAt(s, p')
    ensures DeriveTitle(s) == HeadingText(s, p)
    ensures DeriveTitle(s) != []
    ensures forall c :: c in DeriveTitle(s) ==> !IsLineTerminator(c)
    ensures Trim(DeriveTitle(s)) == DeriveTitle(s)
  {
    var r := FirstMatchFrom(s, 0);
    TrimmedMatchAt(s, p);
    assert r.Some?;
    TrimmedMatchAt(s, r.value);
    assert r.value == p;
    var k := WhitespaceRunEnd(s, p + 1);
    var line := s[k..LineEnd(s, k)];
    assert line[0] == s[k];
    TrimEmptyIffBlank(line);
    TrimKeepsCharacters(line);
    TrimIdempotent(line);
  }

  /** On trimmed text the title is never empty and never spans lines, whichever rule supplied it. */
  lemma TitleIsOneNonEmptyLine(s: string)
    requires Trimmed(s)
    ensures DeriveTitle(s) != []
    ensures forall c :: c in DeriveTitle(s) ==> !IsLineTerminator(c)
    ensures Trim(DeriveTitle(s)) == DeriveTitle(s)
  {
    match FirstMatchFrom(s, 0)
    case None =>
      assert forall c :: c in FallbackTitle ==> c in "AI Generated Note";
      TrimmedIsFixed(FallbackTitle);
    case Some(p) =>
      TrimmedMatchAt(s, p);
      forall p' | 0 <= p' < p ensures !HeadingAt(s, p') {
        TrimmedMatchAt(s, p');
      }
      FirstHeadingGivesTitle(s, p);
  }
}

/**
 * The one regular expression of the resolver, `MESSAGE_PARAMS_PATTERN`:
 *
 *   \{ \s* ( (?:p\d+|r) (\.[\w\[\]\(\)]+)* ) \s* }
 *
 * written out as a hand-coded matcher.  Character classes follow java.util.regex
 * without UNICODE_CHARACTER_CLASS: `\s` is [ \t\n\x0B\f\r], `\d` is [0-9] and `\w`
 * is [a-zA-Z_0-9].  Every quantifier in the pattern is followed by something its
 * own characters cannot match, so backtracking never changes the outcome and the
 * greedy scan below is the regex's match.  `IsReferenceAt` states the pattern
 * declaratively; `MatchPrefix` is proved sound and complete against it.
 */
module MessageParamsPattern {
  import opened Wrappers

  predicate IsRegexSpace(c: char) {
    c == ' ' || c == '\t' || c == '\n' || c == '\U{000B}' || c == '\U{000C}' || c == '\r'
  }

  predicate IsDigit(c: char) {
    '0' <= c <= '9'
  }

  predicate IsWordChar(c: char) {
    'a' <= c <= 'z' || 'A' <= c <= 'Z' || IsDigit(c) || c == '_'
  }

  /** The class `[\w\[\]\(\)]` of one member accessor. */
  predicate IsAccessorChar(c: char) {
    IsWordChar(c) || c == '[' || c == ']' || c == '(' || c == ')'
  }

  /** `(?:p\d+|r)`: a positional parameter marker or the result marker. */
  predicate IsRootMarker(s: string) {
    s == "r" || (|s| >= 2 && s[0] == 'p' && forall k :: 1 <= k < |s| ==> IsDigit(s[k]))
  }

  /**
   * `(\.[\w\[\]\(\)]+)*`: only dots and accessor characters, empty or starting
   * with a dot, never two dots in a row and never ending with a dot.
   */
  predicate IsAccessorChain(s: string) {
    && (forall k :: 0 <= k < |s| ==> s[k] == '.' || IsAccessorChar(s[k]))
    && (|s| > 0 ==> s[0] == '.' && s[|s| - 1] != '.')
    && (forall j, k :: 0 <= j < k < |s| && s[j] == '.' && s[k] == '.' ==> j + 1 < k)
  }

  /** Group 1 of the pattern: a root marker followed by an accessor chain. */
  predicate IsReferenceExpression(e: string) {
    exists k :: 0 < k <= |e| && SplitsAt(e, k)
  }

  /** `e` is the root marker `e[..k]` followed by the accessor chain `e[k..]`. */
  predicate SplitsAt(e: string, k: nat) {
    0 < k <= |e| && IsRootMarker(e[..k]) && IsAccessorChain(e[k..])
  }

  /** The three character classes the pattern repeats: `\s`, `\d` and `[\w\[\]\(\)]`. */
  datatype CharClass = Space | Digit | Accessor

  predicate InClass(c: char, cl: CharClass) {
    match cl
    case Space => IsRegexSpace(c)
    case Digit => IsDigit(c)
    case Accessor => IsAccessorChar(c)
  }

  /** A match: `start` and `end` bound the whole `{...}`, the expression is group 1. */
  datatype Span = Span(start: nat, exprStart: nat, exprEnd: nat, end: nat)

  /** Every character of `w` is a `\s`. */
  predicate AllSpaces(w: string) {
    forall k :: 0 <= k < |w| ==> IsRegexSpace(w[k])
  }

  /**
   * The whole pattern matches all of `w`, with group 1 at `w[a..c]`: an opening
   * brace, whitespace, the expression, whitespace, a closing brace.
   */
  predicate IsReferenceText(w: string, a: nat, c: nat) {
    && 0 < a < c < |w|
    && w[0] == '{'
    && AllSpaces(w[1..a])
    && IsReferenceExpression(w[a..c])
    && AllSpaces(w[c..|w| - 1])
    && w[|w| - 1] == '}'
  }

  /** The whole pattern matches `s[sp.start..sp.end]` with group 1 at `s[sp.exprStart..sp.exprEnd]`. */
  predicate IsReferenceAt(s: string, sp: Span) {
    && sp.start < sp.exprStart < sp.exprEnd < sp.end <= |s|
    && IsReferenceText(s[sp.start..sp.end], sp.exprStart - sp.start, sp.exprEnd - sp.start)
  }

  /** `IsReferenceAt` read off character by character. */
  lemma ReferenceAtIff(s: string, sp: Span)
    requires sp.start < sp.exprStart < sp.exprEnd < sp.end <= |s|
    ensures IsReferenceAt(s, sp) <==>
              && s[sp.start] == '{'
              && (forall k :: sp.start < k < sp.exprStart ==> IsRegexSpace(s[k]))
              && IsReferenceExpression(s[sp.exprStart..sp.exprEnd])
              && (forall k :: sp.exprEnd <= k < sp.end - 1 ==> IsRegexSpace(s[k]))
              && s[sp.end - 1] == '}'
  {
    if IsReferenceAt(s, sp) {
      ReferenceAtFacts(s, sp);
    }
    if && s[sp.start] == '{'
       && (forall k :: sp.start < k < sp.exprStart ==> IsRegexSpace(s[k]))
       && IsReferenceExpression(s[sp.exprStart..sp.exprEnd])
       && (forall k :: sp.exprEnd <= k < sp.end - 1 ==> IsRegexSpace(s[k]))
       && s[sp.end - 1] == '}'
    {
      ReferenceAtOfFacts(s, sp);
    }
  }

  lemma ReferenceAtFacts(s: string, sp: Span)
    requires IsReferenceAt(s, sp)
    ensures s[sp.start] == '{' && s[sp.end - 1] == '}'
    ensures forall k :: sp.start < k < sp.exprStart ==> IsRegexSpace(s[k])
    ensures IsReferenceExpression(s[sp.exprStart..sp.exprEnd])
    ensures forall k :: sp.exprEnd <= k < sp.end - 1 ==> IsRegexSpace(s[k])
  {
    FactsOfWindow(s, sp);
    WindowExpression(s, sp.start, sp.end, sp.exprStart, sp.exprEnd);
  }

  /** A reference expression in a window of the text is one in the text. */
  lemma WindowExpression(s: string, x: nat, y: nat, a: nat, b: nat)
    requires x <= a <= b <= y <= |s|
    requires IsReferenceExpression(s[x..y][a - x..b - x])
    ensures IsReferenceExpression(s[a..b])
  {
    SliceOfSlice(s, x, y, a - x, b - x);
  }

  lemma ReferenceAtOfFacts(s: string, sp: Span)
    requires sp.start < sp.exprStart < sp.exprEnd < sp.end <= |s|
    requires s[sp.start] == '{' && s[sp.end - 1] == '}'
    requires forall k :: sp.start < k < sp.exprStart ==> IsRegexSpace(s[k])
    requires IsReferenceExpression(s[sp.exprStart..sp.exprEnd])
    requires forall k :: sp.exprEnd <= k < sp.end - 1 ==> IsRegexSpace(s[k])
    ensures IsReferenceAt(s, sp)
  {
    WindowOfFacts(s, sp);
    ExpressionInWindow(s, sp.start, sp.end, sp.exprStart, sp.exprEnd);
  }

  /** The braces and the whitespace around group 1 of the window, read off the text. */
  lemma FactsOfWindow(s: string, sp: Span)
    requires sp.start < sp.exprStart < sp.exprEnd < sp.end <= |s|
    requires var w := s[sp.start..sp.end];
      && w[0] == '{' && w[|w| - 1] == '}'
      && AllSpaces(w[1..sp.exprStart - sp.start])
      && AllSpaces(w[sp.exprEnd - sp.start..|w| - 1])
    ensures s[sp.start] == '{' && s[sp.end - 1] == '}'
    ensures forall k :: sp.start < k < sp.exprStart ==> IsRegexSpace(s[k])
    ensures forall k :: sp.exprEnd <= k < sp.end - 1 ==> IsRegexSpace(s[k])
  {
    var w := s[sp.start..sp.end];
    SpacesOfWindow(s, sp.start, sp.end, 1, sp.exprStart - sp.start);
    SpacesOfWindow(s, sp.start, sp.end, sp.exprEnd - sp.start, |w| - 1);
    assert w[0] == s[sp.start] && w[|w| - 1] == s[sp.end - 1];
  }

  /** The braces and the whitespace around group 1, read off the window of the match. */
  lemma WindowOfFacts(s: string, sp: Span)
    requires sp.start < sp.exprStart < sp.exprEnd < sp.end <= |s|
    requires s[sp.start] == '{' && s[sp.end - 1] == '}'
    requires forall k :: sp.start < k < sp.exprStart ==> IsRegexSpace(s[k])
    requires forall k :: sp.exprEnd <= k < sp.end - 1 ==> IsRegexSpace(s[k])
    ensures var w := s[sp.start..sp.end];
      && w[0] == '{' && w[|w| - 1] == '}'
      && AllSpaces(w[1..sp.exprStart - sp.start])
      && AllSpaces(w[sp.exprEnd - sp.start..|w| - 1])
  {
    var w := s[sp.start..sp.end];
    SpacesInWindow(s, sp.start, sp.end, 1, sp.exprStart - sp.start);
    SpacesInWindow(s, sp.start, sp.end, sp.exprEnd - sp.start, |w| - 1);
  }

  /** A reference expression in the text is one in any window around it. */
  lemma ExpressionInWindow(s: string, x: nat, y: nat, a: nat, b: nat)
    requires x <= a <= b <= y <= |s|
    requires IsReferenceExpression(s[a..b])
    ensures IsReferenceExpression(s[x..y][a - x..b - x])
  {
    SliceOfSlice(s, x, y, a - x, b - x);
  }

  /** Whitespace in a window of the text is whitespace in the text. */
  lemma SpacesOfWindow(s: string, x: nat, y: nat, i: nat, j: nat)
    requires x <= y <= |s| && i <= j <= y - x
    requires AllSpaces(s[x..y][i..j])
    ensures forall k :: x + i <= k < x + j ==> IsRegexSpace(s[k])
  {
    WindowSpaces(s, x, y, i, j);
  }

  /** Whitespace in the text is whitespace in any window of it. */
  lemma SpacesInWindow(s: string, x: nat, y: nat, i: nat, j: nat)
    requires x <= y <= |s| && i <= j <= y - x
    requires forall k :: x + i <= k < x + j ==> IsRegexSpace(s[k])
    ensures AllSpaces(s[x..y][i..j])
  {
    WindowSpaces(s, x, y, i, j);
  }

  lemma WindowSpaces(s: string, x: nat, y: nat, i: nat, j: nat)
    requires x <= y <= |s| && i <= j <= y - x
    ensures AllSpaces(s[x..y][i..j]) <==> forall k :: x + i <= k < x + j ==> IsRegexSpace(s[k])
  {
    SliceOfSlice(s, x, y, i, j);
    SpacesOfSlice(s, x + i, x + j);
  }

  lemma SpacesOfSlice(s: string, lo: nat, hi: nat)
    requires lo <= hi <= |s|
    ensures AllSpaces(s[lo..hi]) <==> forall k :: lo <= k < hi ==> IsRegexSpace(s[k])
  {
    assert forall k :: lo <= k < hi ==> s[lo..hi][k - lo] == s[k];
  }

  function Shift(sp: Span, d: nat): (r: Span)
    ensures r.end - r.start == sp.end - sp.start
  {
    Span(sp.start + d, sp.exprStart + d, sp.exprEnd + d, sp.end + d)
  }

  /** The greedy `cl*` starting at `i`: the first index at or after `i` whose character is not in class `cl`. */
  function SkipWhile(s: string, i: nat, cl: CharClass): (j: nat)
    requires i <= |s|
    ensures i <= j <= |s|
    decreases |s| - i
  {
    if i < |s| && InClass(s[i], cl) then SkipWhile(s, i + 1, cl) else i
  }

  /** `SkipWhile` passes only characters in class `cl` and stops at one outside it, or at the end. */
  lemma {:induction false} SkipWhileSpec(s: string, i: nat, cl: CharClass)
    requires i <= |s|
    ensures forall k :: i <= k < SkipWhile(s, i, cl) ==> InClass(s[k], cl)
    ensures SkipWhile(s, i, cl) < |s| ==> !InClass(s[SkipWhile(s, i, cl)], cl)
    decreases |s| - i
  {
    if i < |s| && InClass(s[i], cl) {
      SkipWhileSpec(s, i + 1, cl);
    }
  }

  /** Conversely, wherever a run of `cl` characters begun at `i` ends, `SkipWhile` stops there. */
  lemma {:induction false} SkipWhileStops(s: string, i: nat, cl: CharClass, j: nat)
    requires i <= j <= |s| && (forall k :: i <= k < j ==> InClass(s[k], cl)) && (j < |s| ==> !InClass(s[j], cl))
    ensures SkipWhile(s, i, cl) == j
    decreases j - i
  {
    if i < j {
      SkipWhileStops(s, i + 1, cl, j);
    }
  }

  /** The end of `(?:p\d+|r)` starting at `i`, if it matches there (the `p` branch is tried first). */
  function RootEnd(s: string, i: nat): (r: Option<nat>)
    requires i <= |s|
    ensures r.Some? ==> i < r.value <= |s|
  {
    if i < |s| && s[i] == 'p' then
      var j := SkipWhile(s, i + 1, Digit);
      if j > i + 1 then Some(j) else None
    else if i < |s| && s[i] == 'r' then
      Some(i + 1)
    else
      None
  }

  /** The root scan consumes a root marker, and all of its digits. */
  lemma RootEndIsMarker(s: string, i: nat)
    requires i <= |s| && RootEnd(s, i).Some?
    ensures IsRootMarker(s[i..RootEnd(s, i).value])
    ensures s[i] == 'p' && RootEnd(s, i).value < |s| ==> !IsDigit(s[RootEnd(s, i).value])
  {
    if s[i] == 'p' {
      SkipWhileSpec(s, i + 1, Digit);
    }
  }

  /** The end of the greedy `(\.[\w\[\]\(\)]+)*` starting at `i`. */
  function ChainEnd(s: string, i: nat): (j: nat)
    requires i <= |s|
    ensures i <= j <= |s|
    decreases |s| - i
  {
    if i + 1 < |s| && s[i] == '.' && IsAccessorChar(s[i + 1]) then
      ChainEnd(s, SkipWhile(s, i + 1, Accessor))
    else
      i
  }

  /** The chain scan consumes an accessor chain, and stops only where no further accessor can start. */
  lemma {:induction false} ChainEndIsChain(s: string, i: nat)
    requires i <= |s|
    ensures IsAccessorChain(s[i..ChainEnd(s, i)])
    ensures var j := ChainEnd(s, i); j < |s| && s[j] == '.' ==> j + 1 == |s| || !IsAccessorChar(s[j + 1])
    decreases |s| - i
  {
    if i + 1 < |s| && s[i] == '.' && IsAccessorChar(s[i + 1]) {
      var m := SkipWhile(s, i + 1, Accessor);
      SkipWhileSpec(s, i + 1, Accessor);
      ChainEndIsChain(s, m);
      ChainCons(s, i, m, ChainEnd(s, m));
    }
  }

  /** One accessor `.xyz` in front of a chain is again a chain. */
  lemma ChainCons(s: string, i: nat, m: nat, j: nat)
    requires i + 1 < m <= j <= |s|
    requires s[i] == '.' && forall k :: i < k < m ==> IsAccessorChar(s[k])
    requires IsAccessorChain(s[m..j])
    ensures IsAccessorChain(s[i..j])
  {
    var x, y := s[i..j], s[m..j];
    assert forall k :: 0 <= k < |x| ==> x[k] == s[i + k];
    assert forall k :: 0 <= k < |y| ==> y[k] == s[m + k];
    assert forall k :: 0 <= k < |x| ==> x[k] == '.' || IsAccessorChar(x[k]);
    assert x[|x| - 1] != '.';
  }

  /** The pattern anchored at the first character of `s`; the span is relative to `s`. */
  function MatchPrefix(s: string): (r: Option<Span>)
    ensures r.Some? ==> r.value.start == 0 < r.value.exprStart < r.value.exprEnd < r.value.end <= |s|
  {
    if |s| > 0 && s[0] == '{' then
      var a := SkipWhile(s, 1, Space);
      match RootEnd(s, a)
      case None => None
      case Some(b) =>
        var c := ChainEnd(s, b);
        var d := SkipWhile(s, c, Space);
        if d < |s| && s[d] == '}' then Some(Span(0, a, c, d + 1)) else None
    else
      None
  }

  /** What the matcher reports is an occurrence of the pattern. */
  lemma MatchPrefixSound(s: string)
    requires MatchPrefix(s).Some?
    ensures IsReferenceAt(s, MatchPrefix(s).value)
  {
    var a := SkipWhile(s, 1, Space);
    var b := RootEnd(s, a).value;
    var c := ChainEnd(s, b);
    var d := SkipWhile(s, c, Space);
    assert MatchPrefix(s) == Some(Span(0, a, c, d + 1));
    SkipWhileSpec(s, 1, Space);
    SkipWhileSpec(s, c, Space);
    ScannedExpression(s, a);
    ReferenceAtOfFacts(s, Span(0, a, c, d + 1));
  }

  /** The root scan followed by the chain scan consumes a reference expression. */
  lemma ScannedExpression(s: string, a: nat)
    requires a <= |s| && RootEnd(s, a).Some?
    ensures IsReferenceExpression(s[a..ChainEnd(s, RootEnd(s, a).value)])
  {
    var b := RootEnd(s, a).value;
    RootEndIsMarker(s, a);
    ChainEndIsChain(s, b);
    ExpressionOfParts(s, a, b, ChainEnd(s, b));
  }

  /** A root marker followed by an accessor chain is a reference expression. */
  lemma ExpressionOfParts(s: string, a: nat, b: nat, c: nat)
    requires a < b <= c <= |s|
    requires IsRootMarker(s[a..b]) && IsAccessorChain(s[b..c])
    ensures IsReferenceExpression(s[a..c])
  {
    CutSlice(s, a, c, b - a);
    assert SplitsAt(s[a..c], b - a);
  }

  /** `Matcher` tried at index `i` of `t`: the span of the match that starts there, if any. */
  function MatchAt(t: string, i: nat): (r: Option<Span>)
    requires i <= |t|
    ensures r.Some? ==> r.value.start == i < r.value.exprStart < r.value.exprEnd < r.value.end <= |t|
  {
    match MatchPrefix(t[i..])
    case None => None
    case Some(m) => Some(Shift(m, i))
  }

  /** What `MatchAt` reports is an occurrence of the pattern. */
  lemma MatchAtSound(t: string, i: nat)
    requires i <= |t| && MatchAt(t, i).Some?
    ensures IsReferenceAt(t, MatchAt(t, i).value)
  {
    MatchPrefixSound(t[i..]);
    ShiftedReference(t, i, MatchPrefix(t[i..]).value);
  }

  /** A match read inside a suffix is the same match read in the whole text, moved by the suffix's offset. */
  lemma ShiftedReference(t: string, i: nat, m: Span)
    requires i <= |t|
    ensures IsReferenceAt(t[i..], m) <==> IsReferenceAt(t, Shift(m, i))
  {
    if m.start <= m.end <= |t| - i {
      assert t[i..][m.start..m.end] == t[i + m.start..i + m.end];
    }
  }

  /** Every character of a reference expression is a dot or an accessor character. */
  lemma {:induction false} ReferenceExpressionChars(e: string)
    requires IsReferenceExpression(e)
    ensures |e| > 0 && (e[0] == 'p' || e[0] == 'r')
    ensures forall k :: 0 <= k < |e| ==> e[k] == '.' || IsAccessorChar(e[k])
  {
    var r :| 0 < r <= |e| && SplitsAt(e, r);
    assert e[0] == e[..r][0];
    forall k | 0 <= k < |e| ensures e[k] == '.' || IsAccessorChar(e[k]) {
      if k < r {
        assert e[k] == e[..r][k];
      } else {
        assert e[k] == e[r..][k - r];
      }
    }
  }

  /** Inside a match, no character after the opening one is `{`. */
  lemma NoOpenBraceInside(s: string, sp: Span, k: nat)
    requires IsReferenceAt(s, sp) && sp.start < k < sp.end
    ensures s[k] != '{'
  {
    var w := s[sp.start..sp.end];
    NoOpenBraceInText(w, sp.exprStart - sp.start, sp.exprEnd - sp.start, k - sp.start);
    assert s[k] == w[k - sp.start];
  }

  /** The same, read inside the matched text itself. */
  lemma NoOpenBraceInText(w: string, a: nat, c: nat, i: nat)
    requires IsReferenceText(w, a, c) && 0 < i < |w|
    ensures w[i] != '{'
  {
    if i < a {
      assert w[i] == w[1..a][i - 1];
    } else if i < c {
      ReferenceExpressionChars(w[a..c]);
      assert w[i] == w[a..c][i - a];
    } else if i < |w| - 1 {
      assert w[i] == w[c..|w| - 1][i - c];
    }
  }

  /** A greedy chain scan stops exactly where a chain ends before a character that cannot extend it. */
  lemma {:induction false} ChainEndOfChain(s: string, b: nat, c: nat)
    requires b <= c < |s|
    requires IsAccessorChain(s[b..c])
    requires s[c] != '.' && !IsAccessorChar(s[c])
    ensures ChainEnd(s, b) == c
    decreases c - b
  {
    var x := s[b..c];
    if b < c {
      assert s[b] == x[0] == '.';
      assert x[|x| - 1] != '.';
      assert b + 1 < c;
      assert s[b + 1] == x[1];
      var m := SkipWhile(s, b + 1, Accessor);
      SkipWhileSpec(s, b + 1, Accessor);
      assert m <= c;
      assert m < c ==> s[m] == x[m - b] == '.';
      var y := s[m..c];
      forall k | 0 <= k < |y| ensures y[k] == x[k + m - b] {}
      assert IsAccessorChain(y);
      ChainEndOfChain(s, m, c);
    }
  }

  /** A root marker followed by a non-digit is exactly what the root scan consumes. */
  lemma RootEndOfMarker(s: string, a: nat, b: nat)
    requires a < b < |s| && IsRootMarker(s[a..b]) && !IsDigit(s[b])
    ensures RootEnd(s, a) == Some(b)
  {
    assert s[a] == s[a..b][0];
    if s[a] == 'p' {
      assert forall k :: a + 1 <= k < b ==> s[k] == s[a..b][k - a];
      SkipWhileStops(s, a + 1, Digit, b);
    } else {
      assert |s[a..b]| == 1;
    }
  }

  /** On a reference expression followed by a non-digit, the root scan ends where the chain begins. */
  lemma RootOfExpression(s: string, a: nat, c: nat) returns (b: nat)
    requires a < c < |s| && IsReferenceExpression(s[a..c])
    requires s[c] != '.' && !IsAccessorChar(s[c])
    ensures a < b <= c && RootEnd(s, a) == Some(b) && IsAccessorChain(s[b..c])
  {
    b := SplitExpression(s, a, c);
    assert !IsDigit(s[b]) by {
      if b < c {
        assert s[b] == s[b..c][0];
      }
    }
    RootEndOfMarker(s, a, b);
  }

  /** A reference expression inside `s` splits into its root marker and its accessor chain. */
  lemma SplitExpression(s: string, a: nat, c: nat) returns (b: nat)
    requires a < c <= |s| && IsReferenceExpression(s[a..c])
    ensures a < b <= c && IsRootMarker(s[a..b]) && IsAccessorChain(s[b..c])
  {
    var e := s[a..c];
    var r :| 0 < r <= |e| && SplitsAt(e, r);
    SplitAt(s, a, c, r);
    b := a + r;
  }

  /** The split of `s[a..c]` after `r` characters, read in `s` itself. */
  lemma SplitAt(s: string, a: nat, c: nat, r: nat)
    requires a <= c <= |s| && r <= c - a
    requires IsRootMarker(s[a..c][..r]) && IsAccessorChain(s[a..c][r..])
    ensures IsRootMarker(s[a..a + r]) && IsAccessorChain(s[a + r..c])
  {
    CutSlice(s, a, c, r);
  }

  /** Cutting a slice `r` characters in gives the two slices of the whole on either side. */
  lemma CutSlice(s: string, a: nat, c: nat, r: nat)
    requires a <= c <= |s| && r <= c - a
    ensures s[a..c][..r] == s[a..a + r] && s[a..c][r..] == s[a + r..c]
  {
    var e := s[a..c];
    assert |e[..r]| == |s[a..a + r]|;
    forall k | 0 <= k < r ensures e[..r][k] == s[a..a + r][k] {
      assert e[..r][k] == e[k] == s[a + k];
    }
    assert |e[r..]| == |s[a + r..c]|;
    forall k | 0 <= k < c - a - r ensures e[r..][k] == s[a + r..c][k] {
      assert e[r..][k] == e[r + k] == s[a + r + k];
    }
  }

  /** A slice of a slice is a slice of the whole. */
  lemma SliceOfSlice(s: string, x: nat, y: nat, i: nat, j: nat)
    requires x <= y <= |s| && i <= j <= y - x
    ensures s[x..y][i..j] == s[x + i..x + j]
  {
    var l, r := s[x..y][i..j], s[x + i..x + j];
    assert |l| == |r|;
    forall k | 0 <= k < |l| ensures l[k] == r[k] {
      assert l[k] == s[x..y][i + k] == s[x + i + k];
    }
  }

  /** The matcher finds every occurrence of the pattern that starts at the first character. */
  lemma MatchPrefixComplete(s: string, sp: Span)
    requires sp.start == 0 && IsReferenceAt(s, sp)
    ensures MatchPrefix(s) == Some(sp)
  {
    ReferenceAtFacts(s, sp);
    MatchPrefixOfParts(s, sp.exprStart, sp.exprEnd, sp.end - 1);
  }

  lemma MatchPrefixOfParts(s: string, a: nat, c: nat, d: nat)
    requires 0 < a < c <= d < |s| && s[0] == '{' && s[d] == '}'
    requires forall k :: 0 < k < a ==> IsRegexSpace(s[k])
    requires IsReferenceExpression(s[a..c])
    requires forall k :: c <= k < d ==> IsRegexSpace(s[k])
    ensures MatchPrefix(s) == Some(Span(0, a, c, d + 1))
  {
    assert s[a] == 'p' || s[a] == 'r' by {
      ReferenceExpressionChars(s[a..c]);
      assert s[a] == s[a..c][0];
    }
    SkipWhileStops(s, 1, Space, a);
    SkipWhileStops(s, c, Space, d);
    assert s[c] != '.' && !IsAccessorChar(s[c]);
    var b := RootOfExpression(s, a, c);
    ChainEndOfChain(s, b, c);
  }

  /** `MatchAt` is exactly the pattern: it reports a span iff the pattern matches there. */
  lemma MatchAtComplete(t: string, sp: Span)
    requires IsReferenceAt(t, sp)
    ensures MatchAt(t, sp.start) == Some(sp)
  {
    var m := Span(0, sp.exprStart - sp.start, sp.exprEnd - sp.start, sp.end - sp.start);
    assert Shift(m, sp.start) == sp;
    ShiftedReference(t, sp.start, m);
    MatchPrefixComplete(t[sp.start..], m);
  }

  /** At most one match starts at a given index: it ends at the first `}` after it. */
  lemma MatchIsUnique(t: string, sp1: Span, sp2: Span)
    requires IsReferenceAt(t, sp1) && IsReferenceAt(t, sp2) && sp1.start == sp2.start
    ensures sp1 == sp2
  {
    MatchAtComplete(t, sp1);
    MatchAtComplete(t, sp2);
  }

  /** The same characters at another position of another text form the same reference. */
  lemma ReferenceMoves(t: string, sp: Span, u: string, sp': Span)
    requires IsReferenceAt(t, sp)
    requires sp'.exprStart - sp'.start == sp.exprStart - sp.start
    requires sp'.exprEnd - sp'.start == sp.exprEnd - sp.start
    requires sp'.end - sp'.start == sp.end - sp.start
    requires sp'.end <= |u| && u[sp'.start..sp'.end] == t[sp.start..sp.end]
    ensures IsReferenceAt(u, sp')
  {
  }

  /**
   * The pattern depends only on the characters of the match: the same characters
   * anywhere in another text match there too.
   */
  lemma MatchIsLocal(t: string, sp: Span, u: string, k: nat)
    requires sp.start <= |t| && MatchAt(t, sp.start) == Some(sp)
    requires k + (sp.end - sp.start) <= |u|
    requires u[k..k + (sp.end - sp.start)] == t[sp.start..sp.end]
    ensures MatchAt(u, k) == Some(Span(k, k + (sp.exprStart - sp.start), k + (sp.exprEnd - sp.start), k + (sp.end - sp.start)))
  {
    var sp' := Span(k, k + (sp.exprStart - sp.start), k + (sp.exprEnd - sp.start), k + (sp.end - sp.start));
    MatchAtSound(t, sp.start);
    ReferenceMoves(t, sp, u, sp');
    MatchAtComplete(u, sp');
  }
}

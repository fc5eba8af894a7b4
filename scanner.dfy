/**
 * The two uses of `MESSAGE_PARAMS_PATTERN` over a message template: the
 * `Matcher.find()` loop that collects group 1 of every match, and `replaceAll`
 * that puts the placeholder `{}` in place of every match.  Both walk the template
 * left to right and resume after the end of the previous match.
 */
module ReferenceScanner {
  import opened Wrappers
  import opened MessageParamsPattern

  /** No match starts at any index in `[lo, hi)`. */
  predicate NoMatchBetween(t: string, lo: nat, hi: nat)
    requires lo <= hi <= |t|
    decreases hi - lo
  {
    lo == hi || (MatchAt(t, lo).None? && NoMatchBetween(t, lo + 1, hi))
  }

  /** One index of a match-free range. */
  lemma NoMatchBetweenAt(t: string, lo: nat, hi: nat, i: nat)
    requires lo <= i < hi <= |t| && NoMatchBetween(t, lo, hi)
    ensures MatchAt(t, i).None?
  {
    NoMatchBetweenIff(t, lo, hi);
  }

  lemma {:induction false} NoMatchBetweenIff(t: string, lo: nat, hi: nat)
    requires lo <= hi <= |t|
    ensures NoMatchBetween(t, lo, hi) <==> forall i :: lo <= i < hi ==> MatchAt(t, i).None?
    decreases hi - lo
  {
    if lo < hi {
      NoMatchBetweenIff(t, lo + 1, hi);
    }
  }

  /** One `Matcher.find()` resumed at `from`: the leftmost match starting at or after `from`. */
  function FindFrom(t: string, from: nat): (r: Option<Span>)
    requires from <= |t|
    ensures r.Some? ==> from <= r.value.start <= |t| && MatchAt(t, r.value.start) == r
    ensures r.Some? ==> NoMatchBetween(t, from, r.value.start)
    ensures r.None? ==> NoMatchBetween(t, from, |t|)
    decreases |t| - from
  {
    if from == |t| then
      None
    else
      match MatchAt(t, from)
      case Some(sp) => Some(sp)
      case None => FindFrom(t, from + 1)
  }

  /**
   * The find loop resumed at `from` reports the match at `i` when no match starts
   * in `[from, i)`, and reports none when no match starts in `[from, |t|)`.
   */
  lemma {:induction false} FindFromAt(t: string, from: nat, i: nat)
    requires from <= i <= |t| && NoMatchBetween(t, from, i)
    requires i == |t| || MatchAt(t, i).Some?
    ensures FindFrom(t, from) == (if i == |t| then None else MatchAt(t, i))
    decreases i - from
  {
    if from < i {
      FindFromAt(t, from + 1, i);
    }
  }

  /** The spans of all matches the find loop reports from `from` on, in order. */
  function Scan(t: string, from: nat): (spans: seq<Span>)
    requires from <= |t|
    ensures forall k :: 0 <= k < |spans| ==>
              from <= spans[k].start < spans[k].exprStart < spans[k].exprEnd < spans[k].end <= |t|
    ensures forall j, k :: 0 <= j < k < |spans| ==> spans[j].end <= spans[k].start
    decreases |t| - from
  {
    match FindFrom(t, from)
    case None => []
    case Some(sp) => [sp] + Scan(t, sp.end)
  }

  /** Every span the scan reports is the match `Matcher` finds at its start. */
  lemma {:induction false} ScanSpanIsMatch(t: string, from: nat, k: nat)
    requires from <= |t| && k < |Scan(t, from)|
    ensures MatchAt(t, Scan(t, from)[k].start) == Some(Scan(t, from)[k])
    decreases k
  {
    var sp := FindFrom(t, from).value;
    if k > 0 {
      ScanSpanIsMatch(t, sp.end, k - 1);
    }
  }

  /**
   * The find loop's semantics stated without the loop: each span is a match, no
   * match starts between the previous span's end and the next span's start, and
   * none starts after the last span.
   */
  ghost predicate LeftmostMatches(t: string, from: nat, spans: seq<Span>)
    requires from <= |t|
    decreases |spans|
  {
    if spans == [] then
      forall i :: from <= i < |t| ==> MatchAt(t, i).None?
    else
      && from <= spans[0].start < spans[0].end <= |t|
      && MatchAt(t, spans[0].start) == Some(spans[0])
      && (forall i :: from <= i < spans[0].start ==> MatchAt(t, i).None?)
      && LeftmostMatches(t, spans[0].end, spans[1..])
  }

  /** The scan reports the leftmost, non-overlapping matches ... */
  lemma {:induction false} ScanIsLeftmost(t: string, from: nat)
    requires from <= |t|
    ensures LeftmostMatches(t, from, Scan(t, from))
    decreases |t| - from
  {
    match FindFrom(t, from)
    case None =>
      NoMatchBetweenIff(t, from, |t|);
    case Some(sp) =>
      NoMatchBetweenIff(t, from, sp.start);
      ScanIsLeftmost(t, sp.end);
      assert Scan(t, from)[1..] == Scan(t, sp.end);
  }

  /** ... and it is the only sequence of spans that does. */
  lemma {:induction false} LeftmostMatchesAreScan(t: string, from: nat, spans: seq<Span>)
    requires from <= |t|
    requires LeftmostMatches(t, from, spans)
    ensures spans == Scan(t, from)
    decreases |spans|
  {
    if spans == [] {
      NoMatchBetweenIff(t, from, |t|);
      FindFromAt(t, from, |t|);
    } else {
      NoMatchBetweenIff(t, from, spans[0].start);
      FindFromAt(t, from, spans[0].start);
      assert FindFrom(t, from) == Some(spans[0]);
      LeftmostMatchesAreScan(t, spans[0].end, spans[1..]);
      assert spans == [spans[0]] + spans[1..];
    }
  }

  /** A template has no match anywhere exactly when the scan finds nothing. */
  lemma ScanEmptyIffNoMatch(t: string)
    ensures Scan(t, 0) == [] <==> forall i :: 0 <= i < |t| ==> MatchAt(t, i).None?
  {
    NoMatchBetweenIff(t, 0, |t|);
    if forall i :: 0 <= i < |t| ==> MatchAt(t, i).None? {
      FindFromAt(t, 0, |t|);
    }
  }

  /** `{`, optional whitespace, then `p` and a digit or `r`: the only way a reference can begin. */
  predicate StartsReference(t: string, i: nat)
    requires i < |t|
  {
    var a := SkipWhile(t, i + 1, Space);
    a < |t| && (t[a] == 'r' || (t[a] == 'p' && a + 1 < |t| && IsDigit(t[a + 1])))
  }

  /** Every reference begins that way. */
  lemma ReferenceBegins(t: string, sp: Span)
    requires IsReferenceAt(t, sp)
    ensures t[sp.start] == '{' && StartsReference(t, sp.start)
  {
    ReferenceAtFacts(t, sp);
    var e := t[sp.exprStart..sp.exprEnd];
    ExpressionBegins(e);
    assert t[sp.exprStart] == e[0];
    if e[0] == 'p' {
      assert t[sp.exprStart + 1] == e[1];
    }
    SkipWhileStops(t, sp.start + 1, Space, sp.exprStart);
  }

  /** A reference expression starts with `r`, or with `p` and a digit. */
  lemma ExpressionBegins(e: string)
    requires IsReferenceExpression(e)
    ensures |e| > 0 && (e[0] == 'r' || (|e| >= 2 && e[0] == 'p' && IsDigit(e[1])))
  {
    var r :| 0 < r <= |e| && SplitsAt(e, r);
    assert e[0] == e[..r][0];
    if e[0] == 'p' {
      assert e[1] == e[..r][1];
    }
  }

  /**
   * A template in which no `{` is followed, after optional whitespace, by `p`
   * and a digit or by `r` has no reference at all: plain text and bare `{}`
   * placeholders are left alone.
   */
  lemma NoReferenceStartNoReferences(t: string)
    requires forall i :: 0 <= i < |t| && t[i] == '{' ==> !StartsReference(t, i)
    ensures Scan(t, 0) == []
  {
    forall i | 0 <= i < |t| ensures MatchAt(t, i).None? {
      if MatchAt(t, i).Some? {
        MatchAtSound(t, i);
        ReferenceBegins(t, MatchAt(t, i).value);
        assert false;
      }
    }
    ScanEmptyIffNoMatch(t);
  }

  /** Group 1 of every span the scan reports is a reference expression. */
  lemma ScanExpressionsAreReferences(t: string)
    ensures forall k :: 0 <= k < |Scan(t, 0)| ==>
              IsReferenceExpression(t[Scan(t, 0)[k].exprStart..Scan(t, 0)[k].exprEnd])
  {
    var spans := Scan(t, 0);
    forall k | 0 <= k < |spans| ensures IsReferenceExpression(t[spans[k].exprStart..spans[k].exprEnd]) {
      ScanSpanIsMatch(t, 0, k);
      MatchAtSound(t, spans[k].start);
      ReferenceAtFacts(t, spans[k]);
    }
  }

  /** Group 1 of every match, in encounter order. */
  function Expressions(t: string): (es: seq<string>)
    ensures |es| == |Scan(t, 0)|
    ensures forall k :: 0 <= k < |es| ==> IsReferenceExpression(es[k])
  {
    var spans := Scan(t, 0);
    ScanExpressionsAreReferences(t);
    seq(|spans|, k requires 0 <= k < |spans| => t[spans[k].exprStart..spans[k].exprEnd])
  }

  /** The spans lie in `t` from `from` on, one after the other. */
  predicate SpansInOrder(t: string, from: nat, spans: seq<Span>)
    decreases |spans|
  {
    && from <= |t|
    && (spans != [] ==> from <= spans[0].start <= spans[0].end <= |t| && SpansInOrder(t, spans[0].end, spans[1..]))
  }

  /**
   * The text from `from` on with every one of the given spans replaced by `{}`:
   * the text before each span, between two spans and after the last is copied.
   */
  function Replaced(t: string, from: nat, spans: seq<Span>): string
    requires SpansInOrder(t, from, spans)
    decreases |spans|
  {
    if spans == [] then t[from..] else t[from..spans[0].start] + "{}" + Replaced(t, spans[0].end, spans[1..])
  }

  /**
   * `replaceAll(pattern, "{}")` resumed at `from`: the text with the matches the
   * find loop visits replaced by `{}`, and everything else copied.
   */
  function CleanFrom(t: string, from: nat): (c: string)
    requires from <= |t|
    ensures SpansInOrder(t, from, Scan(t, from)) && c == Replaced(t, from, Scan(t, from))
    decreases |t| - from
  {
    match FindFrom(t, from)
    case None => t[from..]
    case Some(sp) =>
      var rest := CleanFrom(t, sp.end);
      assert Scan(t, from)[0] == sp && Scan(t, from)[1..] == Scan(t, sp.end);
      t[from..sp.start] + "{}" + rest
  }

  /**
   * Cleaning replaces exactly the characters of the reported matches, two
   * characters of placeholder for each, and leaves a text without matches alone.
   */
  lemma {:induction false} CleanFromLength(t: string, from: nat)
    requires from <= |t|
    ensures |CleanFrom(t, from)| + MatchedLength(Scan(t, from)) == |t| - from + 2 * |Scan(t, from)|
    ensures Scan(t, from) == [] ==> CleanFrom(t, from) == t[from..]
    decreases |t| - from
  {
    match FindFrom(t, from)
    case None =>
    case Some(sp) =>
      CleanFromLength(t, sp.end);
      assert Scan(t, from)[1..] == Scan(t, sp.end);
  }

  /** The number of template characters covered by the given spans. */
  function MatchedLength(spans: seq<Span>): int
  {
    if spans == [] then 0 else (spans[0].end - spans[0].start) + MatchedLength(spans[1..])
  }

  /** `replaceAll(pattern, "{}")` on the whole template. */
  function Clean(t: string): (c: string)
    ensures SpansInOrder(t, 0, Scan(t, 0)) && c == Replaced(t, 0, Scan(t, 0))
  {
    CleanFrom(t, 0)
  }

  /**
   * Cleaning is determined by the leftmost non-overlapping matches alone: they
   * become `{}` and every other character is copied.
   */
  lemma CleanReplacesLeftmostMatches(t: string, spans: seq<Span>)
    requires LeftmostMatches(t, 0, spans)
    ensures SpansInOrder(t, 0, spans) && Clean(t) == Replaced(t, 0, spans)
  {
    var c := CleanFrom(t, 0);
    LeftmostMatchesAreScan(t, 0, spans);
  }

  /** The same text from some point on is matched the same way from there. */
  lemma SameSuffixSameMatch(c: string, j: nat, t: string, i: nat)
    requires j <= |c| && i <= |t| && c[j..] == t[i..]
    ensures MatchAt(c, j).None? <==> MatchAt(t, i).None?
  {
  }

  /** After cleaning, no reference starts at any index of the text. */
  lemma {:induction false} CleanFromHasNoMatch(t: string, from: nat, j: nat)
    requires from <= |t| && j <= |CleanFrom(t, from)|
    ensures MatchAt(CleanFrom(t, from), j).None?
    decreases |t| - from
  {
    match FindFrom(t, from)
    case None =>
      NoMatchBetweenIff(t, from, |t|);
      SameSuffixSameMatch(t[from..], j, t, from + j);
    case Some(sp) =>
      var a, c' := t[from..sp.start], CleanFrom(t, sp.end);
      if j < |a| {
        CopiedTextNoMatch(t, from, sp, c', j);
      } else {
        if |a| + 1 < j {
          CleanFromHasNoMatch(t, sp.end, j - |a| - 2);
        }
        PlaceholderNoMatch(a, c', j);
      }
  }

  /** In `a + "{}" + c'`, no match starts at the placeholder, nor in `c'` where `c'` has none. */
  lemma PlaceholderNoMatch(a: string, c': string, j: nat)
    requires |a| <= j <= |a| + 2 + |c'|
    requires |a| + 1 < j ==> MatchAt(c', j - |a| - 2).None?
    ensures MatchAt(a + "{}" + c', j).None?
  {
    var c := a + "{}" + c';
    if j <= |a| + 1 {
      assert c[j..][0] == c[j] == (if j == |a| then '{' else '}');
      assert j == |a| ==> c[j..][1] == '}';
    } else {
      assert c[j..] == c'[j - |a| - 2..];
      SameSuffixSameMatch(c, j, c', j - |a| - 2);
    }
  }

  /** No match starts inside the text copied in front of the first placeholder. */
  lemma CopiedTextNoMatch(t: string, from: nat, sp: Span, c': string, j: nat)
    requires from <= |t| && FindFrom(t, from) == Some(sp)
    requires j < sp.start - from
    ensures MatchAt(t[from..sp.start] + "{}" + c', j).None?
  {
    var a := t[from..sp.start];
    var c := a + "{}" + c';
    assert c[0..|a|] == a;
    assert c[|a|] == '{';
    GapHasNoMatch(t, from, sp.start, c, j);
  }

  /** A match inside copied text would end before the next placeholder, so the template had it too. */
  lemma GapHasNoMatch(t: string, from: nat, n: nat, c: string, j: nat)
    requires from <= n <= |t| && NoMatchBetween(t, from, n)
    requires n - from < |c| && c[0..n - from] == t[from..n]
    requires c[n - from] == '{'
    requires j < n - from
    ensures MatchAt(c, j).None?
  {
    if MatchAt(c, j).Some? {
      var m := MatchAt(c, j).value;
      MatchAtSound(c, j);
      if n - from < m.end {
        NoOpenBraceInside(c, m, n - from);
      } else {
        CopiedMatch(t, from, n, c, m);
        NoMatchBetweenAt(t, from, n, from + m.start);
      }
      assert false;
    }
  }

  /** A match of `c` inside its first `n - from` characters, copied from `t[from..n]`, is a match of `t`. */
  lemma CopiedMatch(t: string, from: nat, n: nat, c: string, m: Span)
    requires from <= n <= |t| && n - from <= |c| && c[0..n - from] == t[from..n]
    requires m.start <= |c| && MatchAt(c, m.start) == Some(m) && m.end <= n - from
    ensures MatchAt(t, from + m.start).Some?
  {
    CopiedSlice(t, from, n, c, m.start, m.end);
    MatchIsLocal(c, m, t, from + m.start);
  }

  /** Any part of the copied text reads the same in the copy and in the template. */
  lemma CopiedSlice(t: string, from: nat, n: nat, c: string, i: nat, j: nat)
    requires from <= n <= |t| && n - from <= |c| && c[0..n - from] == t[from..n]
    requires i <= j <= n - from
    ensures t[from + i..from + j] == c[i..j]
  {
    SliceOfSlice(c, 0, n - from, i, j);
    SliceOfSlice(t, from, n, i, j);
  }

  /** Cleaning leaves no reference behind ... */
  lemma CleanHasNoReferences(t: string)
    ensures Scan(Clean(t), 0) == []
  {
    forall j | 0 <= j < |Clean(t)| ensures MatchAt(Clean(t), j).None? {
      CleanFromHasNoMatch(t, 0, j);
    }
    ScanEmptyIffNoMatch(Clean(t));
  }

  /** ... so cleaning twice is cleaning once. */
  lemma CleanIsIdempotent(t: string)
    ensures Clean(Clean(t)) == Clean(t)
  {
    CleanHasNoReferences(t);
  }
}

/**
 * The template of the library's first resolver test, worked through the model:
 * `"This name: {p0.getName()} is same as {p0.name} but different than {p1.getSuggested(p2)}"`
 * has exactly three references, found in this order.
 */
module ResolverScenarios {
  import opened Wrappers
  import opened Values
  import opened MessageParamsPattern
  import opened ReferenceScanner
  import opened ExpressionResolving
  import opened MessageParamsResolver

  /** Text without `{` has no match at any of its indices, whatever precedes it. */
  lemma BraceFreeTextHasNoMatch(t: string, a: string, g: string)
    requires |a| + |g| <= |t| && t[..|a| + |g|] == a + g && '{' !in g
    ensures forall i :: |a| <= i < |a| + |g| ==> MatchAt(t, i).None?
  {
    forall i | |a| <= i < |a| + |g| ensures MatchAt(t, i).None? {
      assert t[i] == t[..|a| + |g|][i] == g[i - |a|];
      assert t[i..][0] == t[i];
    }
  }

  /** A reference expression right between `{` and `}` is matched there, with no whitespace. */
  lemma BareReferenceMatches(t: string, a: string, e: string, k: nat)
    requires |a| + |e| + 2 <= |t| && t[..|a| + |e| + 2] == a + ("{" + e + "}") && SplitsAt(e, k)
    ensures MatchAt(t, |a|) == Some(Span(|a|, |a| + 1, |a| + 1 + |e|, |a| + 2 + |e|))
    ensures t[|a| + 1..|a| + 1 + |e|] == e
  {
    var sp := Span(|a|, |a| + 1, |a| + 1 + |e|, |a| + 2 + |e|);
    var p := t[..|a| + |e| + 2];
    assert t[sp.exprStart..sp.exprEnd] == p[sp.exprStart..sp.exprEnd] == e;
    assert t[sp.start] == p[sp.start];
    assert t[sp.end - 1] == p[sp.end - 1];
    ReferenceAtOfFacts(t, sp);
    MatchAtComplete(t, sp);
  }

  /** One dot followed by accessor characters is an accessor chain. */
  lemma SingleAccessorChain(s: string)
    requires |s| >= 2 && s[0] == '.' && forall k :: 1 <= k < |s| ==> IsAccessorChar(s[k])
    ensures IsAccessorChain(s)
  {
  }

  const Lead := "This name: "
  const GetterExpression := "p0.getName()"
  const Middle := " is same as "
  const FieldExpression := "p0.name"
  const Tail := " but different than "
  const CallExpression := "p1.getSuggested(p2)"
  const GetterReference := "{" + GetterExpression + "}"
  const FieldReference := "{" + FieldExpression + "}"
  const CallReference := "{" + CallExpression + "}"

  /** The first test's template. */
  const Template := Lead + GetterReference + Middle + FieldReference + Tail + CallReference

  lemma GetterReferenceMatches()
    ensures MatchAt(Template, 11) == Some(Span(11, 12, 24, 25)) && Template[12..24] == GetterExpression
  {
    assert SplitsAt(GetterExpression, 2);
    assert Template[..|Lead + GetterReference|] == Lead + GetterReference;
    BareReferenceMatches(Template, Lead, GetterExpression, 2);
  }

  lemma FieldReferenceMatches()
    ensures MatchAt(Template, 37) == Some(Span(37, 38, 45, 46)) && Template[38..45] == FieldExpression
  {
    assert SplitsAt(FieldExpression, 2);
    assert Template[..|Lead + GetterReference + Middle + FieldReference|] ==
           Lead + GetterReference + Middle + FieldReference;
    BareReferenceMatches(Template, Lead + GetterReference + Middle, FieldExpression, 2);
  }

  lemma CallReferenceMatches()
    ensures MatchAt(Template, 66) == Some(Span(66, 67, 86, 87)) && Template[67..86] == CallExpression
  {
    SingleAccessorChain(CallExpression[2..]);
    assert SplitsAt(CallExpression, 2);
    BareReferenceMatches(Template, Lead + GetterReference + Middle + FieldReference + Tail, CallExpression, 2);
  }

  lemma LeadHasNoMatch()
    ensures forall i :: 0 <= i < 11 ==> MatchAt(Template, i).None?
  {
    assert Template[..|Lead|] == Lead == [] + Lead;
    BraceFreeTextHasNoMatch(Template, [], Lead);
  }

  lemma MiddleHasNoMatch()
    ensures forall i :: 25 <= i < 37 ==> MatchAt(Template, i).None?
  {
    assert Template[..|Lead + GetterReference + Middle|] == Lead + GetterReference + Middle;
    BraceFreeTextHasNoMatch(Template, Lead + GetterReference, Middle);
  }

  lemma TailHasNoMatch()
    ensures forall i :: 46 <= i < 66 ==> MatchAt(Template, i).None?
  {
    assert Template[..|Lead + GetterReference + Middle + FieldReference + Tail|] ==
           Lead + GetterReference + Middle + FieldReference + Tail;
    BraceFreeTextHasNoMatch(Template, Lead + GetterReference + Middle + FieldReference, Tail);
  }

  /** The find loop visits exactly the three references, left to right. */
  lemma TemplateSpans()
    ensures Scan(Template, 0) == [Span(11, 12, 24, 25), Span(37, 38, 45, 46), Span(66, 67, 86, 87)]
  {
    var getter, field, call := Span(11, 12, 24, 25), Span(37, 38, 45, 46), Span(66, 67, 86, 87);
    assert |Template| == 87;
    CallReferenceMatches();
    TailHasNoMatch();
    assert LeftmostMatches(Template, 46, [call]);
    FieldReferenceMatches();
    MiddleHasNoMatch();
    assert LeftmostMatches(Template, 25, [field, call]);
    GetterReferenceMatches();
    LeadHasNoMatch();
    assert LeftmostMatches(Template, 0, [getter, field, call]);
    LeftmostMatchesAreScan(Template, 0, [getter, field, call]);
  }

  /** Group 1 of each span, in order, once the spans of a text are known. */
  lemma ExpressionsOfSpans(t: string, spans: seq<Span>)
    requires Scan(t, 0) == spans
    ensures |Expressions(t)| == |spans|
    ensures forall k :: 0 <= k < |spans| ==> Expressions(t)[k] == t[spans[k].exprStart..spans[k].exprEnd]
  {
  }

  /** The expressions handed to the resolver are the three group 1 texts, in template order. */
  lemma TemplateExpressions()
    ensures |Expressions(Template)| == 3
    ensures Expressions(Template)[0] == GetterExpression
    ensures Expressions(Template)[1] == FieldExpression
    ensures Expressions(Template)[2] == CallExpression
  {
    TemplateSpans();
    ExpressionsOfSpans(Template, [Span(11, 12, 24, 25), Span(37, 38, 45, 46), Span(66, 67, 86, 87)]);
    GetterReferenceMatches();
    FieldReferenceMatches();
    CallReferenceMatches();
  }

  /** Three expressions resolve to three parameters, unless one of them fails. */
  lemma ResolveThree(es: seq<string>, ctx: map<string, Value>, eval: Evaluator)
    requires |es| == 3
    ensures var a, b, c := ResolveExpression(ctx, es[0], eval), ResolveExpression(ctx, es[1], eval), ResolveExpression(ctx, es[2], eval);
      && (ResolveAll(es, ctx, eval).Success? <==> a.Success? && b.Success? && c.Success?)
      && (a.Success? && b.Success? && c.Success? ==> ResolveAll(es, ctx, eval) == Success([a.value, b.value, c.value]))
  {
    ResolveAllSucceeds(es, ctx, eval);
    var a, b, c := ResolveExpression(ctx, es[0], eval), ResolveExpression(ctx, es[1], eval), ResolveExpression(ctx, es[2], eval);
    if a.Success? && b.Success? && c.Success? {
      var vs := ResolveAll(es, ctx, eval).value;
      assert vs == [a.value, b.value, c.value];
    }
  }

  /**
   * Resolving the template yields three parameters, the values of
   * `p0.getName()`, `p0.name` and `p1.getSuggested(p2)` in that order, unless
   * one of them raises an exception the resolver rethrows.
   */
  lemma TemplateResolvesThreeParams(contextParams: seq<Value>, result: Value, eval: Evaluator)
    ensures var ctx := ContextParams(contextParams, result);
      var getter, field, call :=
        ResolveExpression(ctx, GetterExpression, eval),
        ResolveExpression(ctx, FieldExpression, eval),
        ResolveExpression(ctx, CallExpression, eval);
      var r := ResolveAll(Expressions(Template), ctx, eval);
      && (r.Success? <==> getter.Success? && field.Success? && call.Success?)
      && (getter.Success? && field.Success? && call.Success? ==> r == Success([getter.value, field.value, call.value]))
  {
    TemplateExpressions();
    ResolveThree(Expressions(Template), ContextParams(contextParams, result), eval);
  }
}

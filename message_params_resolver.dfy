// The message-template side of the resolver: it finds every parameter reference of
// a log message template, resolves each one against the intercepted call, and
// produces the template with every reference replaced by the `{}` placeholder of
// the logging framework.

module MessageParamsResolver {
  import opened Wrappers
  import opened Values
  import opened MessageParamsPattern
  import opened ReferenceScanner
  import opened ExpressionResolving

  /**
   * The values of the given expressions resolved one after the other, left to
   * right; the first expression whose resolution fails ends the whole resolution
   * with its error.
   */
  function ResolveAll(es: seq<string>, ctx: map<string, Value>, eval: Evaluator): (r: Result<seq<Value>, JexlError>)
    ensures r.Success? ==> |r.value| == |es|
  {
    if es == [] then
      Success([])
    else
      match ResolveExpression(ctx, es[0], eval)
      case Failure(err) => Failure(err)
      case Success(v) => Prefixed([v], ResolveAll(es[1..], ctx, eval))
  }

  /** The values `vs` followed by the outcome `r`, when `r` succeeded. */
  function Prefixed(vs: seq<Value>, r: Result<seq<Value>, JexlError>): Result<seq<Value>, JexlError>
  {
    match r
    case Success(ws) => Success(vs + ws)
    case Failure(err) => Failure(err)
  }

  /** Prefixing no values changes nothing. */
  lemma PrefixedNothing(r: Result<seq<Value>, JexlError>)
    ensures Prefixed([], r) == r
  {
    if r.Success? {
      assert [] + r.value == r.value;
    }
  }

  /** Prefixing twice is prefixing once with both value lists. */
  lemma PrefixedTwice(vs: seq<Value>, ws: seq<Value>, r: Result<seq<Value>, JexlError>)
    ensures Prefixed(vs, Prefixed(ws, r)) == Prefixed(vs + ws, r)
  {
    if r.Success? {
      assert vs + (ws + r.value) == (vs + ws) + r.value;
    }
  }

  /**
   * Resolving a list succeeds exactly when every expression resolves, and then
   * yields their values in order.
   */
  lemma {:induction false} ResolveAllSucceeds(es: seq<string>, ctx: map<string, Value>, eval: Evaluator)
    ensures ResolveAll(es, ctx, eval).Success? <==>
              forall k :: 0 <= k < |es| ==> ResolveExpression(ctx, es[k], eval).Success?
    ensures ResolveAll(es, ctx, eval).Success? ==>
              && |ResolveAll(es, ctx, eval).value| == |es|
              && forall k :: 0 <= k < |es| ==>
                   ResolveAll(es, ctx, eval).value[k] == ResolveExpression(ctx, es[k], eval).value
  {
    if es != [] {
      ResolveAllSucceeds(es[1..], ctx, eval);
      assert forall k :: 1 <= k < |es| ==> es[1..][k - 1] == es[k];
      if ResolveExpression(ctx, es[0], eval).Success? && ResolveAll(es[1..], ctx, eval).Success? {
        var v, vs := ResolveExpression(ctx, es[0], eval).value, ResolveAll(es[1..], ctx, eval).value;
        assert ResolveAll(es, ctx, eval).value == [v] + vs;
      }
    }
  }

  /**
   * A failed resolution reports the error of the first expression that failed:
   * every expression before it resolved.
   */
  lemma {:induction false} ResolveAllFailsAtFirst(es: seq<string>, ctx: map<string, Value>, eval: Evaluator)
    requires ResolveAll(es, ctx, eval).Failure?
    ensures exists k :: && 0 <= k < |es|
                        && (forall j :: 0 <= j < k ==> ResolveExpression(ctx, es[j], eval).Success?)
                        && ResolveExpression(ctx, es[k], eval) == Failure(ResolveAll(es, ctx, eval).error)
  {
    var err := ResolveAll(es, ctx, eval).error;
    if ResolveExpression(ctx, es[0], eval).Failure? {
      assert 0 <= 0 < |es| && ResolveExpression(ctx, es[0], eval) == Failure(err);
    } else {
      ResolveAllFailsAtFirst(es[1..], ctx, eval);
      var k :| && 0 <= k < |es[1..]|
               && (forall j :: 0 <= j < k ==> ResolveExpression(ctx, es[1..][j], eval).Success?)
               && ResolveExpression(ctx, es[1..][k], eval) == Failure(err);
      assert es[1..][k] == es[k + 1];
      forall j | 0 <= j < k + 1 ensures ResolveExpression(ctx, es[j], eval).Success? {
        if j > 0 {
          assert es[1..][j - 1] == es[j];
        }
      }
    }
  }

  /**
   * Resolving one more expression of the list: a failure there is the outcome of
   * the whole list, a value joins the values resolved so far.
   */
  lemma ResolveNext(es: seq<string>, k: nat, vs: seq<Value>, ctx: map<string, Value>, eval: Evaluator)
    requires k < |es| && ResolveAll(es, ctx, eval) == Prefixed(vs, ResolveAll(es[k..], ctx, eval))
    ensures ResolveExpression(ctx, es[k], eval).Failure? ==>
              ResolveAll(es, ctx, eval) == Failure(ResolveExpression(ctx, es[k], eval).error)
    ensures ResolveExpression(ctx, es[k], eval).Success? ==>
              ResolveAll(es, ctx, eval) ==
                Prefixed(vs + [ResolveExpression(ctx, es[k], eval).value], ResolveAll(es[k + 1..], ctx, eval))
  {
    assert es[k..][0] == es[k];
    assert es[k..][1..] == es[k + 1..];
    if ResolveExpression(ctx, es[k], eval).Success? {
      PrefixedTwice(vs, [ResolveExpression(ctx, es[k], eval).value], ResolveAll(es[k + 1..], ctx, eval));
    }
  }

  /**
   * The find loop resumed at `from` after `k` matches reports the `k`th match,
   * whose group 1 is the `k`th expression, and resumes after it at the `k+1`th.
   */
  lemma FindNext(t: string, from: nat, k: nat)
    requires from <= |t| && k <= |Scan(t, 0)| && Scan(t, from) == Scan(t, 0)[k..]
    requires FindFrom(t, from).Some?
    ensures var sp := FindFrom(t, from).value;
      && from < sp.end <= |t| && sp.exprStart <= sp.exprEnd
      && k < |Expressions(t)| && Expressions(t)[k] == t[sp.exprStart..sp.exprEnd]
      && Scan(t, sp.end) == Scan(t, 0)[k + 1..]
  {
    var spans, sp := Scan(t, 0), FindFrom(t, from).value;
    assert Scan(t, from) == [sp] + Scan(t, sp.end);
    assert spans[k..][0] == spans[k];
    assert spans[k..][1..] == spans[k + 1..];
  }

  /** A scan that reports nothing more has reported every match. */
  lemma FindDone(t: string, from: nat, k: nat)
    requires from <= |t| && k <= |Scan(t, 0)| && Scan(t, from) == Scan(t, 0)[k..]
    requires FindFrom(t, from).None?
    ensures Expressions(t)[k..] == []
  {
  }

  /** With every expression resolved, the resolved values are the outcome. */
  lemma ResolveDone(es: seq<string>, k: nat, vs: seq<Value>, ctx: map<string, Value>, eval: Evaluator)
    requires k <= |es| && es[k..] == [] && ResolveAll(es, ctx, eval) == Prefixed(vs, ResolveAll(es[k..], ctx, eval))
    ensures ResolveAll(es, ctx, eval) == Success(vs)
  {
    assert vs + [] == vs;
  }

  /** A log message template, and what the logging aspect asks of it. */
  datatype LogMessageParamsResolver = LogMessageParamsResolver(messageTemplate: string)
  {
    static function ForMessageTemplate(messageTemplate: string): (r: LogMessageParamsResolver)
      ensures r.messageTemplate == messageTemplate
    {
      LogMessageParamsResolver(messageTemplate)
    }

    /**
     * The value of every reference of the template, in the order the references
     * appear, resolved against the call's arguments and result; the first
     * evaluation error the resolver rethrows ends the call.
     */
    method GetParamsReferredInTemplate(contextParams: seq<Value>, result: Value, eval: Evaluator)
      returns (r: Result<seq<Value>, JexlError>)
      ensures r == ResolveAll(Expressions(messageTemplate), ContextParams(contextParams, result), eval)
    {
      var expressionResolver := new ExpressionResolver(contextParams, result);
      ghost var ctx := expressionResolver.contextParams;
      ghost var es := Expressions(messageTemplate);
      ghost var k := 0;
      var resolvedParams: seq<Value> := [];
      var from := 0;
      var found := FindFrom(messageTemplate, from);
      assert es[k..] == es;
      PrefixedNothing(ResolveAll(es, ctx, eval));
      while found.Some?
        invariant from <= |messageTemplate| && found == FindFrom(messageTemplate, from)
        invariant expressionResolver.contextParams == ctx
        invariant k <= |Scan(messageTemplate, 0)| && Scan(messageTemplate, from) == Scan(messageTemplate, 0)[k..]
        invariant ResolveAll(es, ctx, eval) == Prefixed(resolvedParams, ResolveAll(es[k..], ctx, eval))
        decreases |messageTemplate| - from
      {
        var sp := found.value;
        FindNext(messageTemplate, from, k);
        var expression := messageTemplate[sp.exprStart..sp.exprEnd];
        var resolved := expressionResolver.Resolve(expression, eval);
        assert resolved == ResolveExpression(ctx, es[k], eval);
        ResolveNext(es, k, resolvedParams, ctx, eval);
        if resolved.Failure? {
          assert ResolveAll(es, ctx, eval) == Failure(resolved.error);
          return Failure(resolved.error);
        }
        resolvedParams := resolvedParams + [resolved.value];
        k := k + 1;
        from := sp.end;
        found := FindFrom(messageTemplate, from);
      }
      FindDone(messageTemplate, from, k);
      ResolveDone(es, k, resolvedParams, ctx, eval);
      assert ResolveAll(es, ctx, eval) == Success(resolvedParams);
      return Success(resolvedParams);
    }

    /**
     * The template as handed to the logging framework: every reference is replaced
     * by `{}`, the rest of the text is kept, and no reference is left.
     */
    function GetCleanLogMessageTemplate(): (c: string)
      ensures Scan(c, 0) == []
      ensures |c| + MatchedLength(Scan(messageTemplate, 0)) == |messageTemplate| + 2 * |Scan(messageTemplate, 0)|
      ensures Scan(messageTemplate, 0) == [] ==> c == messageTemplate
      ensures SpansInOrder(messageTemplate, 0, Scan(messageTemplate, 0))
      ensures c == Replaced(messageTemplate, 0, Scan(messageTemplate, 0))
    {
      CleanHasNoReferences(messageTemplate);
      CleanFromLength(messageTemplate, 0);
      Clean(messageTemplate)
    }
  }

  /**
   * A template whose every `{` opens a bare `{}` placeholder refers to no
   * parameter: nothing is resolved and the template is handed on unchanged.
   */
  lemma BarePlaceholdersAreKept(t: string, contextParams: seq<Value>, result: Value, eval: Evaluator)
    requires forall i :: 0 <= i < |t| && t[i] == '{' ==> i + 1 < |t| && t[i + 1] == '}'
    ensures LogMessageParamsResolver(t).GetCleanLogMessageTemplate() == t
    ensures ResolveAll(Expressions(t), ContextParams(contextParams, result), eval) == Success([])
  {
    forall i | 0 <= i < |t| && t[i] == '{' ensures !StartsReference(t, i) {
      SkipWhileStops(t, i + 1, Space, i + 1);
    }
    NoReferenceStartNoReferences(t);
  }
}

/**
 * `LogMessageParamsResolver.ExpressionResolver`: the expression context built from
 * the call's arguments and result, and the null-tolerant evaluation of one
 * reference expression against it.
 *
 * The expression language engine (JEXL) is not modelled: an `Evaluator` stands
 * for creating and evaluating an expression over a context, and reports either a
 * value or the exception the engine raises.
 */
module ExpressionResolving {
  import opened Wrappers
  import opened Values
  import opened MessageParamsPattern

  // ---------------------------------------------------------------------------
  // Parameter names: `"p" + i`, with `i` written by `Integer.toString`.

  function DigitChar(d: nat): (c: char)
    requires d < 10
    ensures IsDigit(c)
  {
    ('0' as int + d) as char
  }

  function DigitValue(c: char): (d: nat)
    requires IsDigit(c)
    ensures d < 10 && DigitChar(d) == c
  {
    c as int - '0' as int
  }

  predicate AllDigits(s: string) {
    forall k :: 0 <= k < |s| ==> IsDigit(s[k])
  }

  /** A decimal numeral as `Integer.toString` writes a non-negative number: no leading zeros. */
  predicate IsCanonicalNumeral(s: string) {
    |s| > 0 && AllDigits(s) && (s[0] == '0' ==> |s| == 1)
  }

  /** The decimal numeral of `n`. */
  function Decimal(n: nat): (s: string)
    ensures IsCanonicalNumeral(s)
    ensures s[0] == '0' ==> n == 0
    decreases n
  {
    if n < 10 then [DigitChar(n)] else Decimal(n / 10) + [DigitChar(n % 10)]
  }

  /** The number a string of digits denotes. */
  function DigitsValue(s: string): nat
    requires AllDigits(s)
    decreases |s|
  {
    if s == [] then 0 else 10 * DigitsValue(s[..|s| - 1]) + DigitValue(s[|s| - 1])
  }

  /** Reading back a numeral gives the number it was written from ... */
  lemma {:induction false} DecimalRoundTrip(n: nat)
    ensures DigitsValue(Decimal(n)) == n
    decreases n
  {
    if n >= 10 {
      DecimalRoundTrip(n / 10);
      var s := Decimal(n);
      assert s[..|s| - 1] == Decimal(n / 10);
    }
  }

  /** ... and writing the number a canonical numeral denotes gives the numeral back. */
  lemma {:induction false} NumeralRoundTrip(s: string)
    requires IsCanonicalNumeral(s)
    ensures Decimal(DigitsValue(s)) == s
    decreases |s|
  {
    var init, last := s[..|s| - 1], s[|s| - 1];
    if |s| > 1 {
      assert IsCanonicalNumeral(init) && init[0] == s[0];
      NumeralRoundTrip(init);
      NumeralIsPositive(init);
      assert s == init + [last];
    }
  }

  lemma {:induction false} NumeralIsPositive(s: string)
    requires IsCanonicalNumeral(s) && s[0] != '0'
    ensures DigitsValue(s) > 0
    decreases |s|
  {
    if |s| > 1 {
      var init := s[..|s| - 1];
      assert init[0] == s[0];
      NumeralIsPositive(init);
    }
  }

  /** The context name of the `i`-th argument. */
  function ParamName(i: nat): (n: string)
    ensures |n| >= 2 && n[0] == 'p' && IsCanonicalNumeral(n[1..]) && DigitsValue(n[1..]) == i
  {
    DecimalRoundTrip(i);
    assert ("p" + Decimal(i))[1..] == Decimal(i);
    "p" + Decimal(i)
  }

  /** Every argument name is a parameter marker the pattern can refer to, never the result marker. */
  lemma ParamNameIsMarker(i: nat)
    ensures IsRootMarker(ParamName(i)) && ParamName(i) != "r"
    ensures ParamName(i)[1..] == Decimal(i)
  {
    var n := ParamName(i);
    assert forall k :: 1 <= k < |n| ==> n[k] == Decimal(i)[k - 1];
  }

  /** Distinct arguments get distinct names. */
  lemma ParamNameInjective(i: nat, j: nat)
    requires ParamName(i) == ParamName(j)
    ensures i == j
  {
    ParamNameIsMarker(i);
    ParamNameIsMarker(j);
    DecimalRoundTrip(i);
    DecimalRoundTrip(j);
  }

  /** A parameter marker names an argument exactly when its digits are a canonical numeral. */
  lemma ParamNameOfMarker(n: string)
    requires IsRootMarker(n) && n != "r"
    ensures IsCanonicalNumeral(n[1..]) ==> n == ParamName(DigitsValue(n[1..]))
    ensures forall i :: n == ParamName(i) ==> IsCanonicalNumeral(n[1..]) && i == DigitsValue(n[1..])
  {
    var digits := n[1..];
    assert AllDigits(digits) by {
      forall k | 0 <= k < |digits| ensures IsDigit(digits[k]) {
        assert digits[k] == n[k + 1];
      }
    }
    if IsCanonicalNumeral(digits) {
      NumeralRoundTrip(digits);
      assert n == [n[0]] + digits;
    }
    forall i | n == ParamName(i) ensures IsCanonicalNumeral(digits) && i == DigitsValue(digits) {
      ParamNameIsMarker(i);
      DecimalRoundTrip(i);
    }
  }

  // ---------------------------------------------------------------------------
  // The context: `contextParams` as the constructor fills it.

  /** `"p" + i` bound to the unwrapped `i`-th argument, for every argument, in order. */
  function ParamsContext(args: seq<Value>): (m: map<string, Value>)
    ensures "r" !in m
    decreases |args|
  {
    if args == [] then
      map[]
    else
      var last := |args| - 1;
      ParamsContext(args[..last])[ParamName(last) := GetValueFrom(args[last])]
  }

  /**
   * Every argument is bound under its own name to its unwrapped value: no later
   * argument overwrites an earlier one.
   */
  lemma {:induction false} ParamsContextValues(args: seq<Value>)
    ensures var m := ParamsContext(args);
      forall i :: 0 <= i < |args| ==> ParamName(i) in m && m[ParamName(i)] == GetValueFrom(args[i])
    decreases |args|
  {
    if args != [] {
      var last := |args| - 1;
      var init := args[..last];
      ParamsContextValues(init);
      assert forall i :: 0 <= i < last ==> init[i] == args[i];
      forall i | 0 <= i < last ensures ParamName(i) != ParamName(last) {
        if ParamName(i) == ParamName(last) {
          ParamNameInjective(i, last);
        }
      }
    }
  }

  /** Nothing but argument names is bound. */
  lemma {:induction false} ParamsContextKeys(args: seq<Value>)
    ensures forall n :: n in ParamsContext(args) ==> exists i :: 0 <= i < |args| && n == ParamName(i)
    decreases |args|
  {
    if args != [] {
      var last := |args| - 1;
      var m, m' := ParamsContext(args), ParamsContext(args[..last]);
      ParamsContextKeys(args[..last]);
      forall n | n in m ensures exists i :: 0 <= i < |args| && n == ParamName(i) {
        if n != ParamName(last) {
          assert n in m';
          var i :| 0 <= i < last && n == ParamName(i);
          assert 0 <= i < |args|;
        } else {
          assert 0 <= last < |args|;
        }
      }
    }
  }

  /**
   * Binding one more argument extends the context built from the ones before it:
   * the step the constructor's loop takes, stated on prefixes of the arguments.
   */
  lemma ParamsContextStep(args: seq<Value>, i: nat)
    requires i < |args|
    ensures ParamsContext(args[..i + 1]) == ParamsContext(args[..i])[ParamName(i) := GetValueFrom(args[i])]
  {
    assert args[..i + 1][..i] == args[..i];
  }

  /**
   * The whole context: the arguments, and `r` bound to the unwrapped result
   * unless the result is `null`.
   */
  function ContextParams(args: seq<Value>, result: Value): (ctx: map<string, Value>)
    ensures "r" in ctx <==> result != Null
    ensures result != Null ==> ctx["r"] == GetValueFrom(result)
  {
    var m := ParamsContext(args);
    if result != Null then m["r" := GetValueFrom(result)] else m
  }

  /** What the context binds: each argument, the result if there is one, and nothing else. */
  lemma ContextParamsBindings(args: seq<Value>, result: Value)
    ensures var m := ContextParams(args, result);
      && (forall i :: 0 <= i < |args| ==> ParamName(i) in m && m[ParamName(i)] == GetValueFrom(args[i]))
      && ("r" in m <==> result != Null)
      && (result != Null ==> m["r"] == GetValueFrom(result))
      && (forall n :: n in m ==> n == "r" || exists i :: 0 <= i < |args| && n == ParamName(i))
  {
    ParamsContextValues(args);
    ParamsContextKeys(args);
    forall i | 0 <= i < |args| ensures ParamName(i) != "r" {
      ParamNameIsMarker(i);
    }
  }

  /**
   * Which root a reference can hang on: `r` is bound iff there is a result, and
   * `p<digits>` is bound iff the digits are written as `Integer.toString` writes
   * an argument index in range (so `p01` or `p007` is never bound), to that argument.
   */
  lemma RootBinding(args: seq<Value>, result: Value, n: string)
    requires IsRootMarker(n)
    ensures var m := ContextParams(args, result);
      && (n == "r" ==> (n in m <==> result != Null))
      && (n != "r" ==> (n in m <==> IsCanonicalNumeral(n[1..]) && DigitsValue(n[1..]) < |args|))
      && (n != "r" && n in m ==> m[n] == GetValueFrom(args[DigitsValue(n[1..])]))
  {
    ContextParamsBindings(args, result);
    if n != "r" {
      ParamNameOfMarker(n);
    }
  }

  // ---------------------------------------------------------------------------
  // The root of an expression: `^(?:p\d+|r)`.

  /** The text `STARTS_WITH_PARAM_OR_RETURN_VALUE_MARKER` finds at the start of `e`, if any. */
  function RootName(e: string): (r: Option<string>)
    ensures r.Some? ==> IsRootMarker(r.value) && |r.value| <= |e| && e[..|r.value|] == r.value
    ensures r.Some? && r.value[0] == 'p' && |r.value| < |e| ==> !IsDigit(e[|r.value|])
    ensures r.None? ==> forall k :: 0 < k <= |e| ==> !IsRootMarker(e[..k])
  {
    match RootEnd(e, 0)
    case Some(b) =>
      RootEndIsMarker(e, 0);
      Some(e[..b])
    case None =>
      NoRootMarker(e);
      None
  }

  lemma NoRootMarker(e: string)
    requires RootEnd(e, 0).None?
    ensures forall k :: 0 < k <= |e| ==> !IsRootMarker(e[..k])
  {
    forall k | 0 < k <= |e| ensures !IsRootMarker(e[..k]) {
      if IsRootMarker(e[..k]) {
        MarkerPrefixIsFound(e, k);
        assert false;
      }
    }
  }

  lemma MarkerPrefixIsFound(e: string, k: nat)
    requires 0 < k <= |e| && IsRootMarker(e[..k])
    ensures RootEnd(e, 0).Some?
  {
    assert e[0] == e[..k][0];
    if e[0] == 'p' {
      assert e[1] == e[..k][1];
      assert SkipWhile(e, 1, Digit) > 1;
    }
  }

  /** The root of a reference expression is the marker it starts with. */
  lemma RootOfReference(e: string, k: nat)
    requires 0 < k <= |e| && IsRootMarker(e[..k]) && IsAccessorChain(e[k..])
    ensures RootName(e) == Some(e[..k])
  {
    if k < |e| {
      assert e[k] == e[k..][0];
      RootEndOfMarker(e, 0, k);
    } else {
      assert e[..k] == e;
      RootAtEnd(e);
    }
  }

  /** A root marker that is the whole text is consumed whole. */
  lemma RootAtEnd(e: string)
    requires IsRootMarker(e)
    ensures RootEnd(e, 0) == Some(|e|)
  {
    if e[0] == 'p' {
      SkipWhileStops(e, 1, Digit, |e|);
    }
  }

  // ---------------------------------------------------------------------------
  // The expression engine, as seen by the resolver.

  /** A `JexlException`: `JexlException.Variable` carries `isUndefined()` and a message. */
  datatype JexlError =
    | VariableError(undefined: bool, message: string)
    | OtherError(message: string)

  /** What creating and evaluating one expression over a context does. */
  datatype JexlOutcome = Evaluated(value: Value) | Raised(error: JexlError)

  type Evaluator = (string, map<string, Value>) -> JexlOutcome

  /** `sub` occurs in `s` at index `i`. */
  predicate OccursAt(s: string, sub: string, i: nat) {
    i + |sub| <= |s| && s[i..i + |sub|] == sub
  }

  /** `String.contains`. */
  predicate Contains(s: string, sub: string) {
    exists i :: 0 <= i <= |s| && OccursAt(s, sub, i)
  }

  /** The exceptions the resolver turns into a `null` parameter instead of rethrowing. */
  predicate IsNullTolerated(err: JexlError)
    ensures IsNullTolerated(err) ==> err.VariableError?
    ensures err.VariableError? && err.undefined ==> IsNullTolerated(err)
  {
    err.VariableError? && (err.undefined || Contains(err.message, "null value variable"))
  }

  /**
   * A variable exception is tolerated when its message mentions a null value
   * variable anywhere, and a defined variable whose message does not is rethrown.
   */
  lemma NullValueMessageIsTolerated(undefined: bool, before: string, after: string, other: string)
    ensures IsNullTolerated(VariableError(undefined, before + "null value variable" + after))
    ensures !Contains(other, "null value variable") ==> !IsNullTolerated(VariableError(false, other))
  {
    var msg := before + "null value variable" + after;
    assert OccursAt(msg, "null value variable", |before|) by {
      assert msg[|before|..|before| + |"null value variable"|] == "null value variable";
    }
  }

  // ---------------------------------------------------------------------------
  // Resolution of one expression.

  /** `String.trim`: every leading and trailing character up to U+0020 removed. */
  function Trim(s: string): (r: string)
    ensures |r| <= |s|
    ensures r == [] || (r[0] > ' ' && r[|r| - 1] > ' ')
    decreases |s|
  {
    if |s| > 0 && s[0] <= ' ' then
      Trim(s[1..])
    else if |s| > 0 && s[|s| - 1] <= ' ' then
      Trim(s[..|s| - 1])
    else
      s
  }

  /**
   * Trimming removes only blank ends: the result is the slice `s[i..j]` of the
   * input, and everything before `i` and from `j` on is a character up to U+0020.
   */
  lemma {:induction false} TrimIsInfix(s: string) returns (i: nat, j: nat)
    ensures i <= j <= |s| && Trim(s) == s[i..j]
    ensures forall k :: 0 <= k < i ==> s[k] <= ' '
    ensures forall k :: j <= k < |s| ==> s[k] <= ' '
    decreases |s|
  {
    if |s| > 0 && s[0] <= ' ' {
      var i', j' := TrimIsInfix(s[1..]);
      i, j := i' + 1, j' + 1;
      assert s[1..][i'..j'] == s[i..j];
      forall k | 1 <= k < i ensures s[k] <= ' ' {
        assert s[1..][k - 1] == s[k];
      }
      forall k | j <= k < |s| ensures s[k] <= ' ' {
        assert s[1..][k - 1] == s[k];
      }
    } else if |s| > 0 && s[|s| - 1] <= ' ' {
      i, j := TrimIsInfix(s[..|s| - 1]);
      assert s[..|s| - 1][i..j] == s[i..j];
      forall k | j <= k < |s| - 1 ensures s[k] <= ' ' {
        assert s[..|s| - 1][k] == s[k];
      }
    } else {
      i, j := 0, |s|;
    }
  }

  /** Trimming keeps text that neither starts nor ends with whitespace or a control character. */
  lemma TrimKeepsTrimmed(s: string)
    requires s == [] || (s[0] > ' ' && s[|s| - 1] > ' ')
    ensures Trim(s) == s
  {
  }

  /** Trimming twice is trimming once. */
  lemma TrimIsIdempotent(s: string)
    ensures Trim(Trim(s)) == Trim(s)
  {
    TrimKeepsTrimmed(Trim(s));
  }

  /** What the scanner hands over never needs trimming: a reference expression has no blank ends. */
  lemma ReferenceNeedsNoTrim(e: string)
    requires IsReferenceExpression(e)
    ensures Trim(e) == e
  {
    ReferenceExpressionChars(e);
    TrimKeepsTrimmed(e);
  }

  /** `hasNullExpressionRootParam`: the root is bound, and bound to `null`. */
  predicate HasNullExpressionRootParam(ctx: map<string, Value>, e: string)
    ensures HasNullExpressionRootParam(ctx, e) ==>
              exists k :: 0 < k <= |e| && IsRootMarker(e[..k]) && e[..k] in ctx && ctx[e[..k]] == Null
  {
    match RootName(e)
    case None => false
    case Some(n) => n in ctx && ctx[n] == Null
  }

  /**
   * For a reference expression the short cut looks at its own root marker, the
   * longest `p<digits>` or `r` it starts with: it is taken exactly when that
   * marker is bound to `null`, and an unbound root or one bound to another value
   * goes to the engine.
   */
  lemma HasNullIff(ctx: map<string, Value>, e: string, k: nat)
    requires SplitsAt(e, k)
    ensures HasNullExpressionRootParam(ctx, e) <==> e[..k] in ctx && ctx[e[..k]] == Null
  {
    RootOfReference(e, k);
  }

  /**
   * `evaluateWithPossibleNullValues`: a root bound to `null` yields `null` without
   * evaluating; otherwise the engine's value, or `null` for an undefined or
   * null-valued variable, or the engine's exception.
   */
  function EvaluateWithPossibleNullValues(ctx: map<string, Value>, e: string, eval: Evaluator): (r: Result<Value, JexlError>)
    ensures HasNullExpressionRootParam(ctx, e) ==> r == Success(Null)
    ensures r.Failure? <==> !HasNullExpressionRootParam(ctx, e) && eval(e, ctx).Raised? && !IsNullTolerated(eval(e, ctx).error)
    ensures r.Failure? ==> eval(e, ctx) == Raised(r.error)
    ensures r.Success? && r.value != Null ==> eval(e, ctx) == Evaluated(r.value)
  {
    if HasNullExpressionRootParam(ctx, e) then
      Success(Null)
    else
      match eval(e, ctx)
      case Evaluated(v) => Success(v)
      case Raised(err) => if IsNullTolerated(err) then Success(Null) else Failure(err)
  }

  /** `resolve`: the trimmed expression, evaluated with the null policy. */
  function ResolveExpression(ctx: map<string, Value>, expression: string, eval: Evaluator): (r: Result<Value, JexlError>)
    ensures IsReferenceExpression(expression) ==> r == EvaluateWithPossibleNullValues(ctx, expression, eval)
  {
    var trimmed := Trim(expression);
    assert IsReferenceExpression(expression) ==> trimmed == expression by {
      if IsReferenceExpression(expression) {
        ReferenceNeedsNoTrim(expression);
      }
    }
    EvaluateWithPossibleNullValues(ctx, trimmed, eval)
  }

  /** A root bound to `null` resolves to `null` whatever the engine would do. */
  lemma NullRootResolvesToNull(ctx: map<string, Value>, expression: string, eval: Evaluator, eval': Evaluator)
    requires HasNullExpressionRootParam(ctx, Trim(expression))
    ensures ResolveExpression(ctx, expression, eval) == ResolveExpression(ctx, expression, eval') == Success(Null)
  {
  }

  /**
   * Resolution fails exactly when the root is not bound to `null` and the engine
   * raises an exception that is not tolerated, and then with that exception.
   */
  lemma ResolveFailsIff(ctx: map<string, Value>, expression: string, eval: Evaluator, err: JexlError)
    ensures var e := Trim(expression);
      ResolveExpression(ctx, expression, eval) == Failure(err) <==>
        !HasNullExpressionRootParam(ctx, e) && eval(e, ctx) == Raised(err) && !IsNullTolerated(err)
  {
  }

  /**
   * A resolved parameter that is not `null` is exactly what the engine computed
   * for the trimmed expression over the context.
   */
  lemma NonNullComesFromEngine(ctx: map<string, Value>, expression: string, eval: Evaluator, v: Value)
    requires v != Null
    ensures ResolveExpression(ctx, expression, eval) == Success(v) <==>
              !HasNullExpressionRootParam(ctx, Trim(expression)) && eval(Trim(expression), ctx) == Evaluated(v)
  {
  }

  /** A tolerated exception never escapes: resolution then succeeds with `null`. */
  lemma ToleratedErrorResolvesToNull(ctx: map<string, Value>, expression: string, eval: Evaluator)
    requires eval(Trim(expression), ctx).Raised? && IsNullTolerated(eval(Trim(expression), ctx).error)
    ensures ResolveExpression(ctx, expression, eval) == Success(Null)
  {
  }

  /**
   * End to end for a reference: if its root is bound to a null value — a `null`
   * or empty `Optional` argument, or an empty `Optional` result — it resolves to
   * `null` without consulting the engine.
   */
  lemma NullArgumentReferenceResolvesToNull(args: seq<Value>, result: Value, e: string, k: nat, eval: Evaluator)
    requires 0 < k <= |e| && IsRootMarker(e[..k]) && IsAccessorChain(e[k..])
    requires e[..k] in ContextParams(args, result) && ContextParams(args, result)[e[..k]] == Null
    ensures ResolveExpression(ContextParams(args, result), e, eval) == Success(Null)
  {
    assert SplitsAt(e, k);
    ReferenceNeedsNoTrim(e);
    RootOfReference(e, k);
  }

  /** An empty `Optional` result binds `r` to `null`, so every reference rooted at `r` resolves to `null`. */
  lemma EmptyOptionalResultResolvesToNull(args: seq<Value>, e: string, eval: Evaluator)
    requires 0 < |e| && e[0] == 'r' && IsAccessorChain(e[1..])
    ensures ResolveExpression(ContextParams(args, OptEmpty), e, eval) == Success(Null)
  {
    assert e[..1] == "r";
    ContextParamsBindings(args, OptEmpty);
    NullArgumentReferenceResolvesToNull(args, OptEmpty, e, 1, eval);
  }

  /**
   * `ExpressionResolver`: the context is filled once, by the constructor, and
   * every later `resolve` reads it.
   */
  class ExpressionResolver {
    var contextParams: map<string, Value>

    constructor(expressionContextParams: seq<Value>, result: Value)
      ensures contextParams == ContextParams(expressionContextParams, result)
    {
      contextParams := map[];
      new;
      var i := 0;
      while i < |expressionContextParams|
        invariant 0 <= i <= |expressionContextParams|
        invariant contextParams == ParamsContext(expressionContextParams[..i])
      {
        ParamsContextStep(expressionContextParams, i);
        contextParams := contextParams[ParamName(i) := GetValueFrom(expressionContextParams[i])];
        i := i + 1;
      }
      assert expressionContextParams[..i] == expressionContextParams;
      if result != Null {
        contextParams := contextParams["r" := GetValueFrom(result)];
      }
    }

    /**
     * `resolve`: a root bound to `null` gives `null` without evaluating, and the
     * only exception that escapes is one the engine raised and the resolver does
     * not tolerate.
     */
    function Resolve(expression: string, eval: Evaluator): (r: Result<Value, JexlError>)
      reads this
      ensures HasNullExpressionRootParam(contextParams, Trim(expression)) ==> r == Success(Null)
      ensures r.Failure? ==> eval(Trim(expression), contextParams) == Raised(r.error) && !IsNullTolerated(r.error)
    {
      ResolveExpression(contextParams, expression, eval)
    }
  }
}

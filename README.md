# Log message parameter resolution, in Dafny

This project models `LogMessageParamsResolver` from annotated-logging. This Java library logs method calls through
aspect-oriented interceptors. A log annotation carries a message template such as
`"saved {p0.name} as { r.id }"`. In it, `p<i>` names the `i`-th argument of the intercepted call, `r` names its
result, and a chain of `.member` accessors may follow either one. Before logging, the resolver does two things:

* It finds every such reference, in order, with the regular expression `MESSAGE_PARAMS_PATTERN`. It evaluates each
  reference's expression (group 1) with the JEXL expression engine, over a context that binds `p0`, `p1`, … and `r`.
  This is `getParamsReferredInTemplate`.
* It replaces every reference by the `{}` placeholder of the logging framework. This is `getCleanLogMessageTemplate`.

The model has these modules:

* `Values` (`values.dfy`): the Java values the resolver distinguishes. These are `null`, `Optional` and everything
  else. The module also has `getValueFrom`, the one-level `Optional` unwrapping.
* `MessageParamsPattern` (`pattern.dfy`): the pattern `\{\s*((?:p\d+|r)(\.[\w\[\]\(\)]+)*)\s*}`.
  * `IsReferenceAt` states the pattern declaratively.
  * `MatchPrefix`/`MatchAt` are the greedy matcher.
  * The matcher is proved sound and complete against the declarative form.
  * The root scan `RootEnd` doubles as `^(?:p\d+|r)`.
* `ReferenceScanner` (`scanner.dfy`): the `Matcher.find()` loop and `replaceAll`.
  * `Scan` is proved to report exactly the leftmost non-overlapping matches.
  * `Clean` is proved to replace exactly the leftmost matches by `{}` and to copy every other character.
  * It is also proved to leave no reference behind and to be idempotent.
* `ExpressionResolving` (`expression_resolver.dfy`): the nested `ExpressionResolver`.
  * The class with the `contextParams` field, filled in place by the constructor's loop.
  * The trim.
  * The `null`-root short cut.
  * The exception policy of `evaluateWithPossibleNullValues`.
* `MessageParamsResolver` (`message_params_resolver.dfy`): the template value and its two operations.
  * `GetParamsReferredInTemplate` is the imperative find loop. It is proved against the specification `ResolveAll`.
  * `GetCleanLogMessageTemplate` is the `replaceAll` call.
* `ResolverScenarios` (`test_scenarios.dfy`): the template of the first test of `LogMessageParamsResolverTest`.
  It is proved to yield exactly its three expressions, in order.

JEXL is a parameter, `Evaluator`, rather than a model. It maps an expression and a context to a value or a raised
exception. Every property below therefore holds for every engine that is a function of the expression and the
context.

## Model

| member | source | states |
|---|---|---|
| Values.GetValueFrom | src/main/java/com/wnowakcraft/logging/LogMessageParamsResolver.java:66-69 | an `Optional` is unwrapped to its content, or to `null` when empty; any other value is kept; the result is `null` exactly for `null`, an empty `Optional` and `Optional` of `null` |
| Values.OptionalUnwrapping | src/main/java/com/wnowakcraft/logging/LogMessageParamsResolver.java:66-69 | binding `Optional.of(v)` binds `v`, and binding an empty `Optional` binds the same as `null` |
| MessageParamsPattern.ReferenceAtIff | src/main/java/com/wnowakcraft/logging/LogMessageParamsResolver.java:15-24 | a span is an occurrence of the pattern iff it reads `{`, whitespace, a root marker with an accessor chain (group 1), whitespace, `}` |
| MessageParamsPattern.SkipWhile | src/main/java/com/wnowakcraft/logging/LogMessageParamsResolver.java:16-20 | a greedy class scan (`\s*`, the digits of `\d+`, `[\w\[\]\(\)]+`) moves forward and stays within the text; SkipWhileSpec and SkipWhileStops give what it consumes |
| MessageParamsPattern.SkipWhileSpec | src/main/java/com/wnowakcraft/logging/LogMessageParamsResolver.java:16-20 | the greedy `\s*`, `\d+` and `[\w\[\]\(\)]+` scans consume only characters of their class and stop at one outside it |
| MessageParamsPattern.SkipWhileStops | src/main/java/com/wnowakcraft/logging/LogMessageParamsResolver.java:16-20 | a greedy class scan stops exactly where the run of the class ends |
| MessageParamsPattern.RootEnd | src/main/java/com/wnowakcraft/logging/LogMessageParamsResolver.java:18 | the root alternative, `p` with digits or `r` (also the anchored root pattern of `RootName`): a match ends strictly after where it starts and within the text; RootEndIsMarker gives what it consumes |
| MessageParamsPattern.RootEndIsMarker | src/main/java/com/wnowakcraft/logging/LogMessageParamsResolver.java:18 | the root alternative (`p` with digits, or `r`) consumes a root marker, and all digits after `p` |
| MessageParamsPattern.ChainEnd | src/main/java/com/wnowakcraft/logging/LogMessageParamsResolver.java:20 | the accessor repetition moves forward and stays within the text; ChainEndIsChain gives what it consumes |
| MessageParamsPattern.ChainEndIsChain | src/main/java/com/wnowakcraft/logging/LogMessageParamsResolver.java:20 | `(\.[\w\[\]\(\)]+)*` consumes an accessor chain, and stops only where no accessor can follow |
| MessageParamsPattern.MatchPrefix | src/main/java/com/wnowakcraft/logging/LogMessageParamsResolver.java:22-24 | the match tried at the start of a text starts there, has a non-empty group 1 strictly inside it, and ends within the text; its meaning is given by MatchPrefixSound and MatchPrefixComplete |
| MessageParamsPattern.MatchPrefixSound | src/main/java/com/wnowakcraft/logging/LogMessageParamsResolver.java:22-24 | every span the matcher reports at the start of a text is an occurrence of the pattern |
| MessageParamsPattern.MatchPrefixComplete | src/main/java/com/wnowakcraft/logging/LogMessageParamsResolver.java:22-24 | every occurrence of the pattern at the start of a text is what the matcher reports |
| MessageParamsPattern.MatchAt | src/main/java/com/wnowakcraft/logging/LogMessageParamsResolver.java:22-24 | a match tried at `i` starts at `i`, has a non-empty group 1 strictly inside it, and ends within the text |
| MessageParamsPattern.MatchAtSound | src/main/java/com/wnowakcraft/logging/LogMessageParamsResolver.java:22-24 | a match reported at any index is an occurrence of the pattern there |
| MessageParamsPattern.MatchAtComplete | src/main/java/com/wnowakcraft/logging/LogMessageParamsResolver.java:22-24 | every occurrence of the pattern is reported at its start index |
| MessageParamsPattern.MatchIsUnique | src/main/java/com/wnowakcraft/logging/LogMessageParamsResolver.java:22-24 | two occurrences starting at the same index are the same span |
| MessageParamsPattern.MatchIsLocal | src/main/java/com/wnowakcraft/logging/LogMessageParamsResolver.java:22-24 | whether a match starts somewhere depends only on the characters it covers |
| MessageParamsPattern.NoOpenBraceInside | src/main/java/com/wnowakcraft/logging/LogMessageParamsResolver.java:15-23 | no character of an occurrence after its first is `{` |
| MessageParamsPattern.ReferenceExpressionChars | src/main/java/com/wnowakcraft/logging/LogMessageParamsResolver.java:18-20 | group 1 starts with `p` or `r` and consists only of dots and accessor characters |
| ReferenceScanner.FindFrom | src/main/java/com/wnowakcraft/logging/LogMessageParamsResolver.java:37 | `find()` resumed at `from` reports the first match at or after `from`, with no match before it, or reports none when no match is left |
| ReferenceScanner.FindFromAt | src/main/java/com/wnowakcraft/logging/LogMessageParamsResolver.java:37 | conversely, the first match at or after `from` is what `find()` reports |
| ReferenceScanner.Scan | src/main/java/com/wnowakcraft/logging/LogMessageParamsResolver.java:37-40 | the matches the loop visits lie inside the template, in increasing order, without overlapping |
| ReferenceScanner.ScanSpanIsMatch | src/main/java/com/wnowakcraft/logging/LogMessageParamsResolver.java:37-38 | every visited span is the match at its start index |
| ReferenceScanner.ScanIsLeftmost | src/main/java/com/wnowakcraft/logging/LogMessageParamsResolver.java:37-40 | the loop visits each match and skips no match between or after them |
| ReferenceScanner.LeftmostMatchesAreScan | src/main/java/com/wnowakcraft/logging/LogMessageParamsResolver.java:37-40 | the leftmost non-overlapping matches are unique: any sequence with that property is what the loop visits |
| ReferenceScanner.ScanEmptyIffNoMatch | src/main/java/com/wnowakcraft/logging/LogMessageParamsResolver.java:37 | the loop visits nothing iff the pattern matches nowhere in the template |
| ReferenceScanner.ReferenceBegins | src/main/java/com/wnowakcraft/logging/LogMessageParamsResolver.java:15-24 | every match begins with `{`, optional whitespace, then `r` or `p` and a digit |
| ReferenceScanner.NoReferenceStartNoReferences | src/main/java/com/wnowakcraft/logging/LogMessageParamsResolver.java:37-47 | a template where no `{` begins that way has no references |
| ReferenceScanner.Expressions | src/main/java/com/wnowakcraft/logging/LogMessageParamsResolver.java:37-38 | one group 1 per visited match, each a reference expression |
| ReferenceScanner.CleanFrom | src/main/java/com/wnowakcraft/logging/LogMessageParamsResolver.java:46 | `replaceAll` from `from` on is the text with every match the find loop visits replaced by `{}`, and the text before, between and after them copied |
| ReferenceScanner.Clean | src/main/java/com/wnowakcraft/logging/LogMessageParamsResolver.java:46 | `replaceAll` on the whole template is the template with every match the find loop visits replaced by `{}` and all other text copied |
| ReferenceScanner.CleanReplacesLeftmostMatches | src/main/java/com/wnowakcraft/logging/LogMessageParamsResolver.java:46 | the cleaned template is the template with its leftmost non-overlapping matches replaced by `{}` and every other character copied |
| ReferenceScanner.CleanFromLength | src/main/java/com/wnowakcraft/logging/LogMessageParamsResolver.java:45-47 | `replaceAll` removes exactly the matched characters and adds two per match; a text without matches is kept |
| ReferenceScanner.CleanHasNoReferences | src/main/java/com/wnowakcraft/logging/LogMessageParamsResolver.java:45-47 | the cleaned template contains no reference |
| ReferenceScanner.CleanIsIdempotent | src/main/java/com/wnowakcraft/logging/LogMessageParamsResolver.java:45-47 | cleaning a cleaned template changes nothing |
| ExpressionResolving.Decimal | src/main/java/com/wnowakcraft/logging/LogMessageParamsResolver.java:58 | an argument index is written as a canonical decimal numeral (no leading zeros) |
| ExpressionResolving.DecimalRoundTrip | src/main/java/com/wnowakcraft/logging/LogMessageParamsResolver.java:58 | reading back the numeral of `n` gives `n` |
| ExpressionResolving.NumeralRoundTrip | src/main/java/com/wnowakcraft/logging/LogMessageParamsResolver.java:58 | writing the value of a canonical numeral gives the numeral back |
| ExpressionResolving.ParamName | src/main/java/com/wnowakcraft/logging/LogMessageParamsResolver.java:58 | the name of argument `i` is `p` followed by a canonical numeral that reads back as `i` |
| ExpressionResolving.ParamNameIsMarker | src/main/java/com/wnowakcraft/logging/LogMessageParamsResolver.java:50-58 | `"p" + i` is a parameter marker the pattern accepts, never `r` |
| ExpressionResolving.ParamNameInjective | src/main/java/com/wnowakcraft/logging/LogMessageParamsResolver.java:57-58 | distinct arguments are bound under distinct names |
| ExpressionResolving.ParamNameOfMarker | src/main/java/com/wnowakcraft/logging/LogMessageParamsResolver.java:57-58 | a marker `p<digits>` is an argument name iff its digits are canonical, and then names the argument they denote |
| ExpressionResolving.ParamsContext | src/main/java/com/wnowakcraft/logging/LogMessageParamsResolver.java:57-59 | the argument loop never binds the result name `r` |
| ExpressionResolving.ParamsContextValues | src/main/java/com/wnowakcraft/logging/LogMessageParamsResolver.java:57-59 | after the loop every argument is bound under `"p" + i` to its unwrapped value |
| ExpressionResolving.ParamsContextKeys | src/main/java/com/wnowakcraft/logging/LogMessageParamsResolver.java:57-59 | the loop binds nothing but argument names |
| ExpressionResolving.ParamsContextStep | src/main/java/com/wnowakcraft/logging/LogMessageParamsResolver.java:57-59 | one iteration adds exactly the binding of the next argument |
| ExpressionResolving.ContextParams | src/main/java/com/wnowakcraft/logging/LogMessageParamsResolver.java:56-64 | the context binds `r` iff the result is not `null`, and then to the unwrapped result |
| ExpressionResolving.ContextParamsBindings | src/main/java/com/wnowakcraft/logging/LogMessageParamsResolver.java:56-64 | the context binds every argument, binds `r` iff the result is not `null` (to the unwrapped result), and nothing else |
| ExpressionResolving.RootBinding | src/main/java/com/wnowakcraft/logging/LogMessageParamsResolver.java:56-64 | a root `r` is bound iff there is a result; a root `p<digits>` is bound iff its digits are canonical and in range, to that argument |
| ExpressionResolving.RootName | src/main/java/com/wnowakcraft/logging/LogMessageParamsResolver.java:52-53 | the anchored root pattern finds a root marker that is a prefix of the expression and takes all digits after `p`, or finds nothing when no prefix is a marker |
| ExpressionResolving.RootOfReference | src/main/java/com/wnowakcraft/logging/LogMessageParamsResolver.java:94-97 | the root found in a reference expression is the marker it is built from |
| ExpressionResolving.Trim | src/main/java/com/wnowakcraft/logging/LogMessageParamsResolver.java:72 | `trim()` leaves no character up to U+0020 at either end and never lengthens |
| ExpressionResolving.TrimIsInfix | src/main/java/com/wnowakcraft/logging/LogMessageParamsResolver.java:72 | `trim()` returns a slice of its input, and every character cut off before or after it is a character up to U+0020 |
| ExpressionResolving.TrimIsIdempotent | src/main/java/com/wnowakcraft/logging/LogMessageParamsResolver.java:72 | trimming twice is trimming once |
| ExpressionResolving.ReferenceNeedsNoTrim | src/main/java/com/wnowakcraft/logging/LogMessageParamsResolver.java:38-39 | a group 1 handed over by the scan is unchanged by `trim()` |
| ExpressionResolving.IsNullTolerated | src/main/java/com/wnowakcraft/logging/LogMessageParamsResolver.java:84-85 | only variable exceptions are tolerated, and an undefined variable always is |
| ExpressionResolving.NullValueMessageIsTolerated | src/main/java/com/wnowakcraft/logging/LogMessageParamsResolver.java:84-85 | a variable exception whose message contains "null value variable" anywhere is tolerated; a defined variable whose message does not is rethrown |
| ExpressionResolving.HasNullExpressionRootParam | src/main/java/com/wnowakcraft/logging/LogMessageParamsResolver.java:93-101 | when it holds, some prefix of the expression is a root marker that the context binds to `null` |
| ExpressionResolving.HasNullIff | src/main/java/com/wnowakcraft/logging/LogMessageParamsResolver.java:93-101 | for a reference expression, the short cut is taken iff its own root marker (the longest `p<digits>` or `r` prefix) is bound to `null`; an unbound root or one bound to another value is not short-cut |
| ExpressionResolving.EvaluateWithPossibleNullValues | src/main/java/com/wnowakcraft/logging/LogMessageParamsResolver.java:75-91 | a root bound to `null` gives `null`; it fails iff the root is not bound to `null` and the engine raises an exception that is not tolerated, and then with the engine's exception; a non-`null` value is the engine's value |
| ExpressionResolving.ResolveExpression | src/main/java/com/wnowakcraft/logging/LogMessageParamsResolver.java:71-73 | a reference expression the scan hands over is evaluated as it is: the trim changes nothing |
| ExpressionResolving.NullRootResolvesToNull | src/main/java/com/wnowakcraft/logging/LogMessageParamsResolver.java:76-78 | a root bound to `null` resolves to `null` whatever the engine would do |
| ExpressionResolving.ResolveFailsIff | src/main/java/com/wnowakcraft/logging/LogMessageParamsResolver.java:75-91 | resolution fails iff the root is not bound to `null` and the engine raises an exception that is not tolerated, and then with that exception |
| ExpressionResolving.NonNullComesFromEngine | src/main/java/com/wnowakcraft/logging/LogMessageParamsResolver.java:80-83 | a non-`null` parameter is exactly what the engine evaluated the trimmed expression to |
| ExpressionResolving.ToleratedErrorResolvesToNull | src/main/java/com/wnowakcraft/logging/LogMessageParamsResolver.java:84-87 | an undefined variable, or a variable error whose message contains "null value variable", yields `null` |
| ExpressionResolving.NullArgumentReferenceResolvesToNull | src/main/java/com/wnowakcraft/logging/LogMessageParamsResolver.java:93-99 | a reference whose root is bound to `null` (a `null` or empty `Optional` argument) resolves to `null` |
| ExpressionResolving.EmptyOptionalResultResolvesToNull | src/main/java/com/wnowakcraft/logging/LogMessageParamsResolver.java:61-68 | with an empty `Optional` result, every reference rooted at `r` resolves to `null` |
| ExpressionResolving.ExpressionResolver.constructor | src/main/java/com/wnowakcraft/logging/LogMessageParamsResolver.java:56-64 | the constructor's loop leaves `contextParams` equal to the context `ContextParams` describes |
| ExpressionResolving.ExpressionResolver.Resolve | src/main/java/com/wnowakcraft/logging/LogMessageParamsResolver.java:71-91 | a root bound to `null` gives `null`; the only exception that escapes is one the engine raised and the policy does not tolerate |
| MessageParamsResolver.ResolveAll | src/main/java/com/wnowakcraft/logging/LogMessageParamsResolver.java:37-40 | a successful resolution yields one parameter per expression |
| MessageParamsResolver.ResolveAllSucceeds | src/main/java/com/wnowakcraft/logging/LogMessageParamsResolver.java:35-42 | the parameters are produced iff every reference resolves, one per reference, in template order |
| MessageParamsResolver.ResolveAllFailsAtFirst | src/main/java/com/wnowakcraft/logging/LogMessageParamsResolver.java:37-40 | a failure carries the exception of the first reference that failed; every reference before it resolved |
| MessageParamsResolver.LogMessageParamsResolver.ForMessageTemplate | src/main/java/com/wnowakcraft/logging/LogMessageParamsResolver.java:27-29 | the factory keeps the template it is given |
| MessageParamsResolver.LogMessageParamsResolver.GetParamsReferredInTemplate | src/main/java/com/wnowakcraft/logging/LogMessageParamsResolver.java:31-43 | the loop returns the resolution of every group 1 the matcher finds, in order, over the context built from the arguments and result, or the first escaping exception |
| MessageParamsResolver.LogMessageParamsResolver.GetCleanLogMessageTemplate | src/main/java/com/wnowakcraft/logging/LogMessageParamsResolver.java:45-47 | the clean template is the template with every visited match replaced by `{}` and the rest copied; it has no reference; it is the template less the matched characters plus two per match; a template without references is returned unchanged |
| MessageParamsResolver.BarePlaceholdersAreKept | src/test/java/com/wnowakcraft/logging/LogMessageParamsResolverTest.java:32-52 | a template without `{`, or with only bare `{}` placeholders, is kept as it is and yields no parameters |
| ResolverScenarios.TemplateSpans | src/test/java/com/wnowakcraft/logging/LogMessageParamsResolverTest.java:20 | the find loop visits exactly the three references of the first test's template, in order |
| ResolverScenarios.TemplateExpressions | src/test/java/com/wnowakcraft/logging/LogMessageParamsResolverTest.java:20-23 | the expressions resolved for that template are `p0.getName()`, `p0.name` and `p1.getSuggested(p2)`, in this order |
| ResolverScenarios.TemplateResolvesThreeParams | src/test/java/com/wnowakcraft/logging/LogMessageParamsResolverTest.java:23-29 | resolving that template succeeds iff its three expressions resolve, and then yields exactly their three values, in order |

## Left out

- The JEXL engine is not modelled. Creating and evaluating an expression is the `Evaluator` parameter.
- A parse error from `createExpression` appears in the model as an `OtherError` the engine raises. It escapes, as in the source.
- A `JexlException.Variable` thrown by `createExpression` itself, outside the `try`, would escape in Java. The model treats it like one raised by `evaluate`. The engine does not raise variable errors while parsing.
- A `null` part in the middle of an accessor chain (`p0.a.b` with `p0.a` null) is the engine's business. It reaches the model only as an engine outcome.
- Java objects are reduced to `Value`. `OptOf(Null)` is representable but `Optional.of(null)` cannot be built in Java.
- The argument `Object[]` and the `LinkedList` of resolved parameters are modelled as sequences. Converting with `toArray()` is the identity on them.
- A `null` result is `Value.Null`. The one-argument `getParamsReferredInTemplate(Object[])` called by `LogAspect` and by the tests is not part of this file. It is the two-argument operation with a `null` result.
- The general `java.util.regex` engine is not modelled. Only this one pattern is, and matching it needs no backtracking.
- `LogAspect`, `Level` and the `LogBefore`/`LogAfter` annotations are not part of this model. They are the callers and the logging output.
- An unbound root is not short-cut to `null` (HasNullIff). It goes to the engine, which reports it as an undefined variable; that report is the engine's and is not modelled.
- Only context bindings are unwrapped from `Optional`. The engine's result is passed on as it is.
- MessageParamsResolver.ResolveAll: the engine is a function of the expression and the context, so side effects of evaluation, and their order across references, are not modelled. `{p0.next()} {p0.next()}` resolves both references to the same value in the model, while Java may give two different values.
- MessageParamsResolver.LogMessageParamsResolver.GetParamsReferredInTemplate: it is proved equal to `ResolveAll`, so the same holds for it. Evaluation side effects and their order across references are not modelled.
- ExpressionResolving.ExpressionResolver.Resolve: its contract gives the `null` short cut and the escaping exception. The full result is stated by the lemmas about `ResolveExpression`, which `Resolve` applies to its own context.
- The values the first test expects come from calling the methods of its test objects, which are not modelled. For its template, the model proves which three expressions are resolved, in which order, and that there are exactly three parameters.

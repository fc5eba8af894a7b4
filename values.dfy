/**
 * The values that flow through the resolver: call arguments, the call result,
 * context bindings and resolved parameters.  Java's `Object` is closed over the
 * kinds the resolver itself distinguishes: `null`, `java.util.Optional` (empty or
 * holding a value) and any other object.
 */
module Values {

  // `Obj`, `Str` and `Int` are never inspected by the resolver: they stand for
  // the ordinary arguments and results it passes on untouched, so that `Value`
  // has inhabitants besides `null` and `Optional`.
  datatype Value =
    | Null                    // Java `null`
    | Obj(id: nat)            // an opaque object, identified by reference
    | Str(text: string)       // a java.lang.String
    | Int(n: int)             // a boxed integer
    | OptEmpty                // Optional.empty()
    | OptOf(inner: Value)     // Optional.of(inner)
  {
    predicate IsOptional() {
      OptEmpty? || OptOf?
    }
  }

  /**
   * `getValueFrom`: an `Optional` is unwrapped one level, to its contents or to
   * `null` when empty (`orElse(null)`); every other value is kept as it is.
   */
  function GetValueFrom(v: Value): (r: Value)
    ensures v.OptOf? ==> r == v.inner
    ensures v.OptEmpty? ==> r == Null
    ensures !v.IsOptional() ==> r == v
    ensures r == Null <==> v in {Null, OptEmpty, OptOf(Null)}
  {
    match v
    case OptEmpty => Null
    case OptOf(inner) => inner
    case _ => v
  }

  /**
   * Binding a present `Optional` of a plain value is the same as binding that
   * value, and binding an empty `Optional` is the same as binding `null`.
   */
  lemma OptionalUnwrapping(v: Value)
    requires !v.IsOptional()
    ensures GetValueFrom(OptOf(v)) == GetValueFrom(v) == v
    ensures GetValueFrom(OptEmpty) == GetValueFrom(Null) == Null
  {
  }
}

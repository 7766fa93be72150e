/** JavaScript values that the carousel stores in its "disabled" flags.
    A flag is declared `string | boolean`; it is read either by the
    double negation `!!v` or by `||`, both of which go through the
    language's truthiness rule. */
module JsValues {

  /** A value of the TypeScript type `string | boolean`. */
  datatype JsValue = Bool(b: bool) | Str(s: string)

  /** JavaScript truthiness, i.e. the value of `!!v`: a boolean is itself,
      a string is truthy exactly when it is non-empty. */
  predicate Truthy(v: JsValue) {
    match v
    case Bool(b) => b
    case Str(s) => |s| > 0
  }
}

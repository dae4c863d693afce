/**
 Values a request body or a socket event argument can carry, as the server
 receives them after JSON parsing, and the JavaScript notion of truthiness
 that the handlers' `!field` guards test.
 */
module Json {

  /** A parsed JSON value, or `Undefined` for a field the body leaves out.
      Numbers are integers here; NaN and fractions are not modelled. */
  datatype Value =
    | Undefined
    | Null
    | Bool(b: bool)
    | Num(n: int)
    | Str(s: string)
    | Arr(items: seq<Value>)
    | Obj

  /** JavaScript truthiness: `undefined`, `null`, `false`, `0` and `""` are falsy. */
  predicate Truthy(v: Value) {
    match v
    case Undefined => false
    case Null => false
    case Bool(b) => b
    case Num(n) => n != 0
    case Str(s) => s != ""
    case Arr(_) => true
    case Obj => true
  }
}

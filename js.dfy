/**
  The few JavaScript values that reach the reflected setters, with the two
  coercions the source relies on: `String(v)` (what `setAttribute` stores)
  and `!!v` (truthiness).
*/
module Js {
  datatype JsValue = Undefined | Null | Bool(b: bool) | Str(s: string)

  /** `String(v)`. */
  function ToString(v: JsValue): string {
    match v
    case Undefined => "undefined"
    case Null => "null"
    case Bool(b) => if b then "true" else "false"
    case Str(s) => s
  }

  /** `!!v`: `undefined`, `null`, `false` and the empty string are falsy. */
  predicate Truthy(v: JsValue) {
    match v
    case Undefined => false
    case Null => false
    case Bool(b) => b
    case Str(s) => s != ""
  }
}

/** The JavaScript values a JSON request body can carry, for the guards whose
    outcome depends on the dynamic type of a field (`typeof`, truthiness). */
module JsValues {

  /** A JSON value, or `undefined` for an absent field. Numbers are the
      finite ones; NaN and the infinities are not modelled. */
  datatype JsValue =
    | Undefined
    | Null
    | Boolean(flag: bool)
    | Number(num: real)
    | Str(str: string)
    | List(items: seq<JsValue>)
    | Object

  /** JavaScript truthiness: `!v` is false exactly for these values. */
  predicate Truthy(v: JsValue) {
    match v
    case Undefined => false
    case Null => false
    case Boolean(b) => b
    case Number(n) => n != 0.0
    case Str(s) => s != ""
    case List(_) => true
    case Object => true
  }

  /** `Number.isInteger` on a finite number. */
  predicate IsInteger(n: real) {
    n == n.Floor as real
  }
}

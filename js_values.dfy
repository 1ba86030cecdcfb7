/** JavaScript values as the play queue sees them. */
module JsValues {

  /** A result that is either JavaScript's `undefined` ("not set") or a value.
      The step sequencer uses `undefined` as its "continue" signal, which is
      distinct from a defined `false`, `0` or `null`. */
  datatype Maybe<+T> = Undefined | Defined(value: T)

  /** An argument a caller may pass where the source accepts any value.
      Numbers are reals; NaN is its own case because it is not a real. */
  datatype JsValue =
    | JsUndefined
    | JsNull
    | JsBoolean(b: bool)
    | JsNumber(x: real)
    | JsNaN
    | JsString(s: string)
    | JsObject

  /** JavaScript's boolean coercion `!!v`: `false`, `0`, `NaN`, `""`, `null`
      and `undefined` are falsy, everything else is truthy. */
  function Truthy(v: JsValue): (r: bool)
    ensures v.JsBoolean? ==> r == v.b
    ensures v.JsUndefined? || v.JsNull? || v.JsNaN? ==> !r
    ensures v.JsObject? ==> r
    ensures v.JsNumber? ==> (r <==> v.x != 0.0)
    ensures v.JsString? ==> (r <==> v.s != "")
  {
    match v
    case JsUndefined => false
    case JsNull => false
    case JsBoolean(b) => b
    case JsNumber(x) => x != 0.0
    case JsNaN => false
    case JsString(s) => s != ""
    case JsObject => true
  }
}

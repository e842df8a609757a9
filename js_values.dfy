/**
 * The values a field of a parsed request body can hold, and JavaScript's notion
 * of a "falsy" value, which the handlers use for every presence test.
 */
module JsValues {

  /** A JSON value as it reaches a handler; `Structured` stands for any object or array. */
  datatype JsValue =
    | Missing
    | Null
    | Boolean(b: bool)
    | Number(n: real)
    | Text(s: string)
    | Structured

  /** True exactly for the values on which `!v` is true in JavaScript. */
  predicate Falsy(v: JsValue)
  {
    match v
    case Missing => true
    case Null => true
    case Boolean(b) => !b
    case Number(n) => n == 0.0
    case Text(s) => s == ""
    case Structured => false
  }
}

/**
  JSON values as the server sees them after body parsing, and the two notions
  of "present" the request handlers use: JavaScript truthiness (`!x`) and
  definedness (`x !== undefined`).
 */
module JsValues {
  import opened Wrappers

  /** A parsed JSON value. Numbers are integers here; `undefined` is not a
      JSON value and is modelled by `None` around a field. */
  datatype JsValue =
    | JNull
    | JBool(b: bool)
    | JNum(n: int)
    | JStr(s: string)
    | JArr(items: seq<JsValue>)
    | JObj(fields: seq<(string, JsValue)>)

  /** JavaScript truthiness: `null`, `false`, `0` and `""` are falsy; every
      array and object is truthy, even an empty one. */
  predicate Truthy(v: JsValue) {
    match v
    case JNull => false
    case JBool(b) => b
    case JNum(n) => n != 0
    case JStr(s) => |s| > 0
    case JArr(_) => true
    case JObj(_) => true
  }

  /** A request field that passes a `!field` check: supplied and truthy. */
  predicate Given(f: Option<JsValue>) {
    f.Some? && Truthy(f.value)
  }

  /** Values compared by content under `===`. */
  predicate Primitive(v: JsValue) {
    !v.JArr? && !v.JObj?
  }

  /** `===` between a stored value and one from the current request. Arrays
      and objects compare by identity, and each parsed body holds fresh
      ones, so such a value never equals anything stored earlier. */
  predicate StrictEq(a: JsValue, b: JsValue) {
    Primitive(a) && a == b
  }
}

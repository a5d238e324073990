/** JavaScript values as the handlers and the page see them once a body has
    been parsed, and JavaScript truthiness on them. */
module JsValues {

  /** A value that may be `undefined` (None). */
  datatype Option<+T> = None | Some(value: T)

  /** A parsed JSON value. Numbers are integers in this model: fractions and
      NaN never reach the logic that is modelled. */
  datatype Json =
    | JNull
    | JBool(b: bool)
    | JNum(n: int)
    | JStr(s: string)
    | JArr(items: seq<Json>)
    | JObj(fields: map<string, Json>)

  /** A parsed body whose properties can be read: reading a property of
      `null` throws, so a body the page inspects is never `null`. */
  type Body = j: Json | !j.JNull? witness JObj(map[])

  /** JavaScript truthiness of a JSON value. */
  predicate Truthy(v: Json) {
    match v
    case JNull => false
    case JBool(b) => b
    case JNum(n) => n != 0
    case JStr(s) => s != ""
    case JArr(_) => true
    case JObj(_) => true
  }

  /** Truthiness of a value that may be `undefined`. */
  predicate Present(v: Option<Json>) {
    v.Some? && Truthy(v.value)
  }

  /** Truthiness of a string that may be `undefined`: present and non-empty. */
  predicate PresentText(v: Option<string>) {
    v.Some? && v.value != ""
  }

  /** `body.error`: only an object can carry an own `error` property;
      strings, numbers, booleans and arrays read it as `undefined`. */
  function ErrorOf(body: Body): (r: Option<Json>)
    ensures r.Some? <==> body.JObj? && "error" in body.fields
    ensures r.Some? ==> r.value == body.fields["error"]
  {
    match body
    case JObj(fields) => if "error" in fields then Some(fields["error"]) else None
    case _ => None
  }

  /** `{ error: e }` as a response body. */
  function ErrorBody(e: Json): (r: Body)
    ensures ErrorOf(r) == Some(e)
  {
    JObj(map["error" := e])
  }

  /** A body whose `error` property is truthy: the page treats it as a failure. */
  predicate Fails(body: Body) {
    Present(ErrorOf(body))
  }
}

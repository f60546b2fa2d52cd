/** Values shared by the backend routes and the browser script: optional
    values, the scalar JSON values a request body may carry, and HTTP replies. */
module Values {

  datatype Option<+T> = None | Some(value: T) {
    function GetOr(default: T): (r: T)
      ensures Some? ==> r == value
      ensures None? ==> r == default
    {
      match this
      case Some(v) => v
      case None => default
    }
  }

  /** A scalar JSON value, as decoded by Flask's `get_json` or the browser's `JSON.parse`. */
  datatype JsonValue = JNull | JBool(b: bool) | JNumber(n: int) | JString(s: string)

  /** Truthiness of a scalar JSON value. Python (`if not url`) and JavaScript
      (`if (format.quality)`) agree on scalars: null, false, 0 and "" are falsy. */
  predicate Truthy(v: JsonValue) {
    match v
    case JNull => false
    case JBool(b) => b
    case JNumber(n) => n != 0
    case JString(s) => s != ""
  }

  /** Python's `dict.get(key)` followed by a truthiness test. */
  predicate TruthyAt(body: map<string, JsonValue>, key: string) {
    key in body && Truthy(body[key])
  }

  /** An HTTP reply: a status with a JSON body, or an error status with the
      `{"error": message}` body every route in the backend uses. */
  datatype Response<T> = Reply(status: int, body: T) | Error(status: int, message: string)
}

/** Values as the JavaScript handlers see them: a field of a request body, a
    spreadsheet row or a socket payload may be absent (`undefined` or `null`),
    and the handlers test fields with JavaScript truthiness. */
module JsValue {

  /** A value that may be absent. `None` stands for both `undefined` and `null`. */
  datatype Option<+T> = None | Some(value: T) {

    /** The value, or `default` when absent (the source's `x || default` on strings). */
    function GetOr(default: T): T {
      match this
      case Some(v) => v
      case None => default
    }
  }

  /** JavaScript truthiness of an optional string: `undefined`, `null` and the
      empty string are falsy, every other string is truthy. */
  predicate Truthy(v: Option<string>) {
    v.Some? && v.value != ""
  }

  /** `v || ""`: a falsy string field becomes the empty string. */
  function OrEmpty(v: Option<string>): (r: string)
    ensures Truthy(v) ==> r == v.value
    ensures !Truthy(v) ==> r == ""
  {
    if Truthy(v) then v.value else ""
  }
}

/** Optional values and the completion of a JavaScript call that may throw. */
module Wrappers {

  /** A value that may be absent (JavaScript `null`/`undefined`, Python `None`). */
  datatype Option<+T> = None | Some(value: T) {

    /** The value, or `default` when absent. */
    function GetOr(default: T): T
    {
      match this
      case Some(v) => v
      case None => default
    }
  }

  /** How a JavaScript function call ends: it returns a value or throws (a `TypeError`). */
  datatype Completion<+T> = Normal(value: T) | Thrown

  /** How a request handler of the server ends: a value, or an uncaught exception (HTTP 500). */
  datatype Result<+T> = Ok(value: T) | Failed(reason: string)

  /** JavaScript and Python truthiness of an optional string: present and non-empty. */
  predicate Truthy(s: Option<string>)
  {
    s.Some? && s.value != ""
  }
}

/** Failure-carrying datatypes shared by every module of the model. */
module Base {

  /** A value that may be absent: JavaScript's `undefined` / `null`. */
  datatype Option<+T> = None | Some(value: T) {
    function GetOr(default: T): T {
      match this
      case Some(v) => v
      case None => default
    }
  }

  /** The result of an operation that may throw: `Err` carries the error message. */
  datatype Result<+T> = Ok(value: T) | Err(message: string)

  /** A thrown value: an `Error` object with its message, or any other value
      together with what `String(value)` renders it as. */
  datatype Thrown = Error(message: string) | NonError(rendered: string)

  /** An optional string that is "truthy" in JavaScript: present and non-empty. */
  predicate Truthy(s: Option<string>) {
    s.Some? && s.value != []
  }
}

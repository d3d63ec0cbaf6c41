/** Failure-compatible wrappers shared by every module of the model. */
module Base {

  /** A value that may be absent: JavaScript `null`/`undefined`, Python `None`. */
  datatype Option<T> = None | Some(value: T) {

    /** The wrapped value, or `default` when absent. */
    function GetOr(default: T): T {
      match this
      case Some(v) => v
      case None => default
    }

    /** `this ?? other`: the first present value. */
    function OrElse(other: Option<T>): Option<T> {
      if Some? then this else other
    }
  }

  /** The outcome of an operation that can throw: the value, or the thrown message. */
  datatype Result<T> = Ok(value: T) | Err(message: string)
}

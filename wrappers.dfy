/** Small failure-carrying datatypes shared by the other modules. */
module Wrappers {

  /** A value that may be absent: a missing JSON field, a lookup that found nothing. */
  datatype Option<+T> = None | Some(value: T) {
    function GetOr(default: T): T {
      match this
      case Some(v) => v
      case None => default
    }
  }

  /** The verdict of a chain of checks: every check passed, or the first failure. */
  datatype Outcome<+E> = Pass | Fail(error: E)

  /** The outcome of a remote call: success with the response data, or a transport/server failure. */
  datatype Remote<+T> = Ok(value: T) | Failed
}

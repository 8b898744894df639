/** Plain wrapper datatypes shared by the model: an optional value, a
    value-or-error result, and a pass-or-fail outcome. */
module Wrappers {

  /** An optional value; `None` stands for a field or key that is absent. */
  datatype Option<+T> = None | Some(value: T) {
    /** The wrapped value, or `default` when absent. */
    function GetOr(default: T): T {
      match this
      case Some(v) => v
      case None => default
    }
  }

  /** Either a value or an error; models a call that may throw. */
  datatype Result<+R, +E> = Success(value: R) | Failure(error: E)

  /** Completion of an operation that returns nothing but may throw. */
  datatype Outcome<+E> = Pass | Fail(error: E)
}

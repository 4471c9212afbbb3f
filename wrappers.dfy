/** Option and Result values used wherever the Python code returns None or raises. */
module Wrappers {

  datatype Option<+T> = None | Some(value: T) {
    /** The value, or `default` when there is none (Python's `x or default` on optionals). */
    function GetOr(default: T): T
    {
      match this
      case Some(v) => v
      case None => default
    }
  }

  /** An exception the Python code lets escape, or a value. */
  datatype Result<+T> = Ok(value: T) | Err(error: string)
}

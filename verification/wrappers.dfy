/** Failure-compatible datatypes shared by the whole model.
    `Option` stands for Python's `None`-or-value results and `Result` for
    a call that either returns a value or lets an exception escape. */
module Wrappers {

  datatype Option<+T> = None | Some(value: T) {

    /** The value in `Some`, or `default` for `None` (the default of Python's `d.get(k, default)`). */
    function GetOr(default: T): T
    {
      match this
      case Some(v) => v
      case None => default
    }
  }

  /** A Python call: it either returns `value` or raises. The kind of exception
      is not tracked, since no caller in the model distinguishes them. */
  datatype Result<+T> = Ok(value: T) | Raised
}

/** Failure-carrying datatypes shared by the model: `Option` stands for a
    Python value that may be `None`, `Result` for a call that either returns
    a value or raises an exception. */
module Wrappers {

  datatype Option<+T> = None | Some(value: T)

  datatype Result<+R, +E> = Success(value: R) | Failure(error: E) {

    /** The value, or `None` when the call raised: the shape of a
        `try: ... except: None` block. */
    function ToOption(): Option<R> {
      match this
      case Success(v) => Some(v)
      case Failure(_) => None
    }
  }
}

/**
  The value shapes shared by the scanning engine: the errors the operating
  system reports, Rust's `Result` and `Option`, and the way a call ends
  (it returns, or the program panics).
 */
module Outcomes {

  /** The kinds of `std::io::Error` the directory walk and the hasher can meet. */
  datatype IoError = NotFound | PermissionDenied | NotADirectory | Other(message: string)

  /** Rust's `Result<T, E>`. */
  datatype Result<T, E> = Ok(value: T) | Err(error: E)

  /** Rust's `Option<T>`. */
  datatype Option<T> = None | Some(value: T)

  /**
    How a call ends: it returns `value`, or the Rust program panics
    (an `unwrap` on an error, an index out of bounds) and returns nothing.
   */
  datatype Run<T> = Done(value: T) | Panic
}

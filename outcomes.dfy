/** Outcomes of the library functions.

    Every library function returns `Result<T, Box<dyn Error>>`; only the
    `std::io::ErrorKind` carried by the error is kept here.  A call that
    reaches an `.unwrap()` on an error, or indexes past the end of a vector,
    ends the request with a panic: that is the third outcome. */
module Outcomes {

  /** The `std::io::ErrorKind`s the library constructs. */
  datatype ErrorKind = NotFound | AlreadyExists | PermissionDenied | Other

  datatype Outcome<+T> = Ok(value: T) | Err(kind: ErrorKind) | Panic

  datatype Option<+T> = None | Some(value: T)
}

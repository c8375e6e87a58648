/** The exceptions the library throws, as values.  A throwing member returns a Failure (or
    Thrown) carrying the std exception type; a member that completes returns Success (or
    Ok). */
module Outcomes {

  /** std::out_of_range, std::invalid_argument and std::logic_error. */
  datatype Error = OutOfRange | InvalidArgument | LogicError

  /** The value a non-void member returns, or the exception it throws. */
  datatype Result<T> = Success(value: T) | Failure(error: Error)

  /** What a void member does: complete, or throw. */
  datatype Status = Ok | Thrown(error: Error)
}

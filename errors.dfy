/** The failure conventions shared by the three containers.
    Each container reports its thrown exceptions as an `Error`; a failing
    call leaves every field of the container unchanged. */
module ContainerErrors {

  /** std::out_of_range for a bad index, std::logic_error for an empty
      container (and for a resize that would lose data). The constructors'
      std::invalid_argument for a null comparator has no counterpart: a
      Dafny function value is never null. */
  datatype Error = OutOfRange | LogicError

  /** The value an accessor returns, or the exception it throws. */
  datatype Result<T> = Ok(value: T) | Err(error: Error)

  /** The outcome of a mutator that returns nothing in the source. */
  datatype Status = Success | Failure(error: Error)
}

/** Shared value types: bytes, optional values (Java's null) and results that
    carry the exceptions the modelled code raises itself. */
module Base {

  newtype byte = x: int | 0 <= x < 256

  /** A Java reference that may be null. */
  datatype Option<+T> = None | Some(value: T)

  /** The exceptions thrown by the reader and the manifest builder themselves. */
  datatype Error =
    | IllegalStateException(message: string)
    | NullPointerException

  /** Either the value a Java method returns or the exception it throws. */
  datatype Result<+T> = Success(value: T) | Failure(error: Error)
}

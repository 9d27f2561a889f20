/** Failure-compatible wrappers standing in for Java's null references and exceptions. */
module Wrappers {

  /** A reference that may be null. */
  datatype Option<+T> = None | Some(value: T) {
    predicate IsFailure() {
      None?
    }

    function PropagateFailure<U>(): Option<U>
      requires None?
    {
      None
    }

    function Extract(): T
      requires Some?
    {
      value
    }
  }

  /** A value, or the exception the Java code throws instead of returning. */
  datatype Result<+R, +E> = Success(value: R) | Failure(error: E) {
    predicate IsFailure() {
      Failure?
    }

    function PropagateFailure<U>(): Result<U, E>
      requires Failure?
    {
      Failure(error)
    }

    function Extract(): R
      requires Success?
    {
      value
    }
  }

  /** The Java exceptions the modelled code raises. */
  datatype JavaException =
    | IllegalArgumentException(message: string)
    | NullPointerException
    | ClassHierarchyException(message: string)
    | ArrayIndexOutOfBoundsException
    | StringIndexOutOfBoundsException
}

/** Values shared by every part of the nullability engine: bytes, the three
    nullability flags, and the Option/Result wrappers that stand for the
    source's nullable references and thrown exceptions. */
module Common {

  /** An unsigned 8-bit value, as carried by the compiler's nullability attributes. */
  newtype byte = b: int | 0 <= b < 256

  /** Flag 0: the position is nullable-oblivious (no information). */
  const FLAG_UNKNOWN: byte := 0
  /** Flag 1: the position is not annotated, so a value is required. */
  const FLAG_REQUIRED: byte := 1
  /** Flag 2: the position is annotated with `?`, so it is optional. */
  const FLAG_OPTIONAL: byte := 2

  datatype Option<+T> = None | Some(value: T) {
    /** The value, or `default` when there is none (C#'s `??`). */
    function GetOr(default: T): T {
      match this
      case Some(v) => v
      case None => default
    }
  }

  /** The kinds of failure the engine can raise.  Exception types are not
      distinguished beyond these categories. */
  datatype Error =
    | InvalidPath               // the path string does not match the grammar
    | StructuralError           // the metadata chain does not fit the type graph
    | UnsupportedCollection     // an element step on a type that is not a collection
    | InvariantViolation        // substitution into a generic argument that has its own arguments
    | EmptyStack                // the annotation payload ran out of bytes
    | MissingKey                // a dictionary indexer was given a key it does not hold
    | IndexOutOfRange           // indexing an empty payload
    | NotAGenericTypeParameter  // argument check of the type-parameter flag lookup
    | WrongContextType          // the validator was handed a context it does not understand

  /** The outcome of an operation that may throw. */
  datatype Result<+T> = Success(value: T) | Failure(error: Error) {
    predicate IsFailure() {
      Failure?
    }

    function PropagateFailure<U>(): Result<U>
      requires Failure?
    {
      Failure(error)
    }

    function Extract(): T
      requires Success?
    {
      value
    }
  }
}

/** Failure-compatible wrappers used across the model, plus the exception
    kinds the modelled Java code raises. */
module Wrappers {

  /** A nullable reference: `None` stands for Java's `null`. */
  datatype Option<+T> = None | Some(value: T)

  /** A computation that either returns a value or raises an exception. */
  datatype Result<+T, +E> = Success(value: T) | Failure(error: E) {

    predicate IsFailure() {
      Failure?
    }

    function PropagateFailure<U>(): Result<U, E>
      requires Failure?
    {
      Failure(error)
    }

    function Extract(): T
      requires Success?
    {
      value
    }
  }

  /** The Java exception classes the modelled code throws. */
  datatype Exception =
    | NullPointer
    | IllegalArgument
    | IllegalState
    | IndexOutOfBounds
    | NegativeArraySize
    | Runtime
    | InvalidCacheSize
    | LocaleNotSupported
    | TranslationKeyNotFound
    | TranslationFailure
}

/** Failure-compatible result types shared by the parser and the accessor. */
module Wrappers {

  datatype Option<+T> = None | Some(value: T)

  /** A value, or the exception the source would have thrown instead. */
  datatype Result<+R, +E> = Success(value: R) | Failure(error: E) {
    predicate IsFailure() {
      Failure?
    }

    function PropagateFailure<U>(): Result<U, E>
      requires Failure?
    {
      Failure(error)
    }

    function Extract(): R
      requires Success?
    {
      value
    }
  }

  /** The outcome of a void method that may throw. */
  datatype Outcome<+E> = Pass | Fail(error: E)
}

/** The exceptions raised by the parser and by the configuration accessor. */
module Errors {

  datatype Error =
    | UnexpectedEndOfInput   // ParseValue at end of input
    | ExpectedArrayEnd       // the array body did not stop at `]`
    | Stalled                // an array element consumed no token (the source repeats forever)
    | NullArgument           // ArgumentNullException from a Config constructor
    | NullRoot               // InvalidOperationException: the configuration has no root node
    | NotAnObject            // a root that is not an object is enumerated
}

/** Failure-compatible wrappers used throughout the model: `Option` stands for
    java.util.Optional and for "no such index", `Result` for a computation that
    either produces a value or ends in a Java exception. */
module Wrappers {

  datatype Option<+T> = None | Some(value: T)

  datatype Result<+T, +E> = Ok(value: T) | Err(error: E) {

    predicate IsFailure() {
      Err?
    }

    function PropagateFailure<U>(): Result<U, E>
      requires Err?
    {
      Err(error)
    }

    function Extract(): T
      requires Ok?
    {
      value
    }
  }
}

/** The exceptions that can escape the modelled operations, as data. */
module Faults {

  datatype Fault =
      /** java.io.FileNotFoundException: no file, or no wildcard match */
    | FileNotFound(name: string)
      /** java.io.IOException raised when a wildcard matches several files */
    | TooManyMatches(pattern: string, matches: seq<string>)
      /** IndexOutOfBoundsException / ArrayIndexOutOfBoundsException */
    | IndexOutOfBounds
      /** NumberFormatException from Double.parseDouble */
    | NumberFormat(text: string)
}

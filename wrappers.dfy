/** The optional values and the thrown errors of the source, as values. */
module Wrappers {

  datatype Option<T> = None | Some(value: T)

  /** The exceptions the source throws, by constructor and message. */
  datatype Error =
    | UnsupportedName(kind: string)     // `Error("Unsupported name node: " + type)`
    | InvalidAttribute(kind: string)    // `Error("Invalid attribute node: " + type)`
    | InvalidChild(kind: string)        // `Error("Invalid child node: " + type)`
    | TypeError(message: string)
    | RangeError(message: string)

  /** What a call returns or throws. */
  datatype Result<T> = Ok(value: T) | Err(error: Error) {
    predicate IsFailure() { Err? }

    function PropagateFailure<U>(): Result<U>
      requires Err?
    {
      Err(error)
    }

    function Extract(): T
      requires Ok?
    {
      value
    }
  }
}

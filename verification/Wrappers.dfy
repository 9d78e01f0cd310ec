/** Results that may be missing or may have failed. */
module Wrappers {
  datatype Option<+T> = None | Some(value: T)

  /** The kinds of failure a decoder reports. */
  datatype LhaError = Io | Decompress | HeaderParse

  datatype Result<+T> = Ok(value: T) | Err(error: LhaError) {
    predicate IsFailure() {
      Err?
    }

    function PropagateFailure<U>(): Result<U>
      requires Err?
    {
      Err(error)
    }

    function Extract(): T
      requires Ok?
    {
      value
    }
  }

  type byte = x: nat | x < 256
}

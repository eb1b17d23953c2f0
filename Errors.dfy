/** Failure outcomes of the decoder and its helpers.  The .NET exception types the
    source throws are collapsed into one small error datatype. */
module Errors {

  /** The kinds of failure the modelled code raises. */
  datatype Error =
    | EndOfStream          // the input ended in the middle of a value
    | InvalidData          // a typed accessor found a tag outside its family
    | NotImplemented       // a tag the decoder has no routine for
    | ArgumentNull         // a required reference argument was null
    | ArgumentOutOfRange   // an index, offset, count or bound was out of range
    | Argument             // an argument combination was rejected (duplicate key, buffer too small)
    | Overflow             // an array was allocated with a negative size
    | NotSupported         // a stream operation the forward-only stream refuses
    | KeyNotFound          // a dictionary indexer was given an absent key
    | NullReference        // a member was called through a null reference

  /** The outcome of an operation that either returns a value or throws. */
  datatype Result<+T> = Ok(value: T) | Fail(error: Error) {
    predicate IsFailure() { Fail? }

    function PropagateFailure<U>(): Result<U>
      requires Fail?
    {
      Fail(error)
    }

    function Extract(): T
      requires Ok?
    {
      value
    }

    /** Applies `f` to a successful value; a failure passes through unchanged. */
    function Map<U>(f: T -> U): (r: Result<U>)
      ensures r.Ok? <==> Ok?
      ensures Ok? ==> r.value == f(value)
      ensures Fail? ==> r.error == error
    {
      if Ok? then Ok(f(value)) else Fail(error)
    }
  }

  /** A nullable value: `None` plays the part of C#'s null. */
  datatype Option<+T> = None | Some(value: T)
}

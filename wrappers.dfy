/** Failure-carrying results. Each error mirrors the Java exception the node throws. */
module Wrappers {

  datatype Option<+T> = None | Some(value: T)

  /** The exceptions a model node operation can raise. */
  datatype Error =
    | IllegalArgument    // IllegalArgumentException: the variant cannot do this, or no conversion exists
    | NoSuchElement      // NoSuchElementException: `require`/`remove(int)` on an absent child
    | IndexOutOfBounds   // IndexOutOfBoundsException: a list index outside the permitted range
    | Unsupported        // UnsupportedOperationException: a write on a protected node
    | Malformed          // a binary stream with an unknown tag or a truncated payload

  datatype Result<+T> = Ok(value: T) | Err(error: Error)

  /** Result of a mutator that returns nothing but `this`. */
  datatype Outcome = Pass | Fail(error: Error)
}

/**
 * The exceptions the modelled code throws, as values. An operation that can
 * throw returns a Result (when it also produces a value) or an Outcome.
 */
module Errors {

  datatype Error =
    | NullKey            // IOException "Key cannot be null or empty"
    | OutOfOrder         // IOException "Added a key not lexically larger than previous"
    | IllegalArgument    // IllegalArgumentException (left sorts after right, null right cell)
    | UnsupportedBlockType  // RuntimeException for a Bloom block type that is not a Bloom meta type
    | ReservedKey        // IOException for a file-info key under the reserved "hfile." prefix
    | InvalidCurrent     // RuntimeException from a segment scanner's peek: current is above the read point

  /** A Java reference that may be null. */
  datatype Option<+T> = None | Some(value: T)

  datatype Result<+T> = Ok(value: T) | Err(error: Error)

  datatype Outcome = Done | Fail(error: Error)
}

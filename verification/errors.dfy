/** Failure values of the card engine and the Result type every fallible
    operation returns. */
module Errors {

  /** The failures the core can report. The source wraps them in a single
      error enum; the ones that can actually arise in the core are these. */
  datatype Error =
    | BadChecksum      // a record's trailing byte is not the XOR of the 127 before it
    | Incomplete       // a record decoder ran out of input
    | UnexpectedEof    // the card image is shorter than a block it must read
    | IndexOutOfBounds // a byte index past the end of a slice (a panic in the source)

  datatype Result<+T> = Success(value: T) | Failure(error: Error)
}

/** Failure-carrying results for the reader's operations. */
module Outcomes {

  /** A value that may be absent, as the decoder's "no scanline yet" marker. */
  datatype Option<+T> = None | Some(value: T)

  /** The exceptions the modelled code can raise, as values. */
  datatype Error =
    | InvalidPlane          // plane number, tile rectangle or buffer size rejected by the plane check
    | InvalidSeries         // series index outside [0, series count)
    | NegativeArraySize     // the series-count formula went negative
    | DivideByZero          // the row size in the tile-height computation is zero
    | IndexOutOfBounds      // a scanline too short for the requested columns
    | IoError               // a failure of a collaborator (file access, decoding)

  datatype Result<+T> = Success(value: T) | Failure(error: Error)
}

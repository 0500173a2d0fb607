/** Optional values and the failures the compressor can raise. */
module Outcomes {

  datatype Option<+T> = None | Some(value: T)

  /** The exceptions the compressor's code raises, named by cause. */
  datatype Failure =
    | InvalidDepth   // IllegalArgumentException: a depth larger than the tree's depth
    | NullColour     // NullPointerException: painting a node whose colour was never computed
    | EmptyImage     // a pixel array or image with no column or no row
    | MissingChannel // a pixel array whose innermost dimension holds fewer than three channels
    | EmptySubimage  // RasterFormatException: getSubimage with a zero width or height

  datatype Result<+T> = Ok(value: T) | Err(failure: Failure)
}

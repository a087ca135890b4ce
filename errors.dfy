/** Failure values shared by the palette builder and the frame mapper. */
module Errors {

  datatype Option<+T> = None | Some(value: T)

  /** The Python exceptions the converter can raise. */
  datatype Error =
    | ValueError   // fewer than two colour levels: a NaN step or a negative sample count
    | IndexError   // a luminance index past the end of the character set
    | KeyError     // a character or a colour key missing from the palette

  datatype Result<+T> = Success(value: T) | Failure(error: Error)
}

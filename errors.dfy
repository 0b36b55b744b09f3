/** Failures of the flexible-polyline codec, and the result type that carries them. */
module Errors {

  /** The ways an encode or a decode can fail. */
  datatype Error =
    | PrecisionOutOfRange   // encode: precision outside [0, 15]
    | InvalidFormatVersion  // decode: the first header value is not the format version
    | InvalidCharacter      // decode: a character outside the decode table's domain
    | IncompleteEncoding    // decode: the token ends while a varint still continues
    | MissingHeaderValue    // decode: fewer than two values, so no complete header
    | ShapeMismatch         // batch decode: a decoded token that cannot be stacked as one row

  /** Either a value or one of the errors above; usable with `:-`. */
  datatype Result<+T> = Ok(value: T) | Err(error: Error) {
    predicate IsFailure() {
      Err?
    }

    function PropagateFailure<U>(): Result<U>
      requires Err?
    {
      Err(error)
    }

    function Extract(): T
      requires Ok?
    {
      value
    }
  }
}

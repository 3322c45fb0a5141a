/** Values that stand for what a foreign call gave back. */
module Outcomes {

  datatype Option<T> = None | Some(value: T)

  /** The outcome of a call into a foreign library (image decoding, barcode
      reading, text recognition): either its value, or the exception it raised,
      carried as the exception's message. */
  datatype Step<T> = Ok(value: T) | Raised(message: string)
}

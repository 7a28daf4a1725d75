/** The exceptions of the number and encoding code, as values. */
module Outcome {
  datatype Error = DivideByZero | SubtractionUnderflow | NotInvertible | OutOfRange | TooLong | DecryptionError | OutsideBuffer
                 | WrongEncodedInput | InvalidTag | InvalidLength

  /** Either the value a call returns or the exception it throws. */
  datatype Result<+T> = Ok(value: T) | Throw(error: Error)
}

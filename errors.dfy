/** The exceptions the codec raises, as values. */
module Errors {

  datatype StegError =
    | NonAsciiCharacter          // NonAsciiCharacterError: a character is outside ASCII
    | BinaryStringLength         // BinaryStringLengthError: bit count not a multiple of 8
    | MessageLength              // MessageLengthError: the frame does not fit the image
    | NonPngImage                // NonPngImageError: the file name does not end in .png
    | Exception(message: string) // the bare Exception that steg.py raises

  /** A return value, or the exception raised instead. */
  datatype Result<T> = Success(value: T) | Failure(error: StegError)

  /** Normal completion of an operation with no return value, or its exception. */
  datatype Outcome = Pass | Fail(error: StegError)

  datatype Option<T> = None | Some(value: T)
}

/** Optional values and failure results shared by the readers. */
module Wrappers {

  /** Python's `None` or a value. */
  datatype Option<+T> = None | Some(value: T)

  /** Why opening a file or reading a record failed (the source raises an exception for each). */
  datatype Error =
    | Truncated                          // fewer bytes than the fixed-size structure needs
    | BadSignature                       // the magic number at offset 0 is not the expected one
    | UnsupportedVersion(version: string) // "major.minor" is neither "2.0" nor "2.1"

  /** The outcome of a parse: a value, or the error the source raises. */
  datatype Result<+T> = Ok(value: T) | Err(error: Error)
}

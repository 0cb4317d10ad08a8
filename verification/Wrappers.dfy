/** The result types every component shares. */
module Wrappers {
  datatype Option<+T> = None | Some(value: T)

  /** The reasons for which the operations of the repository return an error. */
  datatype Error =
    | BufferTooShort
    | BufferNotEmpty
    | LengthOverflow
    | LengthAboveMaximum
    | LengthMismatch
    | SizeAboveMaximum
    | DecryptionFailed
    | KeyLength
    | TopicMismatch
    | MinuteMismatch
    | MalformedKey
    | BadSignature
    | Cancelled
    | DhtFailed
    | ActorGone

  datatype Result<+T> = Ok(value: T) | Err(error: Error)
}

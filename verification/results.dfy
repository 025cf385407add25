/** Failure-carrying values shared by the whole model. */
module Results {

  /** A value that may be absent (a nil pointer in the modelled program). */
  datatype Option<+T> = None | Some(value: T)

  /** The two error families of the filesystem adapter: a failed local lookup
      (afero's ErrFileNotFound) and an error handed back unchanged by the
      remote API. */
  datatype Error = NotFound | RemoteFailure(reason: string)

  /** An operation that produces a value or fails. */
  datatype Result<+T> = Ok(value: T) | Err(error: Error)

  /** An operation that only succeeds or fails (Go's bare `error` return). */
  datatype Status = Done | Failed(error: Error)

  /** The answer of one remote API call: a value, or a refusal with the
      remote's reason. Kept apart from `Error` so that a remote answer can
      never be mistaken for a local NotFound. */
  datatype Reply<+T> = Reply(value: T) | Refused(reason: string)
}

/** Failure-carrying values shared by every component. */
module Wrappers {

  datatype Option<+T> = None | Some(value: T)

  datatype Result<+T, +E> = Ok(value: T) | Err(error: E)

  /** How replacing a file ended: the new one was never put in place; it was, and the
      directory could not then be synced; or it was and is there to stay. Only the
      last is reported as success. */
  datatype Write = NotRenamed | Unsynced | Synced
}

/** Instants and spans, in nanoseconds. */
module Times {
  import opened Wrappers

  /** The reading of a timestamp, where it has one. */
  type Stamp = string -> Option<int>

  const DAY := 86_400_000_000_000
}

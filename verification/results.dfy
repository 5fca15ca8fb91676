/** Failure-carrying values shared by the allocation engine and the exporter. */
module Results {

  /** A value that may be absent: `None` stands for a missing or unparsable input. */
  datatype Option<+T> = None | Some(value: T)

  /** Either the value an operation produced or the reason it refused to act. */
  datatype Result<+T, +E> = Ok(value: T) | Err(error: E)
}

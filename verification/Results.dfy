/** Results that several modules share. */
module Results {
  datatype Option<+T> = None | Some(value: T)

  /** libcurl's result codes, as far as they are told apart. */
  datatype Code = Ok | Again | OutOfMemory | BadContentEncoding | Failed
}

/** The error kinds of the current iteration (`KvError`), without their message strings. */
module KvErrors {
  import opened Wrappers

  datatype KvError =
    | KeyDecodeError(position: nat)  // names the tuple component that failed to decode
    | InvalidSelector
    | ValEncodeError
    | ValDecodeError
    | ValDowncastError
    | Other

  type KvResult<T> = Result<T, KvError>
}

/** The server's `ErrorCodes` that the coalescers and the index helpers return. */
module ErrorCodes {
  datatype ErrorCode =
    | BadValue
    | TypeMismatch
    | ShutdownInProgress
    | DuplicateKey
    | WriteConflict

  /** A `Status`: OK or an error code. */
  datatype Status = Success | Failure(code: ErrorCode)
}

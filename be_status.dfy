/** The backend's `Status`: OK, or an error code with a message. */
module BeStatus {

  datatype ErrorCode =
    | InternalError | NotFound | InvalidArgument | NotSupported | EndOfFile | DataQualityError
    | Cancelled | AlreadyExist | ResourceBusy | MemoryLimitExceeded

  datatype Status = OK | Error(code: ErrorCode, msg: string) {
    predicate IsOk() { OK? }
  }

  /** A status that is an error, as carried by a failed external call. */
  type Failure = s: Status | s.Error? witness Error(InternalError, "")
}

/** Transport error classification used by the protocol layers. */
module Transport {
  datatype TransportCode =
    | NotFound | AlreadyExists | InvalidArgument | FailedPrecondition | Aborted | OutOfRange
    | ResourceExhausted | Unimplemented | DataLoss | Ambiguous | Unauthenticated
    | PermissionDenied | Unavailable | DeadlineExceeded | Internal
  {
    /** Whether retrying the same operation can be safe. */
    predicate Transient() {
      ResourceExhausted? || Unavailable? || DeadlineExceeded? || Internal?
    }

    /** Whether an append path must stop the current writer incarnation. */
    predicate FencesWriter() {
      FailedPrecondition? || Aborted?
    }
  }

  datatype TransportError = TransportError(zone: nat, code: TransportCode)
}

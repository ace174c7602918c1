/** `NetError` of `error.rs`: a transport failure or a protocol status. */
module Errors {
  import Statuses

  /** The kinds of I/O failure the model distinguishes. */
  datatype IoErrorKind =
    | InvalidData   // a length prefix above the frame limit
    | InvalidInput  // a payload above the frame limit
    | Other         // bytes left over at end of stream, or any transport failure

  /** An opaque I/O failure; its detail never leaves the process. */
  datatype IoError = IoError(kind: IoErrorKind)

  /** A closed two-way union. */
  datatype NetError =
    | StdIo(io: IoError)
    | Status(status: Statuses.Status)

  /** The `#[from] std::io::Error` conversion. */
  function FromIo(e: IoError): (r: NetError)
    ensures r.StdIo? && r.io == e
  {
    StdIo(e)
  }
}

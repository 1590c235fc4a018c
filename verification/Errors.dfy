/** The exceptions of sovereign/errors.py as values, and the limits of sovereign/config.py that the readers use. */
module Errors {
  /** `Http` is `HTTPError(status)`. `Crash` is any exception the server does not expect
      (`ValueError`, `TypeError`, ...), which it answers with status 500. */
  datatype Error = Http(status: int) | ClientClosed | Crash

  datatype Result<+T> = Ok(value: T) | Err(error: Error)

  datatype Option<+T> = None | Some(value: T)

  datatype ServerConfig = ServerConfig(
    maxRequestLine: nat,
    maxHeaderBytes: nat,
    maxHeaders: nat,
    maxHeaderName: nat,
    maxHeaderValue: nat,
    maxBodyBytes: nat,
    maxMemoryBody: nat)

  /** How a socket ends once everything the peer sent has been read: the peer has closed, or a timeout fires. */
  predicate IsEnding(e: Error) {
    e == ClientClosed || e == Http(408)
  }
}

/** Values shared by every part of the controller: an optional value, the
    `std::io::Error` the program reports, and results carrying one. */
module Io {

  datatype Option<T> = None | Some(value: T) {
    function GetOr(default: T): T {
      match this
      case Some(v) => v
      case None => default
    }
  }

  /** `std::io::Error` as the program produces it: either a failure of the
      transport (address parsing, connect, write, shutdown, read), whose
      text comes from the operating system, or an `ErrorKind::Other` error
      that the router code builds from a fixed message. */
  datatype IoError = Transport(description: string) | Other(message: string) {
    /** What `to_string()` gives for the error. */
    function Text(): string {
      match this
      case Transport(d) => d
      case Other(m) => m
    }
  }

  /** `Result<T, std::io::Error>`. */
  datatype Result<T> = Ok(value: T) | Err(error: IoError)
}

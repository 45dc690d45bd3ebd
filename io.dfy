/** The parts of Rust's standard library the framing code relies on:
    `Option`, `io::Result` and the `io::ErrorKind` values it produces. */
module Io {

  datatype Option<+T> = None | Some(value: T)

  /** The `io::ErrorKind` values the framing code produces. Messages are not modelled. */
  datatype ErrorKind =
    | InvalidData    // "frame too large" (decode and encode) and a serializer failure in encode
    | InvalidInput   // "couldn't digest input": the payload did not deserialize
    | UnexpectedEof  // "EOF": a read returned 0 bytes and the buffer was empty
    | Transport      // any error the socket itself reported on read or write

  /** `io::Result<T>` */
  datatype Result<+T> = Ok(value: T) | Err(error: ErrorKind)
}

/** Values shared by every component of the recognition bot: the Rust integer
    types it uses, Option/Result, and the error kinds that travel through
    `anyhow::Error` from the converter, the recognizer and the chat client. */
module Common {

  /** Rust's `u8`. */
  newtype byte = x: int | 0 <= x < 0x100

  const MinI64: int := -0x8000_0000_0000_0000
  const MaxI64: int := 0x7FFF_FFFF_FFFF_FFFF

  /** Rust's `i64`: chat ids and message ids. */
  newtype int64 = x: int | MinI64 <= x <= MaxI64

  datatype Option<+T> = None | Some(value: T) {
    function GetOr(default: T): T {
      match this
      case Some(v) => v
      case None => default
    }
  }

  datatype Result<+T, +E> = Success(value: T) | Failure(error: E)

  /** The `std::io::ErrorKind`s the core tells apart. */
  datatype IoErrorKind = NotFound | InvalidData | OtherIo(detail: string)

  /** The errors that reach `anyhow::Result` in the bot. */
  datatype Failure =
    | ChatApiError(detail: string)              // an error of the chat-platform client
    | IoError(kind: IoErrorKind)                // std::io::Error
    | Utf8Error                                 // std::str::Utf8Error
    | AvconvError(stderr: string)               // anyhow!("Avconv error: {}", stderr)
    | HttpError(detail: string)                 // hyper::Error while sending or reading the body
    | ApiStatusError(status: int, body: string) // anyhow!("Api responded with status {} and body {}", ..)
    | Context(what: string, inner: Failure)     // anyhow's `.context(what)`

  const AvconvErrorPrefix: string := "Avconv error: "

  /** The text of an avconv failure, as `anyhow!` formats it. */
  function AvconvErrorText(f: Failure): string
    requires f.AvconvError?
  {
    AvconvErrorPrefix + f.stderr
  }
}

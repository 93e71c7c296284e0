/** Values shared by every module: bytes, the errors the system returns, and the
    two ways a Go call reports them (a value with an error, or an error alone). */
module Base {

  /** One octet of a blob or of a response body. */
  newtype byte = b: int | 0 <= b < 256

  /** The errors the core can return. Go errors are opaque values; each
      constructor stands for one kind of error the code paths produce. */
  datatype Error =
    | NotExist(path: string)       // os.ReadFile / os.Remove on a path that is absent
    | Permission(path: string)     // os.OpenFile refuses to open the path for writing
    | BadContentRange              // "Content-Range header is not in a valid format"
    | Syntax(text: string)         // strconv.Atoi: the text is not a decimal integer
    | OutOfRange(text: string)     // strconv.Atoi: the integer does not fit a 64-bit int
    | Transport(reason: string)    // a failure of the HTTP exchange itself

  /** A value together with a possible error: Go's `(T, error)` pair. */
  datatype Result<+T> = Ok(value: T) | Err(error: Error)

  /** A Go `error` return: `nil` (Pass) or an error value (Fail). */
  datatype Outcome = Pass | Fail(error: Error)
}

/** Error values and the result type shared by the codec. Go's `(value, error)`
    pairs become `Result`; a run-time panic of the Go program becomes `Panic`,
    and a loop that the Go program would repeat forever becomes `Diverges`. */
module Outcome {

  datatype Error =
    | SyntaxErr                                   // strconv.ErrSyntax
    | RangeErr                                    // strconv.ErrRange
    | EscapeErr                                   // incorrect escaping in string
    | LengthErr(read: int, length: int)            // unexpected string length
    | UnexpectedChar(found: Option<char>, expected: char)
    | Unsupported(name: string)                   // type is not supported
    | BadParserArgs(name: string)                 // missing or malformed type arguments
    | LocationErr(zone: string)                   // time.LoadLocation failed
    | TimeFormatErr                               // time.ParseInLocation failed
    | ZoneNotFound                                // "time zone not found"
    | Malformed                                   // ErrMalformed
    | NotSlice                                    // "expected array or slice"
    | ReadFailed(cause: ReadError)                // error from an io.Reader
    | Panic(what: string)                         // the Go code panics here
    | Diverges                                    // the Go loop would never end

  /** The terminal error an io.Reader reports once its bytes are used up. */
  datatype ReadError = EOF | IOError

  datatype Option<+T> = None | Some(value: T)

  datatype Result<+T> = Ok(value: T) | Err(error: Error)
}

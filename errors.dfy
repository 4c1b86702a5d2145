/** Close status codes and the error values that travel through the
    write and close paths (the internal package's StatusCode, *Error and
    sentinel errors). */
module Errors {
  import opened Wire

  type uint16 = x: int | 0 <= x < 0x1_0000
  type int64 = x: int | -0x8000_0000_0000_0000 <= x < 0x8000_0000_0000_0000

  /** A close status code of section 7.4 of RFC 6455. */
  type StatusCode = uint16

  const CloseNormalClosure: StatusCode := 1000
  const CloseProtocolError: StatusCode := 1002
  const CloseUnsupportedData: StatusCode := 1007
  const CloseMessageTooLarge: StatusCode := 1009

  /** StatusCode.Bytes: the code as the two big-endian bytes that open a
      close frame's payload (section 5.5.1 of RFC 6455). */
  function CodeBytes(code: StatusCode): (r: Bytes)
    ensures |r| == 2
  {
    BigEndian(code, 2)
  }

  /** An error value as the close path tells them apart. */
  datatype Error =
    | Status(code: StatusCode)                // a bare StatusCode used as an error
    | Coded(code: StatusCode, cause: Error)   // *internal.Error{Code, Err}
    | ConnClosed                              // internal.ErrConnClosed
    | TextEncoding                            // internal.ErrTextEncoding
    | Plain(text: Bytes)                      // any other error: I/O, compressor, errors.New, GwsError

  datatype Result<T> = Ok(value: T) | Err(error: Error)

  datatype Option<T> = None | Some(value: T)

  /** Values declared by the internal package, whose source is not part of
      this model: the ThresholdV1 byte limit and the Error() texts of its
      error values. */
  datatype Internals = Internals(
    thresholdV1: nat,
    statusText: StatusCode -> Bytes,
    connClosedText: Bytes,
    textEncodingText: Bytes)

  /** err.Error(): an *internal.Error reports the text of the error it wraps. */
  function ErrorText(err: Error, ints: Internals): Bytes
  {
    match err
    case Status(code) => ints.statusText(code)
    case Coded(_, cause) => ErrorText(cause, ints)
    case ConnClosed => ints.connClosedText
    case TextEncoding => ints.textEncodingText
    case Plain(text) => text
  }
}

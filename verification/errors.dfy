/**
 The error values of the identifier library and the (value, error) pair that
 its Go functions return.  A Go function that reports a failure still hands back
 a value (the nil identifier, a zero counter, a partly filled buffer), so the
 pair keeps both halves instead of collapsing into a success/failure sum.
 */
module Errors {

  import opened Binary

  datatype Option<+T> = None | Some(value: T)

  /** Why io.ReadFull could not fill its buffer from the randomness source. */
  datatype ReadError =
    | EndOfFile            // io.EOF: not a single byte was available
    | UnexpectedEndOfFile  // io.ErrUnexpectedEOF: some, but fewer than asked

  /** Failures of encoding/hex decoding. */
  datatype HexError =
    | InvalidByte(b: byte)  // hex.InvalidByteError: the first byte that is not a hex digit
    | OddLength            // hex.ErrLength: an odd number of hex digits

  datatype Error =
    | LengthNot24                      // Decode: "length is not 24 bytes"
    | DecodeHex(hexCause: HexError)    // Decode: "decode hex: %w"
    | GenerateCounter(counterCause: ReadError)   // NewSecureCounter
    | GenerateProcessId(processCause: ReadError) // NewMachineProcessID

  /** A Go result pair: the value that is returned and the error, if any. */
  datatype GoResult<+T, +E> = GoResult(value: T, error: Option<E>) {
    predicate Ok() {
      error.None?
    }
  }
}

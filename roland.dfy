/** Shared vocabulary of the VR-6HD protocol codec: the fixed-width integer
    types of the wire format, the error taxonomy, and the result type that
    every fallible operation of the codec returns. */
module Roland {

  /** Rust `u8`. */
  type u8 = x: int | 0 <= x < 0x100

  /** Rust `u32`. */
  type u32 = x: int | 0 <= x < 0x1_0000_0000

  /** Control characters of the wire format: start of text, which frames
      commands on RS-232; acknowledge; and the XON/XOFF flow-control bytes. */
  const STX: char := '\U{02}'
  const ACK: char := '\U{06}'
  const XON: char := '\U{11}'
  const XOFF: char := '\U{13}'

  /** The error currency of the codec: the four error kinds the device
      reports by number, an open-ended unknown code, and the codec's own
      format errors. */
  datatype RolandError =
    | SyntaxError
    | Invalid
    | OutOfRange
    | NoStx
    | UnknownError(code: u8)
    | InvalidAddress
    | InvalidValue
    | InvalidResponse

  /** `Result<T, RolandError>`, usable with `:-` the way Rust uses `?`. */
  datatype Result<+T> = Ok(value: T) | Err(error: RolandError) {

    predicate IsFailure() {
      Err?
    }

    function PropagateFailure<U>(): Result<U>
      requires Err?
    {
      Err(error)
    }

    function Extract(): T
      requires Ok?
    {
      value
    }
  }
}

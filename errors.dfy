/** Error surface of the ISO 14443-A transceiver: the exchange-phase `Error`
    and its coarse classification. */
module Errors {

  /** Success/failure wrapper for the driver's `Result` returns. */
  datatype Result<+T, +E> = Success(value: T) | Failure(error: E)

  datatype Option<+T> = None | Some(value: T)

  /** Faults an exchange can end with. */
  datatype Error =
    | Timeout
    | Framing
    | FramingLastByteMissingParity
    | Crc
    | Collision
    | Parity
    | ResponseTooShort
    | ResponseTooLong
    | FifoOverflow
    | FifoUnderflow

  /** The two kinds upstream code distinguishes. */
  datatype ErrorKind = NoResponse | Other

  /** `Timeout` is the expected "no card answered" signal; every other
      variant is a genuine protocol or hardware fault. */
  function Kind(e: Error): (k: ErrorKind)
    ensures k == NoResponse <==> e == Timeout
    ensures k == Other <==> e != Timeout
  {
    match e
    case Timeout => NoResponse
    case _ => Other
  }
}

/** Frame requests and how each one is put on the air: raw or CRC mode, the
    chip command, the frame-waiting time, the transmit bit count and the
    bytes loaded into the FIFO. */
module Frames {
  import opened Errors

  /** The four frame kinds a caller may request. `Standard` also carries a
      payload in the caller's `tx` buffer. */
  datatype Frame =
    | ReqA
    | WupA
    | Anticoll(bits: nat)
    | Standard(timeoutMs: nat)

  /** Chip commands issued by the transceiver. */
  datatype Command =
    | Stop
    | ResetRxgain
    | TransmitReqa
    | TransmitWupa
    | TransmitWithoutCrc
    | TransmitWithCrc

  /** The value of an 8-bit chip register. */
  type RegByte = x: nat | x < 256

  /** Frame-waiting time for short and anticollision frames, in ms. */
  const ShortFrameFwtMs: nat := 5

  /** What the transceiver programs for one frame. `txBits` and `payload` are
      `None` when the frame writes neither the bit-count registers nor the
      FIFO. */
  datatype Setup = Setup(
    raw: bool,
    cmd: Command,
    fwtMs: nat,
    txBits: Option<nat>,
    payload: Option<seq<bv8>>)

  /** Whether the caller's `tx` holds every byte the frame transmits. */
  predicate TxCovers(frame: Frame, tx: seq<bv8>) {
    frame.Anticoll? ==> |tx| >= (frame.bits + 7) / 8
  }

  /** Framing parameters chosen for `frame`. */
  function FrameSetup(frame: Frame, tx: seq<bv8>): (s: Setup)
    requires TxCovers(frame, tx)
    // CRC is appended and checked exactly for standard frames
    ensures s.raw <==> !frame.Standard?
    // the dedicated short-frame commands; raw transmit for anticollision
    ensures frame.ReqA? ==> s.cmd == TransmitReqa
    ensures frame.WupA? ==> s.cmd == TransmitWupa
    ensures frame.Anticoll? ==> s.cmd == TransmitWithoutCrc
    ensures frame.Standard? ==> s.cmd == TransmitWithCrc
    // the caller's timeout bounds the wait only for standard frames
    ensures s.fwtMs == if frame.Standard? then frame.timeoutMs else ShortFrameFwtMs
    // short frames touch neither the bit-count registers nor the FIFO
    ensures s.txBits.None? <==> frame.ReqA? || frame.WupA?
    ensures s.payload.None? <==> s.txBits.None?
    // anticollision sends exactly the requested bits, standard frames all of tx
    ensures frame.Anticoll? ==> s.txBits == Some(frame.bits)
    ensures frame.Standard? ==> s.payload == Some(tx)
    // the payload is a prefix of tx and the shortest byte string holding all the bits
    ensures s.payload.Some? ==>
      s.payload.value <= tx &&
      s.txBits.value <= |s.payload.value| * 8 < s.txBits.value + 8 &&
      (frame.Standard? ==> s.txBits.value == |s.payload.value| * 8)
  {
    match frame
    case ReqA => Setup(true, TransmitReqa, ShortFrameFwtMs, None, None)
    case WupA => Setup(true, TransmitWupa, ShortFrameFwtMs, None, None)
    case Anticoll(bits) =>
      Setup(true, TransmitWithoutCrc, ShortFrameFwtMs, Some(bits), Some(tx[..(bits + 7) / 8]))
    case Standard(timeoutMs) =>
      Setup(false, TransmitWithCrc, timeoutMs, Some(|tx| * 8), Some(tx))
  }

  /** The transmit bit count split over the two 8-bit registers:
      `hi` is `num_tx_bytes1` (`bits >> 8` cut to a byte) and `lo` is
      `num_tx_bytes2` (`bits` cut to a byte). */
  function TxBitRegisters(bits: nat): (regs: (RegByte, RegByte))
    ensures regs.0 * 256 + regs.1 == bits % 65536
    // recombining the registers gives the count back when it fits in 16 bits
    ensures bits < 65536 ==> regs.0 * 256 + regs.1 == bits
  {
    ((bits / 256) % 256, bits % 256)
  }
}

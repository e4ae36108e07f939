/** The FIFO status registers read once reception has ended. */
module Fifo {
  import opened Errors

  /** The fields of `fifo_status2` the transceiver uses: overflow, underflow,
      last byte without parity, and `fifo_b`, the high part of the byte count. */
  datatype FifoStatus2 = FifoStatus2(fifoOvr: bool, fifoUnf: bool, npLb: bool, fifoB: bv8)

  /** Status faults in the order they are checked. */
  const StatusOrder: seq<Error> := [FifoOverflow, FifoUnderflow, FramingLastByteMissingParity]

  /** Whether status fault `e` is flagged in `stat`. */
  predicate Flagged(stat: FifoStatus2, e: Error) {
    match e
    case FifoOverflow => stat.fifoOvr
    case FifoUnderflow => stat.fifoUnf
    case FramingLastByteMissingParity => stat.npLb
    case _ => false
  }

  /** The first flagged status fault, if any; each one is fatal on its own. */
  function PostRxCheck(stat: FifoStatus2): (r: Option<Error>)
    ensures r.None? <==> forall i :: 0 <= i < |StatusOrder| ==> !Flagged(stat, StatusOrder[i])
    ensures r.Some? ==>
      exists i :: 0 <= i < |StatusOrder| && r.value == StatusOrder[i] && Flagged(stat, StatusOrder[i]) &&
        forall j :: 0 <= j < i ==> !Flagged(stat, StatusOrder[j])
  {
    if stat.fifoOvr then assert Flagged(stat, StatusOrder[0]); Some(FifoOverflow)
    else if stat.fifoUnf then assert Flagged(stat, StatusOrder[1]); Some(FifoUnderflow)
    else if stat.npLb then assert Flagged(stat, StatusOrder[2]); Some(FramingLastByteMissingParity)
    else None
  }

  /** Received byte count: `fifo_status1` ORed with `fifo_b` shifted above it.
      The two fields never overlap, so the OR is an addition. */
  function RxByteCount(status1: bv8, fifoB: bv8): (n: nat)
    ensures n == status1 as nat + 256 * fifoB as nat
    ensures n < 65536
  {
    ((status1 as bv16) | ((fifoB as bv16) << 8)) as nat
  }
}

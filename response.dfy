/** Response extraction and the outcome of one exchange, as a function of the
    frame, the caller's buffers and what the chip reports. */
module Response {
  import opened Errors
  import opened Frames
  import opened Interrupts
  import opened Fifo

  /** Bit `i` (0 = least significant) of `b`. */
  predicate Bit(b: bv8, i: nat)
    requires i < 8
  {
    (b >> i) & 1 == 1
  }

  /** Mask of the `bits % 8` low bits: the bits of the partial last byte the
      reader itself sent (ISO 14443-A sends each byte least significant bit
      first). */
  function PartialMask(bits: nat): (m: bv8)
    ensures forall i :: 0 <= i < 8 ==> (Bit(m, i) <==> i < bits % 8)
  {
    var k := bits % 8;
    assert k == 0 || k == 1 || k == 2 || k == 3 || k == 4 || k == 5 || k == 6 || k == 7;
    ((1 as bv8) << k) - 1
  }

  /** The mask as the driver writes it, `(1 << bits) - 1` on a byte. With
      overflow checks on, a shift by 8 or more panics (`None`). */
  function MaskAsWritten(bits: nat): (m: Option<bv8>)
    ensures m.Some? <==> bits < 8
  {
    if bits < 8 then Some(((1 as bv8) << bits) - 1) else None
  }

  /** The written mask agrees with `PartialMask` for the first anticollision
      byte only; from the second byte on (`bits` = 20 in a cascade with two
      known UID bytes and four known bits) the shift overflows. */
  lemma MaskAsWrittenOverflows(bits: nat)
    ensures bits < 8 ==> MaskAsWritten(bits) == Some(PartialMask(bits))
    ensures bits >= 8 && bits % 8 != 0 ==> MaskAsWritten(bits).None? && PartialMask(bits) != 0
    ensures MaskAsWritten(20).None? && PartialMask(20) == 0x0F
  {
    if bits < 8 {
      var k: bv8 := bits as bv8;
      assert k == 0 || k == 1 || k == 2 || k == 3 || k == 4 || k == 5 || k == 6 || k == 7;
    }
    if bits % 8 != 0 {
      assert Bit(PartialMask(bits), 0);
    }
  }

  /** Whether the caller's buffers are long enough for anticollision
      extraction of `n` received bytes; the driver indexes past their ends
      otherwise. */
  predicate AnticollFits(rxLen: nat, tx: seq<bv8>, bits: nat, n: nat) {
    TxCovers(Anticoll(bits), tx) && rxLen >= bits / 8 + n && (bits % 8 != 0 ==> rxLen > bits / 8)
  }

  /** The receive buffer after anticollision extraction: the reader's own
      `bits / 8` whole bytes copied from `tx`, the `data` read from the FIFO
      after them, and the reader's partial bits ORed into the first byte
      that is not yet full. The partial bits are the low `bits % 8` bits of
      `tx[bits / 8]`, the ones sent first. */
  function AnticollRx(prior: seq<bv8>, tx: seq<bv8>, bits: nat, data: seq<bv8>): (r: seq<bv8>)
    requires AnticollFits(|prior|, tx, bits, |data|)
    ensures |r| == |prior|
  {
    var full := bits / 8;
    var filled := tx[..full] + data + prior[full + |data|..];
    if bits % 8 == 0 then filled
    else filled[full := filled[full] | (tx[full] & PartialMask(bits))]
  }

  /** The reader's own bits are echoed: the whole bytes exactly, and every
      bit of the partial byte that the reader sent is set in the result,
      whose other bits are the chip's. */
  lemma AnticollEchoesTx(prior: seq<bv8>, tx: seq<bv8>, bits: nat, data: seq<bv8>)
    requires AnticollFits(|prior|, tx, bits, |data|)
    ensures AnticollRx(prior, tx, bits, data)[..bits / 8] == tx[..bits / 8]
    ensures bits % 8 != 0 ==>
      var full := bits / 8;
      var r := AnticollRx(prior, tx, bits, data)[full];
      var chip := if |data| > 0 then data[0] else prior[full];
      forall i :: 0 <= i < 8 ==>
        (i < bits % 8 ==> (Bit(r, i) <==> Bit(tx[full], i) || Bit(chip, i))) &&
        (i >= bits % 8 ==> (Bit(r, i) <==> Bit(chip, i)))
  {
    var full := bits / 8;
    var r := AnticollRx(prior, tx, bits, data);
    assert r[..full] == tx[..full];
    if bits % 8 != 0 {
      var chip := if |data| > 0 then data[0] else prior[full];
      assert r[full] == chip | (tx[full] & PartialMask(bits));
      MergedPartialByte(chip, tx[full], bits);
    }
  }

  /** The partial byte after the merge: the low `bits % 8` bits are the
      reader's ORed with the chip's, the others are the chip's. */
  lemma MergedPartialByte(chip: bv8, sent: bv8, bits: nat)
    ensures var r := chip | (sent & PartialMask(bits));
      forall i :: 0 <= i < 8 ==>
        (i < bits % 8 ==> (Bit(r, i) <==> Bit(sent, i) || Bit(chip, i))) &&
        (i >= bits % 8 ==> (Bit(r, i) <==> Bit(chip, i)))
  {
    var m := PartialMask(bits);
    forall i | 0 <= i < 8
      ensures Bit(chip | (sent & m), i) <==> Bit(chip, i) || (Bit(sent, i) && Bit(m, i))
    {
      OrMaskBit(chip, sent, m, i);
    }
  }

  /** Bit `i` of `a | (b & m)`. */
  lemma OrMaskBit(a: bv8, b: bv8, m: bv8, i: nat)
    requires i < 8
    ensures Bit(a | (b & m), i) <==> Bit(a, i) || (Bit(b, i) && Bit(m, i))
  {
    var k: bv8 := i as bv8;
    assert k == 0 || k == 1 || k == 2 || k == 3 || k == 4 || k == 5 || k == 6 || k == 7;
  }

  /** The received bytes land right after the reader's whole bytes (the
      first one merged with the partial bits, if any), and the rest of the
      buffer is left as it was. */
  lemma AnticollPlacesData(prior: seq<bv8>, tx: seq<bv8>, bits: nat, data: seq<bv8>)
    requires AnticollFits(|prior|, tx, bits, |data|)
    ensures var r := AnticollRx(prior, tx, bits, data);
      forall i :: 0 <= i < |data| && (i > 0 || bits % 8 == 0) ==> r[bits / 8 + i] == data[i]
    ensures var r := AnticollRx(prior, tx, bits, data);
      forall i :: bits / 8 + |data| <= i < |prior| && (i != bits / 8 || bits % 8 == 0) ==> r[i] == prior[i]
  {
  }

  /** Valid bits of an anticollision response: up to the collision position
      (`c_byte`, `c_bit`) when a collision is latched, otherwise the reader's
      whole bytes plus every received byte. */
  function AnticollBitCount(colLatched: bool, cByte: bv8, cBit: bv8, bits: nat, n: nat): (r: nat)
    // a latched collision cuts the response at its position
    ensures colLatched ==> r == cByte as nat * 8 + cBit as nat
    // otherwise every whole reader byte and every received byte counts
    ensures !colLatched ==> r % 8 == 0 && r / 8 == bits / 8 + n
  {
    if colLatched then cByte as nat * 8 + cBit as nat else (bits / 8 + n) * 8
  }

  /** Bytes of CRC the chip leaves at the end of a CRC-mode response. */
  const CrcBytes: nat := 2

  /** Number of response bytes handed to the caller outside anticollision:
      the CRC is stripped in CRC mode, and the response must fit `rx`. */
  function ResponseLength(raw: bool, n: nat, rxLen: nat): (r: Result<nat, Error>)
    ensures r == Failure(ResponseTooShort) <==> !raw && n < CrcBytes
    ensures r == Failure(ResponseTooLong) <==>
      (raw || n >= CrcBytes) && rxLen < n - (if raw then 0 else CrcBytes)
    ensures r.Success? ==> r.value <= rxLen && r.value + (if raw then 0 else CrcBytes) == n
    // a response that holds its CRC and fits the buffer is accepted
    ensures r.Success? <==> (raw || n >= CrcBytes) && rxLen >= n - (if raw then 0 else CrcBytes)
  {
    var m := if raw then n else if n < CrcBytes then -1 else n - CrcBytes;
    if m < 0 then Failure(ResponseTooShort)
    else if rxLen < m then Failure(ResponseTooLong)
    else Success(m)
  }

  /** What the chip reports during one exchange, in the order it is asked:
      whether reception start latches within a given number of milliseconds;
      the latched interrupts seen by each pass of the poll loop before the
      500 ms safety timeout; the two FIFO status registers; the bytes the
      FIFO yields when read; and the collision position register. */
  datatype Reception = Reception(
    rxsWithin: nat -> bool,
    polls: seq<Irq>,
    status2: FifoStatus2,
    status1: bv8,
    fifo: seq<bv8>,
    cByte: bv8,
    cBit: bv8)

  /** Bytes the chip reports as received. */
  function ByteCount(hw: Reception): nat {
    RxByteCount(hw.status1, hw.status2.fifoB)
  }

  /** Whether the exchange gets past reception and the status checks to
      response extraction. */
  predicate ReachesExtraction(frame: Frame, tx: seq<bv8>, hw: Reception)
    requires TxCovers(frame, tx)
  {
    hw.rxsWithin(FrameSetup(frame, tx).fwtMs) &&
    PollOutcome(hw.polls, frame.Anticoll?).Success? &&
    PostRxCheck(hw.status2).None?
  }

  /** The collision latch the driver reads after the poll loop. */
  predicate CollisionLatched(frame: Frame, hw: Reception) {
    var k := FirstSettled(hw.polls, frame.Anticoll?);
    k < |hw.polls| && hw.polls[k].col
  }

  /** Result of one exchange: the number of valid response bits, or the
      error the driver reports. */
  function Outcome(frame: Frame, tx: seq<bv8>, rxLen: nat, hw: Reception): (r: Result<nat, Error>)
    requires TxCovers(frame, tx)
    // every error up to the status checks ends the exchange before extraction
    ensures !ReachesExtraction(frame, tx, hw) ==> r.Failure?
    // anticollision extraction never fails
    ensures frame.Anticoll? && ReachesExtraction(frame, tx, hw) ==> r.Success?
    // the length checks are the only errors of extraction
    ensures ReachesExtraction(frame, tx, hw) && r.Failure? ==>
      r.error == ResponseTooShort || r.error == ResponseTooLong
    // without reception start the exchange times out
    ensures !hw.rxsWithin(FrameSetup(frame, tx).fwtMs) ==> r == Failure(Error.Timeout)
    // after reception start, the poll loop's fault is reported as is
    ensures hw.rxsWithin(FrameSetup(frame, tx).fwtMs) && PollOutcome(hw.polls, frame.Anticoll?).Failure? ==>
      r == PollOutcome(hw.polls, frame.Anticoll?)
    // after reception end, the first flagged FIFO status is reported
    ensures (hw.rxsWithin(FrameSetup(frame, tx).fwtMs) && PollOutcome(hw.polls, frame.Anticoll?).Success? &&
             PostRxCheck(hw.status2).Some?) ==>
      r == Failure(PostRxCheck(hw.status2).value)
  {
    var setup := FrameSetup(frame, tx);
    if !hw.rxsWithin(setup.fwtMs) then Failure(Error.Timeout)
    else match PollOutcome(hw.polls, frame.Anticoll?)
      case Failure(e) => Failure(e)
      case Success(_) =>
        match PostRxCheck(hw.status2)
        case Some(e) => Failure(e)
        case None =>
          var n := ByteCount(hw);
          if frame.Anticoll? then
            Success(AnticollBitCount(CollisionLatched(frame, hw), hw.cByte, hw.cBit, frame.bits, n))
          else match ResponseLength(setup.raw, n, rxLen)
            case Failure(e) => Failure(e)
            case Success(m) => Success(m * 8)
  }

  /** `NoResponse` errors come exactly from the two timers: reception start
      not latched within the frame-waiting time, or the poll loop's safety
      timeout with no pass settling. */
  lemma NoResponseOnlyFromTimers(frame: Frame, tx: seq<bv8>, rxLen: nat, hw: Reception)
    requires TxCovers(frame, tx)
    ensures var r := Outcome(frame, tx, rxLen, hw);
      (r.Failure? && Kind(r.error) == NoResponse) <==>
      (!hw.rxsWithin(FrameSetup(frame, tx).fwtMs) ||
       forall j :: 0 <= j < |hw.polls| ==> Classify(hw.polls[j], frame.Anticoll?) == Pending)
  {
    PollTimeoutOnlyWhenAllPending(hw.polls, frame.Anticoll?);
    var stat := PostRxCheck(hw.status2);
    if stat.Some? {
      var i :| 0 <= i < |StatusOrder| && stat.value == StatusOrder[i];
    }
  }

  /** Anticollision: once a collision is latched, the bit count is the
      collision position, whatever byte count the FIFO reports; for
      `c_byte` = 2 and `c_bit` = 3 that is 19 bits. */
  lemma AnticollCollisionPosition(frame: Frame, tx: seq<bv8>, rxLen: nat, hw: Reception)
    requires frame.Anticoll? && TxCovers(frame, tx)
    requires ReachesExtraction(frame, tx, hw) && CollisionLatched(frame, hw)
    ensures Outcome(frame, tx, rxLen, hw) == Success(hw.cByte as nat * 8 + hw.cBit as nat)
    ensures hw.cByte == 2 && hw.cBit == 3 ==> Outcome(frame, tx, rxLen, hw) == Success(19)
  {
  }

  /** Anticollision without a latched collision: every reader bit of the
      whole bytes and every received byte counts. */
  lemma AnticollWithoutCollision(frame: Frame, tx: seq<bv8>, rxLen: nat, hw: Reception)
    requires frame.Anticoll? && TxCovers(frame, tx)
    requires ReachesExtraction(frame, tx, hw) && !CollisionLatched(frame, hw)
    ensures Outcome(frame, tx, rxLen, hw) == Success(8 * (frame.bits / 8 + ByteCount(hw)))
  {
  }

  /** Outside anticollision: only a standard frame has a CRC to strip, a CRC
      frame shorter than the CRC is too short, one whose stripped length
      exceeds the caller's buffer is too long, and every other response is
      accepted with the received bytes less the CRC. */
  lemma NonAnticollLength(frame: Frame, tx: seq<bv8>, rxLen: nat, hw: Reception)
    requires !frame.Anticoll? && TxCovers(frame, tx)
    requires ReachesExtraction(frame, tx, hw)
    ensures Outcome(frame, tx, rxLen, hw) == Failure(ResponseTooShort) <==>
      frame.Standard? && ByteCount(hw) < CrcBytes
    ensures var r := Outcome(frame, tx, rxLen, hw);
      r.Success? ==>
        r.value == 8 * (ByteCount(hw) - (if frame.Standard? then CrcBytes else 0)) && r.value / 8 <= rxLen
    // too long exactly when the CRC-stripped response exceeds the buffer
    ensures Outcome(frame, tx, rxLen, hw) == Failure(ResponseTooLong) <==>
      (frame.Standard? ==> ByteCount(hw) >= CrcBytes) &&
      rxLen < ByteCount(hw) - (if frame.Standard? then CrcBytes else 0)
    // a response that holds its CRC and fits the buffer is accepted
    ensures Outcome(frame, tx, rxLen, hw).Success? <==>
      (frame.Standard? ==> ByteCount(hw) >= CrcBytes) &&
      rxLen >= ByteCount(hw) - (if frame.Standard? then CrcBytes else 0)
  {
  }
}

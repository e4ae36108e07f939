/** The chip in ISO 14443-A mode: session start and release, and the frame
    transceiver that programs the chip, waits for the answer and extracts it. */
module Reader {
  import opened Errors
  import opened Frames
  import opened Interrupts
  import opened Fifo
  import opened Response

  /** Failures of session start. Only `FieldCollision` is produced here;
      `Timeout` and `Protocol` belong to the error surface only. */
  datatype StartError = FieldCollision | Timeout | Protocol

  /** The register fields the transceiver writes: the transmit bit count
      (`num_tx_bytes1` high, `num_tx_bytes2` low), `corr_s6`, the
      anticollision flag `antcl`, `no_crc_rx` and `agc_en`. */
  datatype Regs = Regs(
    numTxBytes1: RegByte,
    numTxBytes2: RegByte,
    corrS6: bool,
    antcl: bool,
    noCrcRx: bool,
    agcEn: bool)

  /** The chip as the transceiver sees it. `modeOffCalls`, `cmds` and
      `fifoWrites` record the calls made into the chip driver. */
  class Chip {
    var modeOn: bool
    var fieldOn: bool
    var modeOffCalls: nat
    var regs: Regs
    var cmds: seq<Command>
    var fifoWrites: seq<seq<bv8>>
    var irqs: Irq

    constructor (regs: Regs)
      ensures !modeOn && !fieldOn && modeOffCalls == 0
      ensures this.regs == regs && cmds == [] && fifoWrites == [] && irqs == NoIrq
    {
      modeOn, fieldOn, modeOffCalls := false, false, 0;
      this.regs, cmds, fifoWrites, irqs := regs, [], [], NoIrq;
    }

    /** Switches the chip into ISO 14443-A mode. */
    method ModeOn()
      modifies this`modeOn
      ensures modeOn
    {
      modeOn := true;
    }

    /** Turns the field and the mode off. */
    method ModeOff()
      modifies this`modeOn, this`fieldOn, this`modeOffCalls
      ensures !modeOn && !fieldOn && modeOffCalls == old(modeOffCalls) + 1
    {
      modeOn, fieldOn := false, false;
      modeOffCalls := modeOffCalls + 1;
    }

    /** Energizes the field unless another field is detected. */
    method FieldOn(collides: bool) returns (ok: bool)
      modifies this`fieldOn
      ensures ok == !collides
      ensures fieldOn == if ok then true else old(fieldOn)
    {
      ok := !collides;
      if ok {
        fieldOn := true;
      }
    }

    /** Issues a direct command. */
    method Cmd(c: Command)
      modifies this`cmds
      ensures cmds == old(cmds) + [c]
    {
      cmds := cmds + [c];
    }

    /** Loads bytes into the FIFO for transmission. */
    method WriteFifo(bytes: seq<bv8>)
      modifies this`fifoWrites
      ensures fifoWrites == old(fifoWrites) + [bytes]
    {
      fifoWrites := fifoWrites + [bytes];
    }

    /** Mode on, then field on; a field collision rolls the mode back. The
        5 ms guard time after field on is not modelled. */
    method StartIso14443a(fieldCollides: bool) returns (r: Result<Session, StartError>)
      modifies this`modeOn, this`fieldOn, this`modeOffCalls
      ensures r.Failure? <==> fieldCollides
      ensures r.Failure? ==> r.error == FieldCollision
      // a collision leaves mode and field off, after exactly one mode_off
      ensures fieldCollides ==> !modeOn && !fieldOn && modeOffCalls == old(modeOffCalls) + 1
      // otherwise the session holds this chip with mode and field on
      ensures !fieldCollides ==>
        r.Success? && fresh(r.value) && r.value.chip == this && r.value.live &&
        modeOn && fieldOn && modeOffCalls == old(modeOffCalls)
    {
      ModeOn();
      var ok := FieldOn(fieldCollides);
      if !ok {
        ModeOff();
        return Failure(FieldCollision);
      }
      var session := new Session(this);
      return Success(session);
    }
  }

  /** Copies `data` into `a` from index `at` on (slice copy / FIFO read). */
  method CopyInto(a: array<bv8>, at: nat, data: seq<bv8>)
    requires at + |data| <= a.Length
    modifies a
    ensures a[..] == old(a[..at]) + data + old(a[at + |data|..])
  {
    forall i | at <= i < at + |data| {
      a[i] := data[i - at];
    }
  }

  /** A chip in ISO 14443-A mode with its field on. `live` holds until the
      session is released: a session is released once and not used after. */
  class Session {
    const chip: Chip
    ghost var live: bool

    constructor (chip: Chip)
      ensures this.chip == chip && live
    {
      this.chip := chip;
      live := true;
    }

    /** Releasing the session turns field and mode off, once. */
    method Drop()
      requires live
      modifies this`live, chip`modeOn, chip`fieldOn, chip`modeOffCalls
      ensures !live
      ensures !chip.modeOn && !chip.fieldOn && chip.modeOffCalls == old(chip.modeOffCalls) + 1
    {
      chip.ModeOff();
      live := false;
    }

    /** One exchange: program the frame, transmit, wait for the answer and
        extract it into `rx`. `hw` is what the chip reports along the way. */
    method Transceive(tx: seq<bv8>, rx: array<bv8>, frame: Frame, hw: Reception) returns (r: Result<nat, Error>)
      requires live
      requires TxCovers(frame, tx)
      // the FIFO holds the bytes its count registers report
      requires ReachesExtraction(frame, tx, hw) ==> |hw.fifo| >= ByteCount(hw)
      requires frame.Anticoll? && ReachesExtraction(frame, tx, hw) ==>
        AnticollFits(rx.Length, tx, frame.bits, ByteCount(hw))
      modifies chip`regs, chip`cmds, chip`fifoWrites, chip`irqs, rx
      ensures r == Outcome(frame, tx, rx.Length, hw)
      // no error leaves a partial write in rx
      ensures r.Failure? ==> rx[..] == old(rx[..])
      ensures r.Success? && frame.Anticoll? ==>
        rx[..] == AnticollRx(old(rx[..]), tx, frame.bits, hw.fifo[..ByteCount(hw)])
      ensures r.Success? && !frame.Anticoll? ==>
        r.value % 8 == 0 && r.value / 8 <= rx.Length &&
        rx[..r.value / 8] == hw.fifo[..r.value / 8] && rx[r.value / 8..] == old(rx[r.value / 8..])
      // commands: stop, reset gain, then the frame's transmit command
      ensures chip.cmds == old(chip.cmds) + [Stop, ResetRxgain, FrameSetup(frame, tx).cmd]
      // FIFO load and bit-count registers, only for frames with a payload
      ensures chip.fifoWrites == old(chip.fifoWrites) +
        (if FrameSetup(frame, tx).payload.Some? then [FrameSetup(frame, tx).payload.value] else [])
      ensures FrameSetup(frame, tx).txBits.Some? ==>
        (chip.regs.numTxBytes1, chip.regs.numTxBytes2) == TxBitRegisters(FrameSetup(frame, tx).txBits.value)
      ensures FrameSetup(frame, tx).txBits.None? ==>
        chip.regs.numTxBytes1 == old(chip.regs.numTxBytes1) && chip.regs.numTxBytes2 == old(chip.regs.numTxBytes2)
      // receiver configuration
      ensures chip.regs.antcl == frame.Anticoll?
      ensures chip.regs.agcEn == !frame.Anticoll?
      ensures chip.regs.corrS6 == !frame.Anticoll?
      ensures chip.regs.noCrcRx == FrameSetup(frame, tx).raw
      // the interrupt cache: cleared, then what the poll loop left
      ensures chip.irqs ==
        if hw.rxsWithin(FrameSetup(frame, tx).fwtMs) then LatchedAfterPoll(hw.polls, frame.Anticoll?) else NoIrq
    {
      var c := chip;
      c.Cmd(Stop);
      c.Cmd(ResetRxgain);

      var isAnticoll := frame.Anticoll?;
      var raw, cmd, fwtMs := ProgramFrame(tx, frame);

      c.irqs := NoIrq;
      c.Cmd(cmd);

      // transmission end always latches; reception start is bounded by the FWT
      if !hw.rxsWithin(fwtMs) {
        return Failure(Error.Timeout);
      }

      var polled, latched := PollRx(hw.polls, isAnticoll);
      c.irqs := latched;
      if polled.Failure? {
        return Failure(polled.error);
      }

      var stat := hw.status2;
      if stat.fifoOvr {
        return Failure(FifoOverflow);
      }
      if stat.fifoUnf {
        return Failure(FifoUnderflow);
      }
      if stat.npLb {
        return Failure(FramingLastByteMissingParity);
      }

      var rxBytes := RxByteCount(hw.status1, stat.fifoB);
      if frame.Anticoll? {
        var rxBits := ExtractAnticoll(tx, rx, frame.bits, hw.fifo[..rxBytes], c.irqs.col, hw.cByte, hw.cBit);
        return Success(rxBits);
      } else {
        r := ExtractResponse(rx, raw, rxBytes, hw.fifo);
      }
    }

    /** Programs the frame: bit-count registers and FIFO load where the frame
        has a payload, then the receiver configuration. Returns raw mode, the
        transmit command and the frame-waiting time. */
    method ProgramFrame(tx: seq<bv8>, frame: Frame) returns (raw: bool, cmd: Command, fwtMs: nat)
      requires TxCovers(frame, tx)
      modifies chip`regs, chip`fifoWrites
      ensures (raw, cmd, fwtMs) == (FrameSetup(frame, tx).raw, FrameSetup(frame, tx).cmd, FrameSetup(frame, tx).fwtMs)
      ensures chip.fifoWrites == old(chip.fifoWrites) +
        (if FrameSetup(frame, tx).payload.Some? then [FrameSetup(frame, tx).payload.value] else [])
      ensures FrameSetup(frame, tx).txBits.Some? ==>
        (chip.regs.numTxBytes1, chip.regs.numTxBytes2) == TxBitRegisters(FrameSetup(frame, tx).txBits.value)
      ensures FrameSetup(frame, tx).txBits.None? ==>
        chip.regs.numTxBytes1 == old(chip.regs.numTxBytes1) && chip.regs.numTxBytes2 == old(chip.regs.numTxBytes2)
      ensures chip.regs.antcl == frame.Anticoll?
      ensures chip.regs.agcEn == !frame.Anticoll?
      ensures chip.regs.corrS6 == !frame.Anticoll?
      ensures chip.regs.noCrcRx == raw
    {
      var c := chip;
      fwtMs := ShortFrameFwtMs;
      var isAnticoll := frame.Anticoll?;
      match frame {
        case ReqA =>
          raw, cmd := true, TransmitReqa;
        case WupA =>
          raw, cmd := true, TransmitWupa;
        case Anticoll(bits) =>
          var (hi, lo) := TxBitRegisters(bits);
          c.regs := c.regs.(numTxBytes2 := lo);
          c.regs := c.regs.(numTxBytes1 := hi);
          c.WriteFifo(tx[..(bits + 7) / 8]);
          raw, cmd := true, TransmitWithoutCrc;
        case Standard(timeoutMs) =>
          fwtMs := timeoutMs;
          var bits := |tx| * 8;
          var (hi, lo) := TxBitRegisters(bits);
          c.regs := c.regs.(numTxBytes2 := lo);
          c.regs := c.regs.(numTxBytes1 := hi);
          c.WriteFifo(tx);
          raw, cmd := false, TransmitWithCrc;
      }
      c.regs := c.regs.(corrS6 := !isAnticoll);
      c.regs := c.regs.(antcl := isAnticoll);
      c.regs := c.regs.(noCrcRx := raw);
      c.regs := c.regs.(agcEn := !isAnticoll);
    }
  }

  /** Anticollision extraction: the reader's whole bytes from `tx`, the FIFO
      bytes after them, the reader's partial bits ORed in; the bit count is
      the collision position when a collision is latched. */
  method ExtractAnticoll(tx: seq<bv8>, rx: array<bv8>, bits: nat, data: seq<bv8>,
                         colLatched: bool, cByte: bv8, cBit: bv8) returns (rxBits: nat)
    requires AnticollFits(rx.Length, tx, bits, |data|)
    modifies rx
    ensures rx[..] == AnticollRx(old(rx[..]), tx, bits, data)
    ensures rxBits == AnticollBitCount(colLatched, cByte, cBit, bits, |data|)
  {
    var full := bits / 8;
    ghost var prior := rx[..];
    CopyInto(rx, 0, tx[..full]);
    ghost var copied := rx[..];
    CopyInto(rx, full, data);
    CopiesCompose(prior, copied, rx[..], tx[..full], data);
    ghost var filled := rx[..];
    AnticollRxUnfolds(prior, tx, bits, data, filled);
    if bits % 8 != 0 {
      var half := tx[full] & PartialMask(bits);
      OrInto(rx, full, half);
    }
    rxBits := AnticollBitCount(colLatched, cByte, cBit, bits, |data|);
  }

  /** ORs `v` into `a[i]`. */
  method OrInto(a: array<bv8>, i: nat, v: bv8)
    requires i < a.Length
    modifies a
    ensures a[..] == old(a[..])[i := old(a[i]) | v]
  {
    a[i] := a[i] | v;
  }

  /** `AnticollRx` in terms of the buffer after the two copies. */
  lemma AnticollRxUnfolds(prior: seq<bv8>, tx: seq<bv8>, bits: nat, data: seq<bv8>, filled: seq<bv8>)
    requires AnticollFits(|prior|, tx, bits, |data|)
    requires filled == tx[..bits / 8] + data + prior[bits / 8 + |data|..]
    ensures bits % 8 == 0 ==> AnticollRx(prior, tx, bits, data) == filled
    ensures bits % 8 != 0 ==>
      AnticollRx(prior, tx, bits, data) == filled[bits / 8 := filled[bits / 8] | (tx[bits / 8] & PartialMask(bits))]
  {
  }

  /** Two consecutive copies, the second starting where the first ended. */
  lemma CopiesCompose(prior: seq<bv8>, copied: seq<bv8>, after: seq<bv8>, head: seq<bv8>, data: seq<bv8>)
    requires |head| + |data| <= |prior|
    requires copied == prior[..0] + head + prior[|head|..]
    requires after == copied[..|head|] + data + copied[|head| + |data|..]
    ensures after == head + data + prior[|head| + |data|..]
  {
    assert copied[..|head|] == head;
    assert copied[|head| + |data|..] == prior[|head| + |data|..];
  }

  /** Extraction outside anticollision: strip the CRC in CRC mode, refuse a
      response that does not fit `rx`, then read it from the FIFO. */
  method ExtractResponse(rx: array<bv8>, raw: bool, rxBytes: nat, fifo: seq<bv8>) returns (r: Result<nat, Error>)
    requires |fifo| >= rxBytes
    modifies rx
    ensures r == match ResponseLength(raw, rxBytes, rx.Length)
                 case Failure(e) => Failure(e)
                 case Success(m) => Success(m * 8)
    ensures r.Failure? ==> rx[..] == old(rx[..])
    ensures r.Success? ==>
      rx[..r.value / 8] == fifo[..r.value / 8] && rx[r.value / 8..] == old(rx[r.value / 8..])
  {
    var n := rxBytes;
    if !raw {
      if n < 2 {
        return Failure(ResponseTooShort);
      }
      n := n - 2;
    }
    if rx.Length < n {
      return Failure(ResponseTooLong);
    }
    CopyInto(rx, 0, fifo[..n]);
    return Success(n * 8);
  }
}

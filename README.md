# ISO 14443-A transceiver of the ST25R39 driver, modelled in Dafny

This project models the ISO 14443-A layer of the `rnfc` driver for ST25R39
reader chips (`rnfc-st25r39/src/iso14443a.rs`). It covers:

- the error taxonomy and how errors are split into "no response" and "other";
- the session lifecycle: mode on, then field on, roll back on a field
  collision, and `mode_off` when the session is dropped;
- one frame exchange (`transceive`). That is the framing setup per frame
  kind, the receive poll loop with its fault priority, the FIFO status
  checks, the received byte count, and how the response is extracted into
  the caller's buffer.

Modules:

- `Errors` (`errors.dfy`): `Error`, `ErrorKind`, `Kind`, and the `Result`
  and `Option` wrappers.
- `Frames` (`frames.dfy`): frame kinds, chip commands, `FrameSetup` (raw or
  CRC mode, command, frame-waiting time, transmit bit count, FIFO payload)
  and the split of the bit count over `num_tx_bytes1`/`num_tx_bytes2`.
- `Interrupts` (`interrupts.dfy`): latched interrupt snapshots, the
  per-pass classification, and the poll loop `PollRx` proved against
  `PollOutcome`.
- `Fifo` (`fifo.dfy`): the `fifo_status2` checks and the byte count built
  from `fifo_status1` and `fifo_b`.
- `Response` (`response.dfy`): the partial-byte mask, the anticollision
  receive buffer `AnticollRx`, CRC stripping and length checks, what the
  chip reports during one exchange (`Reception`), and `Outcome`, the result
  of an exchange as a function of its inputs, with lemmas about it.
- `Reader` (`reader.dfy`): class `Chip` and class `Session`.
  - `Chip` holds mode and field flags, a `mode_off` call counter, the
    written registers, the command log, the FIFO write log and the latched
    interrupt cache.
  - `Chip` also holds `StartIso14443a`, which returns a `Session`.
  - `Session` holds `Drop` and `Transceive`. `Transceive`
    fills an `array<bv8>` receive buffer in place, and its postcondition ties
    the result to `Outcome` and the buffer to `AnticollRx` or to the FIFO
    bytes.
- `Client` (`client.dfy`): a caller's polling cycle. A REQA gets no answer,
  a WUPA on the same session then succeeds, and the session is released with
  exactly one `mode_off`.

The chip driver's own primitives are small `Chip` methods with assumed
effects. They are `mode_on`, `mode_off` (turns field and mode off),
`field_on` (fails on a field collision), `cmd` and `write_fifo`.

The hardware's answers during an exchange are a `Reception` value given to
`Transceive`. It holds:

- whether RXS latches within a given number of milliseconds;
- the latched interrupt state seen by each pass of the poll loop. Running out
  of passes is the 500 ms safety timeout;
- `fifo_status1` and `fifo_status2`;
- the bytes the FIFO yields when read;
- the collision position register.

## Model

| member | source | states |
|---|---|---|
| `Errors.Kind` | rnfc-st25r39/src/iso14443a.rs:25-32 | `Timeout` is classified `NoResponse` and every other error `Other`, in both directions |
| `Frames.FrameSetup` | rnfc-st25r39/src/iso14443a.rs:86-106 | REQA and WUPA are raw, use their dedicated commands, set no bit count, load nothing and wait 5 ms. Anticollision is raw with `TransmitWithoutCrc` and 5 ms, sends `bits` bits, and loads the shortest prefix of `tx` that holds them. Standard is CRC mode with `TransmitWithCrc`, waits the caller's timeout and sends all of `tx` (`8 * len` bits) |
| `Frames.TxBitRegisters` | rnfc-st25r39/src/iso14443a.rs:93-102 | the high and low register bytes recombine to the bit count modulo 2^16, and to the bit count itself when it is below 65536 |
| `Interrupts.Classify` | rnfc-st25r39/src/iso14443a.rs:145-161 | a pass reports the first raised fault in the order Framing, Parity, Crc, Collision. Collision is a fault only outside anticollision. A pass ends reception only when no fault is raised and RXE is latched |
| `Interrupts.FirstSettled` | rnfc-st25r39/src/iso14443a.rs:143-167 | the index of the first pass that does not stay pending; every earlier pass is pending |
| `Interrupts.PollOutcome` | rnfc-st25r39/src/iso14443a.rs:143-173 | success is at a pass that classifies as reception end; an error is either one of the four poll faults or `Timeout` |
| `Interrupts.PollTimeoutOnlyWhenAllPending` | rnfc-st25r39/src/iso14443a.rs:143-173 | the poll loop reports `Timeout` exactly when every pass before the safety timeout stays pending |
| `Interrupts.PollRx` | rnfc-st25r39/src/iso14443a.rs:141-173 | the loop returns at the first settling pass. Success means RXE with no fault at that pass; a fault is the one that pass classifies; `Timeout` comes exactly when no pass settles. The interrupt cache left behind is that pass, or else the last one seen |
| `Fifo.PostRxCheck` | rnfc-st25r39/src/iso14443a.rs:177-186 | no error when none of overflow, underflow or missing last-byte parity is flagged; otherwise the first flagged one, in that order |
| `Fifo.RxByteCount` | rnfc-st25r39/src/iso14443a.rs:188-189 | the OR of `fifo_status1` with `fifo_b << 8` equals `fifo_status1 + 256 * fifo_b` |
| `Response.PartialMask` | rnfc-st25r39/src/iso14443a.rs:195-196 | bit `i` of the mask is set exactly for `i < bits % 8` |
| `Response.MaskAsWritten` | rnfc-st25r39/src/iso14443a.rs:196 | the written shift `1 << bits` on a byte is defined only for `bits < 8` |
| `Response.MaskAsWrittenOverflows` | rnfc-st25r39/src/iso14443a.rs:196 | the written mask equals `PartialMask` below 8 bits; it overflows for every unaligned `bits >= 8`, e.g. 20, where the intended mask is `0x0F` |
| `Response.AnticollRx` | rnfc-st25r39/src/iso14443a.rs:191-198 | the anticollision receive buffer keeps the caller's buffer length |
| `Response.AnticollEchoesTx` | rnfc-st25r39/src/iso14443a.rs:191-198 | the first `bits / 8` bytes equal those of `tx`. In the partial byte, each of the low `bits % 8` bits is the OR of the reader's bit and the chip's, and the other bits are the chip's |
| `Response.MergedPartialByte` | rnfc-st25r39/src/iso14443a.rs:195-198 | ORing the masked reader byte into the chip byte sets each low `bits % 8` bit iff either has it, and keeps every other bit of the chip byte |
| `Response.AnticollPlacesData` | rnfc-st25r39/src/iso14443a.rs:193-198 | the received bytes follow the reader's whole bytes (all but the merged first one are exact) and the rest of the buffer is unchanged |
| `Response.ResponseLength` | rnfc-st25r39/src/iso14443a.rs:210-220 | `ResponseTooShort` exactly in CRC mode with fewer than 2 bytes; `ResponseTooLong` exactly when the CRC-stripped count exceeds the buffer; otherwise the result is a success, whose count is the received bytes less the CRC and fits the buffer, and success happens exactly then |
| `Response.Outcome` | rnfc-st25r39/src/iso14443a.rs:132-225 | errors are reported in the driver's order: `Timeout` when RXS misses the frame-waiting time; then the poll loop's fault exactly as `PollOutcome` reports it; then the first flagged FIFO status of `PostRxCheck`; then only `ResponseTooShort` or `ResponseTooLong` from extraction. Anticollision extraction always succeeds |
| `Response.NoResponseOnlyFromTimers` | rnfc-st25r39/src/iso14443a.rs:133-173 | an exchange ends in a `NoResponse` error exactly when RXS misses the frame-waiting time or no poll pass settles before the safety timeout |
| `Response.AnticollBitCount` | rnfc-st25r39/src/iso14443a.rs:200-205 | with a latched collision the bit count is the collision position `c_byte * 8 + c_bit`; otherwise it is a whole number of bytes: the reader's `bits / 8` whole bytes plus every received byte |
| `Response.AnticollCollisionPosition` | rnfc-st25r39/src/iso14443a.rs:200-202 | with a latched collision the result is `c_byte * 8 + c_bit` bits, whatever the byte count; 2 and 3 give 19 |
| `Response.AnticollWithoutCollision` | rnfc-st25r39/src/iso14443a.rs:203-205 | without a collision the result is `8 * (bits / 8 + received bytes)` |
| `Response.NonAnticollLength` | rnfc-st25r39/src/iso14443a.rs:209-224 | outside anticollision only a standard frame can be too short (fewer than 2 bytes). `ResponseTooLong` comes exactly when the received bytes less the CRC exceed the buffer. The exchange succeeds exactly when the response holds its CRC and fits, and then returns `8 *` the received bytes less the CRC |
| `Reader.Chip.StartIso14443a` | rnfc-st25r39/src/iso14443a.rs:48-62 | a field collision gives `FieldCollision` after exactly one `mode_off`, with mode and field off. Otherwise a fresh, live session on this chip is returned with mode and field on and no `mode_off`. `FieldCollision` is the only error |
| `Reader.Session.Drop` | rnfc-st25r39/src/iso14443a.rs:65-69 | only a live session can be dropped, and dropping ends it; the drop calls `mode_off` once, leaving field and mode off. So a session is released at most once |
| `Reader.Session.ProgramFrame` | rnfc-st25r39/src/iso14443a.rs:86-124 | it returns the raw flag, command and frame-waiting time of `FrameSetup`. It loads the payload into the FIFO and writes the bit-count registers only for frames that have them. `antcl` is set iff anticollision; `agc_en` and `corr_s6` iff not; `no_crc_rx` equals raw |
| `Reader.Session.Transceive` | rnfc-st25r39/src/iso14443a.rs:76-227 | only a live (not yet released) session exchanges frames. The result equals `Outcome`, and no error writes to `rx`. An anticollision success leaves `rx` equal to `AnticollRx` of the FIFO bytes. Any other success fills `rx` with exactly the first `n` FIFO bytes and returns `8n`. The commands are Stop, ResetRxgain, then the frame's command. The registers, FIFO writes and interrupt cache are as programmed |
| `Reader.ExtractAnticoll` | rnfc-st25r39/src/iso14443a.rs:191-208 | `rx` becomes `AnticollRx` of the FIFO bytes, and the bit count is the collision position or the whole-byte count |
| `Reader.ExtractResponse` | rnfc-st25r39/src/iso14443a.rs:209-225 | the result follows `ResponseLength` times 8. Errors leave `rx` untouched; a success copies exactly the CRC-stripped FIFO bytes and leaves the rest of `rx` unchanged |

## Left out

- Timing is not modelled. This covers the 5 ms field guard time, the 1 ms
  pre-delay, `with_timeout`, `yield_now` and `irq_wait`. What the timers
  decide is part of `Reception`: RXS within a given time, and the finite
  list of poll passes. The TXE wait is assumed to complete, as the source
  assumes.
- Interrupt latching (`irq_update`, and the updates made by `irq_wait`) is
  not modelled. Each poll pass is given its latched state directly.
- Reader.Session.Transceive: after an RXS timeout the interrupt cache is
  stated as cleared. The state the `irq_wait` calls latched is not modelled.
- Register encodings are not modelled: `corr_conf1` `0x13`, `agc_m`,
  `agc6_3`, `sqm_dyn`, and the reset of the other fields of a register that
  is written whole. Only the fields the transceiver decides on are kept.
- The chip transport is not part of this model (`Interface`, `write_fifo`,
  `read_fifo`, `cmd`, `mode_on`, `mode_off`, `field_on`). Stand-ins record
  the calls. `read_fifo` yields the leading bytes of `Reception.fifo`.
- `debug!` logging is left out.
- Panics on short buffers are preconditions, not modelled behaviour. These
  are the slice of `tx` for an anticollision frame and the slices and index
  of `rx` during anticollision extraction. So is the hardware assumption that
  the FIFO holds the bytes its count registers report.
- The exclusive borrow of the chip by a session is not modelled: nothing
  stops the caller from using the `Chip` directly while a session is live.
  Ownership of the session itself is a ghost `live` flag: `Drop` needs it
  and clears it, and `Transceive` needs it. Any constructed `Session`
  starts live, so a caller that calls the constructor directly, instead of
  `StartIso14443a`, gets a second session it can drop. `Drop` is not called
  automatically at scope exit; `Client.PollingCycle` calls it once.
- The release (`rnfc-st25r39/src/iso14443a.rs:67`) calls only `mode_off`. The model assumes that
  `mode_off` also turns the field off, since the chip driver's `mode_off` is
  not part of this model.
- `usize` overflow of `tx.len() * 8` is not modelled; integers are unbounded.
  Truncation to the 8-bit registers is modelled.
- Fields of `Frame::Standard` other than `timeout_ms` are not visible in the
  source and are not modelled; the payload is the `tx` buffer.
- `rnfc-traits/src/lib.rs` holds only crate attributes and module
  declarations, and is not part of this model.

## Findings

| source | as written | input that shows it | evidently intended | confidence | as-written member | corrected member |
|---|---|---|---|---|---|---|
| rnfc-st25r39/src/iso14443a.rs:196 | `tx[full_bytes] & (1 << bits) - 1` shifts a `u8` by the whole bit count. With overflow checks on, this panics for `bits >= 8`. Without them, the shift amount wraps to `bits & 7` | `Anticoll { bits: 20 }` (two known UID bytes and four known bits) with a successful reception | a mask of the low `bits % 8` bits, `(1 << (bits % 8)) - 1`, here `0x0F` | medium; not executed | `Response.MaskAsWrittenOverflows` | `Response.PartialMask` |

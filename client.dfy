/** A caller's polling cycle on one chip: a REQA that no card answers, then
    a WUPA that a card answers with a two-byte ATQA, then release. */
module Client {
  import opened Errors
  import opened Frames
  import opened Interrupts
  import opened Fifo
  import opened Response
  import opened Reader

  method PollingCycle(chip: Chip, rx: array<bv8>)
    requires rx.Length >= 2
    modifies chip, rx
  {
    var started := chip.StartIso14443a(false);
    var session := started.value;

    var idle := FifoStatus2(false, false, false, 0);
    var silent := Reception(_ => false, [], idle, 0, [], 0, 0);
    var r := session.Transceive([], rx, ReqA, silent);
    assert r == Failure(Error.Timeout) && Kind(r.error) == NoResponse;

    var rxEnded := Irq(false, false, false, false, true);
    var atqa := Reception(_ => true, [NoIrq, rxEnded], idle, 2, [0x44, 0x00], 0, 0);
    r := session.Transceive([], rx, WupA, atqa);
    assert FirstSettled(atqa.polls, false) == 1;
    assert r == Success(16) && rx[..2] == [0x44, 0x00];

    session.Drop();
    assert chip.modeOffCalls == old(chip.modeOffCalls) + 1 && !chip.fieldOn && !chip.modeOn;
  }
}

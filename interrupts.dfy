/** The receive poll loop: latched interrupt state is inspected pass after
    pass until reception ends, a fault is latched, or the safety timeout
    fires. */
module Interrupts {
  import opened Errors

  /** Latched interrupt flags the poll loop inspects. */
  datatype Irq = Irq(err1: bool, par: bool, crc: bool, col: bool, rxe: bool)

  /** The interrupt cache right after it is cleared. */
  const NoIrq: Irq := Irq(false, false, false, false, false)

  /** What one pass of the poll loop decides. */
  datatype Poll = Pending | Fault(error: Error) | RxEnded

  /** Faults in the order the loop checks them. */
  const FaultOrder: seq<Error> := [Framing, Parity, Crc, Collision]

  /** Whether the flag behind fault `e` is latched in `s`. Collisions are
      expected during anticollision, so there they are never a fault. */
  predicate Raised(s: Irq, e: Error, anticoll: bool) {
    match e
    case Framing => s.err1
    case Parity => s.par
    case Crc => s.crc
    case Collision => !anticoll && s.col
    case _ => false
  }

  /** One pass: the first raised fault in `FaultOrder` wins; otherwise the
      loop ends once reception end is latched. */
  function Classify(s: Irq, anticoll: bool): (p: Poll)
    ensures p.Fault? <==> exists i :: 0 <= i < |FaultOrder| && Raised(s, FaultOrder[i], anticoll)
    ensures p.Fault? ==>
      exists i :: 0 <= i < |FaultOrder| && p.error == FaultOrder[i] && Raised(s, FaultOrder[i], anticoll) &&
        forall j :: 0 <= j < i ==> !Raised(s, FaultOrder[j], anticoll)
    ensures p == RxEnded <==> !p.Fault? && s.rxe
  {
    if s.err1 then assert Raised(s, FaultOrder[0], anticoll); Fault(Framing)
    else if s.par then assert Raised(s, FaultOrder[1], anticoll); Fault(Parity)
    else if s.crc then assert Raised(s, FaultOrder[2], anticoll); Fault(Crc)
    else if !anticoll && s.col then assert Raised(s, FaultOrder[3], anticoll); Fault(Collision)
    else if s.rxe then RxEnded
    else Pending
  }

  /** Index of the first pass that ends the loop, or `|polls|` when every
      pass is still pending. */
  function FirstSettled(polls: seq<Irq>, anticoll: bool): (k: nat)
    ensures k <= |polls|
    ensures forall j :: 0 <= j < k ==> Classify(polls[j], anticoll) == Pending
    ensures k < |polls| ==> Classify(polls[k], anticoll) != Pending
  {
    if polls == [] then 0
    else if Classify(polls[0], anticoll) != Pending then 0
    else 1 + FirstSettled(polls[1..], anticoll)
  }

  /** Outcome of the poll loop over the passes it gets before the safety
      timeout: the index of the pass that saw reception end, or the fault. */
  function PollOutcome(polls: seq<Irq>, anticoll: bool): (r: Result<nat, Error>)
    ensures r.Success? ==> r.value < |polls| && Classify(polls[r.value], anticoll) == RxEnded
    ensures r.Failure? ==> r.error in FaultOrder || r.error == Error.Timeout
  {
    var k := FirstSettled(polls, anticoll);
    if k == |polls| then Failure(Error.Timeout)
    else match Classify(polls[k], anticoll)
      case Fault(e) => Failure(e)
      case _ => Success(k)
  }

  /** The interrupt cache once the loop stops: the deciding pass, or the last
      pass seen when the safety timeout fires. */
  function LatchedAfterPoll(polls: seq<Irq>, anticoll: bool): Irq {
    var k := FirstSettled(polls, anticoll);
    if k < |polls| then polls[k]
    else if polls == [] then NoIrq
    else polls[|polls| - 1]
  }

  /** A fault can only come from a latched flag, never from the timer. */
  lemma PollTimeoutOnlyWhenAllPending(polls: seq<Irq>, anticoll: bool)
    ensures PollOutcome(polls, anticoll) == Failure(Error.Timeout) <==>
      forall j :: 0 <= j < |polls| ==> Classify(polls[j], anticoll) == Pending
  {
    var k := FirstSettled(polls, anticoll);
    if k < |polls| {
      var p := Classify(polls[k], anticoll);
      if p.Fault? {
        var i :| 0 <= i < |FaultOrder| && p.error == FaultOrder[i] && Raised(polls[k], FaultOrder[i], anticoll);
        assert p.error != Error.Timeout;
      }
    }
  }

  /** The poll loop. `polls` are the latched states seen by successive passes
      before the safety timeout; running out of them is that timeout. */
  method PollRx(polls: seq<Irq>, anticoll: bool) returns (r: Result<nat, Error>, latched: Irq)
    // reception end is reported at the first pass that settles, and only
    // when no fault was latched then
    ensures r.Success? ==>
      r.value < |polls| && polls[r.value].rxe && Classify(polls[r.value], anticoll) == RxEnded &&
      forall j :: 0 <= j < r.value ==> Classify(polls[j], anticoll) == Pending
    // a fault is the one the first settling pass classifies
    ensures r.Failure? && r.error != Error.Timeout ==>
      exists k :: 0 <= k < |polls| && Classify(polls[k], anticoll) == Fault(r.error) &&
        forall j :: 0 <= j < k ==> Classify(polls[j], anticoll) == Pending
    // the safety timeout fires exactly when no pass settles
    ensures r == Failure(Error.Timeout) <==> forall j :: 0 <= j < |polls| ==> Classify(polls[j], anticoll) == Pending
    ensures r == PollOutcome(polls, anticoll)
    // the interrupt cache the loop leaves behind
    ensures latched == LatchedAfterPoll(polls, anticoll)
  {
    var i := 0;
    latched := NoIrq;
    while i < |polls|
      invariant 0 <= i <= |polls|
      invariant forall j :: 0 <= j < i ==> Classify(polls[j], anticoll) == Pending
      invariant latched == if i == 0 then NoIrq else polls[i - 1]
    {
      latched := polls[i];
      if latched.err1 {
        return Failure(Framing), latched;
      }
      if latched.par {
        return Failure(Parity), latched;
      }
      if latched.crc {
        return Failure(Crc), latched;
      }
      if !anticoll && latched.col {
        return Failure(Collision), latched;
      }
      if latched.rxe {
        return Success(i), latched;
      }
      i := i + 1;
    }
    return Failure(Error.Timeout), latched;
  }
}

/** What each transmit counter of the CAN adapter counts, over every run, read off the steps. */
module CanDeviceCounts {
  import opened Bytes
  import opened CanProtocol
  import opened CanDevice
  import opened CanDeviceRun

  /** The result the driver gave callback `id` when it last acted before step `k`. */
  ghost function Reported(steps: seq<Step>, k: nat, id: nat): Option<Result>
    requires k <= |steps|
  {
    if k == 0 then None
    else match steps[k - 1]
      case Interrupt(other, Act(result)) => if other == id then Some(result) else Reported(steps, k - 1, id)
      case _ => Reported(steps, k - 1, id)
  }

  /** The step settles a frame with that result; `marked` is whether it finds the in-flight mark. */
  predicate Settles(step: Step, marked: bool, reported: Option<Result>, result: Result) {
    match step
    case Interrupt(_, Count) => reported == Some(result)
    case Sends(DriverRejects(abort)) => result == if abort then Aborted else Failed
    case Stops(AbortOne) => result.Aborted?
    case Stops(Finish) => result.Aborted? && marked
    case _ => false
  }

  /** What the driver reported to the callback whose step this is. */
  ghost function ReportedAt(steps: seq<Step>, k: nat): Option<Result>
    requires k < |steps|
  {
    match steps[k] case Interrupt(id, _) => Reported(steps, k, id) case _ => None
  }

  function One(yes: bool): nat { if yes then 1 else 0 }

  /** How many of the first `k` steps do. */
  ghost function Tally(states: seq<System>, steps: seq<Step>, k: nat, result: Result): nat
    requires k <= |steps| < |states|
  {
    if k == 0 then 0
    else
      Tally(states, steps, k - 1, result)
      + One(Settles(steps[k - 1], states[k - 1].tx.inFlight, ReportedAt(steps, k - 1), result))
  }

  /** How many of the first `k` steps try to send a frame. */
  ghost function Tries(steps: seq<Step>, k: nat): nat
    requires k <= |steps|
  {
    if k == 0 then 0
    else Tries(steps, k - 1) + One(steps[k - 1].Sends? && steps[k - 1].send.Send?)
  }

  /** The frame a step adds to the queue: that of a Send that finds room. */
  function Added(s: System, step: Step): seq<CanFrame> {
    match step
    case Sends(Send(frame)) => if |s.tx.queue| < s.tx.depth then [frame] else []
    case _ => []
  }

  ghost function AllAdded(states: seq<System>, steps: seq<Step>, k: nat): seq<CanFrame>
    requires k <= |steps| < |states|
  {
    if k == 0 then [] else AllAdded(states, steps, k - 1) + Added(states[k - 1], steps[k - 1])
  }

  /** A callback about to raise its counter carries the result the driver gave it. */
  ghost predicate Carried(states: seq<System>, steps: seq<Step>, k: nat)
    requires k <= |steps| < |states|
  {
    forall id :: id in states[k].fence.callbacks && states[k].fence.callbacks[id].phase.Settling? ==>
      Reported(steps, k, id) == Some(states[k].fence.callbacks[id].phase.result)
  }

  lemma {:induction false} AllCarried(states: seq<System>, steps: seq<Step>, k: nat)
    requires IsRun(states, steps) && k < |states|
    ensures Carried(states, steps, k)
  {
    if k > 0 {
      AllCarried(states, steps, k - 1);
      var s, step := states[k - 1], steps[k - 1];
      assert Enabled(s, step) && states[k] == Apply(s, step);
    }
  }

  /** The counters; and what is refused at a full queue. */
  ghost predicate Counted(states: seq<System>, steps: seq<Step>, k: nat)
    requires k <= |steps| < |states|
  {
    var tx := states[k].tx;
    && tx.completions == Tally(states, steps, k, Sent)
    && tx.failures == Tally(states, steps, k, Failed)
    && tx.aborts == Tally(states, steps, k, Aborted)
    && tx.accepted == AllAdded(states, steps, k)
    && tx.rejected == Tries(steps, k) - |tx.accepted|
  }

  /** What one step adds. */
  ghost predicate Adds(s: System, step: Step, reported: Option<Result>, t: System) {
    && t.tx.completions == s.tx.completions + One(Settles(step, s.tx.inFlight, reported, Sent))
    && t.tx.failures == s.tx.failures + One(Settles(step, s.tx.inFlight, reported, Failed))
    && t.tx.aborts == s.tx.aborts + One(Settles(step, s.tx.inFlight, reported, Aborted))
    && t.tx.accepted == s.tx.accepted + Added(s, step)
    && |t.tx.accepted| + t.tx.rejected == |s.tx.accepted| + s.tx.rejected + One(step.Sends? && step.send.Send?)
  }

  lemma StartAdds(s: System, a: StartAction)
    requires StartEnabled(s, a)
    ensures Adds(s, Starts(a), None, StartStep(s, a))
  {
  }

  lemma SendAdds(s: System, a: SendAction)
    requires SendEnabled(s, a)
    ensures Adds(s, Sends(a), None, SendStep(s, a))
  {
  }

  lemma StopAdds(s: System, a: StopAction)
    requires StopEnabled(s, a)
    ensures Adds(s, Stops(a), None, StopStep(s, a))
  {
  }

  lemma InterruptAdds(s: System, id: nat, a: CallbackAction, reported: Option<Result>)
    requires InterruptEnabled(s, id, a)
    requires a.Count? ==> reported == Some(s.fence.callbacks[id].phase.result)
    ensures Adds(s, Interrupt(id, a), reported, InterruptStep(s, id, a))
  {
  }

  lemma StepAdds(s: System, step: Step, reported: Option<Result>)
    requires Enabled(s, step)
    requires !step.Interrupt? ==> reported.None?
    requires step.Interrupt? && step.action.Count? ==> reported == Some(s.fence.callbacks[step.id].phase.result)
    ensures Adds(s, step, reported, Apply(s, step))
  {
    match step
    case Starts(a) => StartAdds(s, a);
    case Sends(a) => SendAdds(s, a);
    case Stops(a) => StopAdds(s, a);
    case Interrupt(id, a) => InterruptAdds(s, id, a, reported);
  }

  lemma RunAdds(states: seq<System>, steps: seq<Step>, k: nat)
    requires IsRun(states, steps) && k < |steps|
    ensures Adds(states[k], steps[k], ReportedAt(steps, k), states[k + 1])
  {
    AllCarried(states, steps, k);
    StepAdds(states[k], steps[k], ReportedAt(steps, k));
  }

  lemma CountedStep(states: seq<System>, steps: seq<Step>, k: nat)
    requires k < |steps| < |states| && Counted(states, steps, k)
    requires Adds(states[k], steps[k], ReportedAt(steps, k), states[k + 1])
    ensures Counted(states, steps, k + 1)
  {
  }

  /**
   In every run the completions counted are the completion callbacks that took the in-flight mark
   with result 0, the failures those with an ordinary error and the frames the driver rejected
   with one, and the aborts those with an abort, the frames rejected with one, the frames
   discarded at Stop, and the one whose mark Stop found. The frames accepted are those of the
   attempts to send that found room in the queue, in order; the others are counted as rejected.
   */
  lemma {:induction false} CounterTheorem(states: seq<System>, steps: seq<Step>, k: nat)
    requires IsRun(states, steps) && k < |states|
    ensures Counted(states, steps, k)
  {
    if k > 0 {
      CounterTheorem(states, steps, k - 1);
      RunAdds(states, steps, k - 1);
      CountedStep(states, steps, k - 1);
    }
  }
}

/** Whole runs of the CAN adapter: the callback fence, transmit accounting and frame order. */
module CanDeviceRun {
  import opened Bytes
  import opened CanProtocol
  import opened CanDevice

  ghost predicate Initial(s: System) {
    && s.state.Stopped? && !s.retired && !s.filterFailed && !s.filterGiven && s.point.Free? && !s.owner
    && s.tx.queue == [] && !s.tx.inFlight && s.tx.accepted == [] && s.tx.fates == [] && s.tx.sent == []
    && s.tx.completions == s.tx.failures == s.tx.aborts == s.tx.rejected == 0
    && s.fence == Fence(0, map[], {}, {}, {})
  }

  ghost predicate IsRun(states: seq<System>, steps: seq<Step>) {
    && |states| == |steps| + 1
    && Initial(states[0])
    && forall k :: 0 <= k < |steps| ==>
         Enabled(states[k], steps[k]) && states[k + 1] == Apply(states[k], steps[k])
  }

  lemma {:induction false} RunInv(states: seq<System>, steps: seq<Step>, k: nat)
    requires IsRun(states, steps) && k < |states|
    ensures Inv(states[k])
  {
    if k > 0 {
      RunInv(states, steps, k - 1);
      StepInv(states[k - 1], steps[k - 1]);
    }
  }

  /* ------------------------------------------------------------ the fence */

  lemma RetiredStep(s: System, step: Step)
    requires Enabled(s, step) && s.retired
    ensures Apply(s, step).retired
  {
  }

  lemma {:induction false} StaysRetired(states: seq<System>, steps: seq<Step>, k: nat, j: nat)
    requires IsRun(states, steps) && k <= j < |states| && states[k].retired
    ensures states[j].retired
    decreases j
  {
    if k < j {
      StaysRetired(states, steps, k, j - 1);
      RetiredStep(states[j - 1], steps[j - 1]);
    }
  }

  /**
   The callback fence: from the moment a Stop that had something to stop has returned Ok, in
   every continuation, no callback has the adapter's address and none can get it.
   */
  lemma FenceTheorem(states: seq<System>, steps: seq<Step>, k: nat, j: nat)
    requires IsRun(states, steps) && k < |steps| && k < j < |states|
    requires steps[k] == Stops(Finish)
    ensures NobodyHolds(states[j].fence) && !states[j].owner
  {
    assert states[k + 1] == Apply(states[k], steps[k]);
    StaysRetired(states, steps, k + 1, j);
    RunInv(states, steps, j);
  }

  /** A stopped adapter whose address nobody has stays so until it is started again. */
  lemma StoppedStep(s: System, step: Step)
    requires Inv(s) && Enabled(s, step) && step != Starts(Begin)
    requires s.state.Stopped? && NobodyHolds(s.fence)
    ensures Apply(s, step).state.Stopped? && NobodyHolds(Apply(s, step).fence)
  {
    if step.Interrupt? { InterruptFence(s, step.id, step.action); }
  }

  lemma {:induction false} StaysStopped(states: seq<System>, steps: seq<Step>, k: nat, j: nat)
    requires IsRun(states, steps) && k <= j < |states|
    requires states[k].state.Stopped? && NobodyHolds(states[k].fence)
    requires forall i :: k <= i < j ==> steps[i] != Starts(Begin)
    ensures states[j].state.Stopped? && NobodyHolds(states[j].fence)
    decreases j
  {
    if k < j {
      StaysStopped(states, steps, k, j - 1);
      RunInv(states, steps, j - 1);
      StoppedStep(states[j - 1], steps[j - 1]);
    }
  }

  /**
   A Stop that finds the adapter stopped returns Ok without waiting. That is safe as well, until
   the adapter is started again, unless the last Start ended because its receive filter was
   refused, and an earlier one had added one.
   */
  lemma EarlyStopTheorem(states: seq<System>, steps: seq<Step>, k: nat, j: nat)
    requires IsRun(states, steps) && k < |steps| && k < j < |states| && steps[k] == Stops(ReturnEarly)
    requires states[k].retired || !states[k].filterFailed || !states[k].filterGiven
    requires forall i :: k < i < j ==> steps[i] != Starts(Begin)
    ensures NobodyHolds(states[j].fence) && !states[j].owner
  {
    RunInv(states, steps, k);
    assert states[k + 1] == Apply(states[k], steps[k]);
    StaysStopped(states, steps, k + 1, j);
    RunInv(states, steps, j);
  }

  ghost predicate Reaches(s: System, steps: seq<Step>, t: System)
    decreases |steps|
  {
    if steps == [] then s == t else Enabled(s, steps[0]) && Reaches(Apply(s, steps[0]), steps[1..], t)
  }

  lemma FirstStep(s: System, step: Step, rest: seq<Step>, t: System)
    requires Enabled(s, step) && Reaches(Apply(s, step), rest, t)
    ensures Reaches(s, [step] + rest, t)
  {
    assert ([step] + rest)[1..] == rest;
  }

  /** A Start whose filter is refused while a callback of an earlier filter comes late, then Stop. */
  function LateCallback(id: nat): seq<Step> {
    [Starts(Begin), Interrupt(id, Arrive), Interrupt(id, Enter), Interrupt(id, LoadOwner),
     Starts(FilterFailed), Stops(ReturnEarly)]
  }

  /**
   In that case it is not: from every state in which Start may be called and a filter was added
   before, there are steps, with one late callback of that filter, after which Stop returns Ok
   while the callback has the adapter's address.
   */
  lemma EarlyStopGap(s: System, id: nat) returns (t: System)
    requires s.point.Free? && s.state.Stopped? && !s.retired && s.filterGiven && id !in s.fence.callbacks
    ensures Reaches(s, LateCallback(id), t) && Holds(t.fence, id)
  {
    var s1 := Apply(s, Starts(Begin));
    var s2 := Apply(s1, Interrupt(id, Arrive));
    var s3 := Apply(s2, Interrupt(id, Enter));
    var s4 := Apply(s3, Interrupt(id, LoadOwner));
    var s5 := Apply(s4, Starts(FilterFailed));
    t := Apply(s5, Stops(ReturnEarly));
    var steps := LateCallback(id);
    FirstStep(s5, steps[5], [], t);
    FirstStep(s4, steps[4], steps[5..], t);
    FirstStep(s3, steps[3], steps[4..], t);
    FirstStep(s2, steps[2], steps[3..], t);
    FirstStep(s1, steps[1], steps[2..], t);
    FirstStep(s, steps[0], steps[1..], t);
  }

  /** Such states are reached: a Start whose controller fails has added its filter. */
  lemma FilterGivenReached(s: System) returns (t: System)
    requires Initial(s)
    ensures Reaches(s, [Starts(Begin), Starts(FilterAdded), Starts(ControllerFailed), Starts(Waited)], t)
    ensures t.point.Free? && t.state.Stopped? && !t.retired && t.filterGiven && t.fence.callbacks == map[]
  {
    var s1 := Apply(s, Starts(Begin));
    var s2 := Apply(s1, Starts(FilterAdded));
    var s3 := Apply(s2, Starts(ControllerFailed));
    t := Apply(s3, Starts(Waited));
    FirstStep(s3, Starts(Waited), [], t);
    FirstStep(s2, Starts(ControllerFailed), [Starts(Waited)], t);
    FirstStep(s1, Starts(FilterAdded), [Starts(ControllerFailed), Starts(Waited)], t);
    FirstStep(s, Starts(Begin), [Starts(FilterAdded), Starts(ControllerFailed), Starts(Waited)], t);
  }

  /* ------------------------------------------------------------ accounting */

  /**
   Conservation: whenever the control lock is free, every accepted frame is counted once as
   completed, failed or aborted, or is queued, in flight, or held by a completion callback that
   has taken the in-flight mark and not yet raised its counter.
   */
  lemma ConservationTheorem(states: seq<System>, steps: seq<Step>, k: nat)
    requires IsRun(states, steps) && k < |states| && LockFree(states[k])
    ensures var s := states[k];
            |s.tx.accepted| == s.tx.completions + s.tx.failures + s.tx.aborts
                               + |s.tx.queue| + Mark(s.tx.inFlight) + |s.fence.settling|
  {
    RunInv(states, steps, k);
  }

  /** What a reader of the statistics expects while the lock is free. */
  ghost predicate StatisticsAgree(s: System) {
    |s.tx.accepted| == s.tx.completions + s.tx.failures + s.tx.aborts + |s.tx.queue| + Mark(s.tx.inFlight)
  }

  /**
   The statistics alone agree exactly when no callback is between clearing the mark and raising
   its counter; in particular whenever the fence counts no callback.
   */
  lemma StatisticsBalance(states: seq<System>, steps: seq<Step>, k: nat)
    requires IsRun(states, steps) && k < |states| && LockFree(states[k])
    ensures var f := states[k].fence;
            && (StatisticsAgree(states[k]) <==>
                forall id :: id in f.callbacks ==> !f.callbacks[id].phase.Settling?)
            && (f.active == 0 ==> StatisticsAgree(states[k]))
  {
    RunInv(states, steps, k);
    var f := states[k].fence;
    assert forall id :: id in f.callbacks ==> SortedAt(f, id);
    assert f.settling == {} <==> |f.settling| == 0;
    if f.settling != {} {
      var id :| id in f.settling;
      assert SortedAt(f, id);
    }
    if f.active == 0 { IdleHoldsNothing(f); }
  }

  /** Starting, sending a frame, and its completion up to the moment the mark is cleared. */
  function Halfway(frame: CanFrame, id: nat): seq<Step> {
    [Starts(Begin), Starts(FilterAdded), Starts(ControllerStarted),
     Sends(Send(frame)), Sends(Pump), Sends(DriverAccepts(id)), Sends(Dequeue), Sends(Pump),
     Interrupt(id, Enter), Interrupt(id, LoadOwner), Interrupt(id, Act(Sent))]
  }

  /** Such a callback can be there with the lock free, and then they do not agree. */
  lemma StatisticsGap(s: System, frame: CanFrame, id: nat) returns (t: System)
    requires Initial(s) && s.tx.depth > 0
    ensures Reaches(s, Halfway(frame, id), t)
    ensures LockFree(t) && At(t.fence, id, Settling(Sent)) && !StatisticsAgree(t)
  {
    var s1 := Apply(s, Starts(Begin));
    var s2 := Apply(s1, Starts(FilterAdded));
    var s3 := Apply(s2, Starts(ControllerStarted));
    t := SentHalfway(s3, frame, id);
    var steps := Halfway(frame, id);
    FirstStep(s2, steps[2], steps[3..], t);
    FirstStep(s1, steps[1], steps[2..], t);
    FirstStep(s, steps[0], steps[1..], t);
  }

  lemma SentHalfway(s: System, frame: CanFrame, id: nat) returns (t: System)
    requires s.state.Running? && s.point.Free? && s.owner && id !in s.fence.callbacks
    requires s.tx.queue == [] && !s.tx.inFlight && s.tx.depth > 0 && StatisticsAgree(s)
    ensures Reaches(s, Halfway(frame, id)[3..], t)
    ensures LockFree(t) && At(t.fence, id, Settling(Sent)) && !StatisticsAgree(t)
  {
    var s1 := Apply(s, Sends(Send(frame)));
    var s2 := Apply(s1, Sends(Pump));
    var s3 := Apply(s2, Sends(DriverAccepts(id)));
    var s4 := Apply(s3, Sends(Dequeue));
    var s5 := Apply(s4, Sends(Pump));
    t := CompletedHalfway(s5, frame, id);
    var steps := Halfway(frame, id);
    FirstStep(s4, steps[7], steps[8..], t);
    FirstStep(s3, steps[6], steps[7..], t);
    FirstStep(s2, steps[5], steps[6..], t);
    FirstStep(s1, steps[4], steps[5..], t);
    FirstStep(s, steps[3], steps[4..], t);
  }

  lemma CompletedHalfway(s: System, frame: CanFrame, id: nat) returns (t: System)
    requires s.point.Free? && s.owner && At(s.fence, id, Due) && s.fence.callbacks[id].transmit
    requires s.tx.inFlight && s.tx.queue == [] && StatisticsAgree(s)
    ensures Reaches(s, Halfway(frame, id)[8..], t)
    ensures LockFree(t) && At(t.fence, id, Settling(Sent)) && !StatisticsAgree(t)
  {
    var s1 := Apply(s, Interrupt(id, Enter));
    var s2 := Apply(s1, Interrupt(id, LoadOwner));
    t := Apply(s2, Interrupt(id, Act(Sent)));
    var steps := Halfway(frame, id);
    FirstStep(s2, steps[10], [], t);
    FirstStep(s1, steps[9], steps[10..], t);
    FirstStep(s, steps[8], steps[9..], t);
  }

  lemma NobodySettles(f: Fence)
    requires Sorted(f) && NobodyHolds(f)
    ensures f.settling == {}
  {
    assert forall id :: id in f.callbacks ==> SortedAt(f, id);
  }

  /** After Stop everything is accounted for and nothing is left, in every continuation. */
  lemma NothingLeftTheorem(states: seq<System>, steps: seq<Step>, k: nat, j: nat)
    requires IsRun(states, steps) && k < |steps| && k < j < |states|
    requires steps[k] == Stops(Finish)
    ensures var tx := states[j].tx;
            tx.queue == [] && !tx.inFlight && |tx.accepted| == tx.completions + tx.failures + tx.aborts
  {
    assert states[k + 1] == Apply(states[k], steps[k]);
    StaysRetired(states, steps, k + 1, j);
    RunInv(states, steps, j);
    NobodySettles(states[j].fence);
  }

  /** The frame that comes first once `step` has been taken: the head of the queue, or the one sent. */
  function Head(s: System, step: SendAction): seq<CanFrame> {
    s.tx.queue + match step case Send(frame) => [frame] case _ => []
  }

  /**
   Whenever a running adapter has nothing in flight, Poll, and Send if there is room, puts the oldest
   frame in the driver's hands; if the driver has no mailbox the frame stays where it was.
   */
  lemma NextIsOffered(s: System, step: SendAction) returns (t: System)
    requires s.state.Running? && s.point.Free? && !s.tx.inFlight && Head(s, step) != []
    requires step.Poll? || (step.Send? && |s.tx.queue| < s.tx.depth)
    ensures Reaches(s, [Sends(step), Sends(Pump)], t) && t.point.PumpMarked? && t.tx.inFlight
    ensures t.tx.peeked == Some(Head(s, step)[0]) && t.tx.queue == Head(s, step)
    ensures Enabled(t, Sends(DriverBusy))
    ensures var busy := Apply(t, Sends(DriverBusy)); busy.point.Free? && !busy.tx.inFlight && busy.tx.queue == Head(s, step)
  {
    var s1 := Apply(s, Sends(step));
    assert s1.tx.queue == Head(s, step);
    t := Apply(s1, Sends(Pump));
    FirstStep(s1, Sends(Pump), [], t);
    FirstStep(s, Sends(step), [Sends(Pump)], t);
  }

  /**
   The frame a pump has in hand is the oldest whose fate is open, and the frames handed to the
   driver are, in order, exactly the accepted ones whose fate is to be transmitted, with the one
   in hand after them once the driver has it.
   */
  lemma FifoTheorem(states: seq<System>, steps: seq<Step>, k: nat)
    requires IsRun(states, steps) && k < |states|
    ensures var s, tx := states[k], states[k].tx;
            && |tx.fates| <= |tx.accepted| && tx.queue == tx.accepted[|tx.fates|..] && |tx.queue| <= tx.depth
            && (s.point.PumpMarked? ==> |tx.fates| < |tx.accepted| && tx.peeked == Some(tx.accepted[|tx.fates|]))
            && (s.point.PumpSent? ==>
                  |tx.fates| < |tx.accepted| && tx.sent == Taken(tx.accepted, tx.fates) + [tx.accepted[|tx.fates|]])
            && (!s.point.PumpSent? ==> tx.sent == Taken(tx.accepted, tx.fates))
  {
    RunInv(states, steps, k);
  }
}

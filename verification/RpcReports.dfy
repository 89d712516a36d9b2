/** What the caller of a remote call is told, over every run, read off the steps alone. */
module RpcReports {
  import opened Bytes
  import Executor
  import opened RpcCalls

  /** The steps in the life of a call that decide what its caller is told. */
  datatype Moment = Admission | Handler | ServerLock | CallerLock | Cancellation

  predicate Is(step: Step, moment: Moment, id: nat) {
    match moment
    case Admission => step.AdmitBegin? && step.id == id
    case Handler => step.InvokeHandler? && step.id == id
    case ServerLock => step.InvokeSecondLock? && step.id == id
    case CallerLock => step.CompleteFirstLock? && step.id == id
    case Cancellation => step.CancelCallback? && step.id == id
  }

  /** Which of the first `k` steps was the last of that kind. */
  ghost function Last(steps: seq<Step>, k: nat, moment: Moment, id: nat): (last: Option<nat>)
    requires k <= |steps|
    ensures last.Some? ==> last.value < k && Is(steps[last.value], moment, id)
    ensures last.None? ==> forall i :: 0 <= i < k ==> !Is(steps[i], moment, id)
  {
    if k == 0 then None
    else if Is(steps[k - 1], moment, id) then Some(k - 1)
    else Last(steps, k - 1, moment, id)
  }

  predicate InTime(deadline: nat, time: nat) {
    deadline == 0 || time < deadline
  }

  /** What the server has to say after its handler step. */
  predicate Answered(deadline: nat, handler: Step, status: Status)
    requires handler.InvokeHandler?
  {
    && (handler.clock != Ok ==> status == handler.clock)
    && (handler.clock == Ok && InTime(deadline, handler.context) && InTime(deadline, handler.now) ==>
          status == handler.result)
    && (handler.clock == Ok && !(InTime(deadline, handler.context) && InTime(deadline, handler.now)) ==>
          status == Timeout)
  }

  /** What the caller is told, given step `lock`, where its completion looks at the record. */
  ghost predicate Reports(steps: seq<Step>, lock: nat, id: nat, deadline: nat, status: Status)
    requires lock < |steps| && steps[lock].CompleteFirstLock?
  {
    var server, handler := Last(steps, lock, ServerLock, id), Last(steps, lock, Handler, id);
    if server.Some? && InTime(deadline, steps[lock].context)
    then handler.Some? && Answered(deadline, steps[handler.value], status)
    else status == Timeout
  }

  /* ---------------------------------------------------------------- invariant */

  ghost predicate AdmissionKnown(c: Call, steps: seq<Step>, k: nat, id: nat)
    requires k <= |steps|
  {
    var a := Last(steps, k, Admission, id);
    && a.Some? && steps[a.value].deadline == c.deadline
    && steps[a.value].server == c.server && steps[a.value].caller == c.caller
  }

  ghost predicate ServerKnown(c: Call, steps: seq<Step>, k: nat, id: nat)
    requires k <= |steps|
  {
    var h, g := Last(steps, k, Handler, id), Last(steps, k, ServerLock, id);
    && (h.Some? <==> c.invoke.Handled? || c.serverDone)
    && (g.Some? <==> c.serverDone)
    && (c.invoke.Handled? ==> Answered(c.deadline, steps[h.value], c.invoke.result))
    && (c.serverDone && !c.completionDone ==> Answered(c.deadline, steps[h.value], c.status))
  }

  predicate Looked(c: Completion) {
    c.Calling? || c.Called? || c.CompleteGone?
  }

  ghost predicate CallerKnown(c: Call, steps: seq<Step>, k: nat, id: nat)
    requires k <= |steps|
  {
    var l := Last(steps, k, CallerLock, id);
    && (l.Some? <==> Looked(c.complete))
    && (c.complete.Calling? ==>
          c.complete.at == steps[l.value].context && Reports(steps, l.value, id, c.deadline, c.complete.verdict))
    && (c.complete.Called? || c.complete.CompleteGone? ==>
          && |c.callbacks| == 1 && c.callbacks[0].at == steps[l.value].context
          && Reports(steps, l.value, id, c.deadline, c.callbacks[0].status))
  }

  ghost predicate CancelKnown(c: Call, steps: seq<Step>, k: nat, id: nat)
    requires k <= |steps|
  {
    var x := Last(steps, k, Cancellation, id);
    && (x.Some? <==> c.cancelled)
    && (c.cancelled ==> c.callbacks == [Callback(Cancelled, steps[x.value].now)])
  }

  ghost predicate Known(c: Call, steps: seq<Step>, k: nat, id: nat)
    requires k <= |steps|
  {
    AdmissionKnown(c, steps, k, id) && ServerKnown(c, steps, k, id) && CallerKnown(c, steps, k, id) &&
    CancelKnown(c, steps, k, id)
  }

  ghost predicate Unknown(steps: seq<Step>, k: nat, id: nat)
    requires k <= |steps|
  {
    forall moment :: Last(steps, k, moment, id).None?
  }

  /* -------------------------------------------------------------------- one record */

  /** What the parts of the record that matter here are. */
  predicate SameServer(c: Call, d: Call) {
    && d.deadline == c.deadline && d.serverDone == c.serverDone && d.status == c.status
    && (d.completionDone || d.completionDone == c.completionDone)
    && (d.invoke == c.invoke || (!c.invoke.Handled? && !d.invoke.Handled?))
  }

  predicate SameCaller(c: Call, d: Call) {
    && d.deadline == c.deadline && d.callbacks == c.callbacks
    && (d.complete == c.complete || (!Looked(c.complete) && !Looked(d.complete))
        || (c.complete.Called? && d.complete.CompleteGone?))
  }

  predicate SameRest(c: Call, d: Call) {
    d.deadline == c.deadline && d.server == c.server && d.caller == c.caller && d.cancelled == c.cancelled &&
    (c.cancelled ==> d.callbacks == c.callbacks)
  }

  predicate Decides(step: Step, id: nat) {
    exists moment :: Is(step, moment, id)
  }

  lemma QuietKnown(c: Call, d: Call, steps: seq<Step>, k: nat, id: nat)
    requires k < |steps| && !Decides(steps[k], id) && Known(c, steps, k, id)
    requires SameServer(c, d) && SameCaller(c, d) && SameRest(c, d)
    ensures Known(d, steps, k + 1, id)
  {
    forall moment ensures Last(steps, k + 1, moment, id) == Last(steps, k, moment, id) {
      assert !Is(steps[k], moment, id);
    }
  }

  lemma Unfold(steps: seq<Step>, k: nat, moment: Moment, id: nat)
    requires k < |steps|
    ensures Last(steps, k + 1, moment, id) ==
            if Is(steps[k], moment, id) then Some(k) else Last(steps, k, moment, id)
  {
  }

  /** A step is of one kind. */
  lemma UnfoldAll(steps: seq<Step>, k: nat, moment: Moment, id: nat)
    requires k < |steps| && Is(steps[k], moment, id)
    ensures Last(steps, k + 1, moment, id) == Some(k)
    ensures forall other :: other != moment ==> Last(steps, k + 1, other, id) == Last(steps, k, other, id)
  {
    forall other ensures other != moment ==> Last(steps, k + 1, other, id) == Last(steps, k, other, id) {
      Unfold(steps, k, other, id);
    }
  }

  lemma HandlerKnown(c: Call, d: Call, steps: seq<Step>, k: nat, id: nat)
    requires k < |steps| && Is(steps[k], Handler, id) && Known(c, steps, k, id)
    requires c.invoke.Handling? && !c.serverDone && SameCaller(c, d) && SameRest(c, d)
    requires d.invoke.Handled? && !d.serverDone && Answered(c.deadline, steps[k], d.invoke.result)
    ensures Known(d, steps, k + 1, id)
  {
    UnfoldAll(steps, k, Handler, id);
  }

  lemma ServerLockKnown(c: Call, d: Call, steps: seq<Step>, k: nat, id: nat)
    requires k < |steps| && Is(steps[k], ServerLock, id) && Known(c, steps, k, id)
    requires c.invoke.Handled? && SameCaller(c, d) && SameRest(c, d)
    requires d.invoke.InvokeGone? && d.serverDone && (!d.completionDone ==> d.status == c.invoke.result)
    ensures Known(d, steps, k + 1, id)
  {
    UnfoldAll(steps, k, ServerLock, id);
  }

  lemma CallerLockKnown(c: Call, d: Call, steps: seq<Step>, k: nat, id: nat)
    requires k < |steps| && Is(steps[k], CallerLock, id) && Known(c, steps, k, id)
    requires c.complete.CompleteTaken? && !c.completionDone && SameServer(c, d) && SameRest(c, d)
    requires d.complete.Calling? && d.complete.at == steps[k].context
    requires Reports(steps, k, id, c.deadline, d.complete.verdict)
    ensures Known(d, steps, k + 1, id)
  {
    UnfoldAll(steps, k, CallerLock, id);
  }

  lemma CallbackKnown(c: Call, d: Call, steps: seq<Step>, k: nat, id: nat)
    requires k < |steps| && !Decides(steps[k], id) && Known(c, steps, k, id)
    requires c.complete.Calling? && !c.cancelled && SameServer(c, d) && SameRest(c, d)
    requires d.complete.Called? && d.callbacks == [Callback(c.complete.verdict, c.complete.at)]
    ensures Known(d, steps, k + 1, id)
  {
    forall moment ensures Last(steps, k + 1, moment, id) == Last(steps, k, moment, id) {
      assert !Is(steps[k], moment, id);
    }
  }

  lemma CancellationKnown(c: Call, d: Call, steps: seq<Step>, k: nat, id: nat)
    requires k < |steps| && Is(steps[k], Cancellation, id) && Known(c, steps, k, id)
    requires SameServer(c, d) && d.server == c.server && d.caller == c.caller && d.complete == c.complete
    requires !Looked(d.complete) && d.cancelled && d.callbacks == [Callback(Cancelled, steps[k].now)]
    ensures Known(d, steps, k + 1, id)
  {
    UnfoldAll(steps, k, Cancellation, id);
  }

  lemma AdmissionStarts(d: Call, steps: seq<Step>, k: nat, id: nat)
    requires k < |steps| && Is(steps[k], Admission, id) && Unknown(steps, k, id)
    requires d.deadline == steps[k].deadline && d.server == steps[k].server && d.caller == steps[k].caller
    requires d.invoke.NotPosted? && !d.serverDone && !Looked(d.complete) && !d.cancelled
    ensures Known(d, steps, k + 1, id)
  {
    UnfoldAll(steps, k, Admission, id);
  }

  /* --------------------------------------------------------------------- one step */

  ghost predicate Chronicle(s: System, steps: seq<Step>, k: nat)
    requires k <= |steps|
  {
    && (forall id :: id in s.calls ==> Known(s.calls[id], steps, k, id))
    && (forall id: nat :: id !in s.calls ==> Unknown(steps, k, id))
  }

  /** The record a step rewrites, if any. */
  ghost function Touched(s: System, step: Step): Option<nat> {
    match step
    case AdmitBegin(id, _, _, _, _, _) => Some(id)
    case AdmitPost(_) => s.admitting
    case AdmitArm => s.admitting
    case TakeInvoke(id) => Some(id)
    case InvokeFirstLock(id) => Some(id)
    case InvokeHandler(id, _, _, _, _) => Some(id)
    case InvokeSecondLock(id) => Some(id)
    case TakeComplete(id) => Some(id)
    case CompleteFirstLock(id, _) => Some(id)
    case CompleteCallback(id) => Some(id)
    case CompleteSecondLock(id) => Some(id)
    case CancelCallback(id, _) => Some(id)
    case CancelPop(id) => Some(id)
    case _ => None
  }

  /** Only the touched record changes. */
  ghost predicate Rewrites(s: System, step: Step, t: System) {
    match Touched(s, step)
    case None => t.calls == s.calls
    case Some(id) => id in t.calls && t.calls == s.calls[id := t.calls[id]]
  }

  lemma AdmissionRewrites(s: System, step: Step)
    requires Enabled(s, step) && (step.AdmitBegin? || step.AdmitPost? || step.AdmitArm?)
    ensures Rewrites(s, step, Apply(s, step))
  {
  }

  lemma ServerRewrites(s: System, step: Step)
    requires Enabled(s, step)
    requires step.TakeInvoke? || step.InvokeFirstLock? || step.InvokeHandler? || step.InvokeSecondLock?
    ensures Rewrites(s, step, Apply(s, step))
  {
  }

  lemma CallerRewrites(s: System, step: Step)
    requires Enabled(s, step)
    requires step.TakeComplete? || step.CompleteFirstLock? || step.CompleteCallback? || step.CompleteSecondLock?
    ensures Rewrites(s, step, Apply(s, step))
  {
  }

  lemma OtherRewrites(s: System, step: Step)
    requires Enabled(s, step)
    requires step.Prepare? || step.Activate? || step.Close? || step.BeginShutdown? || step.EndShutdown?
          || step.CancelCallback? || step.CancelPop? || step.CancelReturn?
    ensures Rewrites(s, step, Apply(s, step))
  {
  }

  lemma StepRewrites(s: System, step: Step)
    requires Enabled(s, step)
    ensures Rewrites(s, step, Apply(s, step))
  {
    if step.AdmitBegin? || step.AdmitPost? || step.AdmitArm? {
      AdmissionRewrites(s, step);
    } else if step.TakeInvoke? || step.InvokeFirstLock? || step.InvokeHandler? || step.InvokeSecondLock? {
      ServerRewrites(s, step);
    } else if step.TakeComplete? || step.CompleteFirstLock? || step.CompleteCallback? || step.CompleteSecondLock? {
      CallerRewrites(s, step);
    } else {
      OtherRewrites(s, step);
    }
  }

  lemma OthersUndecided(s: System, step: Step, x: nat)
    requires Touched(s, step) != Some(x)
    ensures !Decides(step, x)
  {
  }

  lemma OthersKnown(s: System, steps: seq<Step>, k: nat, x: nat)
    requires k < |steps| && Enabled(s, steps[k]) && Chronicle(s, steps, k) && Touched(s, steps[k]) != Some(x)
    ensures var t := Apply(s, steps[k]);
            if x in t.calls then Known(t.calls[x], steps, k + 1, x) else Unknown(steps, k + 1, x)
  {
    StepRewrites(s, steps[k]);
    OthersUndecided(s, steps[k], x);
    if x in s.calls {
      QuietKnown(s.calls[x], s.calls[x], steps, k, x);
    } else {
      StillUnknown(steps, k, k + 1, x);
    }
  }

  lemma StillUnknown(steps: seq<Step>, k: nat, next: nat, x: nat)
    requires k < |steps| && next == k + 1 && Unknown(steps, k, x) && !Decides(steps[k], x)
    ensures Unknown(steps, next, x)
  {
    forall moment ensures Last(steps, next, moment, x).None? {
      Unfold(steps, k, moment, x);
      assert !Is(steps[k], moment, x);
    }
  }

  lemma HandlerStep(s: System, steps: seq<Step>, k: nat, t: System)
    requires Inv(s) && k < |steps| && steps[k].InvokeHandler? && Enabled(s, steps[k]) && Chronicle(s, steps, k)
    requires t == Apply(s, steps[k])
    ensures steps[k].id in t.calls
    ensures Known(t.calls[steps[k].id], steps, k + 1, steps[k].id)
  {
    var id := steps[k].id;
    assert CallInv(s, id);
    HandlerKnown(s.calls[id], t.calls[id], steps, k, id);
  }

  lemma ServerLockRecord(s: System, step: Step)
    requires Inv(s) && step.InvokeSecondLock? && Enabled(s, step)
    ensures step.id in Apply(s, step).calls
    ensures var c, d := s.calls[step.id], Apply(s, step).calls[step.id];
            && SameCaller(c, d) && SameRest(c, d)
            && d.invoke.InvokeGone? && d.serverDone && (!d.completionDone ==> d.status == c.invoke.result)
  {
    assert CallInv(s, step.id);
  }

  lemma ServerLockStep(s: System, steps: seq<Step>, k: nat, t: System)
    requires Inv(s) && k < |steps| && steps[k].InvokeSecondLock? && Enabled(s, steps[k]) && Chronicle(s, steps, k)
    requires t == Apply(s, steps[k])
    ensures steps[k].id in t.calls
    ensures Known(t.calls[steps[k].id], steps, k + 1, steps[k].id)
  {
    var id := steps[k].id;
    ServerLockRecord(s, steps[k]);
    ServerLockKnown(s.calls[id], t.calls[id], steps, k, id);
  }

  lemma CallerLockStep(s: System, steps: seq<Step>, k: nat, t: System)
    requires Inv(s) && k < |steps| && steps[k].CompleteFirstLock? && Enabled(s, steps[k]) && Chronicle(s, steps, k)
    requires t == Apply(s, steps[k])
    ensures steps[k].id in t.calls
    ensures Known(t.calls[steps[k].id], steps, k + 1, steps[k].id)
  {
    var id := steps[k].id;
    assert CallInv(s, id) && Known(s.calls[id], steps, k, id);
    CallerLockKnown(s.calls[id], t.calls[id], steps, k, id);
  }

  lemma CallbackStep(s: System, steps: seq<Step>, k: nat, t: System)
    requires Inv(s) && k < |steps| && steps[k].CompleteCallback? && Enabled(s, steps[k]) && Chronicle(s, steps, k)
    requires t == Apply(s, steps[k])
    ensures steps[k].id in t.calls
    ensures Known(t.calls[steps[k].id], steps, k + 1, steps[k].id)
  {
    var id := steps[k].id;
    assert CallInv(s, id);
    CallbackKnown(s.calls[id], t.calls[id], steps, k, id);
  }

  lemma CancellationStep(s: System, steps: seq<Step>, k: nat, t: System)
    requires Inv(s) && k < |steps| && steps[k].CancelCallback? && Enabled(s, steps[k]) && Chronicle(s, steps, k)
    requires t == Apply(s, steps[k])
    ensures steps[k].id in t.calls
    ensures Known(t.calls[steps[k].id], steps, k + 1, steps[k].id)
  {
    var id := steps[k].id;
    assert CallInv(s, id);
    CancelCallbackInv(s, steps[k]);
    assert CallInv(t, id);
    CancellationKnown(s.calls[id], t.calls[id], steps, k, id);
  }

  /** Steps that decide nothing change nothing that matters. */
  lemma AdmissionQuiet(s: System, step: Step, id: nat)
    requires Inv(s) && Enabled(s, step) && s.admitting == Some(id) && (step.AdmitPost? || step.AdmitArm?)
    ensures var c, d := s.calls[id], Apply(s, step).calls[id]; SameServer(c, d) && SameCaller(c, d) && SameRest(c, d)
  {
    assert CallInv(s, id);
  }

  lemma ServerQuiet(s: System, step: Step)
    requires Inv(s) && Enabled(s, step) && (step.TakeInvoke? || step.InvokeFirstLock?)
    ensures var c, d := s.calls[step.id], Apply(s, step).calls[step.id];
            SameServer(c, d) && SameCaller(c, d) && SameRest(c, d)
  {
    assert CallInv(s, step.id);
  }

  lemma CallerQuiet(s: System, step: Step)
    requires Inv(s) && Enabled(s, step) && (step.TakeComplete? || step.CompleteSecondLock? || step.CancelPop?)
    ensures var c, d := s.calls[step.id], Apply(s, step).calls[step.id];
            SameServer(c, d) && SameCaller(c, d) && SameRest(c, d)
  {
    assert CallInv(s, step.id);
  }

  lemma QuietStep(s: System, steps: seq<Step>, k: nat, id: nat, t: System)
    requires Inv(s) && k < |steps| && Enabled(s, steps[k]) && id in s.calls && Known(s.calls[id], steps, k, id)
    requires t == Apply(s, steps[k])
    requires if steps[k].AdmitPost? || steps[k].AdmitArm? then s.admitting == Some(id)
             else (steps[k].TakeInvoke? || steps[k].InvokeFirstLock? || steps[k].TakeComplete? ||
                   steps[k].CompleteSecondLock? || steps[k].CancelPop?) && steps[k].id == id
    ensures id in t.calls && Known(t.calls[id], steps, k + 1, id)
  {
    if steps[k].AdmitPost? || steps[k].AdmitArm? {
      AdmissionQuiet(s, steps[k], id);
    } else if steps[k].TakeInvoke? || steps[k].InvokeFirstLock? {
      ServerQuiet(s, steps[k]);
    } else {
      CallerQuiet(s, steps[k]);
    }
    QuietKnown(s.calls[id], t.calls[id], steps, k, id);
  }

  lemma AdmissionStep(s: System, steps: seq<Step>, k: nat, t: System)
    requires k < |steps| && steps[k].AdmitBegin? && Enabled(s, steps[k]) && Chronicle(s, steps, k)
    requires t == Apply(s, steps[k])
    ensures steps[k].id in t.calls
    ensures Known(t.calls[steps[k].id], steps, k + 1, steps[k].id)
  {
    AdmissionStarts(t.calls[steps[k].id], steps, k, steps[k].id);
  }

  lemma TouchedKnown(s: System, steps: seq<Step>, k: nat, id: nat, t: System)
    requires Inv(s) && k < |steps| && Enabled(s, steps[k]) && Chronicle(s, steps, k) && t == Apply(s, steps[k])
    requires Touched(s, steps[k]) == Some(id)
    ensures id in t.calls && Known(t.calls[id], steps, k + 1, id)
  {
    if steps[k].AdmitBegin? || steps[k].InvokeHandler? || steps[k].InvokeSecondLock? {
      FirstMoments(s, steps, k, t);
    } else if steps[k].CompleteFirstLock? || steps[k].CompleteCallback? || steps[k].CancelCallback? {
      LastMoments(s, steps, k, t);
    } else {
      QuietStep(s, steps, k, id, t);
    }
  }

  lemma FirstMoments(s: System, steps: seq<Step>, k: nat, t: System)
    requires Inv(s) && k < |steps| && Enabled(s, steps[k]) && Chronicle(s, steps, k) && t == Apply(s, steps[k])
    requires steps[k].AdmitBegin? || steps[k].InvokeHandler? || steps[k].InvokeSecondLock?
    ensures steps[k].id in t.calls && Known(t.calls[steps[k].id], steps, k + 1, steps[k].id)
  {
    if steps[k].AdmitBegin? { AdmissionStep(s, steps, k, t); }
    else if steps[k].InvokeHandler? { HandlerStep(s, steps, k, t); }
    else { ServerLockStep(s, steps, k, t); }
  }

  lemma LastMoments(s: System, steps: seq<Step>, k: nat, t: System)
    requires Inv(s) && k < |steps| && Enabled(s, steps[k]) && Chronicle(s, steps, k) && t == Apply(s, steps[k])
    requires steps[k].CompleteFirstLock? || steps[k].CompleteCallback? || steps[k].CancelCallback?
    ensures steps[k].id in t.calls && Known(t.calls[steps[k].id], steps, k + 1, steps[k].id)
  {
    if steps[k].CompleteFirstLock? { CallerLockStep(s, steps, k, t); }
    else if steps[k].CompleteCallback? { CallbackStep(s, steps, k, t); }
    else { CancellationStep(s, steps, k, t); }
  }

  lemma ChronicleStep(s: System, steps: seq<Step>, k: nat)
    requires Inv(s) && k < |steps| && Enabled(s, steps[k]) && Chronicle(s, steps, k)
    ensures Chronicle(Apply(s, steps[k]), steps, k + 1)
  {
    var t := Apply(s, steps[k]);
    forall x: nat ensures if x in t.calls then Known(t.calls[x], steps, k + 1, x) else Unknown(steps, k + 1, x) {
      if Touched(s, steps[k]) == Some(x) { TouchedKnown(s, steps, k, x, t); } else { OthersKnown(s, steps, k, x); }
    }
  }

  /* ----------------------------------------------------------------- whole runs */

  lemma {:induction false} RunChronicle(states: seq<System>, steps: seq<Step>, k: nat)
    requires IsRun(states, steps) && k < |states|
    ensures Chronicle(states[k], steps, k)
  {
    if k > 0 {
      RunChronicle(states, steps, k - 1);
      RunInv(states, steps, k - 1);
      ChronicleStep(states[k - 1], steps, k - 1);
    }
  }

  /** The one callback of a call, according to the first `k` steps. */
  ghost predicate Told(steps: seq<Step>, k: nat, id: nat, deadline: nat, callback: Callback)
    requires k <= |steps|
  {
    var cancellation, lock := Last(steps, k, Cancellation, id), Last(steps, k, CallerLock, id);
    if cancellation.Some? then callback == Callback(Cancelled, steps[cancellation.value].now)
    else lock.Some? && callback.at == steps[lock.value].context && Reports(steps, lock.value, id, deadline, callback.status)
  }

  /** The handler said Ok, the clock could be read, every time was before the deadline, and the server was done. */
  ghost predicate Succeeds(steps: seq<Step>, lock: nat, id: nat, deadline: nat)
    requires lock < |steps| && steps[lock].CompleteFirstLock?
  {
    var server, handler := Last(steps, lock, ServerLock, id), Last(steps, lock, Handler, id);
    && server.Some? && handler.Some?
    && steps[handler.value].result == Ok && steps[handler.value].clock == Ok
    && InTime(deadline, steps[handler.value].context) && InTime(deadline, steps[handler.value].now)
    && InTime(deadline, steps[lock].context)
  }

  lemma OkExactly(steps: seq<Step>, lock: nat, id: nat, deadline: nat, status: Status)
    requires lock < |steps| && steps[lock].CompleteFirstLock? && Reports(steps, lock, id, deadline, status)
    ensures status == Ok <==> Succeeds(steps, lock, id, deadline)
  {
  }

  /**
   What a caller is told, in every run: that its call was cancelled, exactly if Quiesce cancelled
   it; otherwise Timeout if its completion comes at or after the deadline or before the server is
   done, and else the clock's error, Timeout if the handler was begun or ended at or after the
   deadline, or what the handler said. Ok means all went well, and whenever all went well it is Ok.
   */
  lemma ReportTheorem(states: seq<System>, steps: seq<Step>, k: nat, id: nat)
    requires IsRun(states, steps) && k < |states| && id in states[k].calls && states[k].calls[id].callbacks != []
    ensures var admission := Last(steps, k, Admission, id);
            admission.Some? && Told(steps, k, id, steps[admission.value].deadline, states[k].calls[id].callbacks[0])
    ensures var c, lock := states[k].calls[id], Last(steps, k, CallerLock, id);
            c.callbacks[0].status == Ok <==>
              lock.Some? && Succeeds(steps, lock.value, id, steps[Last(steps, k, Admission, id).value].deadline)
  {
    RunChronicle(states, steps, k);
    RunInv(states, steps, k);
    assert CallInv(states[k], id);
    RecordTold(states[k].calls[id], steps, k, id, id in states[k].pending);
  }

  lemma RecordTold(c: Call, steps: seq<Step>, k: nat, id: nat, alive: bool)
    requires k <= |steps| && Known(c, steps, k, id) && Consistent(c, alive) && c.callbacks != []
    ensures Told(steps, k, id, c.deadline, c.callbacks[0])
    ensures var lock := Last(steps, k, CallerLock, id);
            c.callbacks[0].status == Ok <==> lock.Some? && Succeeds(steps, lock.value, id, c.deadline)
  {
    var lock := Last(steps, k, CallerLock, id);
    if lock.Some? { OkExactly(steps, lock.value, id, c.deadline, c.callbacks[0].status); }
  }

  /** Each of these steps happens at most once in the life of a call. */
  lemma OnceEach(states: seq<System>, steps: seq<Step>, i: nat, j: nat, moment: Moment, id: nat)
    requires IsRun(states, steps) && i < j < |steps| && Is(steps[i], moment, id)
    ensures !Is(steps[j], moment, id)
  {
    RunChronicle(states, steps, j);
    RunInv(states, steps, j);
    assert Last(steps, j, moment, id).Some?;
    assert id in states[j].calls;
    assert Known(states[j].calls[id], steps, j, id) && CallInv(states[j], id);
    assert Enabled(states[j], steps[j]);
  }

  /* ---------------------------------------------------------------- nothing forgotten */

  /**
   While it is queued, the completion of an accepted call that has a deadline or whose server is
   done will be taken up by the caller's executor, unless that one has been told to shut down.
   */
  ghost predicate Awaited(s: System, id: nat)
    requires id in s.calls
  {
    var c := s.calls[id];
    id in s.pending && c.admission.Accepted? && c.complete == Reserved(false) && (c.deadline != 0 || c.serverDone) ==>
      Retired(s, c.caller)
  }

  ghost predicate AllAwaited(s: System) {
    forall id :: id in s.calls ==> Awaited(s, id)
  }

  lemma RetiredStays(s: System, step: Step, executor: nat)
    requires Enabled(s, step) && Retired(s, executor)
    ensures Retired(Apply(s, step), executor)
  {
  }

  lemma NotAdmitting(s: System, id: nat)
    requires Inv(s) && id in s.calls && s.calls[id].complete.Reserved? && !AdmitsWork(s, s.calls[id].caller)
    ensures Retired(s, s.calls[id].caller)
  {
    assert CallInv(s, id);
  }

  lemma OthersAwaited(s: System, step: Step, id: nat)
    requires Enabled(s, step) && id in s.calls && Awaited(s, id) && Touched(s, step) != Some(id)
    requires id in Apply(s, step).pending ==> id in s.pending
    ensures id in Apply(s, step).calls && Awaited(Apply(s, step), id)
  {
    StepRewrites(s, step);
    if Retired(s, s.calls[id].caller) { RetiredStays(s, step, s.calls[id].caller); }
  }

  lemma PendingGrows(s: System, step: Step, id: nat)
    requires Enabled(s, step) && id !in s.pending && !(step.AdmitBegin? && step.id == id)
    ensures id !in Apply(s, step).pending
  {
    if step.AdmitBegin? { assert id !in s.pending + [step.id]; }
  }

  lemma ArmingAwaited(s: System, step: Step, id: nat)
    requires Inv(s) && Enabled(s, step) && Touched(s, step) == Some(id) && (step.AdmitArm? || step.InvokeSecondLock?)
    ensures id in Apply(s, step).calls && Awaited(Apply(s, step), id)
  {
    assert id in s.calls && CallInv(s, id);
    if s.calls[id].complete.Reserved? && !AdmitsWork(s, s.calls[id].caller) { NotAdmitting(s, id); }
  }

  lemma AdmittingAwaited(s: System, step: Step, id: nat)
    requires Inv(s) && Enabled(s, step) && Touched(s, step) == Some(id) && (step.AdmitBegin? || step.AdmitPost?)
    ensures id in Apply(s, step).calls && Awaited(Apply(s, step), id)
  {
    if step.AdmitPost? { assert CallInv(s, id); }
  }

  lemma WorkAwaited(s: System, step: Step, id: nat)
    requires Inv(s) && Enabled(s, step) && Touched(s, step) == Some(id) && id in s.calls && Awaited(s, id)
    requires !step.AdmitBegin? && !step.AdmitPost? && !step.AdmitArm? && !step.InvokeSecondLock?
    ensures id in Apply(s, step).calls && Awaited(Apply(s, step), id)
  {
    assert CallInv(s, id);
  }

  lemma AwaitedStep(s: System, step: Step, id: nat)
    requires Inv(s) && Enabled(s, step) && AllAwaited(s) && id in Apply(s, step).calls
    ensures Awaited(Apply(s, step), id)
  {
    StepRewrites(s, step);
    if Touched(s, step) != Some(id) {
      if id !in s.pending { PendingGrows(s, step, id); }
      OthersAwaited(s, step, id);
    } else if step.AdmitArm? || step.InvokeSecondLock? {
      ArmingAwaited(s, step, id);
    } else if step.AdmitBegin? || step.AdmitPost? {
      AdmittingAwaited(s, step, id);
    } else {
      WorkAwaited(s, step, id);
    }
  }

  /** No accepted call is forgotten: what is queued for it is armed once it can be answered. */
  lemma {:induction false} AwaitedTheorem(states: seq<System>, steps: seq<Step>, k: nat)
    requires IsRun(states, steps) && k < |states|
    ensures AllAwaited(states[k])
  {
    if k > 0 {
      AwaitedTheorem(states, steps, k - 1);
      RunInv(states, steps, k - 1);
      forall id | id in states[k].calls ensures Awaited(states[k], id) {
        AwaitedStep(states[k - 1], steps[k - 1], id);
      }
    }
  }
}

/**
 Life of the calls of the Linux RPC manager. Three parties touch one call record: the server's
 Invoke, the caller's Complete, and shutdown cancellation. Every step below is one critical
 section of the manager's mutex, one executor operation, or the code between two of them;
 any interleaving is allowed. Of the executors this uses only what Executor proves: queued
 work is taken at most once and only while running, a queued reservation can be armed while
 the executor admits work, and after shutdown nothing is taken and nothing is in progress.
 */
module RpcCalls {
  import opened Bytes
  import Executor

  datatype Invoke =
    | NotPosted
    | Posted                      // in the server executor's queue
    | InvokeTaken                 // a worker has it, before the first lock
    | Handling                    // the handler may run; no lock held
    | Handled(result: Status)     // before the second lock
    | InvokeGone

  datatype Completion =
    | Reserved(armed: bool)       // in the caller executor's queue
    | CompleteTaken               // a worker has it, before the first lock
    | Calling(verdict: Status, at: nat)
    | Called                      // the callback has run, before the second lock
    | CompleteGone
    | ReservationCancelled

  datatype Admission = InProgress | Accepted | Refused

  datatype Callback = Callback(status: Status, at: nat)

  /** A call record; `handler`, `callbacks`, `erasures` and `cancelled` are history. */
  datatype Call = Call(
    server: nat, caller: nat, deadline: nat,
    admission: Admission, invoke: Invoke, complete: Completion,
    status: Status, serverDone: bool, completionDone: bool,
    handler: Option<Status>, callbacks: seq<Callback>, erasures: nat, cancelled: bool)

  /** `fault` records any access to, or erasure of, a record that is no longer in the list. */
  datatype System = System(
    calls: map<nat, Call>,
    pending: seq<nat>,
    accepting: bool,
    admitting: Option<nat>,
    executors: map<nat, Executor.State>,
    cancelling: Option<nat>,
    finished: bool,
    fault: bool)

  datatype Step =
    // admission, under the manager's lock from first to last
    | AdmitBegin(id: nat, server: nat, caller: nat, deadline: nat, now: nat, room: bool)
    | AdmitPost(room: bool)
    | AdmitArm
    // the server's work item
    | TakeInvoke(id: nat)
    | InvokeFirstLock(id: nat)
    | InvokeHandler(id: nat, context: nat, result: Status, clock: Status, now: nat)
    | InvokeSecondLock(id: nat)
    // the caller's work item
    | TakeComplete(id: nat)
    | CompleteFirstLock(id: nat, context: nat)
    | CompleteCallback(id: nat)
    | CompleteSecondLock(id: nat)
    // executors, and quiescing
    | Prepare(executor: nat, created: bool)
    | Activate(executor: nat)
    | Close
    | BeginShutdown(executor: nat)
    | EndShutdown(executor: nat)
    | CancelCallback(id: nat, now: nat)
    | CancelPop(id: nat)
    | CancelReturn

  predicate Missed(deadline: nat, time: nat) {
    deadline != 0 && time >= deadline
  }

  predicate InvokeRunning(i: Invoke) {
    i.InvokeTaken? || i.Handling? || i.Handled?
  }

  predicate CompleteRunning(c: Completion) {
    c.CompleteTaken? || c.Calling? || c.Called?
  }

  predicate Ended(state: Executor.State) {
    state == Executor.Stopped || state == Executor.Failed
  }

  /** An executor that takes nothing from its queue any more. */
  predicate Retired(s: System, executor: nat) {
    executor in s.executors && (Ended(s.executors[executor]) || s.executors[executor] == Executor.Quiescing)
  }

  predicate AdmitsWork(s: System, executor: nat) {
    executor in s.executors && Executor.Admitting(s.executors[executor])
  }

  predicate IsRunning(s: System, executor: nat) {
    executor in s.executors && s.executors[executor] == Executor.Running
  }

  /** From activation until shutdown has joined them, the worker threads may be inside a work item. */
  predicate HasWorkers(s: System, executor: nat) {
    && executor in s.executors
    && (s.executors[executor] == Executor.Running || s.executors[executor] == Executor.Quiescing)
  }

  ghost predicate AllStopped(s: System) {
    forall e :: e in s.executors ==> Ended(s.executors[e])
  }

  /** The worker threads of an executor have all come back. */
  ghost predicate Joined(s: System, executor: nat) {
    forall id :: id in s.calls ==>
      && (s.calls[id].server == executor ==> !InvokeRunning(s.calls[id].invoke))
      && (s.calls[id].caller == executor ==> !CompleteRunning(s.calls[id].complete))
  }

  function Without(pending: seq<nat>, id: nat): (rest: seq<nat>)
    ensures forall x :: x in rest <==> x in pending && x != id
    ensures |rest| <= |pending| && (id in pending ==> |rest| < |pending|)
  {
    if pending == [] then []
    else if pending[0] == id then Without(pending[1..], id)
    else [pending[0]] + Without(pending[1..], id)
  }

  /* ------------------------------------------------------------- what may happen */

  ghost predicate LockFree(s: System) {
    s.admitting.None?
  }

  ghost predicate Enabled(s: System, step: Step) {
    match step
    case AdmitBegin(id, server, caller, deadline, now, _) =>
      && LockFree(s) && s.accepting && id !in s.calls
      && server in s.executors && caller in s.executors
      && !Missed(deadline, now)
    case AdmitPost(_) =>
      s.admitting.Some? && s.admitting.value in s.calls && s.calls[s.admitting.value].invoke.NotPosted?
    case AdmitArm =>
      s.admitting.Some? && s.admitting.value in s.calls && !s.calls[s.admitting.value].invoke.NotPosted?
    case TakeInvoke(id) =>
      id in s.calls && s.calls[id].invoke.Posted? && IsRunning(s, s.calls[id].server)
    case InvokeFirstLock(id) => LockFree(s) && id in s.calls && s.calls[id].invoke.InvokeTaken?
    case InvokeHandler(id, _, _, _, _) => id in s.calls && s.calls[id].invoke.Handling?
    case InvokeSecondLock(id) => LockFree(s) && id in s.calls && s.calls[id].invoke.Handled?
    case TakeComplete(id) =>
      id in s.calls && s.calls[id].complete == Reserved(true) && IsRunning(s, s.calls[id].caller)
    case CompleteFirstLock(id, _) => LockFree(s) && id in s.calls && s.calls[id].complete.CompleteTaken?
    case CompleteCallback(id) => id in s.calls && s.calls[id].complete.Calling?
    case CompleteSecondLock(id) => LockFree(s) && id in s.calls && s.calls[id].complete.Called?
    case Close => LockFree(s)
    case Prepare(e, _) => e in s.executors && s.executors[e] == Executor.Constructed
    case Activate(e) => e in s.executors && s.executors[e] == Executor.Prepared
    case BeginShutdown(e) => e in s.executors
    case EndShutdown(e) => e in s.executors && s.executors[e] == Executor.Quiescing && Joined(s, e)
    case CancelCallback(id, _) =>
      && Quiesced(s) && s.cancelling.None? && id in s.calls
      && s.pending != [] && s.pending[0] == id && !s.calls[id].completionDone
    case CancelPop(id) =>
      && Quiesced(s) && id in s.calls && s.pending != [] && s.pending[0] == id
      && (s.cancelling == Some(id) || (s.cancelling.None? && s.calls[id].completionDone))
    case CancelReturn => Quiesced(s) && s.pending == []
  }

  /** Quiesce closes admission and joins every executor before it cancels what is left. */
  ghost predicate Quiesced(s: System) {
    !s.accepting && LockFree(s) && AllStopped(s)
  }

  /* ------------------------------------------------------------------ what it does */

  /** Access the record of a call, change it, and possibly erase it from the list. */
  function Put(s: System, id: nat, c: Call, erase: bool): System {
    s.(calls := s.calls[id := if erase then c.(erasures := c.erasures + 1) else c],
       pending := if erase then Without(s.pending, id) else s.pending,
       fault := s.fault || id !in s.pending)
  }

  function Answer(deadline: nat, context: nat, result: Status, clock: Status, now: nat): Status {
    if clock != Ok then clock
    else if Missed(deadline, now) then Timeout
    else if Missed(deadline, context) then Timeout
    else result
  }

  function Verdict(c: Call, context: nat): Status {
    if Missed(c.deadline, context) then Timeout else if c.serverDone then c.status else Timeout
  }

  function Apply(s: System, step: Step): System
    requires Enabled(s, step)
  {
    match step
    case AdmitBegin(id, server, caller, deadline, _, room) =>
      var reserved := room && AdmitsWork(s, caller);
      var c := Call(server, caller, deadline, InProgress, NotPosted, Reserved(false), Ok, false, false,
                    None, [], 0, false);
      var listed := s.(calls := s.calls[id := c], pending := s.pending + [id]);
      if reserved then listed.(admitting := Some(id))
      else Put(listed, id, c.(admission := Refused, complete := ReservationCancelled), true)
    case AdmitPost(room) =>
      var id := s.admitting.value;
      var c := s.calls[id];
      if room && AdmitsWork(s, c.server) then Put(s, id, c.(invoke := Posted), false)
      else
        Put(s, id, Released(s, c).(admission := Refused), true).(admitting := None)
    case AdmitArm =>
      var id := s.admitting.value;
      Put(s, id, Armed(s, s.calls[id].(admission := Accepted), s.calls[id].deadline != 0), false)
        .(admitting := None)
    case TakeInvoke(id) => Put(s, id, s.calls[id].(invoke := InvokeTaken), false)
    case InvokeFirstLock(id) =>
      var c := s.calls[id];
      if c.completionDone then Put(s, id, c.(invoke := InvokeGone), true)
      else Put(s, id, c.(invoke := Handling), false)
    case InvokeHandler(id, context, result, clock, now) =>
      var c := s.calls[id];
      Put(s, id, c.(invoke := Handled(Answer(c.deadline, context, result, clock, now)),
                    handler := if Missed(c.deadline, context) then None else Some(result)), false)
    case InvokeSecondLock(id) =>
      var c := s.calls[id];
      var done := c.(serverDone := true, invoke := InvokeGone);
      if c.completionDone then Put(s, id, done, true)
      else Put(s, id, Armed(s, done.(status := c.invoke.result), true), false)
    case TakeComplete(id) => Put(s, id, s.calls[id].(complete := CompleteTaken), false)
    case CompleteFirstLock(id, context) =>
      Put(s, id, s.calls[id].(complete := Calling(Verdict(s.calls[id], context), context)), false)
    case CompleteCallback(id) =>
      var c := s.calls[id];
      Put(s, id, c.(callbacks := c.callbacks + [Callback(c.complete.verdict, c.complete.at)],
                    complete := Called), false)
    case CompleteSecondLock(id) =>
      var c := s.calls[id];
      Put(s, id, c.(completionDone := true, complete := CompleteGone), c.serverDone)
    case Close => s.(accepting := false)
    case Prepare(e, created) =>
      s.(executors := s.executors[e := if created then Executor.Prepared else Executor.Failed])
    case Activate(e) => s.(executors := s.executors[e := Executor.Running])
    case BeginShutdown(e) =>
      if Executor.Admitting(s.executors[e]) then s.(executors := s.executors[e := Executor.Quiescing])
      else if s.executors[e] == Executor.Constructed then
        s.(executors := s.executors[e := Executor.Stopped])
      else s
    case EndShutdown(e) => s.(executors := s.executors[e := Executor.Stopped])
    case CancelCallback(id, now) =>
      var c := s.calls[id];
      Put(s, id, c.(callbacks := c.callbacks + [Callback(Cancelled, now)], cancelled := true), false)
        .(cancelling := Some(id))
    case CancelPop(id) => Put(s, id, s.calls[id], true).(cancelling := None)
    case CancelReturn => s.(finished := true)
  }

  /** CancelReserved: takes the reservation back, unless the executor is already shutting down. */
  function Released(s: System, c: Call): Call {
    if AdmitsWork(s, c.caller) then c.(complete := ReservationCancelled) else c
  }

  /** ScheduleReserved: arms the reservation if it is still queued and the executor admits work. */
  function Armed(s: System, c: Call, wanted: bool): Call {
    if wanted && c.complete.Reserved? && AdmitsWork(s, c.caller) then c.(complete := Reserved(true))
    else c
  }

  /* --------------------------------------------------------------- invariant */

  ghost predicate Consistent(c: Call, alive: bool) {
    && c.erasures == (if alive then 0 else 1)
    && (c.completionDone <==> c.complete.CompleteGone?)
    && (c.serverDone ==> c.invoke.InvokeGone?)
    && (alive && c.invoke.InvokeGone? ==> c.serverDone)
    && (alive && c.completionDone ==> !c.serverDone)
    && (InvokeRunning(c.invoke) || CompleteRunning(c.complete) ==> alive)
    && (c.cancelled ==> c.complete.Reserved?)
    && |c.callbacks| == (if c.complete.Called? || c.complete.CompleteGone? || c.cancelled then 1 else 0)
  }

  ghost predicate AdmissionInv(c: Call, alive: bool) {
    match c.admission
    case InProgress =>
      && alive && c.complete == Reserved(false) && !c.cancelled
      && (c.invoke.NotPosted? || c.invoke.Posted? || c.invoke.InvokeTaken?)
    case Accepted =>
      && !c.invoke.NotPosted? && !c.complete.ReservationCancelled?
      && (!alive ==> |c.callbacks| == 1)
    case Refused =>
      && !alive && c.invoke.NotPosted? && !c.cancelled
      && (c.complete.ReservationCancelled? || c.complete == Reserved(false))
  }

  /** Ok is only ever on its way, or delivered, for an Ok handler and before the deadline. */
  ghost predicate OkIsEarned(c: Call) {
    && (c.serverDone && !c.completionDone && c.status == Ok ==> c.handler == Some(Ok))
    && (c.invoke == Handled(Ok) ==> c.handler == Some(Ok))
    && (c.complete.Calling? && c.complete.verdict == Ok ==>
          c.serverDone && c.handler == Some(Ok) && !Missed(c.deadline, c.complete.at))
    && (forall k :: 0 <= k < |c.callbacks| && c.callbacks[k].status == Ok ==>
          c.handler == Some(Ok) && !Missed(c.deadline, c.callbacks[k].at))
    && (c.callbacks != [] && c.callbacks[0].status == Ok ==> c.serverDone)
  }

  /** Only a running or quiescing executor has work in progress; only one that takes nothing more
      can still have an item queued for a record that is gone. */
  ghost predicate Placed(s: System, c: Call, alive: bool) {
    && c.server in s.executors && c.caller in s.executors
    && (c.complete.Reserved? ==> s.executors[c.caller] != Executor.Constructed)
    && (InvokeRunning(c.invoke) ==> HasWorkers(s, c.server))
    && (CompleteRunning(c.complete) ==> HasWorkers(s, c.caller))
    && (!alive && c.invoke.Posted? ==> Retired(s, c.server))
    && (!alive && c.complete.Reserved? ==> Retired(s, c.caller))
  }

  ghost predicate Sound(s: System, c: Call, alive: bool) {
    Consistent(c, alive) && AdmissionInv(c, alive) && OkIsEarned(c) && Placed(s, c, alive)
  }

  ghost predicate CallInv(s: System, id: nat)
    requires id in s.calls
  {
    Sound(s, s.calls[id], id in s.pending)
  }

  ghost predicate Inv(s: System) {
    && !s.fault
    && (forall id :: id in s.pending ==> id in s.calls)
    && (forall id :: id in s.calls ==> CallInv(s, id))
    && (forall id :: id in s.calls ==> (s.calls[id].admission.InProgress? <==> s.admitting == Some(id)))
    && (s.admitting.Some? ==> s.admitting.value in s.calls && s.accepting)
    && (s.cancelling.Some? ==>
          && Quiesced(s) && s.pending != [] && s.pending[0] == s.cancelling.value
          && s.calls[s.cancelling.value].cancelled)
    && (forall id :: id in s.calls && s.calls[id].cancelled && id in s.pending ==>
          s.cancelling == Some(id))
    && (s.finished ==> s.pending == [] && Quiesced(s))
  }

  /** A step that rewrites one record and leaves the executors alone keeps the other records' part. */
  lemma PutInv(s: System, id: nat, c: Call, erase: bool, t: System)
    requires Inv(s) && id in s.calls && id in s.pending && !s.finished && s.cancelling.None?
    requires t == Put(s, id, c, erase).(admitting := t.admitting)
    requires t.admitting == s.admitting || (s.admitting == Some(id) && t.admitting.None?)
    requires Sound(s, if erase then c.(erasures := c.erasures + 1) else c, !erase)
    requires c.admission.InProgress? <==> t.admitting == Some(id)
    requires !c.cancelled
    ensures Inv(t)
  {
    forall x | x in t.calls ensures CallInv(t, x) {
      if x != id { assert CallInv(s, x); }
    }
  }

  /** A record that has just been put at the end of the list, or put there and taken off again. */
  lemma ListedInv(s: System, id: nat, c: Call, t: System)
    requires Inv(s) && id !in s.calls && LockFree(s) && s.accepting
    requires t.calls == s.calls[id := c]
    requires t == s.(calls := t.calls, pending := t.pending, admitting := t.admitting)
    requires forall x :: x in t.pending <==> x in s.pending || (x == id && c.erasures == 0)
    requires Sound(s, c, c.erasures == 0) && !c.cancelled
    requires c.admission.InProgress? == t.admitting.Some?
    requires t.admitting.Some? ==> t.admitting.value == id
    ensures Inv(t)
  {
    forall x | x in t.calls ensures CallInv(t, x) {
      if x != id { assert CallInv(s, x); }
    }
  }

  lemma AdmitBeginInv(s: System, step: Step)
    requires Inv(s) && step.AdmitBegin? && Enabled(s, step)
    ensures Inv(Apply(s, step))
  {
    var t := Apply(s, step);
    ListedInv(s, step.id, t.calls[step.id], t);
  }

  lemma AdmitPostInv(s: System, step: Step)
    requires Inv(s) && step.AdmitPost? && Enabled(s, step)
    ensures Inv(Apply(s, step))
  {
    var id := s.admitting.value;
    var c := s.calls[id];
    assert CallInv(s, id) && c.admission.InProgress?;
    if step.room && AdmitsWork(s, c.server) {
      PutInv(s, id, c.(invoke := Posted), false, Apply(s, step));
    } else {
      PutInv(s, id, Released(s, c).(admission := Refused), true, Apply(s, step));
    }
  }

  lemma AdmitArmInv(s: System, step: Step)
    requires Inv(s) && step.AdmitArm? && Enabled(s, step)
    ensures Inv(Apply(s, step))
  {
    var id := s.admitting.value;
    var c := s.calls[id];
    assert CallInv(s, id) && c.admission.InProgress?;
    PutInv(s, id, Armed(s, c.(admission := Accepted), c.deadline != 0), false, Apply(s, step));
  }

  /** A worker takes an item off a running executor's queue. */
  lemma TakeInv(s: System, step: Step)
    requires Inv(s) && (step.TakeInvoke? || step.TakeComplete?) && Enabled(s, step)
    ensures Inv(Apply(s, step))
  {
    var id := step.id;
    var c := s.calls[id];
    assert CallInv(s, id);
    if step.TakeInvoke? {
      PutInv(s, id, c.(invoke := InvokeTaken), false, Apply(s, step));
    } else {
      PutInv(s, id, c.(complete := CompleteTaken), false, Apply(s, step));
    }
  }

  lemma InvokeFirstLockInv(s: System, step: Step)
    requires Inv(s) && step.InvokeFirstLock? && Enabled(s, step)
    ensures Inv(Apply(s, step))
  {
    var c := s.calls[step.id];
    assert CallInv(s, step.id);
    if c.completionDone {
      PutInv(s, step.id, c.(invoke := InvokeGone), true, Apply(s, step));
    } else {
      PutInv(s, step.id, c.(invoke := Handling), false, Apply(s, step));
    }
  }

  lemma InvokeHandlerInv(s: System, step: Step)
    requires Inv(s) && step.InvokeHandler? && Enabled(s, step)
    ensures Inv(Apply(s, step))
  {
    var c := s.calls[step.id];
    assert CallInv(s, step.id);
    var answer := Answer(c.deadline, step.context, step.result, step.clock, step.now);
    var ran := if Missed(c.deadline, step.context) then None else Some(step.result);
    PutInv(s, step.id, c.(invoke := Handled(answer), handler := ran), false, Apply(s, step));
  }

  lemma InvokeSecondLockInv(s: System, step: Step)
    requires Inv(s) && step.InvokeSecondLock? && Enabled(s, step)
    ensures Inv(Apply(s, step))
  {
    if s.calls[step.id].completionDone { AnsweredTooLateInv(s, step); } else { AnsweredInv(s, step); }
  }

  lemma AnsweredTooLateInv(s: System, step: Step)
    requires Inv(s) && step.InvokeSecondLock? && Enabled(s, step) && s.calls[step.id].completionDone
    ensures Inv(Apply(s, step))
  {
    var c := s.calls[step.id];
    assert CallInv(s, step.id);
    PutInv(s, step.id, c.(serverDone := true, invoke := InvokeGone), true, Apply(s, step));
  }

  lemma AnsweredInv(s: System, step: Step)
    requires Inv(s) && step.InvokeSecondLock? && Enabled(s, step) && !s.calls[step.id].completionDone
    ensures Inv(Apply(s, step))
  {
    var c := s.calls[step.id];
    assert CallInv(s, step.id);
    var done := c.(serverDone := true, invoke := InvokeGone);
    PutInv(s, step.id, Armed(s, done.(status := c.invoke.result), true), false, Apply(s, step));
  }

  lemma CompleteFirstLockInv(s: System, step: Step)
    requires Inv(s) && step.CompleteFirstLock? && Enabled(s, step)
    ensures Inv(Apply(s, step))
  {
    var c := s.calls[step.id];
    assert CallInv(s, step.id);
    PutInv(s, step.id, c.(complete := Calling(Verdict(c, step.context), step.context)), false, Apply(s, step));
  }

  lemma CompleteCallbackInv(s: System, step: Step)
    requires Inv(s) && step.CompleteCallback? && Enabled(s, step)
    ensures Inv(Apply(s, step))
  {
    var c := s.calls[step.id];
    assert CallInv(s, step.id);
    var report := Callback(c.complete.verdict, c.complete.at);
    PutInv(s, step.id, c.(callbacks := c.callbacks + [report], complete := Called), false, Apply(s, step));
  }

  lemma CompleteSecondLockInv(s: System, step: Step)
    requires Inv(s) && step.CompleteSecondLock? && Enabled(s, step)
    ensures Inv(Apply(s, step))
  {
    var c := s.calls[step.id];
    assert CallInv(s, step.id);
    PutInv(s, step.id, c.(completionDone := true, complete := CompleteGone), c.serverDone, Apply(s, step));
  }

  /** How the state of an executor may change; stopping waits for the workers. */
  ghost predicate Moves(s: System, executor: nat, state: Executor.State) {
    && executor in s.executors
    && match state
       case Running => s.executors[executor] == Executor.Prepared
       case Quiescing => Executor.Admitting(s.executors[executor])
       case Stopped =>
         || s.executors[executor] == Executor.Constructed
         || (s.executors[executor] == Executor.Quiescing && Joined(s, executor))
       case _ => s.executors[executor] == Executor.Constructed && state != Executor.Constructed
  }

  lemma MoveInv(s: System, executor: nat, state: Executor.State)
    requires Inv(s) && Moves(s, executor, state)
    ensures Inv(s.(executors := s.executors[executor := state]))
  {
    var t := s.(executors := s.executors[executor := state]);
    assert !Ended(s.executors[executor]);
    forall x | x in t.calls ensures CallInv(t, x) {
      assert CallInv(s, x);
    }
  }

  lemma ExecutorInv(s: System, step: Step)
    requires Inv(s) && Enabled(s, step)
    requires step.Prepare? || step.Activate? || step.BeginShutdown? || step.EndShutdown?
    ensures Inv(Apply(s, step))
  {
    var t := Apply(s, step);
    if t != s { MoveInv(s, step.executor, t.executors[step.executor]); }
  }

  lemma CloseInv(s: System, step: Step)
    requires Inv(s) && step.Close? && Enabled(s, step)
    ensures Inv(Apply(s, step))
  {
    var t := Apply(s, step);
    forall x | x in t.calls ensures CallInv(t, x) {
      assert CallInv(s, x);
    }
  }

  lemma CancelCallbackInv(s: System, step: Step)
    requires Inv(s) && step.CancelCallback? && Enabled(s, step)
    ensures Inv(Apply(s, step))
  {
    var t := Apply(s, step);
    forall x | x in t.calls ensures CallInv(t, x) {
      assert CallInv(s, x);
    }
  }

  lemma CancelPopInv(s: System, step: Step)
    requires Inv(s) && step.CancelPop? && Enabled(s, step)
    ensures Inv(Apply(s, step))
  {
    var t := Apply(s, step);
    forall x | x in t.calls ensures CallInv(t, x) {
      assert CallInv(s, x);
    }
  }

  lemma CancelReturnInv(s: System, step: Step)
    requires Inv(s) && step.CancelReturn? && Enabled(s, step)
    ensures Inv(Apply(s, step))
  {
    var t := Apply(s, step);
    forall x | x in t.calls ensures CallInv(t, x) {
      assert CallInv(s, x);
    }
  }

  lemma StepInv(s: System, step: Step)
    requires Inv(s) && Enabled(s, step)
    ensures Inv(Apply(s, step))
  {
    match step
    case AdmitBegin(_, _, _, _, _, _) => AdmitBeginInv(s, step);
    case AdmitPost(_) => AdmitPostInv(s, step);
    case AdmitArm => AdmitArmInv(s, step);
    case TakeInvoke(_) => TakeInv(s, step);
    case TakeComplete(_) => TakeInv(s, step);
    case InvokeFirstLock(_) => InvokeFirstLockInv(s, step);
    case InvokeHandler(_, _, _, _, _) => InvokeHandlerInv(s, step);
    case InvokeSecondLock(_) => InvokeSecondLockInv(s, step);
    case CompleteFirstLock(_, _) => CompleteFirstLockInv(s, step);
    case CompleteCallback(_) => CompleteCallbackInv(s, step);
    case CompleteSecondLock(_) => CompleteSecondLockInv(s, step);
    case Close => CloseInv(s, step);
    case CancelCallback(_, _) => CancelCallbackInv(s, step);
    case CancelPop(_) => CancelPopInv(s, step);
    case CancelReturn => CancelReturnInv(s, step);
    case _ => ExecutorInv(s, step);
  }

  /* ------------------------------------------------------------ whole runs */

  ghost predicate Initial(s: System) {
    && s.calls == map[] && s.pending == [] && s.accepting
    && s.admitting.None? && s.cancelling.None? && !s.finished && !s.fault
    && forall e :: e in s.executors ==> s.executors[e] == Executor.Constructed
  }

  ghost predicate IsRun(states: seq<System>, steps: seq<Step>) {
    && |states| == |steps| + 1
    && Initial(states[0])
    && forall k :: 0 <= k < |steps| ==>
         Enabled(states[k], steps[k]) && states[k + 1] == Apply(states[k], steps[k])
  }

  lemma {:induction false} RunInv(states: seq<System>, steps: seq<Step>, k: nat)
    requires IsRun(states, steps) && k < |states|
    ensures Inv(states[k])
  {
    if k > 0 {
      RunInv(states, steps, k - 1);
      StepInv(states[k - 1], steps[k - 1]);
    }
  }

  /**
   In every interleaving: no step reaches a record that was erased, no record is erased twice,
   no call is called back twice, and a refused call is never called back.
   */
  lemma CallbackTheorem(states: seq<System>, steps: seq<Step>, k: nat, id: nat)
    requires IsRun(states, steps) && k < |states| && id in states[k].calls
    ensures !states[k].fault
    ensures |states[k].calls[id].callbacks| <= 1
    ensures states[k].calls[id].erasures <= 1
    ensures states[k].calls[id].erasures == 0 <==> id in states[k].pending
    ensures states[k].calls[id].admission.Refused? ==> states[k].calls[id].callbacks == []
  {
    RunInv(states, steps, k);
    assert CallInv(states[k], id);
  }

  /** Ok is reported only if the handler said Ok and the report comes before the deadline. */
  lemma OkTheorem(states: seq<System>, steps: seq<Step>, k: nat, id: nat)
    requires IsRun(states, steps) && k < |states| && id in states[k].calls
    ensures forall i :: 0 <= i < |states[k].calls[id].callbacks| &&
                        states[k].calls[id].callbacks[i].status == Ok ==>
              && states[k].calls[id].handler == Some(Ok)
              && !Missed(states[k].calls[id].deadline, states[k].calls[id].callbacks[i].at)
  {
    RunInv(states, steps, k);
    assert CallInv(states[k], id);
  }

  /** Once quiesce has finished, every accepted call has been called back once and erased once. */
  lemma QuiesceTheorem(states: seq<System>, steps: seq<Step>, k: nat, id: nat)
    requires IsRun(states, steps) && k < |states| && id in states[k].calls
    requires states[k].finished
    ensures states[k].calls[id].admission.Accepted? ==> |states[k].calls[id].callbacks| == 1
    ensures !states[k].calls[id].admission.InProgress?
    ensures states[k].calls[id].erasures == 1
  {
    RunInv(states, steps, k);
    assert CallInv(states[k], id);
  }

  /** What cancellation does to one record that is still in the list. */
  ghost predicate CancelledOnce(before: Call, after: Call, now: nat) {
    && after.erasures == 1
    && after.callbacks == if before.completionDone then before.callbacks else [Callback(Cancelled, now)]
  }

  /** The front record is answered unless somebody has done so already. */
  method AnswerFront(s: System, now: nat) returns (t: System)
    requires Inv(s) && Quiesced(s) && s.cancelling.None? && s.pending != []
    ensures Inv(t) && Enabled(t, CancelPop(s.pending[0]))
    ensures t == s.(calls := t.calls, cancelling := t.cancelling)
    ensures t.calls == s.calls[s.pending[0] := t.calls[s.pending[0]]]
    ensures CancelledOnce(s.calls[s.pending[0]], t.calls[s.pending[0]].(erasures := 1), now)
    ensures t.calls[s.pending[0]].erasures == 0
  {
    var id := s.pending[0];
    assert CallInv(s, id);
    t := s;
    if !s.calls[id].completionDone {
      CancelCallbackInv(s, CancelCallback(id, now));
      t := Apply(s, CancelCallback(id, now));
    }
  }

  /** One round of the loop: answer the front record if nobody has, and take it off the list. */
  method CancelFront(s: System, now: nat) returns (t: System)
    requires Inv(s) && Quiesced(s) && s.cancelling.None? && s.pending != []
    ensures Inv(t) && Quiesced(t) && t.cancelling.None? && t.calls.Keys == s.calls.Keys
    ensures t.pending == Without(s.pending, s.pending[0])
    ensures CancelledOnce(s.calls[s.pending[0]], t.calls[s.pending[0]], now)
    ensures forall x :: x in s.calls && x != s.pending[0] ==> t.calls[x] == s.calls[x]
  {
    var u := AnswerFront(s, now);
    t := PopFront(u);
  }

  method PopFront(s: System) returns (t: System)
    requires Inv(s) && Quiesced(s) && s.pending != [] && Enabled(s, CancelPop(s.pending[0]))
    ensures Inv(t) && Quiesced(t) && t.cancelling.None? && t.pending == Without(s.pending, s.pending[0])
    ensures var c := s.calls[s.pending[0]]; t.calls == s.calls[s.pending[0] := c.(erasures := c.erasures + 1)]
  {
    CancelPopInv(s, CancelPop(s.pending[0]));
    t := Apply(s, CancelPop(s.pending[0]));
  }

  /**
   The loop of CancelPending, from any state a run can be in when quiesce gets there: it ends,
   answers exactly the calls nobody has answered, and leaves records already gone alone.
   */
  method CancelPending(s: System, now: nat) returns (t: System)
    requires Inv(s) && Quiesced(s) && s.cancelling.None?
    ensures Inv(t) && t.finished && t.calls.Keys == s.calls.Keys
    ensures forall id :: id in s.pending ==> CancelledOnce(s.calls[id], t.calls[id], now)
    ensures forall id :: id in s.calls && id !in s.pending ==> t.calls[id] == s.calls[id]
  {
    t := s;
    while t.pending != []
      invariant Cancelling(s, t, now)
      decreases |t.pending|
    {
      var u := CancelFront(t, now);
      CancellingStep(s, t, u, now);
      t := u;
    }
    CancelReturnInv(t, CancelReturn);
    t := Apply(t, CancelReturn);
  }

  /** Part of the way: records still listed are as they were, the others listed at first are answered. */
  ghost predicate Cancelling(s: System, t: System, now: nat) {
    && Inv(t) && Quiesced(t) && t.cancelling.None? && t.calls.Keys == s.calls.Keys
    && Progress(s, t, now)
  }

  ghost predicate Progress(s: System, t: System, now: nat)
    requires t.calls.Keys == s.calls.Keys
  {
    && (forall id :: id in s.pending ==> id in s.calls)
    && (forall id :: id in t.pending ==> id in s.pending && t.calls[id] == s.calls[id])
    && (forall id :: id in s.pending && id !in t.pending ==> CancelledOnce(s.calls[id], t.calls[id], now))
    && (forall id :: id in s.calls && id !in s.pending ==> t.calls[id] == s.calls[id])
  }

  lemma CancellingStep(s: System, t: System, u: System, now: nat)
    requires t.calls.Keys == s.calls.Keys == u.calls.Keys && Progress(s, t, now) && t.pending != []
    requires u.pending == Without(t.pending, t.pending[0])
    requires CancelledOnce(t.calls[t.pending[0]], u.calls[t.pending[0]], now)
    requires forall x :: x in t.calls && x != t.pending[0] ==> u.calls[x] == t.calls[x]
    ensures Progress(s, u, now)
  {
  }
}

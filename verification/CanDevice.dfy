/**
 The Zephyr CAN adapter against its interrupt callbacks. Thread code runs under the control
 lock; a callback may run between any two of its atomic steps, may be late, and several may be
 in progress at once. The driver calls the completion of every frame it accepts once. Once it
 has been given the receive callback it may call it at any time, also after the filter is gone.
 */
module CanDevice {
  import opened Bytes
  import opened CanProtocol

  datatype State = Stopped | Starting | Running | Stopping | StopFailed

  /** Where the thread holding the control lock is; the lock is free in Free and StopPaused. */
  datatype Point =
    | Free
    | StartFilter | StartController | StartWait
    | PumpHead | PumpMarked | PumpSent
    | StopAbort | StopPaused | StopWait | StopFinal

  datatype Result = Sent | Aborted | Failed

  datatype Phase =
    | Due                        // the driver has yet to call it
    | Entered                    // counted as active; the owner not loaded
    | Holding                    // has the adapter's address
    | Settling(result: Result)   // took the in-flight mark; its counter still to be raised
    | Acted(held: bool)          // about to leave
    | Left

  datatype Callback = Callback(transmit: bool, phase: Phase)

  datatype Fate = Transmitted | Rejected | Discarded

  /**
   Frames on their way out. `peeked` is the frame a pump has in hand; `accepted`, `fates` and
   `sent` are history.
   */
  datatype Outgoing = Outgoing(
    depth: nat, queue: seq<CanFrame>, inFlight: bool, peeked: Option<CanFrame>,
    accepted: seq<CanFrame>, fates: seq<Fate>, sent: seq<CanFrame>,
    completions: nat, failures: nat, aborts: nat, rejected: nat)

  /** The driver's callbacks and the fence's count; `waiting`, `inside` and `settling` sort them. */
  datatype Fence = Fence(
    active: nat, callbacks: map<nat, Callback>, waiting: set<nat>, inside: set<nat>, settling: set<nat>)

  /**
   `filterGiven` is history, a filter was added once; so is `filterFailed`, the last Start ended
   on a refused one.
   */
  datatype System = System(
    state: State, retired: bool, filterFailed: bool, filterGiven: bool, point: Point, owner: bool,
    tx: Outgoing, fence: Fence)

  datatype StartAction = Begin | FilterFailed | FilterAdded | ControllerFailed | Waited | ControllerStarted

  datatype SendAction =
    | Send(frame: CanFrame) | Poll | Pump
    | DriverAccepts(id: nat) | Dequeue | DriverBusy | DriverRejects(abort: bool)

  datatype StopAction =
    | ReturnEarly | StartStop | AbortOne | ControllerFails | ControllerStops(fromDispatch: bool)
    | Relock | CallbacksGone | Finish

  datatype CallbackAction = Arrive | Enter | LoadOwner | Act(result: Result) | Count | Leave

  datatype Step =
    | Starts(start: StartAction)
    | Sends(send: SendAction)
    | Stops(stop: StopAction)
    | Interrupt(id: nat, action: CallbackAction)

  predicate LockFree(s: System) {
    s.point.Free? || s.point.StopPaused?
  }

  ghost predicate At(f: Fence, id: nat, phase: Phase) {
    id in f.callbacks && f.callbacks[id].phase == phase
  }

  /* ------------------------------------------------------------------ starting */

  predicate StartEnabled(s: System, a: StartAction) {
    match a
    case Begin => s.point.Free? && s.state.Stopped? && !s.retired
    case FilterFailed => s.point.StartFilter?
    case FilterAdded => s.point.StartFilter?
    case ControllerFailed => s.point.StartController?
    case Waited => s.point.StartWait? && s.fence.active == 0
    case ControllerStarted => s.point.StartController?
  }

  function StartStep(s: System, a: StartAction): System {
    match a
    case Begin =>
      s.(state := Starting, owner := true, point := StartFilter, tx := s.tx.(queue := [], inFlight := false))
    case FilterFailed => s.(owner := false, state := Stopped, point := Free, filterFailed := true)
    case FilterAdded => s.(point := StartController, filterGiven := true)
    case ControllerFailed => s.(owner := false, point := StartWait)
    case Waited => s.(state := Stopped, point := Free, filterFailed := false)
    case ControllerStarted => s.(state := Running, point := Free)
  }

  /* ------------------------------------------------------------------- sending */

  predicate SendEnabled(s: System, a: SendAction) {
    match a
    case Send(_) => s.point.Free? && s.state.Running?
    case Poll => s.point.Free? && s.state.Running?
    case Pump => s.point.PumpHead?
    case DriverAccepts(id) => s.point.PumpMarked? && s.tx.peeked.Some? && id !in s.fence.callbacks
    case Dequeue => s.point.PumpSent? && s.tx.queue != []
    case DriverBusy => s.point.PumpMarked?
    case DriverRejects(_) => s.point.PumpMarked? && s.tx.queue != []
  }

  function Settle(tx: Outgoing, result: Result): Outgoing {
    match result
    case Sent => tx.(completions := tx.completions + 1)
    case Aborted => tx.(aborts := tx.aborts + 1)
    case Failed => tx.(failures := tx.failures + 1)
  }

  function Drop(tx: Outgoing, fate: Fate): Outgoing
    requires tx.queue != []
  {
    tx.(queue := tx.queue[1..], fates := tx.fates + [fate])
  }

  function SendStep(s: System, a: SendAction): System
    requires SendEnabled(s, a)
  {
    match a
    case Send(frame) =>
      if |s.tx.queue| >= s.tx.depth then s.(tx := s.tx.(rejected := s.tx.rejected + 1))
      else
        s.(point := PumpHead,
           tx := s.tx.(queue := s.tx.queue + [frame], accepted := s.tx.accepted + [frame]))
    case Poll => s.(point := PumpHead)
    case Pump =>
      if s.tx.inFlight || s.tx.queue == [] then s.(point := Free)
      else s.(point := PumpMarked, tx := s.tx.(inFlight := true, peeked := Some(s.tx.queue[0])))
    case DriverAccepts(id) =>
      s.(point := PumpSent,
         tx := s.tx.(sent := s.tx.sent + [s.tx.peeked.value]),
         fence := Place(s.fence, id, Callback(true, Due)))
    case Dequeue => s.(point := PumpHead, tx := Drop(s.tx, Transmitted))
    case DriverBusy => s.(point := Free, tx := s.tx.(inFlight := false))
    case DriverRejects(abort) =>
      s.(point := Free,
         tx := Settle(Drop(s.tx, Rejected), if abort then Aborted else Failed).(inFlight := false))
  }

  /* ------------------------------------------------------------------ stopping */

  predicate StopEnabled(s: System, a: StopAction) {
    match a
    case ReturnEarly => s.point.Free? && s.state.Stopped?
    case StartStop => s.point.Free? && (s.state.Running? || s.state.StopFailed?)
    case AbortOne => s.point.StopAbort? && s.tx.queue != []
    case ControllerFails => s.point.StopAbort? && s.tx.queue == []
    case ControllerStops(_) => s.point.StopAbort? && s.tx.queue == []
    case Relock => s.point.StopPaused?
    case CallbacksGone => s.point.StopWait? && s.fence.active == 0
    case Finish => s.point.StopFinal?
  }

  function StopStep(s: System, a: StopAction): System
    requires StopEnabled(s, a)
  {
    match a
    case ReturnEarly => s
    case StartStop => s.(state := Stopping, point := StopAbort)
    case AbortOne => s.(tx := Settle(Drop(s.tx, Discarded), Aborted))
    case ControllerFails => s.(state := StopFailed, point := Free)
    case ControllerStops(fromDispatch) =>
      s.(owner := false, point := if fromDispatch then StopWait else StopPaused)
    case Relock => s.(point := StopWait)
    case CallbacksGone => s.(point := StopFinal)
    case Finish =>
      s.(retired := true, state := Stopped, point := Free,
         tx := (if s.tx.inFlight then Settle(s.tx, Aborted) else s.tx).(inFlight := false))
  }

  /* ----------------------------------------------------------------- callbacks */

  predicate IsWaiting(c: Callback) {
    c.transmit && (c.phase.Due? || c.phase.Entered? || c.phase.Holding?)
  }

  predicate IsInside(c: Callback) {
    !c.phase.Due? && !c.phase.Left?
  }

  function Put(ids: set<nat>, id: nat, member: bool): set<nat> {
    if member then ids + {id} else ids - {id}
  }

  function Place(f: Fence, id: nat, c: Callback): Fence {
    f.(callbacks := f.callbacks[id := c],
       waiting := Put(f.waiting, id, IsWaiting(c)),
       inside := Put(f.inside, id, IsInside(c)),
       settling := Put(f.settling, id, c.phase.Settling?))
  }

  /** The callback is at the point the action starts from. */
  predicate Ready(c: Callback, a: CallbackAction, active: nat) {
    match a
    case Arrive => false
    case Enter => c.phase.Due?
    case LoadOwner => c.phase.Entered?
    case Act(_) => c.phase.Holding?
    case Count => c.phase.Settling?
    case Leave => c.phase.Acted? && active > 0
  }

  predicate InterruptEnabled(s: System, id: nat, a: CallbackAction) {
    if a.Arrive? then s.filterGiven && id !in s.fence.callbacks
    else id in s.fence.callbacks && Ready(s.fence.callbacks[id], a, s.fence.active)
  }

  /** The phase after an action; `takes` is whether it clears the in-flight mark. */
  function NextPhase(a: CallbackAction, owner: bool, takes: bool): Phase {
    match a
    case Arrive => Due
    case Enter => Entered
    case LoadOwner => if owner then Holding else Acted(false)
    case Act(result) => if takes then Settling(result) else Acted(true)
    case Count => Acted(true)
    case Leave => Left
  }

  function Moved(f: Fence, id: nat, a: CallbackAction, owner: bool, takes: bool): Callback {
    Callback(id in f.callbacks && f.callbacks[id].transmit, NextPhase(a, owner, takes))
  }

  function ActiveAfter(active: nat, a: CallbackAction): nat {
    if a.Enter? then active + 1 else if a.Leave? && active > 0 then active - 1 else active
  }

  predicate Takes(s: System, id: nat, a: CallbackAction) {
    a.Act? && id in s.fence.callbacks && s.fence.callbacks[id].transmit && s.tx.inFlight
  }

  function InterruptStep(s: System, id: nat, a: CallbackAction): System
    requires InterruptEnabled(s, id, a)
  {
    s.(fence := Place(s.fence, id, Moved(s.fence, id, a, s.owner, Takes(s, id, a)))
                  .(active := ActiveAfter(s.fence.active, a)),
       tx := if Takes(s, id, a) then s.tx.(inFlight := false)
             else if a.Count? then Settle(s.tx, s.fence.callbacks[id].phase.result)
             else s.tx)
  }

  predicate Enabled(s: System, step: Step) {
    match step
    case Starts(a) => StartEnabled(s, a)
    case Sends(a) => SendEnabled(s, a)
    case Stops(a) => StopEnabled(s, a)
    case Interrupt(id, a) => InterruptEnabled(s, id, a)
  }

  function Apply(s: System, step: Step): System
    requires Enabled(s, step)
  {
    match step
    case Starts(a) => StartStep(s, a)
    case Sends(a) => SendStep(s, a)
    case Stops(a) => StopStep(s, a)
    case Interrupt(id, a) => InterruptStep(s, id, a)
  }

  /* ---------------------------------------------------------------- invariant */

  /** The sets say which callbacks are in which phase, and `active` counts those inside. */
  ghost predicate Sorted(f: Fence) {
    && f.active == |f.inside|
    && f.waiting <= f.callbacks.Keys && f.inside <= f.callbacks.Keys && f.settling <= f.inside
    && forall id :: id in f.callbacks ==> SortedAt(f, id)
  }

  ghost predicate SortedAt(f: Fence, id: nat)
    requires id in f.callbacks
  {
    var c := f.callbacks[id];
    && (id in f.waiting <==> IsWaiting(c))
    && (id in f.inside <==> IsInside(c))
    && (id in f.settling <==> c.phase.Settling?)
    && (c.phase.Settling? ==> c.transmit)
  }

  ghost predicate Holds(f: Fence, id: nat) {
    && id in f.callbacks
    && (f.callbacks[id].phase.Holding? || f.callbacks[id].phase.Settling? || f.callbacks[id].phase == Acted(true))
  }

  ghost predicate NobodyHolds(f: Fence) {
    forall id :: id in f.callbacks ==> !Holds(f, id)
  }

  /** What goes with each point of the thread code. */
  ghost predicate PointInv(s: System) {
    && (s.point.StartFilter? || s.point.StartController? || s.point.StartWait? <==> s.state.Starting?)
    && (s.point.PumpHead? || s.point.PumpMarked? || s.point.PumpSent? ==> s.state.Running?)
    && (s.point.StopAbort? || s.point.StopPaused? || s.point.StopWait? || s.point.StopFinal? <==> s.state.Stopping?)
    && (s.point.PumpMarked? ==> s.tx.inFlight)
    && (s.point.PumpMarked? || s.point.PumpSent? ==> s.tx.queue != [])
    && (s.state.Stopped? || s.state.StopFailed? ==> s.tx.queue == [])
    && (s.point.StopPaused? || s.point.StopWait? || s.point.StopFinal? ==> s.tx.queue == [])
  }

  ghost predicate OwnerInv(s: System) {
    && (s.state.Stopped? ==> !s.owner)
    && (s.state.Running? || s.state.StopFailed? || s.point.StopAbort? ==> s.owner)
    && (s.point.StartFilter? || s.point.StartController? ==> s.owner)
    && (s.point.StartWait? || s.point.StopPaused? || s.point.StopWait? || s.point.StopFinal? ==> !s.owner)
    && (s.retired ==> s.state.Stopped?)
    && (s.retired || s.point.StopFinal? ==> NobodyHolds(s.fence))
    && (s.state.Stopped? && !s.filterFailed ==> NobodyHolds(s.fence))
    && (!s.filterGiven ==> s.fence.callbacks == map[] && (s.state.Stopped? || s.point.StartFilter?))
  }

  /** While running, the in-flight mark is owed exactly one completion. */
  ghost predicate MarkInv(s: System) {
    && (s.state.Running? && !s.point.PumpMarked? ==> (s.tx.inFlight <==> s.fence.waiting != {}))
    && (s.point.PumpMarked? ==> s.fence.waiting == {})
    && (s.state.Running? ==> forall x, y :: x in s.fence.waiting && y in s.fence.waiting ==> x == y)
    && ((s.state.Stopped? && !s.retired) || s.state.Starting? ==>
          !s.tx.inFlight && s.fence.waiting == {} && s.fence.settling == {} && s.tx.queue == [])
    && (s.retired ==> !s.tx.inFlight)
  }

  function Mark(marked: bool): nat {
    if marked then 1 else 0
  }

  /** Frames accepted and not yet settled, counting the one being handed over only once. */
  ghost function Unsettled(s: System): int {
    |s.tx.queue| + Mark(s.tx.inFlight) + |s.fence.settling| - Mark(s.point.PumpMarked? || s.point.PumpSent?)
  }

  ghost predicate Balanced(s: System) {
    && |s.tx.accepted| == s.tx.completions + s.tx.failures + s.tx.aborts + Unsettled(s)
    && |s.tx.fates| + |s.tx.queue| == |s.tx.accepted|
    && s.tx.queue == s.tx.accepted[|s.tx.fates|..]
    && |s.tx.queue| <= s.tx.depth
  }

  /** The accepted frames the driver took. */
  function Taken(accepted: seq<CanFrame>, fates: seq<Fate>): seq<CanFrame>
    requires |fates| <= |accepted|
  {
    if fates == [] then []
    else
      var n := |fates| - 1;
      Taken(accepted, fates[..n]) + if fates[n].Transmitted? then [accepted[n]] else []
  }

  ghost predicate InOrder(s: System)
    requires |s.tx.fates| <= |s.tx.accepted|
  {
    && (s.point.PumpMarked? || s.point.PumpSent? ==>
          |s.tx.fates| < |s.tx.accepted| && s.tx.peeked == Some(s.tx.accepted[|s.tx.fates|]))
    && s.tx.sent == Taken(s.tx.accepted, s.tx.fates)
                    + if s.point.PumpSent? then [s.tx.accepted[|s.tx.fates|]] else []
  }

  ghost predicate Inv(s: System) {
    Sorted(s.fence) && PointInv(s) && OwnerInv(s) && MarkInv(s) && Balanced(s) && InOrder(s)
  }

  /* ---------------------------------------------------- every step keeps it: fence */

  /** With no callback inside, nobody has the adapter's address. */
  lemma IdleHoldsNothing(f: Fence)
    requires Sorted(f) && f.active == 0
    ensures NobodyHolds(f) && f.settling == {}
  {
    assert f.inside == {};
    assert forall id :: id in f.callbacks ==> SortedAt(f, id);
  }

  lemma Stays(ids: set<nat>, id: nat, member: bool)
    requires id in ids <==> member
    ensures Put(ids, id, member) == ids
  {
  }

  lemma Moves(ids: set<nat>, id: nat, member: bool)
    requires id in ids <==> !member
    ensures |Put(ids, id, member)| == |ids| + if member then 1 else -1
  {
  }

  /** Placing one callback leaves the others sorted as they were. */
  lemma PlaceSorted(f: Fence, id: nat, c: Callback, active: nat)
    requires Sorted(f) && (c.phase.Settling? ==> c.transmit)
    requires active == |Put(f.inside, id, IsInside(c))|
    ensures Sorted(Place(f, id, c).(active := active))
    ensures NobodyHolds(f) && !Holds(Place(f, id, c), id) ==> NobodyHolds(Place(f, id, c).(active := active))
  {
    var g := Place(f, id, c).(active := active);
    forall x | x in g.callbacks ensures SortedAt(g, x) && (x != id ==> (Holds(g, x) <==> Holds(f, x))) {
      if x != id { assert SortedAt(f, x); }
    }
  }

  /** Before an action its callback is sorted and at the point the action starts from. */
  ghost predicate Begins(f: Fence, id: nat, a: CallbackAction, takes: bool) {
    && f.active == |f.inside| && (takes ==> a.Act?)
    && (a.Arrive? ==> id !in f.callbacks && id !in f.waiting && id !in f.inside && id !in f.settling)
    && (!a.Arrive? ==>
          && id in f.callbacks && Ready(f.callbacks[id], a, f.active) && SortedAt(f, id)
          && (takes ==> f.callbacks[id].transmit))
  }

  lemma SortedBegins(s: System, id: nat, a: CallbackAction)
    requires Sorted(s.fence) && InterruptEnabled(s, id, a)
    ensures Begins(s.fence, id, a, Takes(s, id, a))
  {
    if !a.Arrive? { assert SortedAt(s.fence, id); }
  }

  lemma InsideMoves(f: Fence, id: nat, a: CallbackAction, owner: bool, takes: bool)
    requires Begins(f, id, a, takes)
    ensures |Put(f.inside, id, IsInside(Moved(f, id, a, owner, takes)))| == ActiveAfter(f.active, a)
  {
    var member := IsInside(Moved(f, id, a, owner, takes));
    if a.Enter? || a.Leave? { Moves(f.inside, id, member); } else { Stays(f.inside, id, member); }
  }

  lemma SettlingMoves(f: Fence, id: nat, a: CallbackAction, owner: bool, takes: bool)
    requires Begins(f, id, a, takes)
    ensures |Put(f.settling, id, Moved(f, id, a, owner, takes).phase.Settling?)|
         == |f.settling| + (if takes then 1 else if a.Count? then -1 else 0)
  {
    if takes || a.Count? { Moves(f.settling, id, takes); } else { Stays(f.settling, id, false); }
  }

  lemma WaitingMoves(f: Fence, id: nat, a: CallbackAction, owner: bool, takes: bool)
    requires Begins(f, id, a, takes)
    ensures Put(f.waiting, id, IsWaiting(Moved(f, id, a, owner, takes)))
         == if a.Act? || (a.LoadOwner? && !owner) then f.waiting - {id} else f.waiting
  {
    if !a.Act? && (!a.LoadOwner? || owner) {
      Stays(f.waiting, id, IsWaiting(Moved(f, id, a, owner, takes)));
    }
  }

  lemma SettleKeeps(tx: Outgoing, result: Result)
    ensures var u := Settle(tx, result);
            && u.completions + u.failures + u.aborts == tx.completions + tx.failures + tx.aborts + 1
            && u == tx.(completions := u.completions, failures := u.failures, aborts := u.aborts)
  {
  }

  lemma InterruptFence(s: System, id: nat, a: CallbackAction)
    requires Sorted(s.fence) && InterruptEnabled(s, id, a)
    ensures Sorted(InterruptStep(s, id, a).fence)
    ensures NobodyHolds(s.fence) && !s.owner ==> NobodyHolds(InterruptStep(s, id, a).fence)
  {
    SortedBegins(s, id, a);
    FenceMoved(s.fence, id, a, s.owner, Takes(s, id, a));
  }

  lemma FenceMoved(f: Fence, id: nat, a: CallbackAction, owner: bool, takes: bool)
    requires Sorted(f) && Begins(f, id, a, takes)
    ensures var g := Place(f, id, Moved(f, id, a, owner, takes)).(active := ActiveAfter(f.active, a));
            Sorted(g) && (NobodyHolds(f) && !owner ==> NobodyHolds(g))
  {
    InsideMoves(f, id, a, owner, takes);
    if NobodyHolds(f) && !owner { NeverHolds(f, id, a, takes); }
    PlaceSorted(f, id, Moved(f, id, a, owner, takes), ActiveAfter(f.active, a));
  }

  /** A callback that finds no owner does not come to hold the address. */
  lemma NeverHolds(f: Fence, id: nat, a: CallbackAction, takes: bool)
    requires Sorted(f) && Begins(f, id, a, takes) && NobodyHolds(f)
    ensures !Holds(Place(f, id, Moved(f, id, a, false, takes)), id)
  {
    if !a.Arrive? { assert !Holds(f, id); }
  }

  /** What a callback may change of the rest: the mark and one counter. */
  lemma InterruptBooks(s: System, id: nat, a: CallbackAction)
    requires Inv(s) && InterruptEnabled(s, id, a)
    ensures var u := InterruptStep(s, id, a).tx;
            && u == s.tx.(inFlight := u.inFlight, completions := u.completions, failures := u.failures,
                          aborts := u.aborts)
            && u.inFlight == (s.tx.inFlight && !Takes(s, id, a))
            && u.completions + u.failures + u.aborts
               == s.tx.completions + s.tx.failures + s.tx.aborts + Mark(a.Count?)
  {
    if a.Count? { SettleKeeps(s.tx, s.fence.callbacks[id].phase.result); }
  }

  lemma InterruptInv(s: System, id: nat, a: CallbackAction)
    requires Inv(s) && InterruptEnabled(s, id, a)
    ensures Inv(InterruptStep(s, id, a))
  {
    InterruptFence(s, id, a);
    InterruptBooks(s, id, a);
    InterruptMark(s, id, a);
    SortedBegins(s, id, a);
    SettlingMoves(s.fence, id, a, s.owner, Takes(s, id, a));
  }

  lemma InterruptMark(s: System, id: nat, a: CallbackAction)
    requires Inv(s) && InterruptEnabled(s, id, a)
    ensures MarkInv(InterruptStep(s, id, a))
  {
    InterruptBooks(s, id, a);
    SortedBegins(s, id, a);
    WaitingMoves(s.fence, id, a, s.owner, Takes(s, id, a));
    SettlingMoves(s.fence, id, a, s.owner, Takes(s, id, a));
  }

  /* -------------------------------------------------------- thread code keeps it */

  lemma StartInv(s: System, a: StartAction)
    requires Inv(s) && StartEnabled(s, a)
    ensures Inv(StartStep(s, a))
  {
    if a.Waited? { IdleHoldsNothing(s.fence); }
  }

  lemma {:induction false} TakenMore(accepted: seq<CanFrame>, frame: CanFrame, fates: seq<Fate>)
    requires |fates| <= |accepted|
    ensures Taken(accepted + [frame], fates) == Taken(accepted, fates)
  {
    if fates != [] { TakenMore(accepted, frame, fates[..|fates| - 1]); }
  }

  lemma TakenNext(accepted: seq<CanFrame>, fates: seq<Fate>, fate: Fate)
    requires |fates| < |accepted|
    ensures Taken(accepted, fates + [fate])
         == Taken(accepted, fates) + if fate.Transmitted? then [accepted[|fates|]] else []
  {
    assert (fates + [fate])[..|fates|] == fates;
  }

  /** The head of the queue meets its fate. */
  lemma DropKeeps(tx: Outgoing, fate: Fate)
    requires tx.queue != [] && |tx.fates| + |tx.queue| == |tx.accepted| && tx.queue == tx.accepted[|tx.fates|..]
    ensures var u := Drop(tx, fate);
            && |u.fates| + |u.queue| == |u.accepted| && u.queue == u.accepted[|u.fates|..]
            && Taken(u.accepted, u.fates)
               == Taken(tx.accepted, tx.fates) + if fate.Transmitted? then [tx.accepted[|tx.fates|]] else []
  {
    TakenNext(tx.accepted, tx.fates, fate);
  }

  lemma AcceptsInv(s: System, id: nat)
    requires Inv(s) && SendEnabled(s, DriverAccepts(id))
    ensures Inv(SendStep(s, DriverAccepts(id)))
  {
    Stays(s.fence.inside, id, false);
    Stays(s.fence.settling, id, false);
    PlaceSorted(s.fence, id, Callback(true, Due), s.fence.active);
  }

  lemma QueuedInv(s: System, frame: CanFrame)
    requires Inv(s) && SendEnabled(s, Send(frame)) && |s.tx.queue| < s.tx.depth
    ensures Inv(SendStep(s, Send(frame)))
  {
    TakenMore(s.tx.accepted, frame, s.tx.fates);
    assert (s.tx.accepted + [frame])[|s.tx.fates|..] == s.tx.accepted[|s.tx.fates|..] + [frame];
  }

  lemma DequeuedInv(s: System, a: SendAction)
    requires Inv(s) && SendEnabled(s, a) && (a.Dequeue? || a.DriverRejects?)
    ensures Inv(SendStep(s, a))
  {
    DropKeeps(s.tx, if a.Dequeue? then Transmitted else Rejected);
  }

  lemma SendInv(s: System, a: SendAction)
    requires Inv(s) && SendEnabled(s, a)
    ensures Inv(SendStep(s, a))
  {
    match a
    case Send(frame) => if |s.tx.queue| < s.tx.depth { QueuedInv(s, frame); }
    case DriverAccepts(id) => AcceptsInv(s, id);
    case Dequeue => DequeuedInv(s, a);
    case DriverRejects(_) => DequeuedInv(s, a);
    case _ =>
  }

  lemma StopInv(s: System, a: StopAction)
    requires Inv(s) && StopEnabled(s, a)
    ensures Inv(StopStep(s, a))
  {
    if a.CallbacksGone? { IdleHoldsNothing(s.fence); }
    if a.AbortOne? { DropKeeps(s.tx, Discarded); }
  }

  lemma StepInv(s: System, step: Step)
    requires Inv(s) && Enabled(s, step)
    ensures Inv(Apply(s, step))
  {
    match step
    case Starts(a) => StartInv(s, a);
    case Sends(a) => SendInv(s, a);
    case Stops(a) => StopInv(s, a);
    case Interrupt(id, a) => InterruptInv(s, id, a);
  }
}

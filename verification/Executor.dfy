/**
 The Linux thread executor: a bounded queue of timed work with reserved slots, drained by
 worker threads. Each method is one critical section of the executor's mutex.
 */
module Executor {
  import opened Bytes

  datatype State = Constructed | Prepared | Running | Quiescing | Stopped | Failed

  /** A queue slot in use; an unarmed entry is a reservation. */
  datatype Entry<W> = Entry(timestamp: nat, ticket: nat, work: W, armed: bool)

  type Slot<W> = Option<Entry<W>>

  /* ------------------------------------------------------------- value model */

  /** The queue as what it holds: which slot holds which entry is not visible outside. */
  datatype Exec<W(==)> = Exec(capacity: nat, state: State, entries: set<Entry<W>>, next: nat)

  predicate Admitting(state: State) {
    state == Prepared || state == Running
  }

  /** Earlier in time, or equally early and enqueued first. */
  predicate Earlier<W>(a: Entry<W>, b: Entry<W>) {
    a.timestamp < b.timestamp || (a.timestamp == b.timestamp && a.ticket < b.ticket)
  }

  /** The armed entry every other armed entry is later than. */
  ghost predicate IsNext<W>(e: Entry<W>, entries: set<Entry<W>>) {
    e in entries && e.armed && forall f :: f in entries && f.armed ==> f == e || Earlier(e, f)
  }

  ghost predicate DistinctTickets<W>(entries: set<Entry<W>>) {
    forall a, b :: a in entries && b in entries && a.ticket == b.ticket ==> a == b
  }

  /** A critical section that goes through; a refused call changes nothing. */
  datatype Action<W> =
    | WorkersCreated                              // the worker threads have been created
    | WorkersFailed                          // or one of them could not be
    | Activated
    | Enqueued(work: W, timestamp: nat, armed: bool)
    | Scheduled(entry: Entry<W>, timestamp: nat)
    | Withdrawn(entry: Entry<W>)
    | Taken(entry: Entry<W>, now: nat)
    | ShutdownBegun                          // the workers are to be joined
    | ShutdownEnded                          // they have come back
    | ShutdownAtOnce                         // there is nothing to shut down, or another call is at it

  ghost predicate Allowed<W>(e: Exec<W>, a: Action<W>) {
    match a
    case WorkersCreated => e.state == Constructed && e.capacity > 0
    case WorkersFailed => e.state == Constructed && e.capacity > 0
    case Activated => e.state == Prepared
    case Enqueued(_, _, _) => Admitting(e.state) && |e.entries| < e.capacity
    case Scheduled(entry, _) => Admitting(e.state) && entry in e.entries
    case Withdrawn(entry) => Admitting(e.state) && entry in e.entries
    case Taken(entry, now) => e.state == Running && IsNext(entry, e.entries) && entry.timestamp <= now
    case ShutdownBegun => Admitting(e.state)
    case ShutdownEnded => e.state == Quiescing
    case ShutdownAtOnce => !Admitting(e.state)
  }

  ghost function After<W>(e: Exec<W>, a: Action<W>): Exec<W> {
    match a
    case WorkersCreated => e.(state := Prepared)
    case WorkersFailed => e.(state := Failed)
    case Activated => e.(state := Running)
    case Enqueued(work, timestamp, armed) =>
      e.(entries := e.entries + {Entry(timestamp, e.next, work, armed)}, next := e.next + 1)
    case Scheduled(entry, timestamp) =>
      e.(entries := e.entries - {entry} + {entry.(timestamp := timestamp, armed := true)})
    case Withdrawn(entry) => e.(entries := e.entries - {entry})
    case Taken(entry, _) => e.(entries := e.entries - {entry})
    case ShutdownBegun => e.(state := Quiescing)
    case ShutdownEnded => e.(state := Stopped)
    case ShutdownAtOnce => if e.state == Constructed then e.(state := Stopped) else e
  }

  /** The entry has a new time and is armed, with its ticket and work; the others are the same. */
  ghost predicate Rearmed<W>(before: set<Entry<W>>, e: Entry<W>, timestamp: nat, after: set<Entry<W>>) {
    && Entry(timestamp, e.ticket, e.work, true) in after
    && (forall f :: f in after && f.ticket == e.ticket ==> f == Entry(timestamp, e.ticket, e.work, true))
    && (forall f :: f in after && f.ticket != e.ticket ==> f in before)
    && (forall f :: f in before && f.ticket != e.ticket ==> f in after)
  }

  /** The action was possible and is what happened. */
  ghost predicate Does<W>(before: Exec<W>, a: Action<W>, after: Exec<W>) {
    Allowed(before, a) && after == After(before, a)
  }

  /* ------------------------------------------------------------------ slots */

  /** How many slots are in use. */
  function Occupied<W>(slots: seq<Slot<W>>): nat {
    if slots == [] then 0
    else Occupied(slots[..|slots| - 1]) + if slots[|slots| - 1].Some? then 1 else 0
  }

  lemma {:induction false} OccupiedUpdate<W>(slots: seq<Slot<W>>, i: nat, slot: Slot<W>)
    requires i < |slots|
    ensures Occupied(slots[i := slot]) ==
            Occupied(slots) + (if slot.Some? then 1 else 0) - (if slots[i].Some? then 1 else 0)
  {
    var n := |slots| - 1;
    if i < n {
      OccupiedUpdate(slots[..n], i, slot);
      assert slots[i := slot][..n] == slots[..n][i := slot];
    } else {
      assert slots[i := slot][..n] == slots[..n];
    }
  }

  /** A queue that is not full has a free slot, and the count never exceeds the length. */
  lemma {:induction false} FreeSlotExists<W>(slots: seq<Slot<W>>)
    ensures Occupied(slots) <= |slots|
    ensures Occupied(slots) < |slots| ==> exists i :: 0 <= i < |slots| && slots[i].None?
  {
    if slots != [] {
      var front := slots[..|slots| - 1];
      FreeSlotExists(front);
      if slots[|slots| - 1].Some? && Occupied(front) < |front| {
        var i :| 0 <= i < |front| && front[i].None?;
        assert slots[i].None?;
      }
    }
  }

  ghost predicate DistinctSlots<W>(slots: seq<Slot<W>>, next: nat) {
    && (forall i :: 0 <= i < |slots| && slots[i].Some? ==> slots[i].value.ticket < next)
    && forall i, j :: 0 <= i < j < |slots| && slots[i].Some? && slots[j].Some? ==>
         slots[i].value.ticket != slots[j].value.ticket
  }

  ghost function Contents<W>(slots: seq<Slot<W>>): set<Entry<W>> {
    set i | 0 <= i < |slots| && slots[i].Some? :: slots[i].value
  }

  lemma ContentsDistinct<W>(slots: seq<Slot<W>>, next: nat)
    requires DistinctSlots(slots, next)
    ensures DistinctTickets(Contents(slots))
  {
  }

  /** With distinct tickets the slots in use and the entries are equally many. */
  lemma {:induction false} OccupiedIsSize<W>(slots: seq<Slot<W>>, next: nat)
    requires DistinctSlots(slots, next)
    ensures Occupied(slots) == |Contents(slots)|
  {
    if slots != [] {
      var n := |slots| - 1;
      var front := slots[..n];
      OccupiedIsSize(front, next);
      if slots[n].Some? {
        assert forall i :: 0 <= i < n && front[i].Some? ==> front[i].value.ticket != slots[n].value.ticket;
        assert slots[n].value !in Contents(front);
        assert Contents(slots) == Contents(front) + {slots[n].value};
      } else {
        assert Contents(slots) == Contents(front);
      }
    } else {
      assert Contents(slots) == {};
    }
  }

  /** Replacing one slot replaces its entry and nothing else. */
  lemma ContentsUpdate<W>(slots: seq<Slot<W>>, i: nat, slot: Slot<W>, next: nat)
    requires i < |slots| && DistinctSlots(slots, next)
    ensures Contents(slots[i := slot]) ==
            Contents(slots) - (if slots[i].Some? then {slots[i].value} else {})
                            + (if slot.Some? then {slot.value} else {})
  {
    var updated := slots[i := slot];
    forall e | e in Contents(slots) && (slots[i].None? || e != slots[i].value)
      ensures e in Contents(updated)
    {
      var j :| 0 <= j < |slots| && slots[j].Some? && slots[j].value == e;
      assert updated[j] == slots[j];
    }
    if slot.Some? { assert updated[i].value == slot.value; }
    forall e | e in Contents(updated)
      ensures (slot.Some? && e == slot.value) ||
              (e in Contents(slots) && (slots[i].None? || e != slots[i].value))
    {
      var j :| 0 <= j < |slots| && updated[j].Some? && updated[j].value == e;
      if j != i { assert slots[j].value == e; }
    }
  }

  /* ------------------------------------------------------------------- object */

  class ThreadExecutor<W(==)> {
    const queue: array<Slot<W>>
    var size: nat
    var nextSequence: nat
    var state: State

    ghost predicate Valid()
      reads this, queue
    {
      Admitting(state) || state == Constructed ==>
        size == Occupied(queue[..]) && DistinctSlots(queue[..], nextSequence)
    }

    ghost function View(): Exec<W>
      reads this, queue
    {
      Exec(queue.Length, state, Contents(queue[..]), nextSequence)
    }

    constructor (depth: nat)
      ensures Valid() && fresh(queue) && View() == Exec(depth, Constructed, {}, 0) && size == 0
    {
      queue := new Slot<W>[depth](_ => None);
      size, nextSequence, state := 0, 0, Constructed;
      new;
      EmptyQueue(queue[..]);
    }

    /** `created` is whether the platform could create all the worker threads. */
    method Prepare(named: bool, threads: nat, created: bool) returns (status: Status)
      requires Valid()
      modifies this
      ensures Valid()
      ensures status == (if old(state) != Constructed || !named then InvalidState
                         else if queue.Length == 0 || threads == 0 then InvalidArgument
                         else if !created then Unavailable
                         else Ok)
      ensures status == Ok ==> Does(old(View()), WorkersCreated, View())
      ensures status == Unavailable ==> Does(old(View()), WorkersFailed, View())
      ensures status in {InvalidState, InvalidArgument} ==> View() == old(View())
    {
      if state != Constructed || !named {
        return InvalidState;
      }
      if queue.Length == 0 || threads == 0 {
        return InvalidArgument;
      }
      state := Prepared;
      if !created {
        state := Failed;
        return Unavailable;
      }
      return Ok;
    }

    method Activate() returns (status: Status)
      requires Valid()
      modifies this
      ensures Valid()
      ensures status == if old(state) == Prepared then Ok else InvalidState
      ensures status == Ok ==> Does(old(View()), Activated, View())
      ensures status != Ok ==> View() == old(View())
    {
      if state != Prepared {
        return InvalidState;
      }
      state := Running;
      return Ok;
    }

    /** Ok means the entry is really stored; a full queue means every slot is in use. */
    method Enqueue(work: Option<W>, timestamp: nat, armed: bool) returns (status: Status, ticket: nat)
      requires Valid()
      modifies this, queue
      ensures Valid()
      ensures status == (if work.None? then InvalidArgument
                         else if !Admitting(old(state)) then InvalidState
                         else if |old(View()).entries| == queue.Length then CapacityExceeded
                         else Ok)
      ensures status == Ok ==>
                ticket == old(nextSequence) && Does(old(View()), Enqueued(work.value, timestamp, armed), View())
      ensures status != Ok ==> View() == old(View())
    {
      ticket := 0;
      if work.None? {
        return InvalidArgument, 0;
      }
      if !Admitting(state) {
        return InvalidState, 0;
      }
      FreeSlotExists(queue[..]);
      OccupiedIsSize(queue[..], nextSequence);
      if size == queue.Length {
        return CapacityExceeded, 0;
      }
      var i := FindFree();
      ticket := nextSequence;
      StoreNew(i, Entry(timestamp, ticket, work.value, armed));
      return Ok, ticket;
    }

    method StoreNew(i: nat, entry: Entry<W>)
      requires Valid() && Admitting(state) && i < queue.Length && queue[i].None? && entry.ticket == nextSequence
      modifies this, queue
      ensures Valid()
      ensures View() == old(View()).(entries := old(View()).entries + {entry}, next := entry.ticket + 1)
    {
      OccupiedUpdate(queue[..], i, Some(entry));
      ContentsUpdate(queue[..], i, Some(entry), nextSequence);
      ghost var before := queue[..];
      queue[i] := Some(entry);
      assert queue[..] == before[i := Some(entry)];
      nextSequence := nextSequence + 1;
      size := size + 1;
    }

    method FindFree() returns (i: nat)
      requires exists k :: 0 <= k < queue.Length && queue[k].None?
      ensures i < queue.Length && queue[i].None?
    {
      i := 0;
      while queue[i].Some?
        invariant i < queue.Length
        invariant exists k :: i <= k < queue.Length && queue[k].None?
        decreases queue.Length - i
      {
        i := i + 1;
      }
    }

    /** The slot holding a ticket, or the queue's length. */
    method FindTicket(ticket: nat) returns (i: nat)
      ensures i <= queue.Length
      ensures i < queue.Length ==> queue[i].Some? && queue[i].value.ticket == ticket
      ensures i == queue.Length ==>
                forall k :: 0 <= k < queue.Length && queue[k].Some? ==> queue[k].value.ticket != ticket
    {
      i := 0;
      while i < queue.Length && !(queue[i].Some? && queue[i].value.ticket == ticket)
        invariant i <= queue.Length
        invariant forall k :: 0 <= k < i && queue[k].Some? ==> queue[k].value.ticket != ticket
      {
        i := i + 1;
      }
    }

    /** A reservation that is still queued can always be armed; its slot and ticket stay. */
    method ScheduleReserved(ticket: nat, timestamp: nat) returns (status: Status)
      requires Valid()
      modifies queue
      ensures Valid()
      ensures status == InvalidState <==> !Admitting(state)
      ensures status == NotFound <==>
                Admitting(state) && forall e :: e in old(View()).entries ==> e.ticket != ticket
      ensures status in {Ok, InvalidState, NotFound}
      ensures status != Ok ==> View() == old(View())
      ensures status == Ok ==>
                exists e :: e in old(View()).entries && e.ticket == ticket &&
                  Does(old(View()), Scheduled(e, timestamp), View()) &&
                  Rearmed(old(View()).entries, e, timestamp, View().entries)
    {
      if !Admitting(state) {
        return InvalidState;
      }
      var i := FindTicket(ticket);
      if i == queue.Length {
        return NotFound;
      }
      ghost var entry := queue[i].value;
      assert entry in View().entries;
      ContentsDistinct(queue[..], nextSequence);
      ArmSlot(i, timestamp);
      return Ok;
    }

    method ArmSlot(i: nat, timestamp: nat)
      requires Valid() && Admitting(state) && i < queue.Length && queue[i].Some?
      modifies queue
      ensures Valid() && Does(old(View()), Scheduled(old(queue[i]).value, timestamp), View())
    {
      var armed := queue[i].value.(timestamp := timestamp, armed := true);
      assert queue[i].value in View().entries;
      OccupiedUpdate(queue[..], i, Some(armed));
      ContentsUpdate(queue[..], i, Some(armed), nextSequence);
      ghost var before := queue[..];
      queue[i] := Some(armed);
      assert queue[..] == before[i := Some(armed)];
    }

    method CancelReserved(ticket: nat) returns (status: Status)
      requires Valid()
      modifies this, queue
      ensures Valid()
      ensures status == InvalidState <==> !Admitting(old(state))
      ensures status == NotFound <==>
                Admitting(old(state)) && forall e :: e in old(View()).entries ==> e.ticket != ticket
      ensures status in {Ok, InvalidState, NotFound}
      ensures status != Ok ==> View() == old(View())
      ensures status == Ok ==>
                exists e :: e in old(View()).entries && e.ticket == ticket &&
                  Does(old(View()), Withdrawn(e), View())
    {
      if !Admitting(state) {
        return InvalidState;
      }
      var i := FindTicket(ticket);
      if i == queue.Length {
        return NotFound;
      }
      ghost var entry := queue[i].value;
      assert entry in View().entries;
      ClearSlot(i);
      return Ok;
    }

    method ClearSlot(i: nat)
      requires Valid() && Admitting(state) && i < queue.Length && queue[i].Some?
      modifies this, queue
      ensures Valid()
      ensures View() == old(View()).(entries := old(View()).entries - {old(queue[i]).value})
    {
      OccupiedUpdate(queue[..], i, None);
      ContentsUpdate(queue[..], i, None, nextSequence);
      ghost var before := queue[..];
      queue[i] := None;
      assert queue[..] == before[i := None];
      size := size - 1;
    }

    /** The slot of the next armed entry, or the queue's length when nothing is armed. */
    method NextIndex() returns (result: nat)
      ensures result <= queue.Length
      ensures result == queue.Length ==>
                forall k :: 0 <= k < queue.Length && queue[k].Some? ==> !queue[k].value.armed
      ensures result < queue.Length ==>
                && queue[result].Some? && queue[result].value.armed
                && forall k :: 0 <= k < queue.Length && queue[k].Some? && queue[k].value.armed ==>
                     !Earlier(queue[k].value, queue[result].value)
    {
      result := queue.Length;
      for index := 0 to queue.Length
        invariant result == queue.Length || result < index
        invariant result == queue.Length ==>
                    forall k :: 0 <= k < index && queue[k].Some? ==> !queue[k].value.armed
        invariant result < queue.Length ==>
                    && queue[result].Some? && queue[result].value.armed
                    && forall k :: 0 <= k < index && queue[k].Some? && queue[k].value.armed ==>
                         !Earlier(queue[k].value, queue[result].value)
      {
        if queue[index].None? || !queue[index].value.armed {
          continue;
        }
        if result == queue.Length || Earlier(queue[index].value, queue[result].value) {
          result := index;
        }
      }
    }

    /** What a worker does under the lock: take the next entry if it is due. */
    method Take(now: nat) returns (taken: Slot<W>)
      requires Valid()
      modifies this, queue
      ensures Valid()
      ensures taken.Some? <==>
                old(state) == Running &&
                exists e :: IsNext(e, old(View()).entries) && e.timestamp <= now
      ensures taken.Some? ==> Does(old(View()), Taken(taken.value, now), View())
      ensures taken.None? ==> View() == old(View())
    {
      if state != Running {
        return None;
      }
      var index := NextIndex();
      if index == queue.Length {
        return None;
      }
      var entry := queue[index].value;
      NextIsNext(queue[..], index, nextSequence);
      if entry.timestamp > now {
        return None;
      }
      ClearSlot(index);
      return Some(entry);
    }

    /** Shutdown up to the join: nothing is taken from here on. True if a join must follow. */
    method BeginShutdown() returns (join: bool)
      requires Valid()
      modifies this
      ensures Valid()
      ensures join == Admitting(old(state))
      ensures Does(old(View()), if join then ShutdownBegun else ShutdownAtOnce, View())
    {
      if state == Stopped || state == Quiescing || state == Failed {
        return false;
      }
      if state == Constructed {
        state := Stopped;
        return false;
      }
      state := Quiescing;
      size := 0;
      return true;
    }

    method EndShutdown()
      requires Valid() && state == Quiescing
      modifies this
      ensures Valid() && Does(old(View()), ShutdownEnded, View())
    {
      state := Stopped;
    }
  }

  lemma {:induction false} EmptyQueue<W>(slots: seq<Slot<W>>)
    requires forall i :: 0 <= i < |slots| ==> slots[i].None?
    ensures Occupied(slots) == 0
  {
    if slots != [] { EmptyQueue(slots[..|slots| - 1]); }
  }

  /** With distinct tickets, an armed entry nothing is earlier than is the only such entry. */
  lemma NextIsNext<W>(slots: seq<Slot<W>>, index: nat, next: nat)
    requires DistinctSlots(slots, next) && index < |slots|
    requires slots[index].Some? && slots[index].value.armed
    requires forall k :: 0 <= k < |slots| && slots[k].Some? && slots[k].value.armed ==>
               !Earlier(slots[k].value, slots[index].value)
    ensures IsNext(slots[index].value, Contents(slots))
    ensures forall e :: IsNext(e, Contents(slots)) ==> e == slots[index].value
  {
    var x := slots[index].value;
    forall f | f in Contents(slots) && f.armed ensures f == x || Earlier(x, f) {
      var k :| 0 <= k < |slots| && slots[k].Some? && slots[k].value == f;
      assert k == index || f.ticket != x.ticket;
    }
  }
}

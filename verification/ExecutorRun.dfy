/** Whole runs of an executor: any interleaving of its critical sections by any threads. */
module ExecutorRun {
  import opened Bytes
  import opened Executor

  /** History of a start: which entry, when it was due, and when it was taken. */
  datatype Start<W> = Start(entry: Entry<W>, at: nat)

  /** The executor, the tickets whose work is in progress, and everything started so far. */
  datatype Pool<W(==)> = Pool(exec: Exec<W>, running: set<nat>, log: seq<Start<W>>)

  datatype Step<W> = Does(action: Action<W>) | Finish(ticket: nat)

  /** The join at the end of a shutdown waits until every worker has come back. */
  ghost predicate Next<W>(s: Pool<W>, step: Step<W>, t: Pool<W>) {
    match step
    case Does(a) =>
      && Executor.Does(s.exec, a, t.exec)
      && (a.ShutdownEnded? ==> s.running == {})
      && t.running == (if a.Taken? then s.running + {a.entry.ticket} else s.running)
      && t.log == (if a.Taken? then s.log + [Start(a.entry, a.now)] else s.log)
    case Finish(ticket) => ticket in s.running && t == s.(running := s.running - {ticket})
  }

  ghost predicate IsRun<W>(states: seq<Pool<W>>, steps: seq<Step<W>>) {
    && |states| == |steps| + 1
    && (exists capacity :: states[0] == Pool(Exec(capacity, Constructed, {}, 0), {}, []))
    && forall k :: 0 <= k < |steps| ==> Next(states[k], steps[k], states[k + 1])
  }

  /** States from which work is never taken again. */
  predicate Retired(state: State) {
    state == Quiescing || state == Stopped || state == Failed
  }

  ghost predicate Inv<W>(s: Pool<W>) {
    && (forall e :: e in s.exec.entries ==> e.ticket < s.exec.next)
    && DistinctTickets(s.exec.entries)
    && (forall i :: 0 <= i < |s.log| ==>
          && s.log[i].entry.ticket < s.exec.next
          && s.log[i].entry.armed
          && s.log[i].entry.timestamp <= s.log[i].at)
    && (forall i, e :: 0 <= i < |s.log| && e in s.exec.entries ==>
          e.ticket != s.log[i].entry.ticket)
    && (forall i, j :: 0 <= i < j < |s.log| ==> s.log[i].entry.ticket != s.log[j].entry.ticket)
    && (s.running != {} ==> s.exec.state == Running || s.exec.state == Quiescing)
  }

  lemma TakenInv<W>(s: Pool<W>, e: Entry<W>, now: nat, t: Pool<W>)
    requires Inv(s) && Next(s, Does(Taken(e, now)), t)
    ensures Inv(t)
  {
  }

  lemma ScheduledInv<W>(s: Pool<W>, e: Entry<W>, timestamp: nat, t: Pool<W>)
    requires Inv(s) && Next(s, Does(Scheduled(e, timestamp)), t)
    ensures Inv(t)
  {
  }

  lemma QueueInv<W>(s: Pool<W>, a: Action<W>, t: Pool<W>)
    requires Inv(s) && Next(s, Does(a), t) && (a.Enqueued? || a.Withdrawn?)
    ensures Inv(t)
  {
  }

  /** Steps that leave the queue alone. */
  lemma QuietInv<W>(s: Pool<W>, t: Pool<W>)
    requires Inv(s) && t.log == s.log && t.running <= s.running
    requires t.exec == s.exec.(state := t.exec.state)
    requires t.running != {} ==> t.exec.state == Running || t.exec.state == Quiescing
    ensures Inv(t)
  {
  }

  lemma StateStep<W>(s: Pool<W>, a: Action<W>, t: Pool<W>)
    requires Inv(s) && Next(s, Does(a), t)
    requires !a.Taken? && !a.Scheduled? && !a.Enqueued? && !a.Withdrawn?
    ensures t.exec == s.exec.(state := t.exec.state) && t.log == s.log && t.running == s.running
    ensures t.running != {} ==> t.exec.state == Running || t.exec.state == Quiescing
  {
  }

  lemma StepInv<W>(s: Pool<W>, step: Step<W>, t: Pool<W>)
    requires Inv(s) && Next(s, step, t)
    ensures Inv(t)
  {
    if step.Finish? {
      QuietInv(s, t);
    } else {
      match step.action
      case Taken(e, now) => TakenInv(s, e, now, t);
      case Scheduled(e, timestamp) => ScheduledInv(s, e, timestamp, t);
      case Enqueued(_, _, _) => QueueInv(s, step.action, t);
      case Withdrawn(_) => QueueInv(s, step.action, t);
      case _ =>
        StateStep(s, step.action, t);
        QuietInv(s, t);
    }
  }

  lemma RetiredStep<W>(s: Pool<W>, step: Step<W>, t: Pool<W>)
    requires Next(s, step, t) && Retired(s.exec.state)
    ensures Retired(t.exec.state) && t.log == s.log && t.running <= s.running
  {
  }

  lemma {:induction false} RunInv<W>(states: seq<Pool<W>>, steps: seq<Step<W>>, k: nat)
    requires IsRun(states, steps) && k < |states|
    ensures Inv(states[k])
  {
    if k > 0 {
      RunInv(states, steps, k - 1);
      StepInv(states[k - 1], steps[k - 1], states[k]);
    }
  }

  /** In every run each accepted entry is started at most once, armed, and never early. */
  lemma AtMostOnce<W>(states: seq<Pool<W>>, steps: seq<Step<W>>, k: nat)
    requires IsRun(states, steps) && k < |states|
    ensures forall i, j :: 0 <= i < j < |states[k].log| ==>
              states[k].log[i].entry.ticket != states[k].log[j].entry.ticket
    ensures forall i :: 0 <= i < |states[k].log| ==>
              states[k].log[i].entry.armed &&
              states[k].log[i].entry.timestamp <= states[k].log[i].at
  {
    RunInv(states, steps, k);
  }

  /* ----------------------------------------------------------------- shutdown */

  /** A call of Shutdown returns: the one that joins, or one that finds nothing to do. */
  predicate Returns<W>(step: Step<W>) {
    step.Does? && (step.action.ShutdownEnded? || step.action.ShutdownAtOnce?)
  }

  lemma {:induction false} RetiredForever<W>(states: seq<Pool<W>>, steps: seq<Step<W>>, k: nat, m: nat)
    requires IsRun(states, steps) && k <= m < |states| && Retired(states[k].exec.state)
    ensures Retired(states[m].exec.state)
    ensures states[m].log == states[k].log && states[m].running <= states[k].running
    decreases m
  {
    if m > k {
      RetiredForever(states, steps, k, m - 1);
      RetiredStep(states[m - 1], steps[m - 1], states[m]);
    }
  }

  /** Once any call of Shutdown has returned, nothing is ever started again. */
  lemma NothingStartedAfterShutdown<W>(states: seq<Pool<W>>, steps: seq<Step<W>>, k: nat, m: nat)
    requires IsRun(states, steps) && k < |steps| && Returns(steps[k]) && k < m < |states|
    ensures states[m].log == states[k].log && states[m].running <= states[k].running
  {
    assert Next(states[k], steps[k], states[k + 1]);
    RetiredForever(states, steps, k + 1, m);
  }

  /** In a state a caller can ask for: stopped or failed means that nothing is in progress, ever. */
  lemma NothingAfterShutdown<W>(states: seq<Pool<W>>, steps: seq<Step<W>>, k: nat, m: nat)
    requires IsRun(states, steps) && k <= m < |states|
    requires states[k].exec.state == Stopped || states[k].exec.state == Failed
    ensures states[m].log == states[k].log && states[m].running == {}
  {
    RunInv(states, steps, k);
    RetiredForever(states, steps, k, m);
  }

  lemma Extended<W>(states: seq<Pool<W>>, steps: seq<Step<W>>, step: Step<W>, t: Pool<W>)
    requires IsRun(states, steps) && Next(states[|steps|], step, t)
    ensures IsRun(states + [t], steps + [step])
  {
    var more, longer := states + [t], steps + [step];
    forall k | 0 <= k < |longer| ensures Next(more[k], longer[k], more[k + 1]) {
      if k < |steps| { assert Next(states[k], steps[k], states[k + 1]); }
    }
    assert more[0] == states[0];
  }

  /** A run up to a running executor without work. */
  lemma Ready<W>() returns (states: seq<Pool<W>>, steps: seq<Step<W>>)
    ensures IsRun(states, steps) && states[|steps|] == Pool(Exec(1, Running, {}, 0), {}, [])
  {
    var s0: Pool<W> := Pool(Exec(1, Constructed, {}, 0), {}, []);
    var s1: Pool<W> := Pool(Exec(1, Prepared, {}, 0), {}, []);
    var s2: Pool<W> := Pool(Exec(1, Running, {}, 0), {}, []);
    states, steps := [s0], [];
    Extended(states, steps, Does(WorkersCreated), s1);
    states, steps := states + [s1], steps + [Does(WorkersCreated)];
    Extended(states, steps, Does(Activated), s2);
    states, steps := states + [s2], steps + [Does(Activated)];
  }

  /** A run up to an executor that is at work on its only entry. */
  lemma AtWork<W>(work: W) returns (states: seq<Pool<W>>, steps: seq<Step<W>>)
    ensures IsRun(states, steps)
    ensures states[|steps|].exec == Exec(1, Running, {}, 1) && states[|steps|].running == {0}
  {
    states, steps := Ready();
    var e := Entry(0, 0, work, true);
    var s3: Pool<W> := Pool(Exec(1, Running, {e}, 1), {}, []);
    assert {} + {e} == {e};
    Extended(states, steps, Does(Enqueued(work, 0, true)), s3);
    states, steps := states + [s3], steps + [Does(Enqueued(work, 0, true))];
    states, steps := Starting(states, steps, e);
  }

  lemma Starting<W>(states: seq<Pool<W>>, steps: seq<Step<W>>, e: Entry<W>)
    returns (more: seq<Pool<W>>, longer: seq<Step<W>>)
    requires IsRun(states, steps) && e == Entry(0, 0, e.work, true)
    requires states[|steps|] == Pool(Exec(1, Running, {e}, 1), {}, [])
    ensures IsRun(more, longer)
    ensures more[|longer|].exec == Exec(1, Running, {}, 1) && more[|longer|].running == {0}
  {
    var s4: Pool<W> := Pool(Exec(1, Running, {}, 1), {0}, [Start(e, 0)]);
    Alone(e);
    Extended(states, steps, Does(Taken(e, 0)), s4);
    more, longer := states + [s4], steps + [Does(Taken(e, 0))];
  }

  lemma Alone<W>(e: Entry<W>)
    ensures e.armed ==> IsNext(e, {e})
    ensures {e} - {e} == {}
  {
  }

  /** Such an early return is possible: the second call comes while the first is joining. */
  lemma EarlyReturn<W>(work: W) returns (states: seq<Pool<W>>, steps: seq<Step<W>>)
    ensures IsRun(states, steps) && steps != []
    ensures steps[|steps| - 1] == Does(ShutdownAtOnce) && states[|steps| - 1].exec.state == Quiescing
    ensures states[|steps|].running != {}
  {
    states, steps := AtWork(work);
    var s := states[|steps|];
    var t := s.(exec := Exec(1, Quiescing, {}, 1));
    Extended(states, steps, Does(ShutdownBegun), t);
    states, steps := states + [t], steps + [Does(ShutdownBegun)];
    Extended(states, steps, Does(ShutdownAtOnce), t);
    states, steps := states + [t], steps + [Does(ShutdownAtOnce)];
  }

  /** Step `k` is a call of Shutdown that finds `found` and returns at once. */
  ghost predicate ReturnsFrom<W>(states: seq<Pool<W>>, steps: seq<Step<W>>, k: nat, found: State) {
    && IsRun(states, steps) && k < |steps|
    && steps[k] == Does(ShutdownAtOnce) && states[k].exec.state == found
  }

  /**
   What a caller may conclude from a Shutdown that returned at once: nothing is in progress,
   whatever happened before, exactly if it did not find the executor quiescing.
   */
  lemma InProgressExactly<W(!new)>(found: State, work: W)
    ensures (forall states: seq<Pool<W>>, steps: seq<Step<W>>, k: nat ::
               ReturnsFrom(states, steps, k, found) ==> states[k + 1].running == {})
            <==> found != Quiescing
  {
    if found == Quiescing {
      var states, steps := EarlyReturn(work);
      assert ReturnsFrom(states, steps, |steps| - 1, Quiescing);
    } else {
      forall states: seq<Pool<W>>, steps: seq<Step<W>>, k: nat | ReturnsFrom(states, steps, k, found)
        ensures states[k + 1].running == {}
      {
        RunInv(states, steps, k);
        assert Next(states[k], steps[k], states[k + 1]);
      }
    }
  }

  /** And after the call that joined the workers nothing is. */
  lemma JoinedShutdown<W>(states: seq<Pool<W>>, steps: seq<Step<W>>, k: nat, m: nat)
    requires IsRun(states, steps) && k < |steps| && steps[k] == Does(ShutdownEnded) && k < m < |states|
    ensures states[m].running == {} && states[m].log == states[k].log
  {
    assert Next(states[k], steps[k], states[k + 1]);
    RetiredForever(states, steps, k + 1, m);
  }
}

/** What the executor's queue holds at any moment of any run, read off the steps alone. */
module ExecutorHistory {
  import opened Bytes
  import opened Executor
  import opened ExecutorRun

  predicate Enqueues<W>(step: Step<W>) {
    step.Does? && step.action.Enqueued?
  }

  /** The step sets another time for the entry with this ticket. */
  predicate Reschedules<W>(step: Step<W>, ticket: nat) {
    step.Does? && step.action.Scheduled? && step.action.entry.ticket == ticket
  }

  /** The step withdraws or starts the entry with this ticket. */
  predicate Ends<W>(step: Step<W>, ticket: nat) {
    step.Does? && (step.action.Withdrawn? || step.action.Taken?) && step.action.entry.ticket == ticket
  }

  /** How many of the first `k` steps enqueue something; tickets are given out in that order. */
  ghost function Given<W>(steps: seq<Step<W>>, k: nat): nat
    requires k <= |steps|
  {
    if k == 0 then 0 else Given(steps, k - 1) + if Enqueues(steps[k - 1]) then 1 else 0
  }

  /** Step `m` enqueued the entry's work under its ticket. */
  ghost predicate Origin<W>(steps: seq<Step<W>>, m: nat, entry: Entry<W>) {
    m < |steps| && Enqueues(steps[m]) && Given(steps, m) == entry.ticket && steps[m].action.work == entry.work
  }

  /** Step `s` gave the entry, enqueued by step `m`, the time it has, and is why it is armed or not. */
  ghost predicate Timing<W>(steps: seq<Step<W>>, m: nat, s: nat, entry: Entry<W>)
    requires Origin(steps, m, entry) && m <= s < |steps|
  {
    if s == m then entry.timestamp == steps[m].action.timestamp && entry.armed == steps[m].action.armed
    else Reschedules(steps[s], entry.ticket) && entry.timestamp == steps[s].action.timestamp && entry.armed
  }

  /** Nothing has set another time since step `s`, nor ended the entry since step `m`. */
  ghost predicate Untouched<W>(steps: seq<Step<W>>, k: nat, m: nat, s: nat, ticket: nat)
    requires k <= |steps|
  {
    && (forall i :: s < i < k ==> !Reschedules(steps[i], ticket))
    && (forall i :: m < i < k ==> !Ends(steps[i], ticket))
  }

  ghost predicate ToldBy<W>(steps: seq<Step<W>>, k: nat, entry: Entry<W>, m: nat, s: nat)
    requires k <= |steps|
  {
    m <= s < k && Origin(steps, m, entry) && Timing(steps, m, s, entry) && Untouched(steps, k, m, s, entry.ticket)
  }

  /** According to the first `k` steps the entry is queued, with this time, armed or not. */
  ghost predicate Told<W>(steps: seq<Step<W>>, k: nat, entry: Entry<W>)
    requires k <= |steps|
  {
    exists m: nat, s: nat :: ToldBy(steps, k, entry, m, s)
  }

  /* ------------------------------------------------------------------- one step */

  lemma ToldKept<W>(steps: seq<Step<W>>, k: nat, entry: Entry<W>)
    requires k < |steps| && Told(steps, k, entry)
    requires !Reschedules(steps[k], entry.ticket) && !Ends(steps[k], entry.ticket)
    ensures Told(steps, k + 1, entry)
  {
    var m: nat, s: nat :| ToldBy(steps, k, entry, m, s);
    assert ToldBy(steps, k + 1, entry, m, s);
  }

  lemma ToldAnew<W>(steps: seq<Step<W>>, k: nat, entry: Entry<W>, timestamp: nat)
    requires k < |steps| && Told(steps, k, entry)
    requires Reschedules(steps[k], entry.ticket) && steps[k].action.timestamp == timestamp
    ensures Told(steps, k + 1, entry.(timestamp := timestamp, armed := true))
  {
    var m: nat, s: nat :| ToldBy(steps, k, entry, m, s);
    var later := entry.(timestamp := timestamp, armed := true);
    assert Origin(steps, m, later) && Timing(steps, m, k, later);
    assert ToldBy(steps, k + 1, later, m, k);
  }

  lemma ToldFirst<W>(steps: seq<Step<W>>, k: nat, entry: Entry<W>)
    requires k < |steps| && Origin(steps, k, entry)
    requires entry.timestamp == steps[k].action.timestamp && entry.armed == steps[k].action.armed
    ensures Told(steps, k + 1, entry)
  {
    assert ToldBy(steps, k + 1, entry, k, k);
  }

  /* -------------------------------------------------------------------- one story */

  lemma {:induction false} GivenGrows<W>(steps: seq<Step<W>>, i: nat, j: nat)
    requires i < j <= |steps| && Enqueues(steps[i])
    ensures Given(steps, i) < Given(steps, j)
    decreases j
  {
    if i + 1 < j { GivenGrows(steps, i, j - 1); }
  }

  /** A ticket has one origin, and so the steps tell of one entry at most. */
  lemma OneStory<W>(steps: seq<Step<W>>, k: nat, a: Entry<W>, b: Entry<W>)
    requires k <= |steps| && Told(steps, k, a) && Told(steps, k, b) && a.ticket == b.ticket
    ensures a == b
  {
    var m: nat, s: nat :| ToldBy(steps, k, a, m, s);
    var n: nat, t: nat :| ToldBy(steps, k, b, n, t);
    if m < n { GivenGrows(steps, m, n); }
    if n < m { GivenGrows(steps, n, m); }
    assert s == t;
  }

  /* --------------------------------------------------------------------- whole runs */

  ghost predicate Ended<W>(steps: seq<Step<W>>, k: nat, ticket: nat)
    requires k <= |steps|
  {
    exists i :: 0 <= i < k && Ends(steps[i], ticket)
  }

  ghost predicate Holds<W>(entries: set<Entry<W>>, ticket: nat) {
    exists e :: e in entries && e.ticket == ticket
  }

  ghost predicate History<W>(exec: Exec<W>, steps: seq<Step<W>>, k: nat)
    requires k <= |steps|
  {
    && exec.next == Given(steps, k)
    && (forall e :: e in exec.entries ==> Told(steps, k, e))
    && (forall t: nat :: t < exec.next && !Ended(steps, k, t) ==> Holds(exec.entries, t))
  }

  lemma EndedKept<W>(steps: seq<Step<W>>, k: nat, ticket: nat)
    requires k < |steps|
    ensures Ended(steps, k + 1, ticket) <==> Ended(steps, k, ticket) || Ends(steps[k], ticket)
  {
  }

  lemma EnqueuedHistory<W>(e: Exec<W>, steps: seq<Step<W>>, k: nat, work: W, timestamp: nat, armed: bool, f: Exec<W>)
    requires k < |steps| && steps[k] == Step.Does(Enqueued(work, timestamp, armed)) && History(e, steps, k)
    requires f == e.(entries := e.entries + {Entry(timestamp, e.next, work, armed)}, next := e.next + 1)
    ensures History(f, steps, k + 1)
  {
    var entry := Entry(timestamp, e.next, work, armed);
    ToldFirst(steps, k, entry);
    forall x | x in f.entries ensures Told(steps, k + 1, x) {
      if x != entry { ToldKept(steps, k, x); }
    }
    forall t: nat | t < f.next && !Ended(steps, k + 1, t) ensures Holds(f.entries, t) {
      EndedKept(steps, k, t);
      if t == e.next { assert entry in f.entries; } else { StillHeld(e.entries, f.entries, t); }
    }
  }

  lemma StillHeld<W>(before: set<Entry<W>>, after: set<Entry<W>>, ticket: nat)
    requires Holds(before, ticket) && forall x :: x in before && x.ticket == ticket ==> x in after
    ensures Holds(after, ticket)
  {
  }

  lemma ScheduledHistory<W>(e: Exec<W>, steps: seq<Step<W>>, k: nat, entry: Entry<W>, timestamp: nat, f: Exec<W>)
    requires k < |steps| && steps[k] == Step.Does(Scheduled(entry, timestamp)) && History(e, steps, k)
    requires entry in e.entries && DistinctTickets(e.entries)
    requires f == e.(entries := e.entries - {entry} + {entry.(timestamp := timestamp, armed := true)})
    ensures History(f, steps, k + 1)
  {
    var later := entry.(timestamp := timestamp, armed := true);
    ToldAnew(steps, k, entry, timestamp);
    forall x | x in f.entries ensures Told(steps, k + 1, x) {
      if x != later { ToldKept(steps, k, x); }
    }
    forall t: nat | t < f.next && !Ended(steps, k + 1, t) ensures Holds(f.entries, t) {
      EndedKept(steps, k, t);
      if t == entry.ticket { assert later in f.entries; } else { StillHeld(e.entries, f.entries, t); }
    }
  }

  lemma EndedHistory<W>(e: Exec<W>, steps: seq<Step<W>>, k: nat, entry: Entry<W>, f: Exec<W>)
    requires k < |steps| && Ends(steps[k], entry.ticket) && History(e, steps, k)
    requires entry in e.entries && DistinctTickets(e.entries) && f == e.(entries := e.entries - {entry})
    ensures History(f, steps, k + 1)
  {
    forall x | x in f.entries ensures Told(steps, k + 1, x) { ToldKept(steps, k, x); }
    forall t: nat | t < f.next && !Ended(steps, k + 1, t) ensures Holds(f.entries, t) {
      EndedKept(steps, k, t);
      StillHeld(e.entries, f.entries, t);
    }
  }

  lemma QuietHistory<W>(e: Exec<W>, steps: seq<Step<W>>, k: nat, f: Exec<W>)
    requires k < |steps| && History(e, steps, k) && f == e.(state := f.state)
    requires steps[k].Finish? || !(steps[k].action.Enqueued? || steps[k].action.Scheduled? || steps[k].action.Withdrawn? || steps[k].action.Taken?)
    ensures History(f, steps, k + 1)
  {
    forall x | x in f.entries ensures Told(steps, k + 1, x) { ToldKept(steps, k, x); }
    forall t: nat | t < f.next && !Ended(steps, k + 1, t) ensures Holds(f.entries, t) { EndedKept(steps, k, t); }
  }

  lemma ActionHistory<W>(e: Exec<W>, steps: seq<Step<W>>, k: nat, a: Action<W>, f: Exec<W>)
    requires k < |steps| && steps[k] == Step.Does(a) && Executor.Does(e, a, f)
    requires History(e, steps, k) && DistinctTickets(e.entries)
    ensures History(f, steps, k + 1)
  {
    match a
    case Enqueued(work, timestamp, armed) => EnqueuedHistory(e, steps, k, work, timestamp, armed, f);
    case Scheduled(entry, timestamp) => ScheduledHistory(e, steps, k, entry, timestamp, f);
    case Withdrawn(entry) => EndedHistory(e, steps, k, entry, f);
    case Taken(entry, _) => EndedHistory(e, steps, k, entry, f);
    case _ =>
      SameQueue(e, a, f);
      QuietHistory(e, steps, k, f);
  }

  lemma SameQueue<W>(e: Exec<W>, a: Action<W>, f: Exec<W>)
    requires Executor.Does(e, a, f) && !a.Enqueued? && !a.Scheduled? && !a.Withdrawn? && !a.Taken?
    ensures f == e.(state := f.state)
  {
  }

  lemma HistoryStep<W>(s: Pool<W>, steps: seq<Step<W>>, k: nat, t: Pool<W>)
    requires k < |steps| && Inv(s) && Next(s, steps[k], t) && History(s.exec, steps, k)
    ensures History(t.exec, steps, k + 1)
  {
    if steps[k].Finish? {
      QuietHistory(s.exec, steps, k, t.exec);
    } else {
      ActionHistory(s.exec, steps, k, steps[k].action, t.exec);
    }
  }

  lemma {:induction false} RunHistory<W>(states: seq<Pool<W>>, steps: seq<Step<W>>, k: nat)
    requires IsRun(states, steps) && k < |states|
    ensures History(states[k].exec, steps, k)
  {
    if k > 0 {
      RunHistory(states, steps, k - 1);
      RunInv(states, steps, k - 1);
      HistoryStep(states[k - 1], steps, k - 1, states[k]);
    }
  }

  lemma {:induction false} GivenKept<W>(steps: seq<Step<W>>, i: nat, j: nat)
    requires i <= j <= |steps|
    ensures Given(steps, i) <= Given(steps, j)
    decreases j
  {
    if i < j { GivenKept(steps, i, j - 1); }
  }

  lemma ToldIsGiven<W>(steps: seq<Step<W>>, k: nat, entry: Entry<W>)
    requires k <= |steps| && Told(steps, k, entry)
    ensures entry.ticket < Given(steps, k)
  {
    var m: nat, s: nat :| ToldBy(steps, k, entry, m, s);
    GivenGrows(steps, m, k);
  }

  /** Only a ticket that has been given out is ended. */
  lemma EndsGiven<W>(states: seq<Pool<W>>, steps: seq<Step<W>>, i: nat, ticket: nat)
    requires IsRun(states, steps) && i < |steps| && Ends(steps[i], ticket)
    ensures ticket < Given(steps, i)
  {
    assert Next(states[i], steps[i], states[i + 1]);
    RunHistory(states, steps, i);
    ToldIsGiven(steps, i, steps[i].action.entry);
  }

  lemma NotEnded<W>(states: seq<Pool<W>>, steps: seq<Step<W>>, k: nat, entry: Entry<W>)
    requires IsRun(states, steps) && k < |states| && Told(steps, k, entry)
    ensures entry.ticket < Given(steps, k) && !Ended(steps, k, entry.ticket)
  {
    ToldIsGiven(steps, k, entry);
    var m: nat, s: nat :| ToldBy(steps, k, entry, m, s);
    forall i | 0 <= i < k ensures !Ends(steps[i], entry.ticket) {
      if i < m && Ends(steps[i], entry.ticket) {
        EndsGiven(states, steps, i, entry.ticket);
        GivenKept(steps, i, m);
      }
    }
  }

  /**
   At every moment the queue holds exactly the entries that were enqueued and neither withdrawn
   nor started since, each with the work it was enqueued with, under the number of things
   enqueued before it, and with the time it was last given; it is armed exactly if it was
   enqueued so or has been scheduled.
   */
  lemma QueueTheorem<W>(states: seq<Pool<W>>, steps: seq<Step<W>>, k: nat, entry: Entry<W>)
    requires IsRun(states, steps) && k < |states|
    ensures entry in states[k].exec.entries <==> Told(steps, k, entry)
  {
    RunHistory(states, steps, k);
    if Told(steps, k, entry) {
      NotEnded(states, steps, k, entry);
      var e :| e in states[k].exec.entries && e.ticket == entry.ticket;
      OneStory(steps, k, e, entry);
    }
  }

  /**
   Work is started no earlier than the time it was last given, not after it was withdrawn or
   started, and before every other armed entry of the queue unless that one is due later.
   */
  lemma StartTheorem<W>(states: seq<Pool<W>>, steps: seq<Step<W>>, k: nat, entry: Entry<W>, now: nat)
    requires IsRun(states, steps) && k < |steps| && steps[k] == Step.Does(Taken(entry, now))
    ensures Told(steps, k, entry) && entry.armed && entry.timestamp <= now
    ensures forall other :: Told(steps, k, other) && other.armed && other != entry ==>
              entry.timestamp < other.timestamp
              || (entry.timestamp == other.timestamp && entry.ticket < other.ticket)
  {
    assert Next(states[k], steps[k], states[k + 1]);
    QueueTheorem(states, steps, k, entry);
    forall other | Told(steps, k, other) && other.armed && other != entry
      ensures entry.timestamp < other.timestamp
              || (entry.timestamp == other.timestamp && entry.ticket < other.ticket)
    {
      QueueTheorem(states, steps, k, other);
    }
  }
}

/**
 The application gate of the CAN link control plane. What the plane has seen is a list of
 events; the gate is defined over that list, and the object's fields are shown to say the same.
 */
module LinkControl {
  import opened Bytes
  import opened CanProtocol
  import opened ControlPlane

  datatype Event =
    | Polled(now: U64)
    | Greeted(remote: Handshake)        // a handshake of the peer was decoded
    | Beat(sequence: nat, time: U64)    // a heartbeat was accepted
    | Restarted                         // the peer was found to have restarted
    | Synced                            // a time sync was observed

  datatype Config = Config(local: Handshake, peer: nat, authority: bool, timeout: nat, recovery: nat)
  {
    predicate Sensible() { recovery >= 1 && local.Typed() }
  }

  /* ------------------------------------------------- the gate, from the events */

  /** What has been seen since the last restart of the peer. */
  function Recent(seen: seq<Event>): (recent: seq<Event>)
    ensures forall k :: 0 <= k < |recent| ==> !recent[k].Restarted?
  {
    if seen == [] then []
    else if seen[|seen| - 1].Restarted? then []
    else Recent(seen[..|seen| - 1]) + [seen[|seen| - 1]]
  }

  function LastGreeting(h: seq<Event>): Option<Handshake> {
    if h == [] then None
    else if h[|h| - 1].Greeted? then Some(h[|h| - 1].remote)
    else LastGreeting(h[..|h| - 1])
  }

  /** Where the accepted heartbeats are in the list. */
  function Beats(h: seq<Event>): (at: seq<nat>)
    ensures forall k :: 0 <= k < |at| ==> at[k] < |h| && h[at[k]].Beat?
  {
    if h == [] then []
    else Beats(h[..|h| - 1]) + if h[|h| - 1].Beat? then [|h| - 1] else []
  }

  /** A poll that finds no heartbeat, or the last one too long ago on a 64-bit clock. */
  predicate LosesLink(h: seq<Event>, k: nat, timeout: nat)
    requires k < |h|
  {
    h[k].Polled? &&
    var before := Beats(h[..k]);
    before == [] || (h[k].now - h[before[|before| - 1]].time) % (U64_MAX + 1) >= timeout
  }

  ghost predicate AreBeats(h: seq<Event>, at: seq<nat>) {
    forall k :: 0 <= k < |at| ==> at[k] < |h| && h[at[k]].Beat?
  }

  /** The heartbeat at `at[k]` is the one after `at[k - 1]`. */
  predicate InStep(h: seq<Event>, at: seq<nat>, k: nat)
    requires 0 < k < |at| && AreBeats(h, at)
  {
    h[at[k]].sequence == Successor(h[at[k - 1]].sequence)
  }

  ghost predicate Consecutive(h: seq<Event>, at: seq<nat>, first: nat)
    requires AreBeats(h, at)
  {
    forall k :: first < k < |at| ==> InStep(h, at, k)
  }

  ghost predicate Unbroken(h: seq<Event>, from: nat, timeout: nat) {
    forall k :: from <= k < |h| ==> !LosesLink(h, k, timeout)
  }

  /** The last `n` accepted heartbeats were consecutive and no poll since the first of them lost the link. */
  ghost predicate Steady(h: seq<Event>, n: nat, timeout: nat)
    requires n >= 1
  {
    |Beats(h)| >= n && SteadyFrom(h, Beats(h), |Beats(h)| - n, timeout)
  }

  ghost predicate SteadyFrom(h: seq<Event>, at: seq<nat>, first: nat, timeout: nat)
    requires AreBeats(h, at) && first < |at|
  {
    Consecutive(h, at, first) && Unbroken(h, at[first], timeout)
  }

  ghost predicate Gate(c: Config, seen: seq<Event>)
    requires c.Sensible()
  {
    var h := Recent(seen);
    && LastGreeting(h).Some? && Check(c.local, LastGreeting(h).value) == Compatible
    && Steady(h, c.recovery, c.timeout)
    && (c.authority || Synced in h)
  }

  /* --------------------------------------------- the monitor computes Steady */

  /** How many heartbeats in a row, without the saturation of the monitor's counter. */
  function Streak(h: seq<Event>, timeout: nat): nat {
    if h == [] then 0
    else
      var n := |h| - 1;
      var before := Streak(h[..n], timeout);
      if h[n].Beat? then
        var at := Beats(h[..n]);
        if before == 0 || at == [] || h[n].sequence != Successor(h[at[|at| - 1]].sequence) then 1 else before + 1
      else if LosesLink(h, n, timeout) then 0
      else before
  }

  lemma LosesLinkSame(h: seq<Event>, e: Event, k: nat, timeout: nat)
    requires k < |h|
    ensures LosesLink(h + [e], k, timeout) == LosesLink(h, k, timeout)
  {
    assert (h + [e])[..k] == h[..k];
  }

  lemma BeatsAppend(h: seq<Event>, e: Event)
    ensures Beats(h + [e]) == Beats(h) + if e.Beat? then [|h|] else []
  {
    assert (h + [e])[..|h|] == h;
  }

  lemma UnbrokenAppend(h: seq<Event>, e: Event, from: nat, timeout: nat)
    requires from <= |h|
    ensures Unbroken(h + [e], from, timeout) <==> Unbroken(h, from, timeout) && !LosesLink(h + [e], |h|, timeout)
  {
    forall k | 0 <= k < |h| ensures LosesLink(h + [e], k, timeout) == LosesLink(h, k, timeout) {
      LosesLinkSame(h, e, k, timeout);
    }
  }

  lemma ConsecutiveSame(h: seq<Event>, e: Event, at: seq<nat>, first: nat)
    requires AreBeats(h, at)
    ensures AreBeats(h + [e], at) && (Consecutive(h + [e], at, first) <==> Consecutive(h, at, first))
  {
    forall k | 0 < k < |at| ensures InStep(h + [e], at, k) == InStep(h, at, k) {
      assert at[k - 1] < |h|;
    }
  }

  /** The new heartbeat follows the last one. */
  predicate Follows(h: seq<Event>, e: Event) {
    && e.Beat? && Beats(h) != []
    && e.sequence == Successor(h[Beats(h)[|Beats(h)| - 1]].sequence)
  }

  lemma ConsecutiveMore(g: seq<Event>, at: seq<nat>, last: nat, first: nat)
    requires AreBeats(g, at + [last])
    ensures AreBeats(g, at)
    ensures Consecutive(g, at + [last], first)
       <==> Consecutive(g, at, first) && (first < |at| ==> InStep(g, at + [last], |at|))
  {
    var all := at + [last];
    forall k | 0 <= k < |at| ensures at[k] < |g| && g[at[k]].Beat? {
      assert all[k] == at[k];
    }
    forall k | 0 < k < |at| ensures InStep(g, all, k) == InStep(g, at, k) {
      assert all[k - 1] == at[k - 1];
    }
  }

  lemma SteadyFromOther(h: seq<Event>, e: Event, at: seq<nat>, first: nat, timeout: nat)
    requires AreBeats(h, at) && first < |at|
    ensures AreBeats(h + [e], at)
    ensures SteadyFrom(h + [e], at, first, timeout)
       <==> SteadyFrom(h, at, first, timeout) && !LosesLink(h + [e], |h|, timeout)
  {
    ConsecutiveSame(h, e, at, first);
    UnbrokenAppend(h, e, at[first], timeout);
  }

  lemma BeatsOther(h: seq<Event>, e: Event)
    requires !e.Beat?
    ensures Beats(h + [e]) == Beats(h)
  {
    BeatsAppend(h, e);
  }

  lemma SteadyOther(h: seq<Event>, e: Event, n: nat, timeout: nat)
    requires n >= 1 && !e.Beat?
    ensures Steady(h + [e], n, timeout) <==> Steady(h, n, timeout) && !LosesLink(h + [e], |h|, timeout)
  {
    BeatsOther(h, e);
    if |Beats(h)| >= n { SteadyFromOther(h, e, Beats(h), |Beats(h)| - n, timeout); }
  }

  lemma OneIsSteady(h: seq<Event>, e: Event, timeout: nat)
    requires e.Beat?
    ensures Steady(h + [e], 1, timeout)
  {
    BeatsAppend(h, e);
    var g := h + [e];
    assert Beats(g)[|Beats(h)|] == |h| && !LosesLink(g, |h|, timeout);
  }

  lemma StepIsFollows(h: seq<Event>, e: Event)
    requires e.Beat? && Beats(h) != []
    ensures AreBeats(h + [e], Beats(h) + [|h|])
    ensures InStep(h + [e], Beats(h) + [|h|], |Beats(h)|) <==> Follows(h, e)
  {
    var at, g := Beats(h), h + [e];
    forall k | 0 <= k < |at| ensures g[at[k]] == h[at[k]] {
    }
  }

  lemma SteadyFromMore(h: seq<Event>, e: Event, at: seq<nat>, first: nat, timeout: nat)
    requires e.Beat? && AreBeats(h, at) && first < |at| && AreBeats(h + [e], at + [|h|])
    ensures SteadyFrom(h + [e], at + [|h|], first, timeout)
       <==> SteadyFrom(h, at, first, timeout) && InStep(h + [e], at + [|h|], |at|)
  {
    ConsecutiveMore(h + [e], at, |h|, first);
    ConsecutiveSame(h, e, at, first);
    UnbrokenAppend(h, e, at[first], timeout);
  }

  lemma SteadyBeat(h: seq<Event>, e: Event, n: nat, timeout: nat)
    requires n >= 2 && e.Beat?
    ensures Steady(h + [e], n, timeout) <==> Follows(h, e) && Steady(h, n - 1, timeout)
  {
    BeatsAppend(h, e);
    var at := Beats(h);
    if |at| >= n - 1 {
      var first := |at| - (n - 1);
      StepIsFollows(h, e);
      SteadyFromMore(h, e, at, first, timeout);
      SteadyInTerms(h, n - 1, timeout, at, first, SteadyFrom(h, at, first, timeout));
      SteadyInTerms(h + [e], n, timeout, at + [|h|], first, SteadyFrom(h + [e], at + [|h|], first, timeout));
    }
  }

  lemma SteadyInTerms(h: seq<Event>, n: nat, timeout: nat, at: seq<nat>, first: nat, from: bool)
    requires n >= 1 && at == Beats(h) && first == |at| - n && first < |at|
    requires from == SteadyFrom(h, at, first, timeout)
    ensures Steady(h, n, timeout) == from
  {
    assert |Beats(h)| - n == first;
    assert SteadyFrom(h, Beats(h), |Beats(h)| - n, timeout) == from;
  }

  /** Counting heartbeats in a row decides exactly whether the link is steady. */
  lemma {:induction false} SteadyIsStreak(h: seq<Event>, n: nat, timeout: nat)
    requires n >= 1
    ensures Steady(h, n, timeout) <==> Streak(h, timeout) >= n
    decreases |h|
  {
    if h != [] {
      var before, e := h[..|h| - 1], h[|h| - 1];
      assert before + [e] == h;
      if e.Beat? {
        if n == 1 {
          OneIsSteady(before, e, timeout);
        } else {
          SteadyBeat(before, e, n, timeout);
          SteadyIsStreak(before, n - 1, timeout);
        }
      } else {
        SteadyOther(before, e, n, timeout);
        SteadyIsStreak(before, n, timeout);
      }
    }
  }

  /* ---------------------------------------------- the fields against the events */

  function Min(a: nat, b: nat): nat {
    if a <= b then a else b
  }

  /** The monitor's counter is the streak, stopped at the number of samples it asks for. */
  ghost predicate Tracks(m: Monitor, h: seq<Event>, c: Config) {
    var at, streak := Beats(h), Streak(h, c.timeout);
    && m.timeout == c.timeout && m.recovery == c.recovery
    && (m.observed <==> at != [])
    && (at != [] ==> m.sequence == h[at[|at| - 1]].sequence && m.time == h[at[|at| - 1]].time)
    && m.samples == Min(streak, c.recovery)
    && (m.state == Lost <==> streak == 0)
    && (m.state == Online <==> streak >= c.recovery)
  }

  lemma TracksBeat(m: Monitor, h: seq<Event>, c: Config, sequence: nat, now: U64)
    requires Tracks(m, h, c) && c.Sensible()
    ensures Tracks(m.Observe(sequence, now), h + [Beat(sequence, now)], c)
  {
    var g := h + [Beat(sequence, now)];
    BeatsAppend(h, Beat(sequence, now));
    assert g[..|h|] == h;
  }

  lemma TracksPoll(m: Monitor, h: seq<Event>, c: Config, now: U64)
    requires Tracks(m, h, c) && c.Sensible()
    ensures Tracks(m.Poll(now), h + [Polled(now)], c)
  {
    var g, at := h + [Polled(now)], Beats(h);
    BeatsAppend(h, Polled(now));
    assert g[..|h|] == h;
    assert Beats(g) == at;
    assert at != [] ==> g[at[|at| - 1]] == h[at[|at| - 1]];
    ElapsedWraps(m.time, now);
  }

  lemma ElapsedWraps(from: U64, to: U64)
    ensures Elapsed(from, to) == (to - from) % (U64_MAX + 1)
  {
  }

  lemma TracksOther(m: Monitor, h: seq<Event>, c: Config, e: Event)
    requires Tracks(m, h, c) && !e.Beat? && !e.Polled?
    ensures Tracks(m, h + [e], c)
  {
    var g, at := h + [e], Beats(h);
    BeatsAppend(h, e);
    assert g[..|h|] == h;
    assert Beats(g) == at;
    assert at != [] ==> g[at[|at| - 1]] == h[at[|at| - 1]];
  }

  /** The fields the gate is computed from. */
  datatype Knowledge = Knowledge(monitor: Monitor, greeting: Option<Compatibility>, synchronized: bool)

  ghost predicate Agrees(k: Knowledge, h: seq<Event>, c: Config) {
    && Tracks(k.monitor, h, c)
    && (k.greeting.Some? <==> LastGreeting(h).Some?)
    && (k.greeting.Some? ==> k.greeting.value == Check(c.local, LastGreeting(h).value))
    && (k.synchronized <==> Synced in h)
  }

  function Learn(k: Knowledge, c: Config, e: Event): Knowledge {
    match e
    case Polled(now) => k.(monitor := k.monitor.Poll(now))
    case Greeted(remote) => k.(greeting := Some(Check(c.local, remote)))
    case Beat(sequence, time) => k.(monitor := k.monitor.Observe(sequence, time))
    case Restarted => Fresh(c)
    case Synced => k.(synchronized := true)
  }

  function Fresh(c: Config): Knowledge {
    Knowledge(NewMonitor(c.timeout, c.recovery), None, false)
  }

  lemma RecentAppend(seen: seq<Event>, e: Event)
    ensures Recent(seen + [e]) == if e.Restarted? then [] else Recent(seen) + [e]
  {
    assert (seen + [e])[..|seen|] == seen;
  }

  /** Each event changes the fields as it changes the list. */
  lemma LearnAgrees(k: Knowledge, seen: seq<Event>, c: Config, e: Event)
    requires Agrees(k, Recent(seen), c) && c.Sensible()
    ensures Agrees(Learn(k, c, e), Recent(seen + [e]), c)
  {
    RecentAppend(seen, e);
    var h := Recent(seen);
    if !e.Restarted? {
      assert (h + [e])[..|h|] == h;
      match e
      case Polled(now) => TracksPoll(k.monitor, h, c, now);
      case Beat(sequence, time) => TracksBeat(k.monitor, h, c, sequence, time);
      case _ => TracksOther(k.monitor, h, c, e);
    }
  }

  function Open(k: Knowledge, c: Config): bool {
    k.greeting == Some(Compatible) && k.monitor.state == Online && (c.authority || k.synchronized)
  }

  /** Computed from fields that agree with the list, the flag is the gate. */
  lemma OpenIsGate(k: Knowledge, seen: seq<Event>, c: Config)
    requires Agrees(k, Recent(seen), c) && c.Sensible()
    ensures Open(k, c) <==> Gate(c, seen)
  {
    SteadyIsStreak(Recent(seen), c.recovery, c.timeout);
  }
}

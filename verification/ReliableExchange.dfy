/**
 A message from one end of the reliable path to the other and back: what the sender offers, when it
 offers it again, what completes it, and that a message whose frames were partly lost gets through
 with the next attempt.
 */
module ReliableExchange {
  import opened Bytes
  import opened CanProtocol
  import opened Fragments
  import opened ReliablePath
  import opened ReliableFeed

  /* -------------------------------------------------------------- one attempt */

  /** Fetch a frame and report it written. */
  function FetchOne(s: Sender): (Sender, Option<CanFrame>)
    requires s.Valid()
  {
    var (fetched, frame) := s.NextFrame();
    (if fetched.pending.Some? then fetched.OnFrameWrite(fetched.pending.value.token, true) else fetched, frame)
  }

  /** The sender after `n` frames that were all taken, and those frames. */
  ghost function Offered(s: Sender, n: nat): (Sender, seq<CanFrame>)
    requires s.Valid()
    ensures Offered(s, n).0.Valid()
  {
    if n == 0 then (s, [])
    else
      var (before, frames) := Offered(s, n - 1);
      var (after, frame) := FetchOne(before);
      assert after.Valid() by { FetchKeeps(before); }
      (after, if frame.Some? then frames + [frame.value] else frames)
  }

  lemma FetchKeeps(s: Sender)
    requires s.Valid()
    ensures FetchOne(s).0.Valid()
  {
  }

  ghost function Carried(s: Sender): Sent {
    Sent(s.id, s.sequence, s.payload)
  }

  ghost function AllFrames(m: Sent, n: nat): seq<CanFrame>
    requires n <= Count(m.payload) <= MAXIMUM_FRAGMENTS
  {
    seq(n, i requires 0 <= i < n => m.Frame(i))
  }

  /** A message about to be sent, from its first frame on. */
  ghost predicate AtStart(s: Sender) {
    s.Valid() && s.state == Sending && s.next == 0 && s.pending.None?
  }

  lemma FetchesOne(s: Sender)
    requires s.Valid() && s.state == Sending && s.pending.None?
    ensures FetchOne(s).1 == Some(Carried(s).Frame(s.next))
    ensures FetchOne(s).0 == s.(next := s.next + 1, lastToken := s.NextToken(),
                                state := if s.next + 1 == Count(s.payload) then WaitingForAck else Sending)
  {
  }

  ghost predicate Underway(s: Sender, t: Sender, n: nat) {
    && t.Valid()
    && t == s.(next := n, lastToken := t.lastToken, state := if n == Count(s.payload) then WaitingForAck else Sending)
  }

  ghost predicate Reached(s: Sender, n: nat, t: Sender, frames: seq<CanFrame>)
    requires n <= Count(s.payload) <= MAXIMUM_FRAGMENTS
  {
    Underway(s, t, n) && frames == AllFrames(Carried(s), n)
  }

  /** An attempt offers the frames of the message in order, once each, and then waits. */
  lemma {:induction false} AttemptTheorem(s: Sender, n: nat)
    requires AtStart(s) && n <= Count(s.payload)
    ensures Reached(s, n, Offered(s, n).0, Offered(s, n).1)
  {
    if n == 0 {
      AttemptBegins(s);
    } else {
      AttemptTheorem(s, n - 1);
      var (t, frames) := Offered(s, n - 1);
      var after, frame := AttemptStep(s, n - 1, t, frames);
      OfferedMore(s, n - 1, t, frames, after, frame);
    }
  }

  lemma AttemptBegins(s: Sender)
    requires AtStart(s)
    ensures Reached(s, 0, s, [])
  {
  }

  lemma AttemptStep(s: Sender, n: nat, t: Sender, frames: seq<CanFrame>) returns (after: Sender, frame: CanFrame)
    requires AtStart(s) && n < Count(s.payload) && t.Valid() && Reached(s, n, t, frames)
    ensures FetchOne(t) == (after, Some(frame)) && Reached(s, n + 1, after, frames + [frame])
  {
    FetchesOne(t);
    FetchKeeps(t);
    FramesMore(Carried(s), n);
    after, frame := FetchOne(t).0, FetchOne(t).1.value;
  }

  lemma FramesMore(m: Sent, n: nat)
    requires n < Count(m.payload) <= MAXIMUM_FRAGMENTS
    ensures AllFrames(m, n + 1) == AllFrames(m, n) + [m.Frame(n)]
  {
  }

  lemma OfferedMore(s: Sender, n: nat, t: Sender, frames: seq<CanFrame>, after: Sender, frame: CanFrame)
    requires s.Valid() && t.Valid() && Offered(s, n) == (t, frames) && FetchOne(t) == (after, Some(frame))
    ensures Offered(s, n + 1) == (after, frames + [frame])
  {
  }

  /** What Begin asks, and what it makes of the sender. */
  lemma BeginExactly(s: Sender, route: nat, priority: nat, sequence: nat, payload: seq<Byte>, now: U64,
                     timeout: U64, retries: nat)
    requires s.Valid()
    ensures var (t, status) := s.Begin(route, priority, sequence, payload, now, timeout, retries);
            && (status == Ok <==>
                  && s.state != Sending && s.state != WaitingForAck && 1 <= route <= 511 && priority <= 3
                  && sequence <= 15 && timeout > 0 && 1 <= |payload| <= 96 && |payload| <= s.maximum)
            && (status == Ok ==>
                  && AtStart(t) && Carried(t) == Sent(512 * priority + route, sequence, payload)
                  && t.timeout == timeout && t.maximumRetries == retries && t.retries == 0)
            && (status != Ok ==> t == s.(id := t.id))
  {
    IdRoundTrip(priority, route);
  }

  /* ---------------------------------------------------------- the acknowledgement */

  /** A message that waits is completed by one frame: its acknowledgement. */
  lemma AckExactly(s: Sender, frame: CanFrame)
    requires s.Valid() && s.state == WaitingForAck
    ensures s.HandleAck(frame) ==
            if frame == CanFrame(s.id, [0x90 + s.sequence]) then (s.(state := Complete, pending := None), Ok)
            else (s, InvalidArgument)
  {
    if |frame.data| == 1 { AckByte(frame.data[0], s.sequence); }
  }

  lemma AckByte(byte: Byte, sequence: nat)
    requires sequence < 16
    ensures Kind(byte) == Reliable && HeaderSubtype(byte) == Ack && byte % 16 == sequence <==> byte == 0x90 + sequence
  {
  }

  /**
   Without losses: the frames a sender offers for a message the receiver takes end in an
   acknowledgement that completes it, and the message is handed up unless it was before.
   */
  lemma ExchangeTheorem(s: Sender, r: Receiver)
    requires AtStart(s) && Carried(s).Fits(r.maximum) && Replaces(r, Carried(s)) && !Stale(r, Carried(s))
    ensures var m, waiting := Carried(s), Offered(s, Count(s.payload)).0;
            var replies := Fed(r, m).1;
            && Offered(s, Count(s.payload)).1 == AllFrames(m, Count(s.payload))
            && replies[|replies| - 1].ack.Some?
            && waiting.HandleAck(replies[|replies| - 1].ack.value).1 == Ok
            && (r.last != Some(Finished(m.id, m.sequence)) ==> replies[|replies| - 1] == HandedUp(m))
  {
    var m, n := Carried(s), Count(s.payload);
    AttemptTheorem(s, n);
    FeedTheorem(r, m);
    NotBoth(r, m);
    ConcludesUp(r, m);
    assert Fed(r, m).1 == Quiets(n - 1) + [Conclusion(r, m)];
    AckCompletes(Offered(s, n).0, r, m);
  }

  /* ----------------------------------------------------------------- with losses */

  /** The events are frames of a message, in any order and any number of times. */
  ghost function Arriving(m: Sent, arrivals: seq<nat>): Reaction
    requires Count(m.payload) <= MAXIMUM_FRAGMENTS
  {
    (r: Receiver, i: nat) =>
      if i < |arrivals| && arrivals[i] < Count(m.payload) then r.AcceptFrame(m.Frame(arrivals[i]), None) else (r, Quiet())
  }

  ghost function Indices(arrivals: seq<nat>, n: nat): (have: set<nat>)
    requires n <= |arrivals|
    ensures forall i :: i in have ==> i in arrivals
  {
    if n == 0 then {} else Indices(arrivals, n - 1) + {arrivals[n - 1]}
  }

  lemma ArrivesOne(r: Receiver, m: Sent, arrivals: seq<nat>, have: set<nat>, gap: nat, i: nat)
    requires m.Fits(r.maximum) && gap < Count(m.payload) && gap !in have && gap !in arrivals
    requires i < |arrivals| && arrivals[i] < Count(m.payload)
    ensures Arriving(m, arrivals)(Holding(r, m, have, 0), i) == (Holding(r, m, have + {arrivals[i]}, 0), Quiet())
  {
    assert gap != arrivals[i];
    GathersOne(r, m, have, gap, arrivals[i]);
    assert Feeding(m)(Holding(r, m, have, 0), arrivals[i]) ==
           Holding(r, m, have, 0).AcceptFrame(m.Frame(arrivals[i]), None);
  }

  /** What gets through of an attempt is held until the rest comes. */
  lemma LossTheorem(r: Receiver, m: Sent, arrivals: seq<nat>, gap: nat)
    requires m.Fits(r.maximum) && Replaces(r, m) && !Stale(r, m)
    requires arrivals != [] && forall i :: 0 <= i < |arrivals| ==> arrivals[i] < Count(m.payload)
    requires gap < Count(m.payload) && gap !in arrivals
    ensures After(Arriving(m, arrivals), r, 0, |arrivals|) ==
            (Holding(r, m, Indices(arrivals, |arrivals|), 0), Quiets(|arrivals|))
  {
    ArrivesAll(r, m, arrivals, gap);
    StartsAnew(r, m, arrivals);
    SameStart(Arriving(m, arrivals), r, Holding(r, m, {}, 0), 0, |arrivals|);
  }

  lemma StartsAnew(r: Receiver, m: Sent, arrivals: seq<nat>)
    requires m.Fits(r.maximum) && Replaces(r, m) && !Stale(r, m) && arrivals != [] && arrivals[0] < Count(m.payload)
    ensures Arriving(m, arrivals)(r, 0) == Arriving(m, arrivals)(Holding(r, m, {}, 0), 0)
  {
    Begins(r, m, arrivals[0], None);
  }

  ghost function HoldingAfter(r: Receiver, m: Sent, arrivals: seq<nat>, i: nat): Receiver
    requires DecodeId(m.id).Some?
  {
    if i <= |arrivals| then Holding(r, m, Indices(arrivals, i), 0) else r
  }

  lemma ArrivesAll(r: Receiver, m: Sent, arrivals: seq<nat>, gap: nat)
    requires m.Fits(r.maximum) && forall i :: 0 <= i < |arrivals| ==> arrivals[i] < Count(m.payload)
    requires gap < Count(m.payload) && gap !in arrivals
    ensures After(Arriving(m, arrivals), Holding(r, m, {}, 0), 0, |arrivals|) ==
            (Holding(r, m, Indices(arrivals, |arrivals|), 0), Quiets(|arrivals|))
  {
    ArrivesUpTo(r, m, arrivals, gap, |arrivals|);
  }

  lemma {:induction false} ArrivesUpTo(r: Receiver, m: Sent, arrivals: seq<nat>, gap: nat, n: nat)
    requires m.Fits(r.maximum) && n <= |arrivals| && forall i :: 0 <= i < |arrivals| ==> arrivals[i] < Count(m.payload)
    requires gap < Count(m.payload) && gap !in arrivals
    ensures After(Arriving(m, arrivals), Holding(r, m, {}, 0), 0, n) == (HoldingAfter(r, m, arrivals, n), Quiets(n))
  {
    if n > 0 {
      ArrivesUpTo(r, m, arrivals, gap, n - 1);
      ArrivesNext(r, m, arrivals, gap, n - 1);
      Then(Arriving(m, arrivals), Holding(r, m, {}, 0), 0, n, HoldingAfter(r, m, arrivals, n - 1), Quiets(n - 1),
           HoldingAfter(r, m, arrivals, n), Quiet());
      QuietMore(n - 1);
    }
  }

  lemma ArrivesNext(r: Receiver, m: Sent, arrivals: seq<nat>, gap: nat, i: nat)
    requires m.Fits(r.maximum) && i < |arrivals| && arrivals[i] < Count(m.payload)
    requires gap < Count(m.payload) && gap !in arrivals
    ensures Arriving(m, arrivals)(HoldingAfter(r, m, arrivals, i), i) == (HoldingAfter(r, m, arrivals, i + 1), Quiet())
  {
    assert gap !in Indices(arrivals, i);
    ArrivesOne(r, m, arrivals, Indices(arrivals, i), gap, i);
  }

  lemma {:induction false} LastMissing(m: Sent, have: set<nat>, n: nat) returns (gap: nat)
    requires n <= Count(m.payload) && exists i :: 0 <= i < n && i !in have
    ensures gap < n && gap !in have && forall i :: gap < i < n ==> i in have
  {
    gap := n - 1;
    if n - 1 in have { gap := LastMissing(m, have, n - 1); }
  }

  /** A retry starts the same message again. */
  lemma RetryStarts(s: Sender, now: U64)
    requires s.Valid() && s.state == WaitingForAck && now >= s.deadline && s.retries < s.maximumRetries
    ensures s.Poll(now).1 == Ok && AtStart(s.Poll(now).0) && Carried(s.Poll(now).0) == Carried(s)
  {
  }

  /**
   With losses: whichever frames of an attempt got through, short of all, the next attempt has the
   message handed up, and acknowledged so that the sender is complete, or only acknowledged if it
   was handed up before.
   */
  lemma RecoveryTheorem(s: Sender, now: U64, r: Receiver, have: set<nat>) returns (i: nat)
    requires s.Valid() && s.state == WaitingForAck && now >= s.deadline && s.retries < s.maximumRetries
    requires Carried(s).Fits(r.maximum) && !Carried(s).Complete(have)
    ensures var m, again := Carried(s), Offered(s.Poll(now).0, Count(s.payload));
            var replies := Fed(Holding(r, m, have, 0), m).1;
            && again.1 == AllFrames(m, Count(s.payload))
            && i < |replies| && replies[i].ack.Some? && again.0.HandleAck(replies[i].ack.value).1 == Ok
            && (r.last != Some(Finished(m.id, m.sequence)) ==> replies[i] == HandedUp(m))
  {
    OffersAgain(s, now);
    i := Concludes(r, Carried(s), have);
    ConcludesUp(r, Carried(s));
    AckCompletes(Offered(s.Poll(now).0, Count(s.payload)).0, r, Carried(s));
  }

  lemma OffersAgain(s: Sender, now: U64)
    requires s.Valid() && s.state == WaitingForAck && now >= s.deadline && s.retries < s.maximumRetries
    ensures var again := Offered(s.Poll(now).0, Count(s.payload));
            && again.1 == AllFrames(Carried(s), Count(s.payload))
            && again.0.Valid() && again.0.state == WaitingForAck && Carried(again.0) == Carried(s)
  {
    RetryStarts(s, now);
    AttemptTheorem(s.Poll(now).0, Count(s.payload));
  }

  lemma Concludes(r: Receiver, m: Sent, have: set<nat>) returns (i: nat)
    requires m.Fits(r.maximum) && !m.Complete(have)
    ensures var replies := Fed(Holding(r, m, have, 0), m).1; i < |replies| && replies[i] == Conclusion(r, m)
  {
    i := LastMissing(m, have, Count(m.payload));
    ResumeTheorem(r, m, have, i);
  }

  lemma AckCompletes(t: Sender, r: Receiver, m: Sent)
    requires t.Valid() && t.state == WaitingForAck && Carried(t) == m && DecodeId(m.id).Some?
    ensures Conclusion(r, m).ack.Some? && t.HandleAck(Conclusion(r, m).ack.value).1 == Ok
  {
    AckExactly(t, CanFrame(m.id, [0x90 + m.sequence]));
  }

  /* ------------------------------------------------------------------- the retries */

  /** A poll, and if it starts another attempt all its frames. */
  ghost function PollAndOffer(s: Sender, now: U64): (Sender, Status)
    requires s.Valid()
    ensures PollAndOffer(s, now).0.Valid()
  {
    var (t, status) := s.Poll(now);
    if status == Ok then (Offered(t, Count(t.payload)).0, Ok) else (t, status)
  }

  /** Polls at these times, and what they say, while no acknowledgement comes. */
  ghost function Polled(s: Sender, times: seq<U64>, k: nat): (result: (Sender, seq<Status>))
    requires s.Valid() && k <= |times|
    ensures result.0.Valid() && |result.1| == k
  {
    if k == 0 then (s, [])
    else
      var (before, statuses) := Polled(s, times, k - 1);
      var (after, status) := PollAndOffer(before, times[k - 1]);
      (after, statuses + [status])
  }

  /** How many attempts the first `k` polls started, and when the last one began. */
  function Attempts(statuses: seq<Status>, k: nat): nat
    requires k <= |statuses|
  {
    if k == 0 then 0 else Attempts(statuses, k - 1) + if statuses[k - 1] == Ok then 1 else 0
  }

  function Since(start: U64, times: seq<U64>, statuses: seq<Status>, k: nat): U64
    requires k <= |statuses| && k <= |times|
  {
    if k == 0 then start else if statuses[k - 1] == Ok then times[k - 1] else Since(start, times, statuses, k - 1)
  }

  predicate GivenUp(statuses: seq<Status>, k: nat)
    requires k <= |statuses|
  {
    exists i :: 0 <= i < k && statuses[i] == Timeout
  }

  /** The time at which an attempt begun at `start` has waited long enough; it stops at the highest time. */
  function Expiry(start: U64, timeout: U64): U64 {
    if start + timeout <= U64_MAX then start + timeout else U64_MAX
  }

  /** What a poll at `now` says, by what went before it. */
  predicate Says(status: Status, now: U64, expiry: U64, attempts: nat, retries: nat, givenUp: bool) {
    if givenUp || now < expiry then status == Unavailable
    else status == if attempts < retries then Ok else Timeout
  }

  ghost predicate Tracked(s: Sender, t: Sender, start: U64, times: seq<U64>, statuses: seq<Status>, k: nat)
    requires k <= |times| && k <= |statuses|
  {
    && t.Valid() && t.timeout == s.timeout && t.maximumRetries == s.maximumRetries && Carried(t) == Carried(s)
    && if GivenUp(statuses, k) then t.state == Failed
       else t.state == WaitingForAck && t.deadline == Expiry(Since(start, times, statuses, k), s.timeout)
            && t.retries == s.retries + Attempts(statuses, k)
  }

  lemma PollsOnce(t: Sender, now: U64)
    requires t.Valid() && t.state == WaitingForAck
    ensures var (u, status) := PollAndOffer(t, now);
            && Says(status, now, t.deadline, t.retries, t.maximumRetries, false)
            && Carried(u) == Carried(t) && u.timeout == t.timeout && u.maximumRetries == t.maximumRetries
            && (status == Unavailable ==> u == t)
            && (status == Timeout ==> u.state == Failed)
            && (status == Ok ==> u.state == WaitingForAck && u.deadline == Expiry(now, t.timeout) && u.retries == t.retries + 1)
  {
    if now >= t.deadline && t.retries < t.maximumRetries {
      RetryStarts(t, now);
      AttemptTheorem(t.Poll(now).0, Count(t.payload));
    }
  }

  lemma GivenUpStep(statuses: seq<Status>, k: nat)
    requires k < |statuses|
    ensures GivenUp(statuses, k + 1) <==> GivenUp(statuses, k) || statuses[k] == Timeout
  {
  }

  lemma TrackedStep(s: Sender, t: Sender, start: U64, times: seq<U64>, statuses: seq<Status>, k: nat)
    requires k < |times| && k < |statuses| && Tracked(s, t, start, times, statuses, k)
    requires statuses[k] == PollAndOffer(t, times[k]).1 && s.retries == 0
    ensures Tracked(s, PollAndOffer(t, times[k]).0, start, times, statuses, k + 1)
    ensures Says(statuses[k], times[k], Expiry(Since(start, times, statuses, k), s.timeout), Attempts(statuses, k),
                 s.maximumRetries, GivenUp(statuses, k))
  {
    GivenUpStep(statuses, k);
    if !GivenUp(statuses, k) { PollsOnce(t, times[k]); }
  }

  lemma {:induction false} PolledPrefix(s: Sender, times: seq<U64>, k: nat, n: nat)
    requires s.Valid() && k <= n <= |times|
    ensures Polled(s, times, k).1 == Polled(s, times, n).1[..k]
    ensures k < n ==> Polled(s, times, n).1[k] == PollAndOffer(Polled(s, times, k).0, times[k]).1
    decreases n
  {
    if k + 1 < n || (k < n && k + 1 == n) { PolledPrefix(s, times, k, n - 1); }
  }

  lemma {:induction false} RunTracked(s: Sender, start: U64, times: seq<U64>, k: nat)
    requires s.Valid() && s.state == WaitingForAck && s.retries == 0 && s.deadline == Expiry(start, s.timeout)
    requires k <= |times|
    ensures Tracked(s, Polled(s, times, k).0, start, times, Polled(s, times, |times|).1, k)
  {
    if k > 0 {
      RunTracked(s, start, times, k - 1);
      PolledPrefix(s, times, k - 1, |times|);
      TrackedStep(s, Polled(s, times, k - 1).0, start, times, Polled(s, times, |times|).1, k - 1);
    }
  }

  /**
   A message whose first attempt began at `start` and that is never acknowledged, polled at any times:
   a poll starts another attempt exactly if the timeout has passed since the last one began and
   fewer than the allowed number were started; the first one later than that gives the message up.
   */
  lemma RetryTheorem(s: Sender, start: U64, times: seq<U64>, k: nat)
    requires s.Valid() && s.state == WaitingForAck && s.retries == 0 && s.deadline == Expiry(start, s.timeout)
    requires k < |times|
    ensures var statuses := Polled(s, times, |times|).1;
            Says(statuses[k], times[k], Expiry(Since(start, times, statuses, k), s.timeout), Attempts(statuses, k),
                 s.maximumRetries, GivenUp(statuses, k))
  {
    RunTracked(s, start, times, k);
    PolledPrefix(s, times, k, |times|);
    TrackedStep(s, Polled(s, times, k).0, start, times, Polled(s, times, |times|).1, k);
  }

  /** Begin and the arming of the acknowledgement deadline both start the clock. */
  lemma ClockStarts(s: Sender, route: nat, priority: nat, sequence: nat, payload: seq<Byte>, now: U64, timeout: U64,
                    retries: nat, armed: U64)
    requires s.Valid() && s.Begin(route, priority, sequence, payload, now, timeout, retries).1 == Ok
    ensures var t := Offered(s.Begin(route, priority, sequence, payload, now, timeout, retries).0, Count(payload)).0;
            && t.state == WaitingForAck && t.retries == 0 && t.maximumRetries == retries && t.timeout == timeout
            && t.deadline == Expiry(now, timeout)
            && t.ArmAckDeadline(armed) == (t.(deadline := Expiry(armed, timeout)), Ok)
  {
    BeginExactly(s, route, priority, sequence, payload, now, timeout, retries);
    AttemptTheorem(s.Begin(route, priority, sequence, payload, now, timeout, retries).0, Count(payload));
  }
}

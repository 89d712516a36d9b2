/** The reassembly timeout of the reliable receiver: which messages are in time and which are given up. */
module ReliableTiming {
  import opened Bytes
  import opened CanProtocol
  import opened Fragments
  import opened ReliablePath
  import opened ReliableFeed

  /** Frame `i` of the message arrives at `times[i]`. */
  ghost function FeedingAt(m: Sent, times: seq<U64>): Reaction
    requires Count(m.payload) <= MAXIMUM_FRAGMENTS && |times| == Count(m.payload)
  {
    (r: Receiver, i: nat) => if i < |times| then r.AcceptAt(m.Frame(i), times[i]) else (r, Quiet())
  }

  ghost predicate InOrder(r: Receiver, times: seq<U64>) {
    && times != [] && (r.observed.Some? ==> r.observed.value <= times[0])
    && forall i, j :: 0 <= i <= j < |times| ==> times[i] <= times[j]
  }

  /** When a message begun at `start` is given up: 64-bit time does not wrap but stops. */
  function GivenUpAt(start: U64, timeout: U64): U64 {
    if start + timeout <= U64_MAX then start + timeout else U64_MAX
  }

  /** At time `now` a message begun at `start` has not been given up. */
  predicate Alive(timeout: U64, start: U64, now: U64) {
    timeout == 0 || now < GivenUpAt(start, timeout)
  }

  /** A new message for a receiver that is assembling nothing. */
  predicate IsNew(r: Receiver, m: Sent) {
    m.Fits(r.maximum) && r.assembly.None? && !Stale(r, m) && r.last != Some(Finished(m.id, m.sequence))
  }

  function Seen(r: Receiver, now: U64): Receiver {
    r.(observed := Some(now))
  }

  function Deadline(r: Receiver, start: U64): U64 {
    if r.timeout == 0 then 0 else GivenUpAt(start, r.timeout)
  }

  /** With time in order and nothing given up, the receiver does what it does without time. */
  lemma NotExpired(r: Receiver, m: Sent, i: nat, now: U64)
    requires m.Fits(r.maximum) && i < Count(m.payload) && (r.observed.Some? ==> r.observed.value <= now)
    requires r.assembly.None? || r.timeout == 0 || now < r.assembly.value.deadline
    ensures r.AcceptAt(m.Frame(i), now) == Seen(r, now).AcceptFrame(m.Frame(i), Some(now))
  {
  }

  lemma Expired(r: Receiver, m: Sent, i: nat, now: U64)
    requires m.Fits(r.maximum) && i < Count(m.payload) && (r.observed.Some? ==> r.observed.value <= now)
    requires r.assembly.Some? && r.timeout != 0 && now >= r.assembly.value.deadline
    ensures r.AcceptAt(m.Frame(i), now) == Seen(r, now).(assembly := None).AcceptFrame(m.Frame(i), Some(now))
  {
  }

  /* -------------------------------------------------------------------- in time */

  /** The receiver that holds the first `i` fragments, the first of which came at `start`. */
  ghost function Gathered(r: Receiver, m: Sent, start: U64, now: U64, i: nat): Receiver
    requires DecodeId(m.id).Some?
  {
    Holding(Seen(r, now), m, Range(0, i), Deadline(r, start))
  }

  lemma FirstFragment(r: Receiver, m: Sent, now: U64)
    requires IsNew(r, m) && (r.observed.Some? ==> r.observed.value <= now) && Count(m.payload) > 1
    ensures r.AcceptAt(m.Frame(0), now) == (Gathered(r, m, now, now, 1), Quiet())
  {
    NotExpired(r, m, 0, now);
    Begins(Seen(r, now), m, 0, Some(now));
    assert 1 !in {} + {0};
    StoresMore(Seen(r, now), m, {}, Deadline(r, now), 0, Some(now));
    assert {} + {0} == Range(0, 1);
  }

  lemma OnlyFragment(r: Receiver, m: Sent, now: U64)
    requires IsNew(r, m) && (r.observed.Some? ==> r.observed.value <= now) && Count(m.payload) == 1
    ensures r.AcceptAt(m.Frame(0), now) == (Done(Seen(r, now), m), HandedUp(m))
  {
    NotExpired(r, m, 0, now);
    Begins(Seen(r, now), m, 0, Some(now));
    StoresLast(Seen(r, now), m, {}, Deadline(r, now), 0, Some(now));
    ConcludesUp(Seen(r, now), m);
  }

  lemma NextFragment(r: Receiver, m: Sent, start: U64, before: U64, now: U64, i: nat)
    requires IsNew(r, m) && before <= now && Alive(r.timeout, start, now) && 0 < i && i + 1 < Count(m.payload)
    ensures Gathered(r, m, start, before, i).AcceptAt(m.Frame(i), now) == (Gathered(r, m, start, now, i + 1), Quiet())
  {
    NotExpired(Gathered(r, m, start, before, i), m, i, now);
    assert i + 1 !in Range(0, i) + {i};
    StoresMore(Seen(r, now), m, Range(0, i), Deadline(r, start), i, Some(now));
    assert Range(0, i) + {i} == Range(0, i + 1);
  }

  lemma LastFragment(r: Receiver, m: Sent, start: U64, before: U64, now: U64, i: nat)
    requires IsNew(r, m) && before <= now && Alive(r.timeout, start, now) && 0 < i && i + 1 == Count(m.payload)
    ensures Gathered(r, m, start, before, i).AcceptAt(m.Frame(i), now) == (Done(Seen(r, now), m), HandedUp(m))
  {
    NotExpired(Gathered(r, m, start, before, i), m, i, now);
    StoresLast(Seen(r, now), m, Range(0, i), Deadline(r, start), i, Some(now));
    ConcludesUp(Seen(r, now), m);
  }

  /** While it is in time, fragment after fragment is gathered. */
  lemma {:induction false} GathersInTime(r: Receiver, m: Sent, times: seq<U64>, n: nat)
    requires IsNew(r, m) && |times| == Count(m.payload) && InOrder(r, times) && 0 < n < |times|
    requires Alive(r.timeout, times[0], times[n - 1]) || n == 1
    ensures After(FeedingAt(m, times), r, 0, n) == (Gathered(r, m, times[0], times[n - 1], n), Quiets(n))
    decreases n
  {
    if n == 1 {
      FirstFragment(r, m, times[0]);
      FirstOne(FeedingAt(m, times), r, 0);
      assert [Quiet()] == Quiets(1);
    } else {
      GathersInTime(r, m, times, n - 1);
      NextFragment(r, m, times[0], times[n - 2], times[n - 1], n - 1);
      Then(FeedingAt(m, times), r, 0, n, Gathered(r, m, times[0], times[n - 2], n - 1), Quiets(n - 1),
           Gathered(r, m, times[0], times[n - 1], n), Quiet());
      QuietMore(n - 1);
    }
  }

  lemma InTimeIsHandedUp(r: Receiver, m: Sent, times: seq<U64>)
    requires IsNew(r, m) && |times| == Count(m.payload) && InOrder(r, times)
    requires |times| == 1 || Alive(r.timeout, times[0], times[|times| - 1])
    ensures After(FeedingAt(m, times), r, 0, |times|).1 == Quiets(|times| - 1) + [HandedUp(m)]
  {
    var n := |times|;
    if n == 1 {
      OnlyFragment(r, m, times[0]);
      FirstOne(FeedingAt(m, times), r, 0);
    } else {
      GathersInTime(r, m, times, n - 1);
      LastFragment(r, m, times[0], times[n - 2], times[n - 1], n - 1);
      Then(FeedingAt(m, times), r, 0, n, Gathered(r, m, times[0], times[n - 2], n - 1), Quiets(n - 1),
           Done(Seen(r, times[n - 1]), m), HandedUp(m));
    }
  }

  /**
   A poll gives up a message begun at `start` exactly as its next frame would, and says so; what is
   still in time it leaves alone, and a time before the last one seen changes nothing.
   */
  lemma PolledExactly(r: Receiver, m: Sent, start: U64, before: U64, now: U64, i: nat)
    requires IsNew(r, m)
    ensures Gathered(r, m, start, before, i).Poll(now) ==
            if now < before then (Gathered(r, m, start, before, i), InvalidArgument)
            else if Alive(r.timeout, start, now) then (Gathered(r, m, start, now, i), Unavailable)
            else (Seen(r, now), Timeout)
  {
  }

  /* ---------------------------------------------------------------------- too late */

  /** The message is being assembled without its first fragment. */
  ghost predicate Headless(r: Receiver, q: Receiver, m: Sent, now: U64)
    requires DecodeId(m.id).Some?
  {
    exists have: set<nat>, deadline: U64 :: 0 !in have && q == Holding(Seen(r, now), m, have, deadline)
  }

  lemma HeadlessStore(r: Receiver, m: Sent, have: set<nat>, deadline: U64, i: nat, now: U64)
    requires m.Fits(r.maximum) && 0 < i < Count(m.payload) && 0 !in have && r.observed == Some(now)
    ensures var (q, reply) := Holding(r, m, have, deadline).AcceptFrame(m.Frame(i), Some(now));
            Headless(r, q, m, now) && reply == Quiet()
  {
    assert 0 !in have + {i};
    assert Seen(r, now) == r;
    if i in have {
      StoresAgain(r, m, have, deadline, i, Some(now));
    } else {
      StoresMore(r, m, have, deadline, i, Some(now));
    }
  }

  /** Whether or not it is given up once more. */
  lemma StaysHeadless(r: Receiver, m: Sent, q: Receiver, before: U64, i: nat, now: U64)
    requires IsNew(r, m) && 0 < i < Count(m.payload) && before <= now && Headless(r, q, m, before)
    ensures Headless(r, q.AcceptAt(m.Frame(i), now).0, m, now) && q.AcceptAt(m.Frame(i), now).1 == Quiet()
  {
    var have: set<nat>, deadline: U64 :| 0 !in have && q == Holding(Seen(r, before), m, have, deadline);
    var s := Seen(r, now);
    if r.timeout == 0 || now < deadline {
      NotExpired(q, m, i, now);
      HeadlessStore(s, m, have, deadline, i, now);
    } else {
      Expired(q, m, i, now);
      Begins(s, m, i, Some(now));
      HeadlessStore(s, m, {}, DeadlineAt(s, Some(now)), i, now);
    }
  }

  lemma NeverWhole(r: Receiver, m: Sent, q: Receiver, times: seq<U64>, first: nat, n: nat)
    requires IsNew(r, m) && |times| == Count(m.payload) && InOrder(r, times) && 0 < first <= n <= |times|
    requires Headless(r, q, m, times[first - 1])
    ensures After(FeedingAt(m, times), q, first, n).1 == Quiets(n - first)
  {
    var react := FeedingAt(m, times);
    var good := (s: Receiver, i: nat) => 0 < i <= |times| && Headless(r, s, m, times[i - 1]);
    forall s, i | first <= i < n && good(s, i) ensures react(s, i).1 == Quiet() && good(react(s, i).0, i + 1) {
      StaysHeadless(r, m, s, times[i - 1], i, times[i]);
    }
    Kept(react, good, q, first, n);
  }

  lemma GivesUp(r: Receiver, m: Sent, start: U64, before: U64, i: nat, now: U64)
    requires IsNew(r, m) && 0 < i < Count(m.payload) && before <= now && !Alive(r.timeout, start, now)
    ensures var (q, reply) := Gathered(r, m, start, before, i).AcceptAt(m.Frame(i), now);
            Headless(r, q, m, now) && reply == Quiet()
  {
    Expired(Gathered(r, m, start, before, i), m, i, now);
    Begins(Seen(r, now), m, i, Some(now));
    HeadlessStore(Seen(r, now), m, {}, DeadlineAt(r, Some(now)), i, now);
  }

  /** The first frame that comes too late. */
  lemma {:induction false} FirstLate(timeout: U64, times: seq<U64>, n: nat) returns (j: nat)
    requires 0 < n < |times| && !Alive(timeout, times[0], times[n])
    ensures 0 < j <= n && !Alive(timeout, times[0], times[j]) && (j == 1 || Alive(timeout, times[0], times[j - 1]))
  {
    j := n;
    if n > 1 && !Alive(timeout, times[0], times[n - 1]) { j := FirstLate(timeout, times, n - 1); }
  }

  lemma UpToLate(r: Receiver, m: Sent, times: seq<U64>, j: nat) returns (q: Receiver)
    requires IsNew(r, m) && |times| == Count(m.payload) && InOrder(r, times) && 0 < j < |times|
    requires !Alive(r.timeout, times[0], times[j]) && (j == 1 || Alive(r.timeout, times[0], times[j - 1]))
    ensures After(FeedingAt(m, times), r, 0, j + 1) == (q, Quiets(j + 1)) && Headless(r, q, m, times[j])
  {
    var gathered := Gathered(r, m, times[0], times[j - 1], j);
    GathersInTime(r, m, times, j);
    GivesUp(r, m, times[0], times[j - 1], j, times[j]);
    q := gathered.AcceptAt(m.Frame(j), times[j]).0;
    Then(FeedingAt(m, times), r, 0, j + 1, gathered, Quiets(j), q, Quiet());
    QuietMore(j);
  }

  lemma TooLateIsNot(r: Receiver, m: Sent, times: seq<U64>)
    requires IsNew(r, m) && |times| == Count(m.payload) && InOrder(r, times)
    requires |times| > 1 && !Alive(r.timeout, times[0], times[|times| - 1])
    ensures After(FeedingAt(m, times), r, 0, |times|).1 == Quiets(|times|)
  {
    var n, react := |times|, FeedingAt(m, times);
    var j := FirstLate(r.timeout, times, n - 1);
    var q := UpToLate(r, m, times, j);
    NeverWhole(r, m, q, times, j + 1, n);
    QuietParts(react, r, j + 1, n, q);
  }

  /**
   The frames of a new message, in order at any times: the message is handed up exactly if it has
   one frame, there is no timeout, or its last frame comes less than the timeout after its first;
   otherwise nothing is handed up or acknowledged, however often it is begun again.
   */
  lemma TimelyExactly(r: Receiver, m: Sent, times: seq<U64>)
    requires IsNew(r, m) && |times| == Count(m.payload) && InOrder(r, times)
    ensures After(FeedingAt(m, times), r, 0, |times|).1 ==
            if |times| == 1 || Alive(r.timeout, times[0], times[|times| - 1]) then Quiets(|times| - 1) + [HandedUp(m)]
            else Quiets(|times|)
  {
    if |times| == 1 || Alive(r.timeout, times[0], times[|times| - 1]) {
      InTimeIsHandedUp(r, m, times);
    } else {
      TooLateIsNot(r, m, times);
    }
  }
}

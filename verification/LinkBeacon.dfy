/**
 The heartbeats and time syncs a control plane sends when it is polled, and what its peer makes of
 those that get through.
 */
module LinkBeacon {
  import opened Bytes
  import opened CanProtocol
  import opened ControlPlane

  /** When the next of each is due, if one was sent before, and the next sequence numbers. */
  datatype Beacon = Beacon(heartbeatDue: Option<U64>, heartbeat: Byte, syncDue: Option<U64>, sync: Byte)

  datatype Periods = Periods(heartbeat: U64, sync: U64)

  /** What the writer answers to the heartbeat and to the time sync, if they are offered. */
  datatype Answers = Answers(heartbeat: Status, sync: Status)

  predicate IsDue(due: Option<U64>, now: U64) {
    due.None? || now >= due.value
  }

  /** 64-bit addition; unlike the retry deadlines of the reliable path it wraps. */
  function After(now: U64, period: U64): U64 {
    (now + period) % (U64_MAX + 1)
  }

  function Uptime(now: U64): nat {
    (now / 1_000_000) % (U32_MAX + 1)
  }

  function BeatFrame(node: nat, sequence: Byte, flags: Byte, now: U64): CanFrame
    requires node <= 255
  {
    EncodeHeartbeat(Heartbeat(node, sequence, flags, Uptime(now)))
  }

  function SyncFrame(sequence: Byte, now: U64): CanFrame {
    EncodeTimeSync(TimeSync(sequence, (now / 1000) % 0x1_0000_0000_0000))
  }

  /** The number goes up whether or not the frame is taken; the next one is scheduled only if it is. */
  function BeatOffered(b: Beacon, now: U64, period: U64, answer: Status): Beacon {
    var numbered := b.(heartbeat := Successor(b.heartbeat));
    if answer == Ok then numbered.(heartbeatDue := Some(After(now, period))) else numbered
  }

  function SyncOffered(b: Beacon, now: U64, period: U64, answer: Status): Beacon {
    var numbered := b.(sync := Successor(b.sync));
    if answer == Ok then numbered.(syncDue := Some(After(now, period))) else numbered
  }

  /** A poll, up to the first frame that is refused. */
  function Polled(b: Beacon, p: Periods, authority: bool, now: U64, answers: Answers): (Beacon, Status) {
    var beat := IsDue(b.heartbeatDue, now);
    var c := if beat then BeatOffered(b, now, p.heartbeat, answers.heartbeat) else b;
    if beat && answers.heartbeat != Ok then (c, answers.heartbeat)
    else if authority && IsDue(c.syncDue, now) then
      (SyncOffered(c, now, p.sync, answers.sync), answers.sync)
    else (c, Ok)
  }

  /* ------------------------------------------------------------------ whole runs */

  /** One poll: when, with which state flags, and what the writer answers. */
  datatype Poll = Poll(now: U64, flags: Byte, answers: Answers)

  ghost predicate IsRun(states: seq<Beacon>, polls: seq<Poll>, p: Periods, authority: bool) {
    && |states| == |polls| + 1
    && states[0] == Beacon(None, 0, None, 0)
    && (forall k :: 0 <= k < |polls| ==> states[k + 1] == Polled(states[k], p, authority, polls[k].now, polls[k].answers).0)
    && (forall i, j :: 0 <= i <= j < |polls| ==> polls[i].now <= polls[j].now)
  }

  /** Poll `k` offers a heartbeat; and the writer takes it. */
  ghost predicate Offers(states: seq<Beacon>, polls: seq<Poll>, k: nat) {
    k < |states| && k < |polls| && IsDue(states[k].heartbeatDue, polls[k].now)
  }

  ghost predicate Sends(states: seq<Beacon>, polls: seq<Poll>, k: nat) {
    Offers(states, polls, k) && polls[k].answers.heartbeat == Ok
  }

  ghost function Beat(states: seq<Beacon>, polls: seq<Poll>, k: nat, node: nat): Heartbeat
    requires Offers(states, polls, k)
  {
    Heartbeat(node, states[k].heartbeat, polls[k].flags, Uptime(polls[k].now))
  }

  /** How many heartbeats were offered before poll `k`. */
  ghost function Offered(states: seq<Beacon>, polls: seq<Poll>, k: nat): nat {
    if k == 0 then 0 else Offered(states, polls, k - 1) + if Offers(states, polls, k - 1) then 1 else 0
  }

  lemma {:induction false} Numbers(states: seq<Beacon>, polls: seq<Poll>, p: Periods, authority: bool, k: nat)
    requires IsRun(states, polls, p, authority) && k < |states|
    ensures states[k].heartbeat == Offered(states, polls, k) % 256
  {
    if k > 0 { Numbers(states, polls, p, authority, k - 1); }
  }

  lemma {:induction false} MoreOffered(states: seq<Beacon>, polls: seq<Poll>, i: nat, j: nat)
    requires i < j && Offers(states, polls, i)
    ensures Offered(states, polls, i) < Offered(states, polls, j)
    decreases j
  {
    if i + 1 < j { MoreOffered(states, polls, i, j - 1); }
  }

  lemma UptimeMoves(from: U64, to: U64)
    requires from <= to
    ensures Uptime(to) == (Uptime(from) + (to / 1_000_000 - from / 1_000_000)) % (U32_MAX + 1)
  {
  }

  /**
   Whichever heartbeats of a plane that keeps being polled get through to its peer, none is taken
   for that of a restarted one, as long as less than 2^31 ms lie between two of them; and each is
   accepted once the uptime has moved, or if at most 127 were offered since.
   */
  lemma NeverLooksRestarted(states: seq<Beacon>, polls: seq<Poll>, p: Periods, authority: bool, i: nat, j: nat,
                            node: nat)
    requires IsRun(states, polls, p, authority) && i < j && Offers(states, polls, i) && Offers(states, polls, j)
    requires polls[j].now / 1_000_000 - polls[i].now / 1_000_000 <= U32_MAX / 2
    ensures var first, later := Beat(states, polls, i, node), Beat(states, polls, j, node);
            var arrival := Classify(first.sequence, first.uptime, later);
            && arrival != Restart
            && (first.uptime != later.uptime || Offered(states, polls, j) - Offered(states, polls, i) <= 127 ==>
                  arrival == Next)
  {
    Numbers(states, polls, p, authority, i);
    Numbers(states, polls, p, authority, j);
    MoreOffered(states, polls, i, j);
    HeardLater(Offered(states, polls, i), Offered(states, polls, j), polls[i].now, polls[j].now,
               Beat(states, polls, i, node), Beat(states, polls, j, node));
  }

  /** Number `later`, offered at `to`, after number `first`, offered at `from`: half the uptime's round, and telling. */
  predicate Mistakable(first: nat, later: nat, from: U64, to: U64) {
    && first <= later && from <= to
    && HalfRound(to / 1_000_000 - from / 1_000_000)
    && ((later - first) % 256 <= 127 || later % 256 <= 1)
  }

  /** However far apart two heartbeats are, the later is taken for that of a restarted plane exactly then. */
  lemma LooksRestartedExactly(states: seq<Beacon>, polls: seq<Poll>, p: Periods, authority: bool, i: nat, j: nat,
                              node: nat)
    requires IsRun(states, polls, p, authority) && i < j && Offers(states, polls, i) && Offers(states, polls, j)
    ensures var first, later := Beat(states, polls, i, node), Beat(states, polls, j, node);
            Classify(first.sequence, first.uptime, later) == Restart <==>
              Mistakable(Offered(states, polls, i), Offered(states, polls, j), polls[i].now, polls[j].now)
  {
    Numbers(states, polls, p, authority, i);
    Numbers(states, polls, p, authority, j);
    MoreOffered(states, polls, i, j);
    HeardAtLast(Offered(states, polls, i), Offered(states, polls, j), polls[i].now, polls[j].now,
                Beat(states, polls, i, node), Beat(states, polls, j, node));
  }

  lemma HeardAtLast(first: nat, later: nat, from: U64, to: U64, g: Heartbeat, h: Heartbeat)
    requires first <= later && from <= to
    requires g.sequence == first % 256 && g.uptime == Uptime(from)
    requires h.sequence == later % 256 && h.uptime == Uptime(to)
    ensures Classify(g.sequence, g.uptime, h) == Restart <==> Mistakable(first, later, from, to)
  {
    UptimeMoves(from, to);
    Advanced(first, later - first);
    LongSilence(g.sequence, g.uptime, h, later - first, to / 1_000_000 - from / 1_000_000);
  }

  /** Heartbeat number `later`, offered at `to`, after number `first`, offered at `from`. */
  lemma HeardLater(first: nat, later: nat, from: U64, to: U64, g: Heartbeat, h: Heartbeat)
    requires first < later && from <= to && to / 1_000_000 - from / 1_000_000 <= U32_MAX / 2
    requires g.sequence == first % 256 && g.uptime == Uptime(from)
    requires h.sequence == later % 256 && h.uptime == Uptime(to)
    ensures var arrival := Classify(g.sequence, g.uptime, h);
            && arrival != Restart
            && (g.uptime != h.uptime || later - first <= 127 ==> arrival == Next)
  {
    UptimeMoves(from, to);
    Advanced(first, later - first);
    RunningPeerIsNext(g.sequence, g.uptime, h, later - first, to / 1_000_000 - from / 1_000_000);
  }

  lemma Advanced(count: nat, beats: nat)
    ensures (count + beats) % 256 == (count % 256 + beats) % 256
  {
  }

  /** Nothing sent in between leaves the schedule as it was. */
  lemma {:induction false} StillDue(states: seq<Beacon>, polls: seq<Poll>, p: Periods, authority: bool, i: nat, j: nat)
    requires IsRun(states, polls, p, authority) && i < j < |states| && Sends(states, polls, i)
    requires forall k :: i < k < j ==> !Sends(states, polls, k)
    ensures states[j].heartbeatDue == Some(After(polls[i].now, p.heartbeat))
    decreases j
  {
    assert states[j] == Polled(states[j - 1], p, authority, polls[j - 1].now, polls[j - 1].answers).0;
    if i + 1 < j {
      StillDue(states, polls, p, authority, i, j - 1);
      assert !Sends(states, polls, j - 1);
    }
  }

  /** A later heartbeat is at least a period away exactly if the clock was a period short of wrapping round. */
  lemma {:induction false} Spaced(states: seq<Beacon>, polls: seq<Poll>, p: Periods, authority: bool, i: nat, j: nat)
    requires IsRun(states, polls, p, authority) && i < j && Sends(states, polls, i) && Sends(states, polls, j)
    ensures polls[i].now + p.heartbeat <= polls[j].now <==> polls[i].now + p.heartbeat <= U64_MAX
    decreases j
  {
    if k :| i < k < j && Sends(states, polls, k) {
      Spaced(states, polls, p, authority, i, k);
    } else {
      StillDue(states, polls, p, authority, i, j);
    }
  }

  /** Within a period of wrapping round every poll offers a heartbeat. */
  lemma {:induction false} AlwaysDue(states: seq<Beacon>, polls: seq<Poll>, p: Periods, authority: bool, i: nat, j: nat)
    requires IsRun(states, polls, p, authority) && i < j < |polls| && Sends(states, polls, i)
    requires polls[i].now + p.heartbeat > U64_MAX
    ensures states[j].heartbeatDue.Some? && states[j].heartbeatDue.value < polls[j - 1].now
    ensures Offers(states, polls, j)
    decreases j
  {
    assert states[j] == Polled(states[j - 1], p, authority, polls[j - 1].now, polls[j - 1].answers).0;
    if i + 1 < j { AlwaysDue(states, polls, p, authority, i, j - 1); }
  }

  /** Every heartbeat sent before poll `j` lies at least a period back. */
  ghost predicate BeatsBack(states: seq<Beacon>, polls: seq<Poll>, p: Periods, j: nat)
    requires j < |polls|
  {
    forall i :: 0 <= i < j && Sends(states, polls, i) ==> polls[i].now + p.heartbeat <= polls[j].now
  }

  lemma {:induction false} NothingSent(states: seq<Beacon>, polls: seq<Poll>, p: Periods, authority: bool, j: nat)
    requires IsRun(states, polls, p, authority) && j < |states|
    requires forall i :: 0 <= i < j ==> !Sends(states, polls, i)
    ensures states[j].heartbeatDue.None?
  {
    if j > 0 {
      NothingSent(states, polls, p, authority, j - 1);
      assert states[j] == Polled(states[j - 1], p, authority, polls[j - 1].now, polls[j - 1].answers).0;
      assert !Sends(states, polls, j - 1);
    }
  }

  lemma {:induction false} LastSent(states: seq<Beacon>, polls: seq<Poll>, i: nat, j: nat) returns (k: nat)
    requires i < j && Sends(states, polls, i)
    ensures i <= k < j && Sends(states, polls, k) && forall m :: k < m < j ==> !Sends(states, polls, m)
    decreases j
  {
    if i + 1 == j || Sends(states, polls, j - 1) { k := j - 1; } else { k := LastSent(states, polls, i, j - 1); }
  }

  /** A poll offers a heartbeat exactly if every one sent before lies a period back. */
  lemma OfferedExactly(states: seq<Beacon>, polls: seq<Poll>, p: Periods, authority: bool, j: nat)
    requires IsRun(states, polls, p, authority) && j < |polls| && polls[j].now + p.heartbeat <= U64_MAX
    ensures Offers(states, polls, j) <==> BeatsBack(states, polls, p, j)
  {
    if i :| 0 <= i < j && Sends(states, polls, i) {
      var k := LastSent(states, polls, i, j);
      StillDue(states, polls, p, authority, k, j);
      assert polls[k].now <= polls[j].now;
    } else {
      NothingSent(states, polls, p, authority, j);
    }
  }

  /* ------------------------------------------------------------------ time syncs */

  /** Poll `k` gets past its heartbeat: it has none to send, or it is taken. */
  ghost predicate PastBeat(states: seq<Beacon>, polls: seq<Poll>, k: nat) {
    k < |states| && k < |polls| && (Offers(states, polls, k) ==> polls[k].answers.heartbeat == Ok)
  }

  /** Poll `k` offers a time sync; and the writer takes it. */
  ghost predicate OffersSync(states: seq<Beacon>, polls: seq<Poll>, authority: bool, k: nat) {
    authority && PastBeat(states, polls, k) && IsDue(states[k].syncDue, polls[k].now)
  }

  ghost predicate SendsSync(states: seq<Beacon>, polls: seq<Poll>, authority: bool, k: nat) {
    OffersSync(states, polls, authority, k) && polls[k].answers.sync == Ok
  }

  /** Every time sync sent before poll `j` lies at least a period before `now`. */
  ghost predicate SyncsBack(states: seq<Beacon>, polls: seq<Poll>, p: Periods, authority: bool, j: nat, now: U64)
    requires j <= |polls|
  {
    forall i :: 0 <= i < j && SendsSync(states, polls, authority, i) ==> polls[i].now + p.sync <= now
  }

  lemma SyncStep(states: seq<Beacon>, polls: seq<Poll>, p: Periods, authority: bool, k: nat)
    requires IsRun(states, polls, p, authority) && k < |polls|
    ensures states[k + 1].syncDue ==
            if SendsSync(states, polls, authority, k) then Some(After(polls[k].now, p.sync)) else states[k].syncDue
  {
    assert states[k + 1] == Polled(states[k], p, authority, polls[k].now, polls[k].answers).0;
  }

  lemma AfterAdds(now: U64, period: U64)
    requires now + period <= U64_MAX
    ensures After(now, period) == now + period
  {
  }

  /** When the next time sync is due: a period after the last one sent. */
  lemma {:induction false} SyncDue(states: seq<Beacon>, polls: seq<Poll>, p: Periods, authority: bool, j: nat, now: U64)
    requires IsRun(states, polls, p, authority) && j <= |polls| && now + p.sync <= U64_MAX
    requires forall i :: 0 <= i < j ==> polls[i].now <= now
    ensures IsDue(states[j].syncDue, now) <==> SyncsBack(states, polls, p, authority, j, now)
    decreases j
  {
    if j > 0 {
      SyncStep(states, polls, p, authority, j - 1);
      if SendsSync(states, polls, authority, j - 1) {
        AfterAdds(polls[j - 1].now, p.sync);
        forall i | 0 <= i < j && polls[j - 1].now + p.sync <= now ensures polls[i].now + p.sync <= now {
          assert polls[i].now <= polls[j - 1].now;
        }
      } else {
        SyncDue(states, polls, p, authority, j - 1, now);
      }
    }
  }

  /**
   A poll of the time authority offers a time sync exactly if its heartbeat is not refused and
   every time sync sent before lies a period back.
   */
  lemma SyncOfferedExactly(states: seq<Beacon>, polls: seq<Poll>, p: Periods, authority: bool, j: nat)
    requires IsRun(states, polls, p, authority) && j < |polls| && polls[j].now + p.sync <= U64_MAX
    ensures OffersSync(states, polls, authority, j) <==>
            authority && PastBeat(states, polls, j) && SyncsBack(states, polls, p, authority, j, polls[j].now)
  {
    SyncDue(states, polls, p, authority, j, polls[j].now);
  }
}

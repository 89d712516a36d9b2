/**
 One sender driven by a pump: fetch a frame, write it, report the write. The writer may
 refuse any frame, an acknowledgement may overtake the report of the write it answers,
 and reports of long-gone writes may arrive at any time.
 */
module ReliablePump {
  import opened Bytes
  import opened CanProtocol
  import opened Fragments
  import opened ReliablePath

  /**
   The sender and the frame it handed out last; and, as history of the current message, the frames
   the writer accepted in this attempt and in each earlier one.
   */
  datatype Pump = Pump(sender: Sender, fetched: Option<CanFrame>, accepted: seq<CanFrame>, past: seq<seq<CanFrame>>)

  datatype Step =
    | Begin(route: nat, priority: nat, sequence: nat, payload: seq<Byte>, now: U64, timeout: U64,
            maximumRetries: nat)
    | Fetch
    | Written(token: nat, accepted: bool)
    | Acknowledged(frame: CanFrame)
    | Poll(now: U64)
    | ArmAckDeadline(now: U64)

  /** The pump reports a write before it fetches again or polls. */
  predicate Enabled(p: Pump, step: Step) {
    step.Fetch? || step.Poll? ==> p.sender.pending.None?
  }

  function Apply(p: Pump, step: Step): Pump
    requires p.sender.Valid()
  {
    match step
    case Begin(route, priority, sequence, payload, now, timeout, maximumRetries) =>
      var (sender, status) :=
        p.sender.Begin(route, priority, sequence, payload, now, timeout, maximumRetries);
      if status == Ok then p.(sender := sender, accepted := [], past := []) else p.(sender := sender)
    case Fetch =>
      var (sender, frame) := p.sender.NextFrame();
      p.(sender := sender, fetched := if frame.Some? then frame else p.fetched)
    case Written(token, accepted) =>
      var live := p.sender.pending.Some? && token == p.sender.pending.value.token;
      var frames := if live && accepted && p.fetched.Some? then p.accepted + [p.fetched.value] else p.accepted;
      p.(sender := p.sender.OnFrameWrite(token, accepted), accepted := frames)
    case Acknowledged(frame) => p.(sender := p.sender.HandleAck(frame).0)
    case Poll(now) =>
      var (sender, status) := p.sender.Poll(now);
      if status == Ok then p.(sender := sender, accepted := [], past := p.past + [p.accepted])
      else p.(sender := sender)
    case ArmAckDeadline(now) => p.(sender := p.sender.ArmAckDeadline(now).0)
  }

  /** Fragments 0 to n - 1 of a message, once each and in order. */
  function Frames(id: nat, sequence: nat, payload: seq<Byte>, n: nat): (frames: seq<CanFrame>)
    requires n <= Count(payload) <= MAXIMUM_FRAGMENTS
    ensures |frames| == n
    ensures forall i :: 0 <= i < n ==> frames[i] == DataFrame(id, sequence, payload, i)
  {
    if n == 0 then [] else Frames(id, sequence, payload, n - 1) + [DataFrame(id, sequence, payload, n - 1)]
  }

  function FirstFrames(s: Sender, n: nat): seq<CanFrame>
    requires n <= Count(s.payload) <= MAXIMUM_FRAGMENTS
  {
    Frames(s.id, s.sequence, s.payload, n)
  }

  function AllFrames(s: Sender): seq<CanFrame>
    requires Count(s.payload) <= MAXIMUM_FRAGMENTS
  {
    FirstFrames(s, Count(s.payload))
  }

  function Settled(s: Sender): int {
    if s.pending.Some? then s.next - 1 else s.next
  }

  ghost predicate Inv(p: Pump) {
    && p.sender.Valid()
    && |p.past| == p.sender.retries <= p.sender.maximumRetries
    && (p.sender.Busy() ==>
          && p.accepted == FirstFrames(p.sender, Settled(p.sender))
          && forall a :: 0 <= a < |p.past| ==> p.past[a] == AllFrames(p.sender))
    && (p.sender.state == Failed ==> p.sender.retries == p.sender.maximumRetries)
    && (p.sender.pending.Some? ==>
          p.fetched == Some(DataFrame(p.sender.id, p.sender.sequence, p.sender.payload, p.sender.pending.value.fragment)))
  }

  lemma WrittenInv(p: Pump, token: nat, accepted: bool)
    requires Inv(p)
    ensures Inv(Apply(p, Written(token, accepted)))
  {
    var q := Apply(p, Written(token, accepted));
    if p.sender.pending.Some? && token == p.sender.pending.value.token {
      var n := p.sender.pending.value.fragment;
      assert FirstFrames(p.sender, n + 1) ==
             FirstFrames(p.sender, n) + [DataFrame(p.sender.id, p.sender.sequence, p.sender.payload, n)];
    }
  }

  lemma PollInv(p: Pump, now: U64)
    requires Inv(p) && p.sender.pending.None?
    ensures Inv(Apply(p, Poll(now)))
  {
    var q := Apply(p, Poll(now));
    if q.sender.Busy() && p.sender.state == WaitingForAck {
      assert AllFrames(q.sender) == AllFrames(p.sender);
    }
  }

  lemma BeginInv(p: Pump, step: Step)
    requires Inv(p) && step.Begin?
    ensures Inv(Apply(p, step))
  {
    IdRoundTrip(step.priority, step.route);
  }

  lemma FetchInv(p: Pump)
    requires Inv(p) && Enabled(p, Fetch)
    ensures Inv(Apply(p, Fetch))
  {
    var q := Apply(p, Fetch);
    if q.sender.Busy() { assert AllFrames(q.sender) == AllFrames(p.sender); }
  }

  lemma AnswerInv(p: Pump, step: Step)
    requires Inv(p) && Enabled(p, step) && (step.Acknowledged? || step.ArmAckDeadline?)
    ensures Inv(Apply(p, step))
  {
    var q := Apply(p, step);
    if q.sender.Busy() { assert AllFrames(q.sender) == AllFrames(p.sender); }
  }

  lemma StepInv(p: Pump, step: Step)
    requires Inv(p) && Enabled(p, step)
    ensures Inv(Apply(p, step))
  {
    match step
    case Begin(_, _, _, _, _, _, _) => BeginInv(p, step);
    case Fetch => FetchInv(p);
    case Written(token, accepted) => WrittenInv(p, token, accepted);
    case Poll(now) => PollInv(p, now);
    case Acknowledged(_) => AnswerInv(p, step);
    case ArmAckDeadline(_) => AnswerInv(p, step);
  }

  ghost predicate IsRun(states: seq<Pump>, steps: seq<Step>) {
    && |states| == |steps| + 1
    && (exists maximum :: states[0] == Pump(NewSender(maximum), None, [], []))
    && forall k :: 0 <= k < |steps| ==>
         && states[k].sender.Valid()
         && Enabled(states[k], steps[k])
         && states[k + 1] == Apply(states[k], steps[k])
  }

  lemma {:induction false} RunInv(states: seq<Pump>, steps: seq<Step>, k: nat)
    requires IsRun(states, steps) && k < |states|
    ensures Inv(states[k])
  {
    if k > 0 {
      RunInv(states, steps, k - 1);
      StepInv(states[k - 1], steps[k - 1]);
    }
  }

  /**
   In every run: the frames accepted so far are the first fragments of the message, in order;
   the sender waits for an acknowledgement exactly when the writer has accepted all of them;
   every earlier attempt got all fragments through; and there are at most maximumRetries + 1
   attempts, all of them used up when the sender fails.
   */
  lemma PumpTheorem(states: seq<Pump>, steps: seq<Step>, k: nat)
    requires IsRun(states, steps) && k < |states|
    ensures states[k].sender.Valid()
    ensures |states[k].past| + 1 <= states[k].sender.maximumRetries + 1
    ensures states[k].sender.state == Failed ==>
              |states[k].past| + 1 == states[k].sender.maximumRetries + 1
    ensures states[k].sender.Busy() ==>
              && |states[k].accepted| <= Count(states[k].sender.payload)
              && states[k].accepted == FirstFrames(states[k].sender, |states[k].accepted|)
              && (forall a :: 0 <= a < |states[k].past| ==>
                    states[k].past[a] == AllFrames(states[k].sender))
              && (states[k].sender.pending.None? ==>
                    (states[k].sender.state == WaitingForAck <==>
                     states[k].accepted == AllFrames(states[k].sender)))
  {
    RunInv(states, steps, k);
  }

  /* ------------------------------------------------------------------- write tokens */

  /** How many frames the first `k` steps handed out. */
  ghost function Handed(states: seq<Pump>, steps: seq<Step>, k: nat): nat
    requires k <= |steps| < |states|
  {
    if k == 0 then 0
    else Handed(states, steps, k - 1) + if steps[k - 1].Fetch? && states[k - 1].sender.state == Sending then 1 else 0
  }

  /** The token of the `n`th frame: 1 to 2^32 - 1 and round again. */
  function TokenOf(n: nat): nat {
    if n == 0 then 0 else (n - 1) % U32_MAX + 1
  }

  lemma NextTokenOf(s: Sender, n: nat)
    requires s.lastToken == TokenOf(n)
    ensures s.NextToken() == TokenOf(n + 1)
  {
    if n > 0 { NextRemainder(n - 1); }
  }

  lemma NextRemainder(n: nat)
    ensures (n + 1) % U32_MAX == if n % U32_MAX == U32_MAX - 1 then 0 else n % U32_MAX + 1
  {
  }

  lemma TokenStep(p: Pump, step: Step)
    requires p.sender.Valid() && Enabled(p, step)
    ensures Apply(p, step).sender.lastToken ==
            if step.Fetch? && p.sender.state == Sending then p.sender.NextToken() else p.sender.lastToken
  {
  }

  lemma {:induction false} LastToken(states: seq<Pump>, steps: seq<Step>, k: nat)
    requires IsRun(states, steps) && k < |states|
    ensures states[k].sender.lastToken == TokenOf(Handed(states, steps, k))
  {
    if k > 0 {
      LastToken(states, steps, k - 1);
      TokenStep(states[k - 1], steps[k - 1]);
      NextTokenOf(states[k - 1].sender, Handed(states, steps, k - 1));
    }
  }

  lemma TokensDiffer(i: nat, j: nat)
    requires 0 < i < j && j - i < U32_MAX
    ensures TokenOf(i) != TokenOf(j)
  {
  }

  /** The report of a write that is not the last one, fewer than 2^32 - 1 frames ago, changes nothing. */
  lemma StaleReportIgnored(states: seq<Pump>, steps: seq<Step>, k: nat, n: nat, accepted: bool)
    requires IsRun(states, steps) && k < |states|
    requires 0 < n < Handed(states, steps, k) && Handed(states, steps, k) - n < U32_MAX
    ensures states[k].sender.Valid() && Apply(states[k], Written(TokenOf(n), accepted)) == states[k]
  {
    RunInv(states, steps, k);
    LastToken(states, steps, k);
    TokensDiffer(n, Handed(states, steps, k));
  }
}

/**
 How late and how early frames may be before four-bit sequence numbers are not enough: reliable
 delivery and sound acknowledgements hold in every run exactly under the tight bounds.
 */
module ReliableLimits {
  import opened Bytes
  import opened CanProtocol
  import opened Fragments
  import opened ReliablePath
  import opened ReliableRun

  /** In order, at most once, byte for byte, and complete only what was handed up. */
  ghost predicate Safe(s: System) {
    && (forall i, j :: 0 <= i < j < |s.delivered| ==> s.delivered[i].number < s.delivered[j].number)
    && (forall i :: 0 <= i < |s.delivered| ==>
          && s.delivered[i].number in s.given
          && s.delivered[i].payload == s.given[s.delivered[i].number])
    && (s.sender.state == Complete ==>
          exists i :: 0 <= i < |s.delivered| && s.delivered[i] == Delivery(s.number, s.sender.payload))
  }

  ghost predicate SafeRun(states: seq<System>) {
    forall k :: 0 <= k < |states| ==> Safe(states[k])
  }

  /* ---------------------------------------------------------- building runs */

  lemma Extended(b: Bounds, states: seq<System>, steps: seq<Step>, step: Step)
    requires IsRun(b, states, steps)
    requires states[|steps|].sender.Valid() && Enabled(b, states[|steps|], step)
    ensures IsRun(b, states + [Apply(states[|steps|], step)], steps + [step])
  {
    var more, longer := states + [Apply(states[|steps|], step)], steps + [step];
    forall k | 0 <= k < |longer|
      ensures more[k].sender.Valid() && Enabled(b, more[k], longer[k]) && more[k + 1] == Apply(more[k], longer[k])
    {
      if k < |steps| {
        assert states[k].sender.Valid() && Enabled(b, states[k], steps[k]);
        assert states[k + 1] == Apply(states[k], steps[k]);
      }
    }
  }

  const ID := 1         // the arbitration id of route 1 at the highest priority
  const MAXIMUM := 12   // room for two fragments

  function Start(): System {
    System(ID, NewSender(MAXIMUM), 0, map[], {}, {}, NewReceiver(MAXIMUM, 0), 0, 0, [])
  }

  /** A message the sender has taken and, so far, has put its first `fetched` fragments on the bus of. */
  function Sending(number: nat, payload: seq<Byte>, fetched: nat): Sender
    requires fetched <= Count(payload)
  {
    Sender(MAXIMUM, if fetched == Count(payload) then WaitingForAck else ReliablePath.Sending, payload, ID,
           number % 16, fetched, 1, 1, 0, 0,
           if fetched == 0 then None else Some(PendingWrite(fetched, fetched - 1)), fetched)
  }

  predicate Small(payload: seq<Byte>) {
    1 <= |payload| <= MAXIMUM
  }

  lemma BeginStep(s: System, number: nat, payload: seq<Byte>)
    requires s.id == ID && s.sender == NewSender(MAXIMUM) && Small(payload)
    ensures Apply(s, Begin(number, payload, 0, 1, 0))
         == s.(sender := Sending(number, payload, 0), number := number, given := s.given[number := payload])
  {
    IdRoundTrip(0, 1);
  }

  lemma FetchStep(s: System, number: nat, payload: seq<Byte>, n: nat)
    requires s.id == ID && s.number == number && Small(payload) && n < Count(payload)
    requires s.sender == Sending(number, payload, n)
    ensures s.sender.Valid()
    ensures Apply(s, Step.NextFrame)
         == s.(sender := Sending(number, payload, n + 1),
               data := s.data + {Tagged(number, DataFrame(ID, number % 16, payload, n))})
  {
  }

  /** The system after a message was begun and all its fragments are on the bus. */
  ghost function SentAll(s: System, number: nat, payload: seq<Byte>): System
    requires Small(payload)
  {
    s.(sender := Sending(number, payload, Count(payload)), number := number,
       given := s.given[number := payload], data := s.data + FramesOf(number, payload, Count(payload)))
  }

  ghost function FramesOf(number: nat, payload: seq<Byte>, n: nat): set<Tagged>
    requires n <= Count(payload) <= MAXIMUM_FRAGMENTS
  {
    if n == 0 then {}
    else FramesOf(number, payload, n - 1) + {Tagged(number, DataFrame(ID, number % 16, payload, n - 1))}
  }

  lemma {:induction false} Fetches(b: Bounds, states: seq<System>, steps: seq<Step>, number: nat, payload: seq<Byte>, n: nat)
    returns (more: seq<System>, longer: seq<Step>)
    requires IsRun(b, states, steps) && Small(payload) && n <= Count(payload)
    requires states[|steps|].id == ID && states[|steps|].number == number
    requires states[|steps|].sender == Sending(number, payload, 0)
    ensures IsRun(b, more, longer)
    ensures more[|longer|] == states[|steps|].(sender := Sending(number, payload, n),
                                             data := states[|steps|].data + FramesOf(number, payload, n))
    decreases n
  {
    if n == 0 {
      more, longer := states, steps;
      assert states[|steps|].data + {} == states[|steps|].data;
    } else {
      more, longer := Fetches(b, states, steps, number, payload, n - 1);
      FetchStep(more[|longer|], number, payload, n - 1);
      Extended(b, more, longer, Step.NextFrame);
      var next := Apply(more[|longer|], Step.NextFrame);
      more, longer := more + [next], longer + [Step.NextFrame];
      assert next.data == states[|steps|].data + FramesOf(number, payload, n);
    }
  }

  /** An idle sender sends a whole message. */
  lemma Sends(b: Bounds, states: seq<System>, steps: seq<Step>, number: nat, payload: seq<Byte>)
    returns (more: seq<System>, longer: seq<Step>)
    requires IsRun(b, states, steps) && Small(payload)
    requires states[|steps|].id == ID && states[|steps|].sender == NewSender(MAXIMUM)
    requires forall n :: n in states[|steps|].given ==> n < number
    ensures IsRun(b, more, longer) && more[|longer|] == SentAll(states[|steps|], number, payload)
  {
    var step := Begin(number, payload, 0, 1, 0);
    BeginStep(states[|steps|], number, payload);
    Extended(b, states, steps, step);
    more, longer := Fetches(b, states + [Apply(states[|steps|], step)], steps + [step], number, payload, Count(payload));
  }

  lemma Resets(b: Bounds, states: seq<System>, steps: seq<Step>) returns (more: seq<System>, longer: seq<Step>)
    requires IsRun(b, states, steps)
    requires states[|steps|].sender.maximum == MAXIMUM && states[|steps|].sender.Valid()
    ensures IsRun(b, more, longer)
    ensures more[|longer|] == states[|steps|].(sender := NewSender(MAXIMUM))
  {
    Extended(b, states, steps, SenderReset);
    more, longer := states + [Apply(states[|steps|], SenderReset)], steps + [SenderReset];
  }

  lemma SendingValid(number: nat, payload: seq<Byte>, n: nat)
    requires Small(payload) && n <= Count(payload)
    ensures Sending(number, payload, n).Valid()
  {
    IdRoundTrip(0, 1);
  }

  /* -------------------------------------------------- one-fragment messages */

  predicate Tiny(payload: seq<Byte>) {
    1 <= |payload| <= 6
  }

  ghost function Frame(number: nat, payload: seq<Byte>): Tagged
    requires Tiny(payload)
  {
    Tagged(number, DataFrame(ID, number % 16, payload, 0))
  }

  lemma OnTheBus(number: nat, payload: seq<Byte>)
    requires Tiny(payload)
    ensures Small(payload) && FramesOf(number, payload, Count(payload)) == {Frame(number, payload)}
  {
    assert Count(payload) == 1;
    assert FramesOf(number, payload, 0) == {};
  }

  lemma JoinOne(payload: seq<Byte>)
    requires Tiny(payload)
    ensures Covers(map[0 := Piece(payload, 0)], 1) && Join(map[0 := Piece(payload, 0)], 1) == payload
  {
    var pieces := map[0 := Piece(payload, 0)];
    assert Join(pieces, 0) == [];
    assert Piece(payload, 0) == payload;
  }

  /** An idle receiver takes the single frame of a message it thinks is new. */
  lemma Takes(r: Receiver, sequence: nat, payload: seq<Byte>)
    requires r.assembly.None? && r.maximum == MAXIMUM && Tiny(payload) && sequence < 16
    requires r.last.Some? ==> r.last.value.id == ID && 0 < SequenceDistance(r.last.value.sequence, sequence) <= 7
    ensures r.AcceptFrame(DataFrame(ID, sequence, payload, 0), None)
         == (r.(last := Some(Finished(ID, sequence))),
             Reply(Ok, Some(Message(1, sequence, payload)), Some(AckFrame(ID, sequence))))
  {
    ParseDataFrame(ID, sequence, payload, 0, MAXIMUM);
    JoinOne(payload);
  }

  /** And acknowledges the one it thinks it completed last again. */
  lemma Repeats(r: Receiver, sequence: nat, payload: seq<Byte>)
    requires r.assembly.None? && r.maximum == MAXIMUM && Tiny(payload) && sequence < 16
    requires r.last == Some(Finished(ID, sequence))
    ensures r.AcceptFrame(DataFrame(ID, sequence, payload, 0), None)
         == (r, Reply(Unavailable, None, Some(AckFrame(ID, sequence))))
  {
    ParseDataFrame(ID, sequence, payload, 0, MAXIMUM);
    JoinOne(payload);
  }

  /** The system after a whole message was handed up. */
  function HandedUp(s: System, number: nat, payload: seq<Byte>): System {
    s.(receiver := s.receiver.(last := Some(Finished(ID, number % 16))), completed := number,
       delivered := s.delivered + [Delivery(number, payload)],
       acks := s.acks + {Tagged(number, AckFrame(ID, number % 16))})
  }

  lemma Delivers(b: Bounds, states: seq<System>, steps: seq<Step>, number: nat, payload: seq<Byte>)
    returns (more: seq<System>, longer: seq<Step>)
    requires IsRun(b, states, steps) && Tiny(payload) && states[|steps|].sender.Valid()
    requires var s := states[|steps|];
             && Frame(number, payload) in s.data && Timely(b, s, number)
             && s.receiver.assembly.None? && s.receiver.maximum == MAXIMUM
             && (s.receiver.last.Some? ==>
                   && s.receiver.last.value.id == ID
                   && 0 < SequenceDistance(s.receiver.last.value.sequence, number % 16) <= 7)
    ensures IsRun(b, more, longer) && more[|longer|] == HandedUp(states[|steps|], number, payload)
  {
    var step := DeliverData(Frame(number, payload), None);
    Takes(states[|steps|].receiver, number % 16, payload);
    Extended(b, states, steps, step);
    more, longer := states + [Apply(states[|steps|], step)], steps + [step];
  }

  lemma StartRun(b: Bounds)
    ensures IsRun(b, [Start()], [])
  {
    IdRoundTrip(0, 1);
  }

  /** Message 0 is sent, given up, and message `number` is sent; both are on the bus. */
  lemma TwoSent(b: Bounds, number: nat, first: seq<Byte>, second: seq<Byte>)
    returns (states: seq<System>, steps: seq<Step>)
    requires Small(first) && Small(second) && number > 0
    ensures IsRun(b, states, steps)
    ensures states[|steps|] == SentAll(SentAll(Start(), 0, first).(sender := NewSender(MAXIMUM)), number, second)
  {
    StartRun(b);
    states, steps := Sends(b, [Start()], [], 0, first);
    SendingValid(0, first, Count(first));
    states, steps := Resets(b, states, steps);
    states, steps := Sends(b, states, steps, number, second);
  }

  /* ------------------------------------------------------------ failing runs */

  /** Two tiny messages are on the bus and the receiver has seen nothing. */
  lemma TwoOnTheBus(b: Bounds, number: nat, first: seq<Byte>, second: seq<Byte>)
    returns (states: seq<System>, steps: seq<Step>)
    requires Tiny(first) && Tiny(second) && number > 0
    ensures IsRun(b, states, steps)
    ensures var s := states[|steps|];
            && s.sender.Valid() && s.receiver == NewReceiver(MAXIMUM, 0) && s.delivered == []
            && Frame(0, first) in s.data && Frame(number, second) in s.data
  {
    states, steps := TwoSent(b, number, first, second);
    OnTheBus(0, first);
    OnTheBus(number, second);
    SendingValid(number, second, 1);
  }

  /** Nine behind is too late: after message 9, a frame of message 0 is taken for a new message. */
  lemma TooLate(b: Bounds) returns (states: seq<System>, steps: seq<Step>)
    requires b.back >= 9
    ensures IsRun(b, states, steps) && !Safe(states[|steps|])
  {
    states, steps := TwoOnTheBus(b, 9, [1], [2]);
    states, steps := Delivers(b, states, steps, 9, [2]);
    states, steps := DeliversOld(b, states, steps);
  }

  lemma DeliversOld(b: Bounds, states: seq<System>, steps: seq<Step>) returns (more: seq<System>, longer: seq<Step>)
    requires b.back >= 9 && IsRun(b, states, steps)
    requires var s := states[|steps|];
             && s.sender.Valid() && s.receiver.assembly.None? && s.receiver.maximum == MAXIMUM
             && s.receiver.last == Some(Finished(ID, 9)) && s.completed == 9 && Frame(0, [1]) in s.data
             && |s.delivered| == 1 && s.delivered[0].number == 9
    ensures IsRun(b, more, longer) && !Safe(more[|longer|])
  {
    more, longer := Delivers(b, states, steps, 0, [1]);
    var d := more[|longer|].delivered;
    assert d[0].number == 9 && d[1].number == 0;
  }

  lemma ZeroSent(b: Bounds, first: seq<Byte>) returns (states: seq<System>, steps: seq<Step>)
    requires Tiny(first)
    ensures IsRun(b, states, steps)
    ensures var s := states[|steps|];
            && s.id == ID && s.sender.Valid() && s.sender.maximum == MAXIMUM && s.given.Keys == {0}
            && Frame(0, first) in s.data && s.receiver == NewReceiver(MAXIMUM, 0) && s.completed == 0
            && s.delivered == []
  {
    StartRun(b);
    OnTheBus(0, first);
    states, steps := Sends(b, [Start()], [], 0, first);
    SendingValid(0, first, 1);
  }

  /** Message 0 is handed up, and the sender is idle again. */
  lemma ZeroHandedUp(b: Bounds) returns (states: seq<System>, steps: seq<Step>)
    ensures IsRun(b, states, steps)
    ensures var s := states[|steps|];
            && s.id == ID && s.sender == NewSender(MAXIMUM) && s.given.Keys == {0}
            && s.receiver == NewReceiver(MAXIMUM, 0).(last := Some(Finished(ID, 0))) && s.completed == 0
            && s.delivered == [Delivery(0, [1])] && Tagged(0, AckFrame(ID, 0)) in s.acks
  {
    states, steps := ZeroSent(b, [1]);
    states, steps := Delivers(b, states, steps, 0, [1]);
    states, steps := Resets(b, states, steps);
  }

  /** And message 16 is on the bus. */
  lemma SixteenLater(b: Bounds) returns (states: seq<System>, steps: seq<Step>)
    ensures IsRun(b, states, steps)
    ensures var s := states[|steps|];
            && s.sender == Sending(16, [2], 1) && s.number == 16 && Frame(16, [2]) in s.data
            && s.receiver == NewReceiver(MAXIMUM, 0).(last := Some(Finished(ID, 0))) && s.completed == 0
            && s.delivered == [Delivery(0, [1])] && Tagged(0, AckFrame(ID, 0)) in s.acks
  {
    states, steps := ZeroHandedUp(b);
    OnTheBus(16, [2]);
    states, steps := Sends(b, states, steps, 16, [2]);
  }

  lemma AckStep(s: System, ack: Tagged)
    requires s.sender == Sending(s.number, [2], 1) && s.number == 16 && ack.frame == AckFrame(ID, 0)
    ensures Apply(s, DeliverAck(ack)) == s.(sender := s.sender.(state := Complete, pending := None))
  {
    IdRoundTrip(0, 1);
  }

  /** The sender takes message 16 for acknowledged, but only message 0 was handed up. */
  lemma WronglyComplete(b: Bounds, states: seq<System>, steps: seq<Step>, ack: Tagged)
    returns (more: seq<System>, longer: seq<Step>)
    requires IsRun(b, states, steps)
    requires var s := states[|steps|];
             && s.sender == Sending(16, [2], 1) && s.number == 16 && s.delivered == [Delivery(0, [1])]
             && ack in s.acks && ack.frame == AckFrame(ID, 0) && 16 - b.acks <= ack.number <= 16
    ensures IsRun(b, more, longer) && !Safe(more[|longer|])
  {
    SendingValid(16, [2], 1);
    AckStep(states[|steps|], ack);
    Extended(b, states, steps, DeliverAck(ack));
    more, longer := states + [Apply(states[|steps|], DeliverAck(ack))], steps + [DeliverAck(ack)];
  }

  /** Sixteen ahead is too early: message 16 is taken for a repetition of message 0 and acknowledged. */
  lemma TooEarly(b: Bounds) returns (states: seq<System>, steps: seq<Step>)
    requires b.ahead >= 16
    ensures IsRun(b, states, steps) && !Safe(states[|steps|])
  {
    states, steps := SixteenLater(b);
    states, steps := Acknowledges(b, states, steps);
    states, steps := WronglyComplete(b, states, steps, Tagged(16, AckFrame(ID, 0)));
  }

  lemma Acknowledges(b: Bounds, states: seq<System>, steps: seq<Step>) returns (more: seq<System>, longer: seq<Step>)
    requires b.ahead >= 16 && IsRun(b, states, steps)
    requires var s := states[|steps|];
             && s.sender == Sending(16, [2], 1) && s.number == 16 && Frame(16, [2]) in s.data
             && s.receiver == NewReceiver(MAXIMUM, 0).(last := Some(Finished(ID, 0))) && s.completed == 0
    ensures IsRun(b, more, longer)
    ensures more[|longer|] == states[|steps|].(acks := states[|steps|].acks + {Tagged(16, AckFrame(ID, 0))})
  {
    SendingValid(16, [2], 1);
    var step := DeliverData(Frame(16, [2]), None);
    Repeats(states[|steps|].receiver, 0, [2]);
    Extended(b, states, steps, step);
    more, longer := states + [Apply(states[|steps|], step)], steps + [step];
  }

  /** An acknowledgement sixteen messages old passes for that of the current message. */
  lemma AckTooOld(b: Bounds) returns (states: seq<System>, steps: seq<Step>)
    requires b.acks >= 16
    ensures IsRun(b, states, steps) && !Safe(states[|steps|])
  {
    states, steps := SixteenLater(b);
    states, steps := WronglyComplete(b, states, steps, Tagged(0, AckFrame(ID, 0)));
  }

  /** Fragments of messages sixteen apart are put together: the first of message 0, the second of message 16. */
  lemma TooFarApart(b: Bounds) returns (states: seq<System>, steps: seq<Step>)
    requires b.spread >= 16
    ensures IsRun(b, states, steps) && !Safe(states[|steps|])
  {
    states, steps := SentAndMixed(b, [1, 1, 1, 1, 1, 1, 1], [2, 2, 2, 2, 2, 2, 2]);
  }

  lemma SentAndMixed(b: Bounds, first: seq<Byte>, second: seq<Byte>) returns (states: seq<System>, steps: seq<Step>)
    requires b.spread >= 16 && |first| == |second| == 7 && first[0] != second[0]
    ensures IsRun(b, states, steps) && !Safe(states[|steps|])
  {
    Mixed(first, second);
    states, steps := TwoSent(b, 16, first, second);
    SendingValid(16, second, 2);
    states, steps := Mixes(b, states, steps, first, second);
  }

  ghost function Fragment(number: nat, payload: seq<Byte>, index: nat): Tagged
    requires index < Count(payload) <= MAXIMUM_FRAGMENTS
  {
    Tagged(number, DataFrame(ID, number % 16, payload, index))
  }

  lemma Mixed(first: seq<Byte>, second: seq<Byte>)
    requires |first| == |second| == 7
    ensures Count(first) == Count(second) == 2
    ensures Fragment(0, first, 0) in FramesOf(0, first, 2) && Fragment(16, second, 1) in FramesOf(16, second, 2)
  {
    assert FramesOf(0, first, 2) == FramesOf(0, first, 1) + {Fragment(0, first, 1)};
    assert FramesOf(0, first, 1) == FramesOf(0, first, 0) + {Fragment(0, first, 0)};
  }

  /** The receiver after the first fragment of a two-fragment message. */
  ghost function Half(payload: seq<Byte>): Receiver
    requires Count(payload) == 2
  {
    NewReceiver(MAXIMUM, 0).(assembly := Some(Assembly(ID, 1, 0, 2, map[0 := Piece(payload, 0)], 0)))
  }

  lemma FirstHalf(payload: seq<Byte>)
    requires |payload| == 7
    ensures Count(payload) == 2
    ensures NewReceiver(MAXIMUM, 0).AcceptFrame(DataFrame(ID, 0, payload, 0), None)
         == (Half(payload), Reply(Unavailable, None, None))
  {
    ParseDataFrame(ID, 0, payload, 0, MAXIMUM);
    assert 1 !in map[0 := Piece(payload, 0)];
  }

  lemma SecondHalf(first: seq<Byte>, second: seq<Byte>)
    requires |first| == |second| == 7
    ensures Count(first) == Count(second) == 2
    ensures var (r, reply) := Half(first).AcceptFrame(DataFrame(ID, 0, second, 1), None);
            reply.message.Some? && reply.message.value.payload == first[..6] + second[6..]
  {
    ParseDataFrame(ID, 0, second, 1, MAXIMUM);
    var pieces := map[0 := Piece(first, 0)][1 := Piece(second, 1)];
    JoinMixed(first, second, pieces);
  }

  lemma JoinMixed(first: seq<Byte>, second: seq<Byte>, pieces: map<nat, seq<Byte>>)
    requires |first| == |second| == 7 && pieces == map[0 := Piece(first, 0)][1 := Piece(second, 1)]
    ensures Covers(pieces, 2) && Join(pieces, 2) == first[..6] + second[6..]
  {
    assert Covers(pieces, 2);
    assert Join(pieces, 2) == Join(pieces, 1) + pieces[1] && Join(pieces, 1) == Join(pieces, 0) + pieces[0];
    assert Piece(first, 0) == first[..6] && Piece(second, 1) == second[6..];
  }

  lemma Mixes(b: Bounds, states: seq<System>, steps: seq<Step>, first: seq<Byte>, second: seq<Byte>)
    returns (more: seq<System>, longer: seq<Step>)
    requires b.spread >= 16 && IsRun(b, states, steps)
    requires |first| == |second| == 7 && first[0] != second[0] && Count(first) == Count(second) == 2
    requires var s := states[|steps|];
             && s.sender.Valid() && s.receiver == NewReceiver(MAXIMUM, 0) && s.delivered == []
             && Fragment(0, first, 0) in s.data && Fragment(16, second, 1) in s.data
             && 16 in s.given && s.given[16] == second
    ensures IsRun(b, more, longer) && !Safe(more[|longer|])
  {
    var step := DeliverData(Fragment(0, first, 0), None);
    FirstHalf(first);
    Extended(b, states, steps, step);
    more, longer := states + [Apply(states[|steps|], step)], steps + [step];
    more, longer := MixesSecond(b, more, longer, first, second);
  }

  lemma MixesSecond(b: Bounds, states: seq<System>, steps: seq<Step>, first: seq<Byte>, second: seq<Byte>)
    returns (more: seq<System>, longer: seq<Step>)
    requires b.spread >= 16 && IsRun(b, states, steps)
    requires |first| == |second| == 7 && first[0] != second[0] && Count(first) == Count(second) == 2
    requires var s := states[|steps|];
             && s.sender.Valid() && s.receiver == Half(first) && s.assembling == 0 && s.delivered == []
             && Fragment(16, second, 1) in s.data && 16 in s.given && s.given[16] == second
    ensures IsRun(b, more, longer) && !Safe(more[|longer|])
  {
    var step := DeliverData(Fragment(16, second, 1), None);
    SecondHalf(first, second);
    Extended(b, states, steps, step);
    var t := Apply(states[|steps|], step);
    more, longer := states + [t], steps + [step];
    assert t.delivered == [Delivery(16, first[..6] + second[6..])];
    assert (first[..6] + second[6..])[0] == first[0];
    assert t.delivered[0].payload != t.given[16];
  }

  /* ---------------------------------------------------------------- exactness */

  /**
   Every run delivers in order, at most once and byte for byte, with sound acknowledgements,
   exactly if no frame is more than 8 messages behind the last completed one or more than 15 ahead
   of it, none is 16 or more from the one assembled first, and no acknowledgement is 16 or more
   from the sender's message.
   */
  lemma SafeExactly(b: Bounds)
    ensures (forall states: seq<System>, steps: seq<Step> :: IsRun(b, states, steps) ==> SafeRun(states)) <==> Tight(b)
  {
    if Tight(b) {
      forall states: seq<System>, steps: seq<Step> | IsRun(b, states, steps) ensures SafeRun(states) {
        forall k | 0 <= k < |states| ensures Safe(states[k]) {
          DeliveryTheorem(b, states, steps, k);
          if states[k].sender.state == Complete { AckTheorem(b, states, steps, k); }
        }
      }
    } else {
      var states, steps := Unsafe(b);
      assert !SafeRun(states);
    }
  }

  lemma Unsafe(b: Bounds) returns (states: seq<System>, steps: seq<Step>)
    requires !Tight(b)
    ensures IsRun(b, states, steps) && !Safe(states[|steps|])
  {
    if b.back > 8 { states, steps := TooLate(b); }
    else if b.ahead > 15 { states, steps := TooEarly(b); }
    else if b.spread > 15 { states, steps := TooFarApart(b); }
    else { states, steps := AckTooOld(b); }
  }

  /** The comparison with the last completed message is right around every base exactly in that range. */
  lemma WindowIsExact(back: nat, ahead: nat)
    ensures (forall base: nat, number: nat :: base - back <= number <= base + ahead ==>
               (SequenceDistance(base % 16, number % 16) <= 7 <==> base <= number <= base + 7))
            <==> back <= 8 && ahead <= 15
  {
    if back <= 8 && ahead <= 15 {
      forall base: nat, number: nat | base - back <= number <= base + ahead
        ensures SequenceDistance(base % 16, number % 16) <= 7 <==> base <= number <= base + 7
      {
        WindowOrder(base, number);
      }
    } else if ahead > 15 {
      assert SequenceDistance(0 % 16, 16 % 16) == 0;
    } else {
      assert SequenceDistance(9 % 16, 0 % 16) == 7;
    }
  }
}

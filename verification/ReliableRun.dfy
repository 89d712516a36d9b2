/**
 A sender and a receiver on one arbitration id, joined by a channel that may drop,
 duplicate and reorder frames in both directions. Every frame carries, as history,
 the unbounded number of the message it belongs to; the code sees only its low four bits.
 */
module ReliableRun {
  import opened Bytes
  import opened CanProtocol
  import opened Fragments
  import opened ReliablePath

  /** A frame that was put on the bus, and the message it belongs to. */
  datatype Tagged = Tagged(number: nat, frame: CanFrame)

  datatype Delivery = Delivery(number: nat, payload: seq<Byte>)

  /**
   `data` and `acks` hold every frame ever put on the bus: one that is dropped is never
   picked again, one that is duplicated is picked more than once.
   `given` records the payload handed to each accepted Begin.
   */
  datatype System = System(
    id: nat,
    sender: Sender,
    number: nat,
    given: map<nat, seq<Byte>>,
    data: set<Tagged>,
    acks: set<Tagged>,
    receiver: Receiver,
    assembling: nat,
    completed: nat,
    delivered: seq<Delivery>)

  datatype Step =
    | Begin(number: nat, payload: seq<Byte>, now: U64, timeout: U64, maximumRetries: nat)
    | NextFrame
    | WriteCompleted(token: nat, accepted: bool)
    | SenderPoll(now: U64)
    | ArmAckDeadline(now: U64)
    | SenderReset
    | DeliverData(data: Tagged, at: Option<U64>)
    | DeliverAck(ack: Tagged)
    | ReceiverPoll(now: U64)

  /**
   How far off a frame may be when it comes off the bus. A data frame lies from `back` messages
   behind the last completed one to `ahead` beyond it; before the first completion, within `spread`
   of the one being assembled. An acknowledgement lies within `acks` of the sender's message.
   */
  datatype Bounds = Bounds(back: nat, ahead: nat, spread: nat, acks: nat)

  /** The bounds under which four-bit sequence numbers are enough. */
  predicate Tight(b: Bounds) {
    b.back <= 8 && b.ahead <= 15 && b.spread <= 15 && b.acks <= 15
  }

  /**
   What the environment promises: message numbers grow, sequence numbers are their low
   bits, frames come off the bus, and none is further off than the bounds allow.
   */
  ghost predicate Enabled(b: Bounds, s: System, step: Step) {
    match step
    case Begin(number, _, _, _, _) => forall n :: n in s.given ==> n < number
    case DeliverData(tagged, _) => tagged in s.data && Timely(b, s, tagged.number)
    case DeliverAck(tagged) => tagged in s.acks && s.number - b.acks <= tagged.number <= s.number + b.acks
    case _ => true
  }

  ghost predicate Timely(b: Bounds, s: System, number: nat) {
    && (s.receiver.last.Some? ==> s.completed - b.back <= number <= s.completed + b.ahead)
    && (s.receiver.last.None? && s.receiver.assembly.Some? ==>
          s.assembling - b.spread <= number <= s.assembling + b.spread)
  }

  ghost function Apply(s: System, step: Step): System
    requires s.sender.Valid()
  {
    match step
    case Begin(number, payload, now, timeout, maximumRetries) =>
      var address := DecodeId(s.id);
      if address.None? then s
      else
        var (sender, status) := s.sender.Begin(address.value.route, address.value.priority,
                                               number % 16, payload, now, timeout, maximumRetries);
        if status == Ok then
          s.(sender := sender, number := number, given := s.given[number := payload])
        else s.(sender := sender)
    case NextFrame =>
      var (sender, frame) := s.sender.NextFrame();
      if frame.None? then s
      else s.(sender := sender, data := s.data + {Tagged(s.number, frame.value)})
    case WriteCompleted(token, accepted) => s.(sender := s.sender.OnFrameWrite(token, accepted))
    case SenderPoll(now) => s.(sender := s.sender.Poll(now).0)
    case ArmAckDeadline(now) => s.(sender := s.sender.ArmAckDeadline(now).0)
    case SenderReset => s.(sender := NewSender(s.sender.maximum))
    case DeliverData(tagged, now) =>
      var (receiver, reply) :=
        if now.Some? then s.receiver.AcceptAt(tagged.frame, now.value)
        else s.receiver.AcceptFrame(tagged.frame, None);
      Delivered(s, tagged.number, receiver, reply)
    case DeliverAck(tagged) => s.(sender := s.sender.HandleAck(tagged.frame).0)
    case ReceiverPoll(now) => s.(receiver := s.receiver.Poll(now).0)
  }

  /** Record what the receiver handed up and sent back for a frame of message `number`. */
  ghost function Delivered(s: System, number: nat, receiver: Receiver, reply: Reply): System {
    var changed := receiver.assembly.Some? &&
      (s.receiver.assembly.None? ||
       s.receiver.assembly.value.sequence != receiver.assembly.value.sequence);
    s.(receiver := receiver,
       assembling := if changed then number else s.assembling,
       completed := if reply.message.Some? then number else s.completed,
       delivered := if reply.message.Some?
                    then s.delivered + [Delivery(number, reply.message.value.payload)]
                    else s.delivered,
       acks := if reply.ack.Some? then s.acks + {Tagged(number, reply.ack.value)} else s.acks)
  }

  ghost predicate Initial(s: System) {
    && DecodeId(s.id).Some?
    && s.sender == NewSender(s.sender.maximum)
    && s.receiver == NewReceiver(s.receiver.maximum, s.receiver.timeout)
    && s.given == map[] && s.data == {} && s.acks == {} && s.delivered == []
  }

  /** A run: each state follows from the one before by an enabled step. */
  ghost predicate IsRun(b: Bounds, states: seq<System>, steps: seq<Step>) {
    && |states| == |steps| + 1
    && Initial(states[0])
    && forall k :: 0 <= k < |steps| ==>
         && states[k].sender.Valid()
         && Enabled(b, states[k], steps[k])
         && states[k + 1] == Apply(states[k], steps[k])
  }

  /* --------------------------------------------------------------- invariant */

  ghost predicate IsDelivered(s: System, number: nat) {
    exists k :: 0 <= k < |s.delivered| && s.delivered[k].number == number
  }

  /** Each frame on the bus is a fragment of the message it is tagged with. */
  ghost predicate Genuine(s: System, t: Tagged) {
    && t.number in s.given
    && var payload := s.given[t.number];
       && payload != []
       && Count(payload) <= MAXIMUM_FRAGMENTS
       && exists i :: 0 <= i < Count(payload) && t.frame == DataFrame(s.id, t.number % 16, payload, i)
  }

  ghost predicate SenderInv(s: System) {
    && DecodeId(s.id).Some?
    && s.sender.Valid()
    && (s.sender.Busy() || s.sender.state == Complete ==>
          && s.sender.id == s.id
          && s.sender.sequence == s.number % 16
          && s.number in s.given && s.given[s.number] == s.sender.payload)
    && (s.sender.state == Complete ==> IsDelivered(s, s.number))
  }

  ghost predicate ChannelInv(s: System) {
    && (forall t :: t in s.data ==> Genuine(s, t))
    && (forall t :: t in s.acks ==>
          t.frame == AckFrame(s.id, t.number % 16) && IsDelivered(s, t.number))
  }

  ghost predicate AssemblyInv(s: System) {
    s.receiver.assembly.Some? ==>
      var a := s.receiver.assembly.value;
      && s.assembling in s.given
      && a.id == s.id
      && a.sequence == s.assembling % 16
      && a.count == Count(s.given[s.assembling])
      && PiecesOf(a.pieces, s.given[s.assembling])
      && (s.receiver.last.Some? ==> s.completed <= s.assembling <= s.completed + 7)
  }

  ghost predicate DeliveryInv(s: System) {
    && (forall i, j :: 0 <= i < j < |s.delivered| ==> s.delivered[i].number < s.delivered[j].number)
    && (forall k :: 0 <= k < |s.delivered| ==>
          && s.delivered[k].number in s.given
          && s.delivered[k].payload == s.given[s.delivered[k].number])
    && (s.receiver.last.Some? <==> s.delivered != [])
    && (s.delivered != [] ==>
          && s.completed == s.delivered[|s.delivered| - 1].number
          && s.receiver.last.value == Finished(s.id, s.completed % 16))
  }

  ghost predicate Inv(s: System) {
    SenderInv(s) && ChannelInv(s) && AssemblyInv(s) && DeliveryInv(s)
  }

  lemma InitialInv(s: System)
    requires Initial(s)
    ensures Inv(s)
  {
  }

  /** In the window, equal low bits mean the same message. */
  lemma SameLowBits(a: nat, b: nat)
    requires a % 16 == b % 16
    requires a - 16 < b < a + 16
    ensures a == b
  {
  }

  /** From 8 behind to 15 ahead, the comparison tells who is from 0 to 7 ahead. */
  lemma WindowOrder(base: nat, number: nat)
    requires base - 8 <= number <= base + 15
    ensures SequenceDistance(base % 16, number % 16) == 0 <==> number == base
    ensures SequenceDistance(base % 16, number % 16) <= 7 <==> base <= number <= base + 7
  {
    assert (number % 16 - base % 16) % 16 == (number - base) % 16;
  }

  /* ------------------------------------------------- one step keeps the invariant */

  /** Steps that touch neither the bus, the receiver nor the record of deliveries. */
  lemma SenderOnlyInv(s: System, sender: Sender)
    requires Inv(s)
    requires SenderInv(s.(sender := sender))
    ensures Inv(s.(sender := sender))
  {
    var t := s.(sender := sender);
    assert forall n :: IsDelivered(s, n) ==> IsDelivered(t, n);
    forall x | x in t.data ensures Genuine(t, x) { assert Genuine(s, x); }
  }

  lemma SenderStepInv(s: System, step: Step)
    requires Inv(s)
    requires step.WriteCompleted? || step.SenderPoll? || step.ArmAckDeadline? || step.SenderReset?
    ensures Inv(Apply(s, step))
  {
    var t := Apply(s, step);
    SenderStepSender(s, step);
    SenderOnlyInv(s, t.sender);
  }

  lemma SenderStepSender(s: System, step: Step)
    requires SenderInv(s)
    requires step.WriteCompleted? || step.SenderPoll? || step.ArmAckDeadline? || step.SenderReset?
    ensures SenderInv(Apply(s, step))
  {
    assert forall n :: IsDelivered(s, n) ==> IsDelivered(Apply(s, step), n);
  }

  lemma NextFrameInv(s: System)
    requires Inv(s)
    ensures Inv(Apply(s, Step.NextFrame))
  {
    var t := Apply(s, Step.NextFrame);
    if s.sender.state == Sending {
      var sent := s.(sender := s.sender.NextFrame().0);
      assert forall n :: IsDelivered(s, n) ==> IsDelivered(sent, n);
      SenderOnlyInv(s, sent.sender);
      var frame := DataFrame(s.id, s.number % 16, s.sender.payload, s.sender.next);
      assert t == sent.(data := sent.data + {Tagged(s.number, frame)});
      OnTheBusInv(sent, Tagged(s.number, frame));
    }
  }

  lemma OnTheBusInv(s: System, tagged: Tagged)
    requires Inv(s) && Genuine(s, tagged)
    ensures Inv(s.(data := s.data + {tagged}))
  {
    var t := s.(data := s.data + {tagged});
    assert forall n :: IsDelivered(s, n) ==> IsDelivered(t, n);
    forall x | x in t.data ensures Genuine(t, x) { assert Genuine(s, x); }
  }

  /** Another message is handed to the sender: nothing said about earlier ones changes. */
  lemma GivenMore(s: System, t: System, number: nat, payload: seq<Byte>)
    requires Inv(s) && number !in s.given
    requires t == s.(sender := t.sender, number := number, given := s.given[number := payload])
    ensures ChannelInv(t) && AssemblyInv(t) && DeliveryInv(t)
  {
    assert forall n :: IsDelivered(s, n) ==> IsDelivered(t, n);
    forall x | x in t.data ensures Genuine(t, x) { assert Genuine(s, x); }
  }

  lemma BegunSender(b: Bounds, s: System, step: Step)
    requires Inv(s) && Tight(b) && Enabled(b, s, step) && step.Begin?
    ensures SenderInv(Apply(s, step))
  {
    var address := DecodeId(s.id).value;
    BeginKeepsValid(s.sender, address.route, address.priority, step.number % 16, step.payload, step.now, step.timeout,
                    step.maximumRetries);
    BegunFields(s.sender, s.id, step);
    assert forall n :: IsDelivered(s, n) ==> IsDelivered(Apply(s, step), n);
  }

  /** What a Begin on the system's id leaves in the sender. */
  lemma BegunFields(sender: Sender, id: nat, step: Step)
    requires step.Begin? && DecodeId(id).Some?
    ensures var address := DecodeId(id).value;
            var (t, status) := sender.Begin(address.route, address.priority, step.number % 16, step.payload, step.now,
                                            step.timeout, step.maximumRetries);
            && t.maximum == sender.maximum
            && (status == Ok ==>
                  t.state == Sending && t.id == id && t.sequence == step.number % 16 && t.payload == step.payload)
            && (status != Ok ==> t.state == sender.state && (sender.Busy() ==> t == sender))
            && (status != Ok ==> t == sender.(id := t.id))
  {
    IdRoundTrip(DecodeId(id).value.priority, DecodeId(id).value.route);
  }

  lemma BeginInv(b: Bounds, s: System, step: Step)
    requires Inv(s) && Tight(b) && Enabled(b, s, step) && step.Begin?
    ensures Inv(Apply(s, step))
  {
    var t := Apply(s, step);
    BegunSender(b, s, step);
    if t == s.(sender := t.sender) {
      SenderOnlyInv(s, t.sender);
    } else {
      assert step.number !in s.given;
      GivenMore(s, t, step.number, step.payload);
    }
  }

  /** An acknowledgement the sender believes comes from a delivery of its current message. */
  lemma AckInv(b: Bounds, s: System, step: Step)
    requires Inv(s) && Tight(b) && Enabled(b, s, step) && step.DeliverAck?
    ensures Inv(Apply(s, step))
  {
    var t := Apply(s, step);
    assert forall n :: IsDelivered(s, n) ==> IsDelivered(t, n);
    forall x | x in t.data ensures Genuine(t, x) { assert Genuine(s, x); }
    if s.sender.state == WaitingForAck && t.sender.state == Complete {
      SameLowBits(s.number, step.ack.number);
    }
  }

  lemma ExpireInv(s: System, receiver: Receiver)
    requires Inv(s)
    requires receiver == s.receiver.(observed := receiver.observed) ||
             receiver == s.receiver.(observed := receiver.observed, assembly := None)
    ensures Inv(s.(receiver := receiver))
  {
    var t := s.(receiver := receiver);
    assert forall n :: IsDelivered(s, n) ==> IsDelivered(t, n);
    forall x | x in t.data ensures Genuine(t, x) { assert Genuine(s, x); }
  }

  /** The receiver handed nothing up and sent nothing back. */
  lemma ReceiverOnlyInv(s: System, t: System)
    requires Inv(s) && t == s.(receiver := t.receiver)
    requires t.receiver.last == s.receiver.last && t.receiver.maximum == s.receiver.maximum
    requires AssemblyInv(t)
    ensures Inv(t)
  {
    assert forall n :: IsDelivered(s, n) ==> IsDelivered(t, n);
    forall x | x in t.data ensures Genuine(t, x) { assert Genuine(s, x); }
  }

  /** All fragments are in, for a message handed up before: it is only acknowledged again. */
  lemma AgainInv(s: System, t: System, number: nat)
    requires Inv(s) && s.delivered != [] && s.completed == number
    requires t == s.(receiver := s.receiver.(assembly := None),
                     acks := s.acks + {Tagged(number, AckFrame(s.id, number % 16))})
    ensures Inv(t)
  {
    assert forall n :: IsDelivered(s, n) ==> IsDelivered(t, n);
    assert t.delivered[|t.delivered| - 1].number == number;
    forall x | x in t.data ensures Genuine(t, x) { assert Genuine(s, x); }
  }

  /** All fragments are in, for a message after every one handed up before. */
  lemma HandedUpInv(s: System, t: System, number: nat)
    requires Inv(s) && number in s.given && (s.delivered != [] ==> s.completed < number)
    requires t == s.(receiver := s.receiver.(assembly := None, last := Some(Finished(s.id, number % 16))),
                     completed := number, delivered := s.delivered + [Delivery(number, s.given[number])],
                     acks := s.acks + {Tagged(number, AckFrame(s.id, number % 16))})
    ensures Inv(t)
  {
    assert t.delivered[|s.delivered|].number == number;
    forall n | IsDelivered(s, n) ensures IsDelivered(t, n) {
      var k :| 0 <= k < |s.delivered| && s.delivered[k].number == n;
      assert t.delivered[k].number == n;
    }
    forall x | x in t.data ensures Genuine(t, x) { assert Genuine(s, x); }
    Increasing(s.delivered, Delivery(number, s.given[number]));
  }

  lemma Increasing(delivered: seq<Delivery>, d: Delivery)
    requires forall i, j :: 0 <= i < j < |delivered| ==> delivered[i].number < delivered[j].number
    requires delivered != [] ==> delivered[|delivered| - 1].number < d.number
    ensures forall i, j :: 0 <= i < j < |delivered + [d]| ==>
              (delivered + [d])[i].number < (delivered + [d])[j].number
  {
  }

  /** Storing a genuine fragment of the message being assembled. */
  lemma StoreInv(s: System, number: nat, index: nat)
    requires Inv(s) && number in s.given && s.receiver.assembly.Some?
    requires number == s.assembling
    requires index < Count(s.given[number]) <= MAXIMUM_FRAGMENTS
    ensures var fragment := Fragment(s.receiver.assembly.value.route, number % 16, index,
                                     Count(s.given[number]), Piece(s.given[number], index));
            var (receiver, reply) := s.receiver.Store(fragment);
            Inv(Delivered(s, number, receiver, reply))
  {
    var payload := s.given[number];
    var a := s.receiver.assembly.value;
    var fragment := Fragment(a.route, number % 16, index, Count(payload), Piece(payload, index));
    var (receiver, reply) := s.receiver.Store(fragment);
    var t := Delivered(s, number, receiver, reply);
    var pieces := a.pieces[index := Piece(payload, index)];
    if reply.ack.None? {
      ReceiverOnlyInv(s, t);
    } else {
      JoinIsPayload(payload, pieces);
      if reply.message.None? {
        SameLowBits(s.completed, number);
        AgainInv(s, t, number);
      } else {
        HandedUpInv(s, t, number);
      }
    }
  }

  /** A frame off the bus, once the reassembly timeout has been dealt with. */
  lemma AcceptInv(b: Bounds, s: System, tagged: Tagged, now: Option<U64>)
    requires Inv(s) && tagged in s.data && Tight(b) && Timely(b, s, tagged.number)
    ensures var (receiver, reply) := s.receiver.AcceptFrame(tagged.frame, now);
            Inv(Delivered(s, tagged.number, receiver, reply))
  {
    assert Genuine(s, tagged);
    var number := tagged.number;
    var payload := s.given[number];
    var index :| 0 <= index < Count(payload) && tagged.frame == DataFrame(s.id, number % 16, payload, index);
    ParseFitting(s.id, number % 16, payload, index, s.receiver.maximum);
    if Parse(tagged.frame, s.receiver.maximum).None? {
      assert Delivered(s, number, s.receiver, Reply(InvalidArgument, None, None)) == s;
      return;
    }
    var fragment := Parse(tagged.frame, s.receiver.maximum).value;
    if s.receiver.assembly.Some? && s.receiver.assembly.value.sequence == number % 16 {
      SameLowBits(s.assembling, number);
      assert s.receiver.AcceptFrame(tagged.frame, now) == s.receiver.Store(fragment);
      StoreInv(s, number, index);
    } else {
      StartInv(b, s, tagged, index, now);
    }
  }

  /** A fragment of a message other than the one being assembled. */
  lemma StartInv(b: Bounds, s: System, tagged: Tagged, index: nat, now: Option<U64>)
    requires Inv(s) && tagged in s.data && Tight(b) && Timely(b, s, tagged.number) && Genuine(s, tagged)
    requires index < Count(s.given[tagged.number])
    requires tagged.frame == DataFrame(s.id, tagged.number % 16, s.given[tagged.number], index)
    requires Parse(tagged.frame, s.receiver.maximum).Some?
    requires s.receiver.assembly.Some? ==> s.receiver.assembly.value.sequence != tagged.number % 16
    ensures var (receiver, reply) := s.receiver.AcceptFrame(tagged.frame, now);
            Inv(Delivered(s, tagged.number, receiver, reply))
  {
    var number := tagged.number;
    var payload := s.given[number];
    ParseFitting(s.id, number % 16, payload, index, s.receiver.maximum);
    var fragment := Parse(tagged.frame, s.receiver.maximum).value;
    var (prepared, status) := s.receiver.Prepare(s.id, number % 16);
    if status != Ok {
      ExpireInv(s, prepared);
      assert Delivered(s, number, prepared, Reply(status, None, None)) == s.(receiver := prepared);
    } else {
      if s.receiver.last.Some? { WindowOrder(s.completed, number); }
      var deadline := if now.Some? && s.receiver.timeout != 0
                      then SaturatingAdd(now.value, s.receiver.timeout) else 0;
      var begun := prepared.(assembly := Some(Assembly(s.id, fragment.route, number % 16,
                                                       Count(payload), map[], deadline)));
      BegunInv(s, tagged, index, begun);
    }
  }

  /** The first fragment of a message, stored in an assembly just begun for it. */
  lemma BegunInv(s: System, tagged: Tagged, index: nat, begun: Receiver)
    requires Inv(s) && tagged in s.data && Genuine(s, tagged)
    requires index < Count(s.given[tagged.number])
    requires s.receiver.assembly.Some? ==> s.receiver.assembly.value.sequence != tagged.number % 16
    requires s.receiver.last.Some? ==> s.completed <= tagged.number <= s.completed + 7
    requires begun.assembly.Some? && begun == s.receiver.(assembly := begun.assembly)
    requires var a := begun.assembly.value;
             && a.id == s.id && a.sequence == tagged.number % 16 && a.pieces == map[]
             && a.count == Count(s.given[tagged.number])
    ensures var payload := s.given[tagged.number];
            var (receiver, reply) := begun.Store(Fragment(begun.assembly.value.route, tagged.number % 16, index,
                                                          Count(payload), Piece(payload, index)));
            Inv(Delivered(s, tagged.number, receiver, reply))
  {
    var number, payload := tagged.number, s.given[tagged.number];
    var u := s.(receiver := begun, assembling := number);
    StartedInv(s, u, tagged);
    StoreInv(u, number, index);
    var (receiver, reply) := begun.Store(Fragment(begun.assembly.value.route, number % 16, index,
                                                  Count(payload), Piece(payload, index)));
    AssemblingIsHistory(s, u, number, receiver, reply);
  }

  lemma StartedInv(s: System, u: System, tagged: Tagged)
    requires Inv(s) && tagged in s.data && Genuine(s, tagged)
    requires u == s.(receiver := u.receiver, assembling := tagged.number)
    requires u.receiver == s.receiver.(assembly := u.receiver.assembly)
    requires u.receiver.assembly.Some? && u.receiver.assembly.value.pieces == map[]
    requires u.receiver.assembly.value.id == s.id
    requires u.receiver.assembly.value.sequence == tagged.number % 16
    requires u.receiver.assembly.value.count == Count(s.given[tagged.number])
    requires s.receiver.last.Some? ==> s.completed <= tagged.number <= s.completed + 7
    ensures Inv(u)
  {
    assert forall n :: IsDelivered(s, n) ==> IsDelivered(u, n);
    forall x | x in u.data ensures Genuine(u, x) { assert Genuine(s, x); }
  }

  /** Where the assembly is discarded, which message it was for no longer matters. */
  lemma AssemblingIsHistory(s: System, u: System, number: nat, receiver: Receiver, reply: Reply)
    requires u == s.(receiver := u.receiver, assembling := number)
    requires u.receiver.assembly.Some?
    requires receiver.assembly.Some? ==>
               receiver.assembly.value.sequence == u.receiver.assembly.value.sequence
    requires s.receiver.assembly.Some? ==>
               s.receiver.assembly.value.sequence != u.receiver.assembly.value.sequence
    requires Inv(Delivered(u, number, receiver, reply))
    ensures Inv(Delivered(s, number, receiver, reply))
  {
    var a := Delivered(u, number, receiver, reply);
    var b := Delivered(s, number, receiver, reply);
    assert b == a.(assembling := b.assembling);
    assert receiver.assembly.Some? ==> b == a;
    assert forall n :: IsDelivered(a, n) ==> IsDelivered(b, n);
    forall x | x in b.data ensures Genuine(b, x) { assert Genuine(a, x); }
  }

  lemma DeliverInv(b: Bounds, s: System, step: Step)
    requires Inv(s) && Tight(b) && Enabled(b, s, step) && step.DeliverData?
    ensures Inv(Apply(s, step))
  {
    var number := step.data.number;
    if step.at.None? {
      AcceptInv(b, s, step.data, None);
    } else if s.receiver.observed.Some? && step.at.value < s.receiver.observed.value {
      ExpireInv(s, s.receiver);
      assert Apply(s, step) == s;
    } else {
      var expired := s.receiver.(observed := step.at).Expire(step.at.value).0;
      ExpireInv(s, expired);
      var u := s.(receiver := expired);
      AcceptInv(b, u, step.data, step.at);
      var (receiver, reply) := expired.AcceptFrame(step.data.frame, step.at);
      assert Inv(Delivered(u, number, receiver, reply));
      ExpiryIsHistory(s, u, number, receiver, reply);
    }
  }

  lemma ExpiryIsHistory(s: System, u: System, number: nat, receiver: Receiver, reply: Reply)
    requires Inv(s)
    requires u == s.(receiver := u.receiver)
    requires u.receiver.assembly == s.receiver.assembly || u.receiver.assembly.None?
    requires s.receiver.assembly.Some? && s.receiver.last.None? ==> s.assembling - 15 <= number <= s.assembling + 15
    requires s.receiver.last.Some? ==> s.completed - 8 <= number <= s.completed + 15
    requires receiver.assembly.Some? && u.receiver.assembly.None? ==>
               receiver.assembly.value.sequence == number % 16
    requires Inv(Delivered(u, number, receiver, reply))
    ensures Inv(Delivered(s, number, receiver, reply))
  {
    var a := Delivered(u, number, receiver, reply);
    var b := Delivered(s, number, receiver, reply);
    assert b == a.(assembling := b.assembling);
    if receiver.assembly.Some? && a.assembling != b.assembling {
      SameLowBits(s.assembling, number);
    }
    assert forall n :: IsDelivered(a, n) ==> IsDelivered(b, n);
    forall x | x in b.data ensures Genuine(b, x) { assert Genuine(a, x); }
  }

  lemma StepInv(b: Bounds, s: System, step: Step)
    requires Inv(s) && Tight(b) && Enabled(b, s, step)
    ensures Inv(Apply(s, step))
  {
    match step
    case Begin(_, _, _, _, _) => BeginInv(b, s, step);
    case DeliverData(_, _) => DeliverInv(b, s, step);
    case DeliverAck(_) => AckInv(b, s, step);
    case ReceiverPoll(now) => ExpireInv(s, s.receiver.Poll(now).0);
    case NextFrame => NextFrameInv(s);
    case _ => SenderStepInv(s, step);
  }

  lemma {:induction false} RunInv(b: Bounds, states: seq<System>, steps: seq<Step>, k: nat)
    requires Tight(b) && IsRun(b, states, steps) && k < |states|
    ensures Inv(states[k])
  {
    if k == 0 {
      InitialInv(states[0]);
    } else {
      RunInv(b, states, steps, k - 1);
      StepInv(b, states[k - 1], steps[k - 1]);
    }
  }

  /* ------------------------------------------------------------ main theorems */

  /**
   In every run the receiver hands up messages in strictly increasing order, so each at most
   once, and each with exactly the bytes its Begin was given: fragments never mix.
   */
  lemma DeliveryTheorem(b: Bounds, states: seq<System>, steps: seq<Step>, k: nat)
    requires Tight(b) && IsRun(b, states, steps) && k < |states|
    ensures forall i, j :: 0 <= i < j < |states[k].delivered| ==>
              states[k].delivered[i].number < states[k].delivered[j].number
    ensures forall i :: 0 <= i < |states[k].delivered| ==>
              && states[k].delivered[i].number in states[k].given
              && states[k].delivered[i].payload == states[k].given[states[k].delivered[i].number]
  {
    RunInv(b, states, steps, k);
  }

  /** The sender believes message n arrived only if the receiver has handed n up. */
  lemma AckTheorem(b: Bounds, states: seq<System>, steps: seq<Step>, k: nat)
    requires Tight(b) && IsRun(b, states, steps) && k < |states|
    requires states[k].sender.state == Complete
    ensures exists i :: 0 <= i < |states[k].delivered| &&
              states[k].delivered[i] == Delivery(states[k].number, states[k].sender.payload)
  {
    RunInv(b, states, steps, k);
    var s := states[k];
    var i :| 0 <= i < |s.delivered| && s.delivered[i].number == s.number;
    assert s.delivered[i].payload == s.given[s.number];
  }
}

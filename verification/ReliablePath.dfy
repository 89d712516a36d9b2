/**
 The two ends of the reliable CAN path as values: what one call does to the
 sender and to the receiver. The classes in ReliableEnds carry these out in place.
 */
module ReliablePath {
  import opened Bytes
  import opened CanProtocol
  import opened Fragments

  datatype Subtype = Data | Ack | Nack | Cancel

  function SubtypeBits(subtype: Subtype): nat {
    match subtype case Data => 0 case Ack => 1 case Nack => 2 case Cancel => 3
  }

  /** Header byte: kind bits 10, two subtype bits, four sequence bits. */
  function Header(subtype: Subtype, sequence: nat): (header: Byte)
    ensures Kind(header) == Reliable
    ensures HeaderSubtype(header) == subtype
    ensures header % 16 == sequence % 16
  {
    128 + SubtypeBits(subtype) * 16 + sequence % 16
  }

  function HeaderSubtype(header: Byte): Subtype {
    match (header / 16) % 4 case 0 => Data case 1 => Ack case 2 => Nack case _ => Cancel
  }

  /* ------------------------------------------------------------------ sender */

  datatype SenderState = Idle | Sending | WaitingForAck | Complete | Failed

  datatype PendingWrite = PendingWrite(token: nat, fragment: nat)

  datatype Sender = Sender(
    maximum: nat,
    state: SenderState,
    payload: seq<Byte>,
    id: nat,
    sequence: nat,
    next: nat,
    timeout: U64,
    deadline: U64,
    maximumRetries: nat,
    retries: nat,
    pending: Option<PendingWrite>,
    lastToken: nat)
  {
    predicate Busy() { state == Sending || state == WaitingForAck }

    /** Facts every reachable sender has; `Begin` establishes them for the busy states. */
    ghost predicate Valid() {
      && lastToken <= U32_MAX
      && (Busy() ==>
            && payload != [] && |payload| <= maximum
            && Count(payload) <= MAXIMUM_FRAGMENTS
            && next <= Count(payload)
            && (state == WaitingForAck <==> next == Count(payload))
            && timeout > 0
            && retries <= maximumRetries
            && DecodeId(id).Some?
            && sequence < 16)
      && (pending.Some? ==>
            && Busy()
            && pending.value.fragment + 1 == next
            && pending.value.token == lastToken)
    }

    function Begin(route: nat, priority: nat, sequence': nat, payload': seq<Byte>, now: U64,
                   timeout': U64, maximumRetries': nat): (Sender, Status)
    {
      if Busy() then (this, InvalidState)
      else if payload' == [] || |payload'| > maximum || sequence' > 15 || timeout' == 0 then
        (this, InvalidArgument)
      else
        match EncodeId(priority, route)
        case None => (this.(id := 0), InvalidArgument)
        case Some(encoded) =>
          if Count(payload') > MAXIMUM_FRAGMENTS then (this.(id := encoded), CapacityExceeded)
          else
            (this.(state := Sending, payload := payload', id := encoded, sequence := sequence',
                   next := 0, timeout := timeout', deadline := SaturatingAdd(now, timeout'),
                   maximumRetries := maximumRetries', retries := 0, pending := None), Ok)
    }

    function NextToken(): nat {
      if lastToken == U32_MAX then 1 else lastToken + 1
    }

    /** The next fragment and the write token its completion will carry. */
    function NextFrame(): (result: (Sender, Option<CanFrame>))
      requires Valid()
      ensures result.1.Some? <==> state == Sending
    {
      if state != Sending then (this, None)
      else
        (this.(next := next + 1,
               lastToken := NextToken(),
               pending := Some(PendingWrite(NextToken(), next)),
               state := if next + 1 == Count(payload) then WaitingForAck else Sending),
         Some(DataFrame(id, sequence, payload, next)))
    }

    function HandleAck(frame: CanFrame): (Sender, Status) {
      if DecodeId(frame.id).None? || |frame.data| != 1 || Kind(frame.data[0]) != Reliable ||
         HeaderSubtype(frame.data[0]) != Ack || frame.id != id || frame.data[0] % 16 != sequence
      then (this, InvalidArgument)
      else if state == Complete then (this, Unavailable)
      else if state != WaitingForAck then (this, InvalidArgument)
      else (this.(state := Complete, pending := None), Ok)
    }

    function Poll(now: U64): (Sender, Status) {
      if state != WaitingForAck || now < deadline then (this, Unavailable)
      else if retries >= maximumRetries then (this.(state := Failed, pending := None), Timeout)
      else
        (this.(retries := retries + 1, next := 0, pending := None,
               deadline := SaturatingAdd(now, timeout), state := Sending), Ok)
    }

    function ArmAckDeadline(now: U64): (Sender, Status) {
      if state != WaitingForAck then (this, InvalidState)
      else (this.(deadline := SaturatingAdd(now, timeout)), Ok)
    }

    /** The completion of a frame write; only the pending token counts. */
    function OnFrameWrite(token: nat, accepted: bool): Sender {
      if pending.None? || token != pending.value.token then this
      else if accepted then this.(pending := None)
      else if next == pending.value.fragment + 1 then
        this.(pending := None, next := pending.value.fragment, state := Sending)
      else this.(pending := None)
    }
  }

  function NewSender(maximum: nat): Sender {
    Sender(maximum, Idle, [], 0, 0, 0, 0, 0, 0, 0, None, 0)
  }

  /** Fragment `index` of a message, as the sender puts it on the bus. */
  function DataFrame(id: nat, sequence: nat, payload: seq<Byte>, index: nat): CanFrame
    requires index < Count(payload) <= MAXIMUM_FRAGMENTS
  {
    CanFrame(id, [Header(Data, sequence), (Count(payload) - 1) * 16 + index] + Piece(payload, index))
  }

  function AckFrame(id: nat, sequence: nat): CanFrame {
    CanFrame(id, [Header(Ack, sequence)])
  }

  /** Every sender operation keeps the sender's invariant. */
  lemma BeginKeepsValid(s: Sender, route: nat, priority: nat, sequence: nat, payload: seq<Byte>,
                        now: U64, timeout: U64, maximumRetries: nat)
    requires s.Valid()
    ensures s.Begin(route, priority, sequence, payload, now, timeout, maximumRetries).0.Valid()
  {
    IdRoundTrip(priority, route);
  }

  /** What fetching a frame changes. */
  lemma NextFrameFields(s: Sender)
    requires s.Valid() && s.state == Sending
    ensures var t := s.NextFrame().0;
            && t == s.(next := s.next + 1, lastToken := s.NextToken(), state := t.state,
                       pending := Some(PendingWrite(s.NextToken(), s.next)))
            && t.state == (if s.next + 1 == Count(s.payload) then WaitingForAck else Sending)
            && t.Valid() && t.Busy()
  {
  }

  lemma SenderKeepsValid(s: Sender, now: U64, frame: CanFrame, token: nat, accepted: bool)
    requires s.Valid()
    ensures s.NextFrame().0.Valid()
    ensures s.HandleAck(frame).0.Valid()
    ensures s.Poll(now).0.Valid()
    ensures s.ArmAckDeadline(now).0.Valid()
    ensures s.OnFrameWrite(token, accepted).Valid()
  {
  }

  /* ---------------------------------------------------------------- receiver */

  datatype Assembly = Assembly(
    id: nat, route: nat, sequence: nat, count: nat, pieces: map<nat, seq<Byte>>, deadline: U64)

  datatype Finished = Finished(id: nat, sequence: nat)

  datatype Reply = Reply(status: Status, message: Option<Message>, ack: Option<CanFrame>)

  datatype Fragment = Fragment(
    route: nat, sequence: nat, index: nat, count: nat, bytes: seq<Byte>)

  function SequenceDistance(from: nat, to: nat): (distance: nat)
    ensures distance < 16
  {
    (to - from) % 16
  }

  /** The checks on a data frame, in the order the receiver makes them. */
  function Parse(frame: CanFrame, maximum: nat): (fragment: Option<Fragment>)
    ensures fragment.Some? ==>
              && fragment.value.index < fragment.value.count <= 16
              && 1 <= |fragment.value.bytes| <= 6
              && (fragment.value.index + 1 < fragment.value.count ==> |fragment.value.bytes| == 6)
              && fragment.value.index * 6 + |fragment.value.bytes| <= maximum
              && fragment.value.sequence < 16
              && DecodeId(frame.id).Some?
  {
    var id := DecodeId(frame.id);
    if id.None? || |frame.data| < 3 || |frame.data| > 8 || Kind(frame.data[0]) != Reliable ||
       HeaderSubtype(frame.data[0]) != Data then None
    else
      var index := frame.data[1] % 16;
      var count := frame.data[1] / 16 + 1;
      var length := |frame.data| - 2;
      if index >= count || (index + 1 < count && length != 6) || count * 6 > maximum + 5 then None
      else if index * 6 + length > maximum then None
      else Some(Fragment(id.value.route, frame.data[0] % 16, index, count, frame.data[2..]))
  }

  datatype Receiver = Receiver(
    maximum: nat,
    timeout: U64,
    assembly: Option<Assembly>,
    last: Option<Finished>,
    observed: Option<U64>)
  {
    /** The pieces an assembly holds are of the shape `Parse` lets through. */
    ghost predicate Valid() {
      assembly.Some? ==>
        && assembly.value.count <= 16
        && forall i :: i in assembly.value.pieces ==>
             && i < assembly.value.count
             && 1 <= |assembly.value.pieces[i]| <= 6
             && (i + 1 < assembly.value.count ==> |assembly.value.pieces[i]| == 6)
             && i * 6 + |assembly.value.pieces[i]| <= maximum
    }

    function Expire(now: U64): (Receiver, bool) {
      if assembly.None? || timeout == 0 || now < assembly.value.deadline then (this, false)
      else (this.(assembly := None), true)
    }

    /** Whether a frame of another message may replace what is being assembled. */
    function Prepare(id: nat, sequence: nat): (Receiver, Status) {
      if assembly.Some? && assembly.value.id == id &&
         SequenceDistance(assembly.value.sequence, sequence) > 7 then (this, Unavailable)
      else if assembly.Some? && assembly.value.id == id &&
              SequenceDistance(assembly.value.sequence, sequence) == 0 then (this, Ok)
      else
        var cleared := this.(assembly := None);
        if last.None? || last.value.id != id then (cleared, Ok)
        else if SequenceDistance(last.value.sequence, sequence) > 7 then (cleared, Unavailable)
        else (cleared, Ok)
    }

    ghost function Store(fragment: Fragment): (result: (Receiver, Reply))
      requires assembly.Some? && fragment.count == assembly.value.count
    {
      var a := assembly.value;
      if fragment.index in a.pieces then (this, Reply(Unavailable, None, None))
      else
        var pieces := a.pieces[fragment.index := fragment.bytes];
        if !Covers(pieces, a.count) then
          (this.(assembly := Some(a.(pieces := pieces))), Reply(Unavailable, None, None))
        else
          this.(assembly := Some(a.(pieces := pieces))).Conclude()
    }

    /** Every fragment is in: always acknowledge, hand up only what was not handed up before. */
    ghost function Conclude(): (result: (Receiver, Reply))
      requires assembly.Some? && Covers(assembly.value.pieces, assembly.value.count)
    {
      var a := assembly.value;
      var ack := Some(AckFrame(a.id, a.sequence));
      if last == Some(Finished(a.id, a.sequence)) then
        (this.(assembly := None), Reply(Unavailable, None, ack))
      else
        (this.(assembly := None, last := Some(Finished(a.id, a.sequence))),
         Reply(Ok, Some(Message(a.route, a.sequence, Join(a.pieces, a.count))), ack))
    }

    ghost function AcceptFrame(frame: CanFrame, now: Option<U64>): (Receiver, Reply) {
      match Parse(frame, maximum)
      case None => (this, Reply(InvalidArgument, None, None))
      case Some(fragment) =>
        if assembly.None? || assembly.value.id != frame.id ||
           assembly.value.sequence != fragment.sequence then
          var (prepared, status) := Prepare(frame.id, fragment.sequence);
          if status != Ok then (prepared, Reply(status, None, None))
          else
            var deadline :=
              if now.Some? && timeout != 0 then SaturatingAdd(now.value, timeout) else 0;
            var fresh' := Assembly(frame.id, fragment.route, fragment.sequence, fragment.count,
                                   map[], deadline);
            prepared.(assembly := Some(fresh')).Store(fragment)
        else if assembly.value.count != fragment.count then
          (this, Reply(InvalidArgument, None, None))
        else Store(fragment)
    }

    /** Accept with a receive time; time must not run backwards. */
    ghost function AcceptAt(frame: CanFrame, now: U64): (Receiver, Reply) {
      if observed.Some? && now < observed.value then (this, Reply(InvalidArgument, None, None))
      else this.(observed := Some(now)).Expire(now).0.AcceptFrame(frame, Some(now))
    }

    function Poll(now: U64): (Receiver, Status) {
      if observed.Some? && now < observed.value then (this, InvalidArgument)
      else
        var (expired, due) := this.(observed := Some(now)).Expire(now);
        (expired, if due then Timeout else Unavailable)
    }

    function ResetPeerHistory(): Receiver {
      this.(assembly := None, last := None, observed := None)
    }
  }

  function NewReceiver(maximum: nat, timeout: U64): Receiver {
    Receiver(maximum, timeout, None, None, None)
  }

  lemma ReceiverKeepsValid(r: Receiver, frame: CanFrame, now: Option<U64>)
    requires r.Valid()
    ensures r.AcceptFrame(frame, now).0.Valid()
  {
  }

  /** The receiver reads back exactly what the sender wrote into a fragment. */
  lemma ParseDataFrame(id: nat, sequence: nat, payload: seq<Byte>, index: nat, maximum: nat)
    requires DecodeId(id).Some? && sequence < 16
    requires index < Count(payload) <= MAXIMUM_FRAGMENTS
    requires |payload| <= maximum
    ensures Parse(DataFrame(id, sequence, payload, index), maximum) ==
            Some(Fragment(DecodeId(id).value.route, sequence, index, Count(payload),
                          Piece(payload, index)))
  {
    var frame := DataFrame(id, sequence, payload, index);
    assert frame.data[2..] == Piece(payload, index);
    assert frame.data[1] % 16 == index && frame.data[1] / 16 == Count(payload) - 1;
  }

  /** And where the message may not fit the receiver, the fragment is read like that or not at all. */
  lemma ParseFitting(id: nat, sequence: nat, payload: seq<Byte>, index: nat, maximum: nat)
    requires DecodeId(id).Some? && sequence < 16
    requires index < Count(payload) <= MAXIMUM_FRAGMENTS
    ensures var fragment := Parse(DataFrame(id, sequence, payload, index), maximum);
            || fragment == None
            || fragment == Some(Fragment(DecodeId(id).value.route, sequence, index, Count(payload),
                                         Piece(payload, index)))
  {
    var frame := DataFrame(id, sequence, payload, index);
    assert frame.data[2..] == Piece(payload, index);
    assert frame.data[1] % 16 == index && frame.data[1] / 16 == Count(payload) - 1;
  }
}

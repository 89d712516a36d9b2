/**
 The reliable sender and receiver as objects that update their buffers and fields in
 place. Each keeps a ghost `model` of its state as a value; every method takes the model
 through the matching operation of ReliablePath and keeps fields and buffers in step with it.
 */
module ReliableEnds {
  import opened Bytes
  import opened CanProtocol
  import opened Fragments
  import opened ReassemblyBuffer
  import RP = ReliablePath

  class ReliableSender {
    const payload: array<Byte>
    var payloadSize: nat
    var retryTimeout: U64
    var retryDeadline: U64
    var arbitrationId: nat
    var sequence: nat
    var fragmentCount: nat
    var nextFragment: nat
    var maximumRetries: nat
    var retryCount: nat
    var pendingFragment: nat
    var nextWriteToken: nat
    var pendingWriteToken: nat
    var pendingWrite: bool
    var state: RP.SenderState

    ghost var model: RP.Sender  // the sender's state as a value

    ghost predicate Valid()
      reads this, payload
    {
      && model.Valid()
      && model.maximum == payload.Length && model.state == state
      && payloadSize <= payload.Length && model.payload == payload[..payloadSize]
      && model.id == arbitrationId && model.sequence == sequence && model.next == nextFragment
      && model.timeout == retryTimeout && model.deadline == retryDeadline
      && model.maximumRetries == maximumRetries && model.retries == retryCount
      && model.lastToken == nextWriteToken
      && model.pending ==
         (if pendingWrite then Some(RP.PendingWrite(pendingWriteToken, pendingFragment)) else None)
      && (model.Busy() ==> fragmentCount == Count(model.payload))
    }

    constructor (maximum: nat)
      ensures Valid() && fresh(payload) && model == RP.NewSender(maximum)
    {
      payload := new Byte[maximum];
      payloadSize, retryTimeout, retryDeadline, arbitrationId, sequence := 0, 0, 0, 0, 0;
      fragmentCount, nextFragment, maximumRetries, retryCount := 0, 0, 0, 0;
      pendingFragment, nextWriteToken, pendingWriteToken, pendingWrite := 0, 0, 0, false;
      state := RP.Idle;
      model := RP.NewSender(maximum);
    }

    method Begin(routeId: nat, priority: nat, newSequence: nat, newPayload: seq<Byte>, now: U64,
                 timeout: U64, retries: nat) returns (status: Status)
      requires Valid()
      modifies this, payload
      ensures Valid()
      ensures (model, status) ==
              old(model).Begin(routeId, priority, newSequence, newPayload, now, timeout, retries)
    {
      RP.BeginKeepsValid(model, routeId, priority, newSequence, newPayload, now, timeout, retries);
      if state == RP.Sending || state == RP.WaitingForAck {
        return InvalidState;
      }
      if newPayload == [] || |newPayload| > payload.Length || newSequence > 15 || timeout == 0 {
        return InvalidArgument;
      }
      var encoded := EncodeId(priority, routeId);
      var count := (|newPayload| + 5) / 6;
      model := model.Begin(routeId, priority, newSequence, newPayload, now, timeout, retries).0;
      if encoded == None {
        arbitrationId := 0;
        return InvalidArgument;
      }
      arbitrationId := encoded.value;
      if count > MAXIMUM_FRAGMENTS {
        return CapacityExceeded;
      }
      Load(newSequence, newPayload, now, timeout, retries);
      return Ok;
    }

    /** The last part of an accepted Begin: take the message over. */
    method Load(newSequence: nat, newPayload: seq<Byte>, now: U64, timeout: U64, retries: nat)
      requires |newPayload| <= payload.Length
      requires model.Valid() && model.maximum == payload.Length && model.id == arbitrationId
      requires model.lastToken == nextWriteToken && model.next == 0 && model.retries == 0
      requires model.state == RP.Sending && model.pending == None
      requires model.payload == newPayload && model.sequence == newSequence
      requires model.timeout == timeout && model.deadline == SaturatingAdd(now, timeout)
      requires model.maximumRetries == retries
      modifies this, payload
      ensures Valid() && model == old(model)
    {
      CopyInto(payload, 0, newPayload);
      payloadSize := |newPayload|;
      sequence := newSequence;
      nextFragment := 0;
      fragmentCount := (|newPayload| + 5) / 6;
      retryTimeout := timeout;
      retryDeadline := SaturatingAdd(now, timeout);
      maximumRetries := retries;
      retryCount := 0;
      pendingWrite := false;
      state := RP.Sending;
    }

    method NextFrame() returns (frame: Option<CanFrame>)
      requires Valid()
      modifies this
      ensures Valid()
      ensures (model, frame) == old(model).NextFrame()
    {
      if state != RP.Sending {
        return None;
      }
      var current := CurrentFrame();
      frame := Some(current);
      Advance();
    }

    /** Move the cursor past the fragment just fetched and expect its write report. */
    method Advance()
      requires Valid() && state == RP.Sending
      modifies this
      ensures Valid() && model == old(model).NextFrame().0
    {
      RP.NextFrameFields(model);
      model := model.NextFrame().0;
      nextWriteToken := if nextWriteToken == U32_MAX then 1 else nextWriteToken + 1;
      pendingWriteToken, pendingFragment, pendingWrite := nextWriteToken, nextFragment, true;
      nextFragment := nextFragment + 1;
      if nextFragment == fragmentCount {
        state := RP.WaitingForAck;
      }
    }

    /** The fragment at the cursor, read out of the payload buffer. */
    method CurrentFrame() returns (frame: CanFrame)
      requires Valid() && state == RP.Sending
      ensures frame == RP.DataFrame(model.id, model.sequence, model.payload, model.next)
    {
      var offset := nextFragment * 6;
      var length := if payloadSize - offset < 6 then payloadSize - offset else 6;
      var piece := payload[offset..offset + length];
      PieceOfBuffer(payload[..], payloadSize, nextFragment);
      frame := CanFrame(arbitrationId,
                        [RP.Header(RP.Data, sequence), (fragmentCount - 1) * 16 + nextFragment] + piece);
    }

    method HandleAck(frame: CanFrame) returns (status: Status)
      requires Valid()
      modifies this
      ensures Valid()
      ensures (model, status) == old(model).HandleAck(frame)
    {
      model := model.HandleAck(frame).0;
      if DecodeId(frame.id).None? || |frame.data| != 1 || Kind(frame.data[0]) != Reliable ||
         RP.HeaderSubtype(frame.data[0]) != RP.Ack || frame.id != arbitrationId ||
         frame.data[0] % 16 != sequence {
        return InvalidArgument;
      }
      if state == RP.Complete {
        return Unavailable;
      }
      if state != RP.WaitingForAck {
        return InvalidArgument;
      }
      state := RP.Complete;
      pendingWrite := false;
      return Ok;
    }

    method Poll(now: U64) returns (status: Status)
      requires Valid()
      modifies this
      ensures Valid()
      ensures (model, status) == old(model).Poll(now)
    {
      model := model.Poll(now).0;
      if state != RP.WaitingForAck || now < retryDeadline {
        return Unavailable;
      }
      if retryCount >= maximumRetries {
        state := RP.Failed;
        pendingWrite := false;
        return Timeout;
      }
      retryCount := retryCount + 1;
      nextFragment := 0;
      pendingWrite := false;
      retryDeadline := SaturatingAdd(now, retryTimeout);
      state := RP.Sending;
      return Ok;
    }

    method ArmAckDeadline(now: U64) returns (status: Status)
      requires Valid()
      modifies this
      ensures Valid()
      ensures (model, status) == old(model).ArmAckDeadline(now)
    {
      model := model.ArmAckDeadline(now).0;
      if state != RP.WaitingForAck {
        return InvalidState;
      }
      retryDeadline := SaturatingAdd(now, retryTimeout);
      return Ok;
    }

    method OnFrameWrite(token: nat, writeStatus: Status)
      requires Valid()
      modifies this
      ensures Valid()
      ensures model == old(model).OnFrameWrite(token, writeStatus == Ok)
    {
      model := model.OnFrameWrite(token, writeStatus == Ok);
      if !pendingWrite || token != pendingWriteToken {
        return;
      }
      pendingWrite := false;
      if writeStatus == Ok {
        return;
      }
      if nextFragment == pendingFragment + 1 {
        nextFragment := pendingFragment;
        state := RP.Sending;
      }
    }
  }

  class ReliableReceiver {
    const payload: array<Byte>
    const fragmentLengths: array<Byte>
    const reassemblyTimeout: U64
    var routeId: nat
    var arbitrationId: nat
    var lastCompletedId: nat
    var received: set<nat>  // the one bits of the received mask
    var reassemblyDeadline: U64
    var lastObservedTime: U64
    var sequence: nat
    var fragmentCount: nat
    var lastCompletedSequence: nat
    var active: bool
    var hasCompleted: bool
    var hasObservedTime: bool

    ghost var model: RP.Receiver  // the receiver's state as a value

    ghost predicate Valid()
      reads this, payload, fragmentLengths
    {
      && payload != fragmentLengths
      && fragmentLengths.Length == 16
      && model.maximum == payload.Length && model.timeout == reassemblyTimeout
      && model.last ==
         (if hasCompleted then Some(RP.Finished(lastCompletedId, lastCompletedSequence)) else None)
      && model.observed == (if hasObservedTime then Some(lastObservedTime) else None)
      && model.assembly.Some? == active
      && (active ==> Holds(model.assembly.value))
      && (!active ==> received == {} && fragmentCount == 0 && reassemblyDeadline == 0)
    }

    /** The fields and buffers hold this assembly. */
    ghost predicate Holds(a: RP.Assembly)
      reads this, payload, fragmentLengths
    {
      && a.id == arbitrationId && a.route == routeId && a.sequence == sequence < 16
      && a.count == fragmentCount <= 16 && a.deadline == reassemblyDeadline
      && a.pieces.Keys == received
      && Laid(payload[..], a.pieces, a.count)
      && Lengths(fragmentLengths[..], a.pieces)
    }

    constructor (maximum: nat, timeout: U64)
      ensures Valid() && fresh(payload) && fresh(fragmentLengths)
      ensures model == RP.NewReceiver(maximum, timeout)
    {
      payload := new Byte[maximum];
      fragmentLengths := new Byte[16];
      reassemblyTimeout := timeout;
      routeId, arbitrationId, lastCompletedId, received := 0, 0, 0, {};
      reassemblyDeadline, lastObservedTime, sequence, fragmentCount := 0, 0, 0, 0;
      lastCompletedSequence, active, hasCompleted, hasObservedTime := 0, false, false, false;
      model := RP.NewReceiver(maximum, timeout);
    }

    method Reset()
      requires Valid()
      modifies this, fragmentLengths
      ensures Valid() && model == old(model).(assembly := None)
    {
      model := model.(assembly := None);
      active := false;
      received := {};
      fragmentCount := 0;
      reassemblyDeadline := 0;
      for i := 0 to fragmentLengths.Length
        modifies fragmentLengths
      {
        fragmentLengths[i] := 0;
      }
    }

    method ExpireIfDue(now: U64) returns (due: bool)
      requires Valid()
      modifies this, fragmentLengths
      ensures Valid() && (model, due) == old(model).Expire(now)
    {
      if !active || reassemblyTimeout == 0 || now < reassemblyDeadline {
        return false;
      }
      Reset();
      return true;
    }

    method PrepareMessage(id: nat, newSequence: nat) returns (status: Status)
      requires Valid() && newSequence < 16
      modifies this, fragmentLengths
      ensures Valid() && (model, status) == old(model).Prepare(id, newSequence)
      ensures status == Ok && active ==> arbitrationId == id && sequence == newSequence
    {
      if active {
        if arbitrationId != id {
          Reset();
        } else {
          var distance := RP.SequenceDistance(sequence, newSequence);
          if distance == 0 {
            return Ok;
          }
          if distance > 7 {
            return Unavailable;
          }
          Reset();
        }
      }
      if !hasCompleted || lastCompletedId != id {
        return Ok;
      }
      var distance := RP.SequenceDistance(lastCompletedSequence, newSequence);
      if distance > 7 {
        return Unavailable;
      }
      return Ok;
    }

    /** Copy one fragment into the buffer and mark its bit. */
    method StoreFragment(index: nat, bytes: seq<Byte>)
      requires Valid() && active && index !in received
      requires index < fragmentCount && 1 <= |bytes| <= 6
      requires index + 1 < fragmentCount ==> |bytes| == 6
      requires index * 6 + |bytes| <= payload.Length
      modifies this`received, this`model, payload, fragmentLengths
      ensures Valid()
      ensures model == old(model).(assembly := Some(old(model).assembly.value.(
                         pieces := old(model).assembly.value.pieces[index := bytes])))
    {
      ghost var pieces := model.assembly.value.pieces;
      ghost var before: seq<Byte> := payload[..];
      CopyInto(payload, index * 6, bytes);
      LaidAfterCopy(before, payload[..], pieces, fragmentCount, index, bytes);
      fragmentLengths[index] := |bytes|;
      received := received + {index};
      model := model.(assembly := Some(model.assembly.value.(pieces := pieces[index := bytes])));
    }

    /** The bytes of the assembled message are the filled front of the buffer. */
    method Assembled() returns (total: nat)
      requires Valid() && active && received == LowBits(fragmentCount)
      ensures Covers(model.assembly.value.pieces, fragmentCount)
      ensures total <= payload.Length
      ensures payload[..total] == Join(model.assembly.value.pieces, fragmentCount)
    {
      ghost var pieces := model.assembly.value.pieces;
      assert forall i: nat :: i < fragmentCount ==> i in received;
      total := TotalLength(fragmentLengths, fragmentCount, pieces);
      JoinBuffer(payload[..], pieces, fragmentCount, fragmentCount);
    }

    method Accept(frame: CanFrame, receiveTime: U64) returns (reply: RP.Reply)
      requires Valid()
      modifies this, payload, fragmentLengths
      ensures Valid()
      ensures (model, reply) == old(model).AcceptAt(frame, receiveTime)
    {
      if hasObservedTime && receiveTime < lastObservedTime {
        return RP.Reply(InvalidArgument, None, None);
      }
      model := model.(observed := Some(receiveTime));
      hasObservedTime := true;
      lastObservedTime := receiveTime;
      var due := ExpireIfDue(receiveTime);
      reply := AcceptImpl(frame, Some(receiveTime));
    }

    method AcceptImpl(frame: CanFrame, receiveTime: Option<U64>) returns (reply: RP.Reply)
      requires Valid()
      modifies this, payload, fragmentLengths
      ensures Valid()
      ensures (model, reply) == old(model).AcceptFrame(frame, receiveTime)
    {
      var parsed := RP.Parse(frame, payload.Length);
      if parsed == None {
        return RP.Reply(InvalidArgument, None, None);
      }
      var fragment := parsed.value;
      if !active || arbitrationId != frame.id || sequence != fragment.sequence {
        var status := PrepareMessage(frame.id, fragment.sequence);
        if status != Ok {
          return RP.Reply(status, None, None);
        }
        StartAssembly(frame.id, fragment, receiveTime);
      } else if fragmentCount != fragment.count {
        return RP.Reply(InvalidArgument, None, None);
      }
      reply := Finish(fragment);
    }

    method StartAssembly(id: nat, fragment: RP.Fragment, receiveTime: Option<U64>)
      requires Valid() && !active && fragment.count <= 16 && fragment.sequence < 16
      modifies this
      ensures Valid() && active
      ensures model == old(model).(assembly := Some(RP.Assembly(
                id, fragment.route, fragment.sequence, fragment.count, map[],
                if receiveTime.Some? && reassemblyTimeout != 0
                then SaturatingAdd(receiveTime.value, reassemblyTimeout) else 0)))
    {
      active := true;
      arbitrationId := id;
      routeId := fragment.route;
      sequence := fragment.sequence;
      fragmentCount := fragment.count;
      if receiveTime.Some? && reassemblyTimeout != 0 {
        reassemblyDeadline := SaturatingAdd(receiveTime.value, reassemblyTimeout);
      }
      model := model.(assembly := Some(RP.Assembly(id, fragment.route, fragment.sequence,
                                                   fragment.count, map[], reassemblyDeadline)));
    }

    /** Every fragment is in: acknowledge, and hand the message up unless it was before. */
    method Deliver() returns (reply: RP.Reply)
      requires Valid() && active && received == LowBits(fragmentCount)
      modifies this, fragmentLengths
      ensures Valid()
      ensures old(Covers(model.assembly.value.pieces, model.assembly.value.count))
      ensures (model, reply) == old(model).Conclude()
    {
      var total := Assembled();
      var ack := Some(RP.AckFrame(arbitrationId, sequence));
      if hasCompleted && lastCompletedId == arbitrationId && lastCompletedSequence == sequence {
        Reset();
        return RP.Reply(Unavailable, None, ack);
      }
      var message := Message(routeId, sequence, payload[..total]);
      Remember();
      Reset();
      return RP.Reply(Ok, Some(message), ack);
    }

    method Remember()
      requires Valid() && active
      modifies this`model, this`hasCompleted, this`lastCompletedId, this`lastCompletedSequence
      ensures Valid()
      ensures model == old(model).(last := Some(RP.Finished(arbitrationId, sequence)))
    {
      hasCompleted := true;
      lastCompletedId := arbitrationId;
      lastCompletedSequence := sequence;
      model := model.(last := Some(RP.Finished(arbitrationId, sequence)));
    }

    method Finish(fragment: RP.Fragment) returns (reply: RP.Reply)
      requires Valid() && active
      requires fragment.count == fragmentCount && fragment.index < fragment.count
      requires 1 <= |fragment.bytes| <= 6
      requires fragment.index + 1 < fragment.count ==> |fragment.bytes| == 6
      requires fragment.index * 6 + |fragment.bytes| <= payload.Length
      modifies this, payload, fragmentLengths
      ensures Valid()
      ensures (model, reply) == old(model).Store(fragment)
    {
      if fragment.index in received {
        return RP.Reply(Unavailable, None, None);
      }
      StoreFragment(fragment.index, fragment.bytes);
      assert Covers(model.assembly.value.pieces, fragmentCount) <==>
             received == LowBits(fragmentCount);
      if received != LowBits(fragmentCount) {
        return RP.Reply(Unavailable, None, None);
      }
      reply := Deliver();
    }

    method Poll(now: U64) returns (status: Status)
      requires Valid()
      modifies this, fragmentLengths
      ensures Valid() && (model, status) == old(model).Poll(now)
    {
      if hasObservedTime && now < lastObservedTime {
        return InvalidArgument;
      }
      model := model.(observed := Some(now));
      hasObservedTime := true;
      lastObservedTime := now;
      var due := ExpireIfDue(now);
      return if due then Timeout else Unavailable;
    }

    method ResetPeerHistory()
      requires Valid()
      modifies this, fragmentLengths
      ensures Valid() && model == old(model).ResetPeerHistory()
    {
      Reset();
      hasCompleted := false;
      lastCompletedId := 0;
      lastCompletedSequence := 0;
      hasObservedTime := false;
      lastObservedTime := 0;
      model := model.(last := None, observed := None);
    }
  }
}

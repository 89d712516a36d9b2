/** The fast-path reassembler as an object, kept in step with its value model. */
module FastEnds {
  import opened Bytes
  import opened CanProtocol
  import opened Fragments
  import opened ReassemblyBuffer
  import FP = FastPath

  class FastReassembler {
    const buffer: array<Byte>
    const fragmentLengths: array<Byte>
    var routeId: nat
    var lastRouteId: nat
    var received: set<nat>  // the one bits of the received mask
    var sequence: nat
    var fragmentCount: nat
    var lastSequence: nat
    var active: bool
    var hasLastSequence: bool
    ghost var model: FP.Reassembler

    ghost predicate Valid()
      reads this, buffer, fragmentLengths
    {
      && buffer != fragmentLengths
      && fragmentLengths.Length == 16
      && model.maximum == buffer.Length
      && model.last == (if hasLastSequence then Some(FP.Finished(lastRouteId, lastSequence)) else None)
      && model.assembly.Some? == active
      && (active ==> Holds(model.assembly.value))
    }

    ghost predicate Holds(a: FP.Assembly)
      reads this, buffer, fragmentLengths
    {
      && a.route == routeId && a.sequence == sequence < 64 && a.count == fragmentCount <= 16
      && a.pieces.Keys == received
      && Laid(buffer[..], a.pieces, a.count)
      && Lengths(fragmentLengths[..], a.pieces)
    }

    constructor (maximum: nat)
      ensures Valid() && fresh(buffer) && fresh(fragmentLengths)
      ensures model == FP.Reassembler(maximum, None, None)
    {
      buffer := new Byte[maximum];
      fragmentLengths := new Byte[16];
      routeId, lastRouteId, received, sequence := 0, 0, {}, 0;
      fragmentCount, lastSequence, active, hasLastSequence := 0, 0, false, false;
      model := FP.Reassembler(maximum, None, None);
    }

    method Reset()
      requires Valid()
      modifies this
      ensures Valid() && model == old(model).(assembly := None)
    {
      active := false;
      received := {};
      fragmentCount := 0;
      model := model.(assembly := None);
    }

    method ResetHistory()
      requires Valid()
      modifies this
      ensures Valid() && model == FP.Reassembler(old(model).maximum, None, None)
    {
      Reset();
      hasLastSequence := false;
      lastRouteId := 0;
      lastSequence := 0;
      model := model.(last := None);
    }

    method PrepareSequence(route: nat, newSequence: nat, continuing: bool) returns (status: Status)
      requires Valid() && newSequence < 64
      modifies this
      ensures Valid() && (model, status) == old(model).Prepare(route, newSequence, continuing)
      ensures status == Ok && active ==> continuing && routeId == route && sequence == newSequence
    {
      if active {
        if route != routeId {
          Reset();
        } else if newSequence == sequence {
          return if continuing then Ok else Unavailable;
        } else {
          if FP.Distance(sequence, newSequence) > 31 {
            return Unavailable;
          }
          Reset();
        }
      }
      if !hasLastSequence || lastRouteId != route {
        return Ok;
      }
      var distance := FP.Distance(lastSequence, newSequence);
      if distance == 0 || distance > 31 {
        return Unavailable;
      }
      return Ok;
    }

    /** Record the completed message and read it out of the buffer's front. */
    method Complete(route: nat, newSequence: nat, size: nat) returns (message: Message)
      requires Valid() && size <= buffer.Length
      modifies this`hasLastSequence, this`lastRouteId, this`lastSequence, this`model
      ensures Valid() && message == Message(route, newSequence, buffer[..size])
      ensures model == old(model).(last := Some(FP.Finished(route, newSequence)))
    {
      hasLastSequence := true;
      lastRouteId := route;
      lastSequence := newSequence;
      model := model.(last := Some(FP.Finished(route, newSequence)));
      message := Message(route, newSequence, buffer[..size]);
    }

    method StartAssembly(route: nat, newSequence: nat, count: nat)
      requires Valid() && !active && newSequence < 64 && count <= 16
      modifies this, fragmentLengths
      ensures Valid() && active
      ensures model == old(model).(assembly := Some(FP.Assembly(route, newSequence, count, map[])))
    {
      active := true;
      routeId := route;
      sequence := newSequence;
      fragmentCount := count;
      received := {};
      for i := 0 to fragmentLengths.Length
        modifies fragmentLengths
      {
        fragmentLengths[i] := 0;
      }
      model := model.(assembly := Some(FP.Assembly(route, newSequence, count, map[])));
    }

    method StoreFragment(index: nat, bytes: seq<Byte>)
      requires Valid() && active && index !in received
      requires index < fragmentCount && 1 <= |bytes| <= 6
      requires index + 1 < fragmentCount ==> |bytes| == 6
      requires index * 6 + |bytes| <= buffer.Length
      modifies this`received, this`model, buffer, fragmentLengths
      ensures Valid()
      ensures model == old(model).(assembly := Some(old(model).assembly.value.(
                         pieces := old(model).assembly.value.pieces[index := bytes])))
    {
      ghost var pieces := model.assembly.value.pieces;
      ghost var before: seq<Byte> := buffer[..];
      CopyInto(buffer, index * 6, bytes);
      LaidAfterCopy(before, buffer[..], pieces, fragmentCount, index, bytes);
      fragmentLengths[index] := |bytes|;
      received := received + {index};
      model := model.(assembly := Some(model.assembly.value.(pieces := pieces[index := bytes])));
    }

    method Total() returns (total: nat)
      requires Valid() && active && received == LowBits(fragmentCount)
      ensures Covers(model.assembly.value.pieces, fragmentCount)
      ensures total <= buffer.Length
      ensures buffer[..total] == Join(model.assembly.value.pieces, fragmentCount)
    {
      ghost var pieces := model.assembly.value.pieces;
      assert forall i: nat :: i < fragmentCount ==> i in received;
      total := TotalLength(fragmentLengths, fragmentCount, pieces);
      JoinBuffer(buffer[..], pieces, fragmentCount, fragmentCount);
    }

    method Accept(frame: CanFrame) returns (reply: FP.Reply)
      requires Valid()
      modifies this, buffer, fragmentLengths
      ensures Valid()
      ensures (model, reply) == old(model).Accept(frame)
    {
      var id := DecodeId(frame.id);
      if id.None? || |frame.data| == 0 || |frame.data| > 8 {
        return FP.Reply(InvalidArgument, None);
      }
      var header := frame.data[0];
      if Kind(header) == FastSingle {
        reply := AcceptSingle(id.value.route, header % 64, frame.data[1..]);
        return;
      }
      var parsed := FP.ParseFragment(frame.data, buffer.Length);
      if parsed == None {
        return FP.Reply(InvalidArgument, None);
      }
      reply := AcceptFragment(id.value.route, header % 64, parsed.value);
    }

    method AcceptSingle(route: nat, newSequence: nat, bytes: seq<Byte>) returns (reply: FP.Reply)
      requires Valid() && newSequence < 64
      modifies this, buffer
      ensures Valid()
      ensures |bytes| > buffer.Length ==> model == old(model) && reply == FP.Reply(InvalidArgument, None)
      ensures |bytes| <= buffer.Length ==>
                var (prepared, status) := old(model).Prepare(route, newSequence, false);
                (model, reply) ==
                  if status != Ok then (prepared, FP.Reply(status, None))
                  else (prepared.(last := Some(FP.Finished(route, newSequence))),
                        FP.Reply(Ok, Some(Message(route, newSequence, bytes))))
    {
      if |bytes| > buffer.Length {
        return FP.Reply(InvalidArgument, None);
      }
      var status := PrepareSequence(route, newSequence, false);
      if status != Ok {
        return FP.Reply(status, None);
      }
      CopyInto(buffer, 0, bytes);
      assert buffer[..|bytes|] == bytes;
      var message := Complete(route, newSequence, |bytes|);
      return FP.Reply(Ok, Some(message));
    }

    method AcceptFragment(route: nat, newSequence: nat, fragment: FP.Fragment)
      returns (reply: FP.Reply)
      requires Valid() && newSequence < 64
      requires fragment.index < fragment.count <= 16 && 1 <= |fragment.bytes| <= 6
      requires fragment.index + 1 < fragment.count ==> |fragment.bytes| == 6
      modifies this, buffer, fragmentLengths
      ensures Valid()
      ensures (model, reply) == old(model).AcceptFragment(route, newSequence, fragment)
    {
      if !active || routeId != route || sequence != newSequence {
        var status := PrepareSequence(route, newSequence, true);
        if status != Ok {
          return FP.Reply(status, None);
        }
        StartAssembly(route, newSequence, fragment.count);
      } else if fragmentCount != fragment.count {
        Reset();
        return FP.Reply(InvalidArgument, None);
      }
      reply := Finish(fragment);
    }

    method Finish(fragment: FP.Fragment) returns (reply: FP.Reply)
      requires Valid() && active
      requires fragment.count == fragmentCount && fragment.index < fragment.count
      requires 1 <= |fragment.bytes| <= 6
      requires fragment.index + 1 < fragment.count ==> |fragment.bytes| == 6
      modifies this, buffer, fragmentLengths
      ensures Valid()
      ensures (model, reply) == old(model).Store(fragment)
    {
      if fragment.index in received {
        return FP.Reply(Unavailable, None);
      }
      if fragment.index * 6 + |fragment.bytes| > buffer.Length {
        Reset();
        return FP.Reply(InvalidArgument, None);
      }
      StoreFragment(fragment.index, fragment.bytes);
      assert Covers(model.assembly.value.pieces, fragmentCount) <==> received == LowBits(fragmentCount);
      if received != LowBits(fragmentCount) {
        return FP.Reply(Unavailable, None);
      }
      var total := Total();
      var message := Complete(routeId, sequence, total);
      Reset();
      return FP.Reply(Ok, Some(message));
    }
  }
}

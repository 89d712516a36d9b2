/** The fast CAN path: fragmentation without acknowledgement, reassembly by a 6-bit sequence. */
module FastPath {
  import opened Bytes
  import opened CanProtocol
  import opened Fragments

  /* ----------------------------------------------------------------- encoding */

  function SingleFrame(id: nat, sequence: nat, payload: seq<Byte>): CanFrame
    requires sequence < 64
  {
    CanFrame(id, [sequence] + payload)
  }

  function FragmentFrame(id: nat, sequence: nat, payload: seq<Byte>, index: nat): CanFrame
    requires sequence < 64 && index < Count(payload) <= MAXIMUM_FRAGMENTS
  {
    CanFrame(id, [64 + sequence, (Count(payload) - 1) * 16 + index] + Piece(payload, index))
  }

  function FrameCount(payload: seq<Byte>): nat {
    if |payload| <= 7 then 1 else Count(payload)
  }

  /** Frame `index` of a message. */
  function FrameAt(id: nat, sequence: nat, payload: seq<Byte>, index: nat): CanFrame
    requires sequence < 64 && index < FrameCount(payload) <= MAXIMUM_FRAGMENTS
  {
    if |payload| <= 7 then SingleFrame(id, sequence, payload)
    else FragmentFrame(id, sequence, payload, index)
  }

  /** FastCodec::Encode: fill the caller's frame array, or say why not and touch nothing. */
  method Encode(route: nat, priority: nat, sequence: nat, payload: seq<Byte>,
                output: array<CanFrame>) returns (status: Status, frameCount: nat)
    modifies output
    ensures status == InvalidArgument <==>
              sequence > 63 || payload == [] || EncodeId(priority, route).None?
    ensures status == CapacityExceeded <==>
              && sequence <= 63 && payload != [] && EncodeId(priority, route).Some?
              && (FrameCount(payload) > MAXIMUM_FRAGMENTS || output.Length < FrameCount(payload))
    ensures status in {Ok, InvalidArgument, CapacityExceeded}
    ensures status != Ok ==> frameCount == 0 && output[..] == old(output[..])
    ensures status == Ok ==>
              && frameCount == FrameCount(payload) <= output.Length
              && (forall i :: 0 <= i < frameCount ==>
                    output[i] == FrameAt(EncodeId(priority, route).value, sequence, payload, i))
              && output[frameCount..] == old(output[frameCount..])
  {
    frameCount := 0;
    if sequence > 63 || payload == [] {
      return InvalidArgument, 0;
    }
    var encoded := EncodeId(priority, route);
    if encoded == None {
      return InvalidArgument, 0;
    }
    var id := encoded.value;
    if |payload| <= 7 {
      if output.Length == 0 {
        return CapacityExceeded, 0;
      }
      output[0] := CanFrame(id, [sequence] + payload);
      return Ok, 1;
    }
    var count := (|payload| + 5) / 6;
    if count > 16 || output.Length < count {
      return CapacityExceeded, 0;
    }
    EncodeFragments(id, sequence, payload, output);
    return Ok, count;
  }

  /** The frames of a message that needs more than one. */
  method EncodeFragments(id: nat, sequence: nat, payload: seq<Byte>, output: array<CanFrame>)
    requires sequence <= 63 && |payload| > 7 && FrameCount(payload) <= MAXIMUM_FRAGMENTS
    requires FrameCount(payload) <= output.Length
    modifies output
    ensures forall i :: 0 <= i < FrameCount(payload) ==> output[i] == FrameAt(id, sequence, payload, i)
    ensures output[FrameCount(payload)..] == old(output[FrameCount(payload)..])
  {
    var count := (|payload| + 5) / 6;
    for index := 0 to count
      invariant forall i :: 0 <= i < index ==> output[i] == FrameAt(id, sequence, payload, i)
      invariant forall i :: index <= i < output.Length ==> output[i] == old(output[i])
    {
      var offset := index * 6;
      var length := if |payload| - offset < 6 then |payload| - offset else 6;
      output[index] :=
        CanFrame(id, [64 + sequence, (count - 1) * 16 + index] + payload[offset..offset + length]);
    }
  }

  /* --------------------------------------------------------------- reassembly */

  datatype Assembly = Assembly(route: nat, sequence: nat, count: nat, pieces: map<nat, seq<Byte>>)

  datatype Finished = Finished(route: nat, sequence: nat)

  datatype Reply = Reply(status: Status, message: Option<Message>)

  datatype Fragment = Fragment(index: nat, count: nat, bytes: seq<Byte>)

  function Distance(from: nat, to: nat): nat {
    (to - from) % 64
  }

  /** The shape checks on a fragment frame. */
  function ParseFragment(data: seq<Byte>, maximum: nat): (fragment: Option<Fragment>)
    requires 0 < |data| <= 8
    ensures fragment.Some? ==>
              && fragment.value.index < fragment.value.count <= 16
              && 1 <= |fragment.value.bytes| <= 6
              && (fragment.value.index + 1 < fragment.value.count ==> |fragment.value.bytes| == 6)
  {
    if Kind(data[0]) != FastFragment || |data| < 3 then None
    else
      var index := data[1] % 16;
      var count := data[1] / 16 + 1;
      var length := |data| - 2;
      if index >= count || (index + 1 < count && length != 6) || count * 6 > maximum + 5 then None
      else Some(Fragment(index, count, data[2..]))
  }

  datatype Reassembler = Reassembler(maximum: nat, assembly: Option<Assembly>, last: Option<Finished>)
  {
    /** Whether a frame of this sequence number is wanted, and what becomes of the assembly. */
    function Prepare(route: nat, sequence: nat, continuing: bool): (Reassembler, Status) {
      if assembly.Some? && assembly.value.route == route && assembly.value.sequence == sequence then
        (this, if continuing then Ok else Unavailable)
      else if assembly.Some? && assembly.value.route == route &&
              Distance(assembly.value.sequence, sequence) > 31 then (this, Unavailable)
      else
        var cleared := this.(assembly := None);
        if last.None? || last.value.route != route then (cleared, Ok)
        else if Distance(last.value.sequence, sequence) == 0 then (cleared, Unavailable)
        else if Distance(last.value.sequence, sequence) > 31 then (cleared, Unavailable)
        else (cleared, Ok)
    }

    ghost function Store(fragment: Fragment): (Reassembler, Reply)
      requires assembly.Some? && fragment.count == assembly.value.count
    {
      var a := assembly.value;
      if fragment.index in a.pieces then (this, Reply(Unavailable, None))
      else if fragment.index * 6 + |fragment.bytes| > maximum then
        (this.(assembly := None), Reply(InvalidArgument, None))
      else
        var pieces := a.pieces[fragment.index := fragment.bytes];
        if !Covers(pieces, a.count) then
          (this.(assembly := Some(a.(pieces := pieces))), Reply(Unavailable, None))
        else
          (this.(assembly := None, last := Some(Finished(a.route, a.sequence))),
           Reply(Ok, Some(Message(a.route, a.sequence, Join(pieces, a.count)))))
    }

    ghost function Accept(frame: CanFrame): (Reassembler, Reply) {
      var id := DecodeId(frame.id);
      if id.None? || |frame.data| == 0 || |frame.data| > 8 then (this, Reply(InvalidArgument, None))
      else
        var route := id.value.route;
        var sequence := frame.data[0] % 64;
        if Kind(frame.data[0]) == FastSingle then
          if |frame.data| - 1 > maximum then (this, Reply(InvalidArgument, None))
          else
            var (prepared, status) := Prepare(route, sequence, false);
            if status != Ok then (prepared, Reply(status, None))
            else
              (prepared.(last := Some(Finished(route, sequence))),
               Reply(Ok, Some(Message(route, sequence, frame.data[1..]))))
        else
          match ParseFragment(frame.data, maximum)
          case None => (this, Reply(InvalidArgument, None))
          case Some(fragment) => AcceptFragment(route, sequence, fragment)
    }

    ghost function AcceptFragment(route: nat, sequence: nat, fragment: Fragment): (Reassembler, Reply) {
      if assembly.None? || assembly.value.route != route || assembly.value.sequence != sequence then
        var (prepared, status) := Prepare(route, sequence, true);
        if status != Ok then (prepared, Reply(status, None))
        else
          prepared.(assembly := Some(Assembly(route, sequence, fragment.count, map[]))).Store(fragment)
      else if assembly.value.count != fragment.count then
        (this.(assembly := None), Reply(InvalidArgument, None))
      else Store(fragment)
    }
  }

  /* ------------------------------------------------------ any arrival order */

  /** The message as a whole: where it goes and what it carries. */
  datatype Sent = Sent(id: nat, sequence: nat, payload: seq<Byte>) {
    ghost predicate Valid(maximum: nat) {
      && DecodeId(id).Some? && sequence < 64
      && 1 <= |payload| <= 96 && |payload| <= maximum
    }

    function Route(): nat requires DecodeId(id).Some? { DecodeId(id).value.route }
  }

  /** `arrivals` names the frame, by index, that comes in at each moment. */
  ghost predicate Arrivals(m: Sent, arrivals: seq<nat>) {
    forall k :: 0 <= k < |arrivals| ==> arrivals[k] < FrameCount(m.payload)
  }

  ghost predicate Seen(arrivals: seq<nat>, k: nat, index: nat)
    requires k <= |arrivals|
  {
    exists j :: 0 <= j < k && arrivals[j] == index
  }

  /** All frames of the message are among the first k arrivals. */
  ghost predicate AllSeen(m: Sent, arrivals: seq<nat>, k: nat)
    requires k <= |arrivals|
  {
    forall index :: 0 <= index < FrameCount(m.payload) ==> Seen(arrivals, k, index)
  }

  /** Arrival k brought the last missing frame. */
  ghost predicate LastMissing(m: Sent, arrivals: seq<nat>, k: nat)
    requires k < |arrivals|
  {
    AllSeen(m, arrivals, k + 1) && !AllSeen(m, arrivals, k)
  }

  /** Nothing is being assembled, something for another route, or a message 1 to 31 before this one. */
  predicate Replaces(r: Reassembler, m: Sent)
    requires DecodeId(m.id).Some?
  {
    r.assembly.None? || r.assembly.value.route != m.Route() ||
    1 <= (m.sequence - r.assembly.value.sequence) % 64 <= 31
  }

  /** The message looks newer than the last one completed for its route. */
  predicate Newer(r: Reassembler, m: Sent)
    requires DecodeId(m.id).Some?
  {
    r.last.None? || r.last.value.route != m.Route() || 1 <= (m.sequence - r.last.value.sequence) % 64 <= 31
  }

  ghost predicate Fresh(r: Reassembler, m: Sent)
    requires m.Valid(r.maximum)
  {
    Replaces(r, m) && Newer(r, m)
  }

  /** The message looks older than the one being assembled for its route. */
  predicate Behind(r: Reassembler, m: Sent)
    requires DecodeId(m.id).Some?
  {
    r.assembly.Some? && r.assembly.value.route == m.Route() && (m.sequence - r.assembly.value.sequence) % 64 > 31
  }

  /** The reassembler after the first k arrivals. */
  ghost function After(r: Reassembler, m: Sent, arrivals: seq<nat>, k: nat): Reassembler
    requires m.Valid(r.maximum) && Arrivals(m, arrivals) && k <= |arrivals|
  {
    if k == 0 then r
    else After(r, m, arrivals, k - 1).Accept(FrameAt(m.id, m.sequence, m.payload, arrivals[k - 1])).0
  }

  ghost predicate Progress(r: Reassembler, m: Sent, arrivals: seq<nat>, k: nat, now: Reassembler)
    requires m.Valid(r.maximum) && Arrivals(m, arrivals) && k <= |arrivals|
  {
    && now.maximum == r.maximum
    && if k == 0 then now == r
       else if AllSeen(m, arrivals, k) then
         now.assembly.None? && now.last == Some(Finished(m.Route(), m.sequence))
       else
         && now.last == r.last
         && now.assembly.Some?
         && var a := now.assembly.value;
            && a.route == m.Route() && a.sequence == m.sequence && a.count == Count(m.payload)
            && PiecesOf(a.pieces, m.payload)
            && forall index :: index in a.pieces <==>
                 0 <= index < Count(m.payload) && Seen(arrivals, k, index)
  }

  lemma ParseFragmentFrame(m: Sent, index: nat, maximum: nat)
    requires m.Valid(maximum) && |m.payload| > 7 && index < Count(m.payload)
    ensures var frame := FragmentFrame(m.id, m.sequence, m.payload, index);
            && 0 < |frame.data| <= 8
            && Kind(frame.data[0]) == FastFragment
            && frame.data[0] % 64 == m.sequence
            && ParseFragment(frame.data, maximum) ==
               Some(Fragment(index, Count(m.payload), Piece(m.payload, index)))
            && index * 6 + |Piece(m.payload, index)| <= maximum
  {
    var frame := FragmentFrame(m.id, m.sequence, m.payload, index);
    assert frame.data[2..] == Piece(m.payload, index);
    assert frame.data[1] % 16 == index && frame.data[1] / 16 == Count(m.payload) - 1;
  }

  lemma SeenNext(arrivals: seq<nat>, k: nat, index: nat)
    requires k < |arrivals|
    ensures Seen(arrivals, k + 1, index) <==> Seen(arrivals, k, index) || arrivals[k] == index
  {
  }

  lemma SeenStays(m: Sent, arrivals: seq<nat>, k: nat, n: nat)
    requires k <= n <= |arrivals| && AllSeen(m, arrivals, k)
    ensures AllSeen(m, arrivals, n)
  {
    forall i: nat | i < FrameCount(m.payload) ensures Seen(arrivals, n, i) {
      assert Seen(arrivals, k, i);
    }
  }

  /** What one more arrival does to a reassembler that has made the progress so far. */
  lemma SingleArrival(r: Reassembler, m: Sent, arrivals: seq<nat>, k: nat, now: Reassembler)
    requires m.Valid(r.maximum) && |m.payload| <= 7 && Arrivals(m, arrivals) && k < |arrivals|
    requires Fresh(r, m) && Progress(r, m, arrivals, k, now)
    ensures var (next, reply) := now.Accept(FrameAt(m.id, m.sequence, m.payload, arrivals[k]));
            && Progress(r, m, arrivals, k + 1, next)
            && AllSeen(m, arrivals, k + 1) && (AllSeen(m, arrivals, k) <==> k > 0)
            && reply == if k == 0
                        then Reply(Ok, Some(Message(m.Route(), m.sequence, m.payload)))
                        else Reply(Unavailable, None)
  {
    assert arrivals[k] == 0 && arrivals[0] == 0;
    assert Seen(arrivals, k + 1, 0);
    if k == 0 {
      assert !Seen(arrivals, 0, 0);
      WholeSingle(r, m);
    } else {
      assert Seen(arrivals, k, 0);
      RefusesOld(now, m, 0);
    }
  }

  lemma WholeSingle(r: Reassembler, m: Sent)
    requires m.Valid(r.maximum) && |m.payload| <= 7 && Fresh(r, m)
    ensures r.Accept(FrameAt(m.id, m.sequence, m.payload, 0)) ==
            (r.(assembly := None, last := Some(Finished(m.Route(), m.sequence))),
             Reply(Ok, Some(Message(m.Route(), m.sequence, m.payload))))
  {
    var data := SingleFrame(m.id, m.sequence, m.payload).data;
    assert data[1..] == m.payload && data[0] % 64 == m.sequence && Kind(data[0]) == FastSingle;
    Wanted(r, m);
  }

  lemma Wanted(r: Reassembler, m: Sent)
    requires m.Valid(r.maximum) && Fresh(r, m)
    ensures r.Prepare(m.Route(), m.sequence, false) == (r.(assembly := None), Ok)
  {
  }

  lemma FragmentArrival(r: Reassembler, m: Sent, arrivals: seq<nat>, k: nat, now: Reassembler)
    requires m.Valid(r.maximum) && |m.payload| > 7 && Arrivals(m, arrivals) && k < |arrivals|
    requires Fresh(r, m) && Progress(r, m, arrivals, k, now)
    ensures var (next, reply) := now.Accept(FrameAt(m.id, m.sequence, m.payload, arrivals[k]));
            && Progress(r, m, arrivals, k + 1, next)
            && reply == if LastMissing(m, arrivals, k)
                        then Reply(Ok, Some(Message(m.Route(), m.sequence, m.payload)))
                        else Reply(Unavailable, None)
  {
    var index := arrivals[k];
    ParseFragmentFrame(m, index, r.maximum);
    var fragment := Fragment(index, Count(m.payload), Piece(m.payload, index));
    if k > 0 && AllSeen(m, arrivals, k) {
      SeenStays(m, arrivals, k, k + 1);
    } else {
      var begun := if k == 0
                   then now.(assembly := Some(Assembly(m.Route(), m.sequence, Count(m.payload), map[])))
                   else now;
      assert !AllSeen(m, arrivals, k) by { if k == 0 { assert !Seen(arrivals, 0, 0); } }
      assert now.AcceptFragment(m.Route(), m.sequence, fragment) == begun.Store(fragment);
      StoreArrival(r, m, arrivals, k, begun);
    }
  }

  lemma StoreArrival(r: Reassembler, m: Sent, arrivals: seq<nat>, k: nat, now: Reassembler)
    requires m.Valid(r.maximum) && |m.payload| > 7 && Arrivals(m, arrivals) && k < |arrivals|
    requires !AllSeen(m, arrivals, k)
    requires now.maximum == r.maximum && now.last == r.last && now.assembly.Some?
    requires var a := now.assembly.value;
             && a.route == m.Route() && a.sequence == m.sequence && a.count == Count(m.payload)
             && PiecesOf(a.pieces, m.payload)
             && forall index :: index in a.pieces <==>
                  0 <= index < Count(m.payload) && Seen(arrivals, k, index)
    ensures var index := arrivals[k];
            var (next, reply) :=
              now.Store(Fragment(index, Count(m.payload), Piece(m.payload, index)));
            && Progress(r, m, arrivals, k + 1, next)
            && reply == if AllSeen(m, arrivals, k + 1)
                        then Reply(Ok, Some(Message(m.Route(), m.sequence, m.payload)))
                        else Reply(Unavailable, None)
  {
    var index := arrivals[k];
    forall i: nat ensures Seen(arrivals, k + 1, i) <==> Seen(arrivals, k, i) || index == i {
      SeenNext(arrivals, k, i);
    }
    var pieces := now.assembly.value.pieces[index := Piece(m.payload, index)];
    CoveredIsSeen(m, arrivals, k + 1, pieces);
    if Covers(pieces, Count(m.payload)) { JoinIsPayload(m.payload, pieces); }
  }

  /** All fragments are there exactly if all have been seen. */
  lemma CoveredIsSeen(m: Sent, arrivals: seq<nat>, k: nat, pieces: map<nat, seq<Byte>>)
    requires |m.payload| > 7 && k <= |arrivals|
    requires forall i :: i in pieces <==> 0 <= i < Count(m.payload) && Seen(arrivals, k, i)
    ensures Covers(pieces, Count(m.payload)) <==> AllSeen(m, arrivals, k)
  {
    if Covers(pieces, Count(m.payload)) {
      forall i: nat | i < Count(m.payload) ensures Seen(arrivals, k, i) { assert i in pieces; }
    }
    if AllSeen(m, arrivals, k) {
      forall i: nat | i < Count(m.payload) ensures i in pieces { assert Seen(arrivals, k, i); }
    }
  }

  lemma Arrival(r: Reassembler, m: Sent, arrivals: seq<nat>, k: nat, now: Reassembler)
    requires m.Valid(r.maximum) && Arrivals(m, arrivals) && k < |arrivals|
    requires Fresh(r, m) && Progress(r, m, arrivals, k, now)
    ensures var (next, reply) := now.Accept(FrameAt(m.id, m.sequence, m.payload, arrivals[k]));
            && Progress(r, m, arrivals, k + 1, next)
            && reply == if LastMissing(m, arrivals, k)
                        then Reply(Ok, Some(Message(m.Route(), m.sequence, m.payload)))
                        else Reply(Unavailable, None)
  {
    if |m.payload| <= 7 { SingleArrival(r, m, arrivals, k, now); }
    else { FragmentArrival(r, m, arrivals, k, now); }
  }

  lemma {:induction false} RunProgress(r: Reassembler, m: Sent, arrivals: seq<nat>, k: nat)
    requires m.Valid(r.maximum) && Arrivals(m, arrivals) && k <= |arrivals| && Fresh(r, m)
    ensures Progress(r, m, arrivals, k, After(r, m, arrivals, k))
  {
    if k > 0 {
      var j := k - 1;
      RunProgress(r, m, arrivals, j);
      var now := After(r, m, arrivals, j);
      Arrival(r, m, arrivals, j, now);
      var next := now.Accept(FrameAt(m.id, m.sequence, m.payload, arrivals[j])).0;
      assert next == After(r, m, arrivals, k);
      assert Progress(r, m, arrivals, j + 1, next);
    }
  }

  /**
   Frames of one message in any order and any number of times: the reassembler answers Ok at
   exactly the moment the last missing frame comes in, with the route, sequence and payload
   that were sent, and never at any other moment.
   */
  lemma ArrivalTheorem(r: Reassembler, m: Sent, arrivals: seq<nat>, k: nat)
    requires m.Valid(r.maximum) && Arrivals(m, arrivals) && k < |arrivals| && Fresh(r, m)
    ensures After(r, m, arrivals, k).Accept(FrameAt(m.id, m.sequence, m.payload, arrivals[k])).1 ==
            if LastMissing(m, arrivals, k)
            then Reply(Ok, Some(Message(m.Route(), m.sequence, m.payload)))
            else Reply(Unavailable, None)
  {
    RunProgress(r, m, arrivals, k);
    Arrival(r, m, arrivals, k, After(r, m, arrivals, k));
  }

  lemma RefusesBehind(r: Reassembler, m: Sent, index: nat)
    requires m.Valid(r.maximum) && index < FrameCount(m.payload) && Behind(r, m)
    ensures r.Accept(FrameAt(m.id, m.sequence, m.payload, index)) == (r, Reply(Unavailable, None))
  {
    if |m.payload| > 7 { ParseFragmentFrame(m, index, r.maximum); }
  }

  lemma RefusesOld(r: Reassembler, m: Sent, index: nat)
    requires m.Valid(r.maximum) && index < FrameCount(m.payload) && Replaces(r, m) && !Newer(r, m)
    ensures r.Accept(FrameAt(m.id, m.sequence, m.payload, index)) == (r.(assembly := None), Reply(Unavailable, None))
  {
    if |m.payload| > 7 { ParseFragmentFrame(m, index, r.maximum); }
  }

  /** A message no frame of which is wanted. */
  predicate Unwanted(r: Reassembler, m: Sent)
    requires DecodeId(m.id).Some?
  {
    Behind(r, m) || (Replaces(r, m) && !Newer(r, m))
  }

  /** What its frames leave: what is being assembled stays only if the message is behind it. */
  function Left(r: Reassembler, m: Sent): Reassembler
    requires DecodeId(m.id).Some?
  {
    if Behind(r, m) then r else r.(assembly := None)
  }

  lemma RefusesOne(r: Reassembler, m: Sent, index: nat)
    requires m.Valid(r.maximum) && index < FrameCount(m.payload) && Unwanted(r, m)
    ensures r.Accept(FrameAt(m.id, m.sequence, m.payload, index)) == (Left(r, m), Reply(Unavailable, None))
  {
    if Behind(r, m) { RefusesBehind(r, m, index); } else { RefusesOld(r, m, index); }
  }

  lemma LeftStays(r: Reassembler, m: Sent)
    requires DecodeId(m.id).Some? && Unwanted(r, m)
    ensures Unwanted(Left(r, m), m) && Left(Left(r, m), m) == Left(r, m) && Left(r, m).maximum == r.maximum
  {
  }

  lemma {:induction false} RefusedRun(r: Reassembler, m: Sent, arrivals: seq<nat>, k: nat)
    requires m.Valid(r.maximum) && Arrivals(m, arrivals) && k <= |arrivals| && Unwanted(r, m)
    ensures After(r, m, arrivals, k) == if k == 0 then r else Left(r, m)
  {
    if k > 0 {
      RefusedRun(r, m, arrivals, k - 1);
      LeftStays(r, m);
      RefusesOne(After(r, m, arrivals, k - 1), m, arrivals[k - 1]);
    }
  }

  /**
   Frames of a message that looks older than the one being assembled are refused and leave that one
   alone; frames of one that replaces it but looks no newer than the last completed one are refused.
   */
  lemma RefusedTheorem(r: Reassembler, m: Sent, arrivals: seq<nat>, k: nat)
    requires m.Valid(r.maximum) && Arrivals(m, arrivals) && k < |arrivals| && Unwanted(r, m)
    ensures After(r, m, arrivals, k).Accept(FrameAt(m.id, m.sequence, m.payload, arrivals[k]))
         == (if Behind(r, m) then r else r.(assembly := None), Reply(Unavailable, None))
  {
    RefusedRun(r, m, arrivals, k);
    LeftStays(r, m);
    RefusesOne(After(r, m, arrivals, k), m, arrivals[k]);
  }

  /**
   A fragment that does not agree with the message being assembled, in the number of fragments,
   ends that one: all its frames have to come again.
   */
  lemma DisagreementDrops(r: Reassembler, m: Sent, index: nat)
    requires m.Valid(r.maximum) && |m.payload| > 7 && index < FrameCount(m.payload) && Newer(r, m)
    requires r.assembly.Some? && r.assembly.value.route == m.Route() && r.assembly.value.sequence == m.sequence
    requires r.assembly.value.count != Count(m.payload)
    ensures var (next, reply) := r.Accept(FrameAt(m.id, m.sequence, m.payload, index));
            reply == Reply(InvalidArgument, None) && next == r.(assembly := None) && Fresh(next, m)
  {
    ParseFragmentFrame(m, index, r.maximum);
  }

  /** Once every frame has arrived there is one moment, and only one, at which the last came in. */
  lemma {:induction false} ExactlyOnce(m: Sent, arrivals: seq<nat>, n: nat)
    requires m.payload != [] && n <= |arrivals| && AllSeen(m, arrivals, n)
    ensures exists k :: 0 <= k < n && LastMissing(m, arrivals, k) &&
              forall j :: 0 <= j < n && LastMissing(m, arrivals, j) ==> j == k
  {
    assert !AllSeen(m, arrivals, 0) by { assert !Seen(arrivals, 0, 0); }
    if AllSeen(m, arrivals, n - 1) {
      ExactlyOnce(m, arrivals, n - 1);
    } else {
      assert LastMissing(m, arrivals, n - 1);
      forall j | 0 <= j < n && LastMissing(m, arrivals, j) ensures j == n - 1 {
        if j + 1 < n { SeenStays(m, arrivals, j + 1, n - 1); }
      }
    }
  }
}

/** The packet codec's buffer and the incremental stream receiver on top of it. */
module StreamTransport {
  import opened Bytes
  import opened Framing
  import opened LittleEndian
  import Cobs
  import Crc32c

  /* ------------------------------------------------------------- packet codec */

  class PacketCodec {
    const maxPayload: nat
    const raw: array<Byte>

    ghost predicate Valid()
      reads this
    {
      raw.Length == RawCapacity(maxPayload)
    }

    constructor (maxPayload: nat)
      ensures Valid() && fresh(raw) && this.maxPayload == maxPayload
    {
      this.maxPayload := maxPayload;
      raw := new Byte[RawCapacity(maxPayload)];
    }

    /** Write the low bytes of a value at an offset, extending the prefix already written. */
    method WriteLittleEndian(at: nat, value: nat, n: nat)
      requires Valid() && at + n <= raw.Length
      modifies raw
      ensures raw[..at + n] == old(raw[..at]) + ToLe(value, n)
    {
      var rest := value;
      for i := 0 to n
        invariant raw[..at + i] + ToLe(rest, n - i) == old(raw[..at]) + ToLe(value, n)
      {
        raw[at + i] := rest % 256;
        rest := rest / 256;
        assert raw[..at + i + 1] == raw[..at + i] + [raw[at + i]];
      }
    }

    method WriteBytes(at: nat, bytes: seq<Byte>)
      requires Valid() && at + |bytes| <= raw.Length
      modifies raw
      ensures raw[..at + |bytes|] == old(raw[..at]) + bytes
    {
      for i := 0 to |bytes|
        invariant raw[..at + i] == old(raw[..at]) + bytes[..i]
      {
        raw[at + i] := bytes[i];
      }
    }

    method WriteHeader(p: Packet)
      requires Valid() && p.Typed()
      modifies raw
      ensures raw[..HEADER_SIZE] == Header(p)
    {
      WriteAddressing(p);
      WriteBytes(26, p.schemaHash);
      WriteLittleEndian(42, |p.payload|, 2);
    }

    method WriteRouting(p: Packet)
      requires Valid() && p.Typed()
      modifies raw
      ensures raw[..10] == Routing(p)
    {
      WriteLittleEndian(0, MAGIC, 2);
      WriteBytes(2, [PROTOCOL_VERSION, p.kind]);
      WriteLittleEndian(4, p.route, 2);
      WriteLittleEndian(6, p.sequence, 4);
    }

    /** Everything up to the schema hash. */
    method WriteAddressing(p: Packet)
      requires Valid() && p.Typed()
      modifies raw
      ensures raw[..26] == Addressing(p)
    {
      WriteRouting(p);
      WriteLittleEndian(10, p.timestamp, 8);
      WriteLittleEndian(18, p.deadline, 8);
    }

    /** Refuses unsendable packets; otherwise fails exactly when the output is too short. */
    method Encode(p: Packet, output: array<Byte>) returns (status: Status, written: nat)
      requires Valid() && p.Typed() && output != raw
      modifies raw, output
      ensures status == InvalidArgument <==> !p.Sendable(maxPayload)
      ensures status == Ok <==> p.Sendable(maxPayload) && |Encoding(p)| <= output.Length
      ensures status == Ok ==> written == |Encoding(p)| && output[..written] == Encoding(p)
      ensures status in {Ok, InvalidArgument, CapacityExceeded}
    {
      if !p.Sendable(maxPayload) {
        return InvalidArgument, 0;
      }
      WriteHeader(p);
      WriteBytes(HEADER_SIZE, p.payload);
      var bodySize := HEADER_SIZE + |p.payload|;
      var checksum := Crc32c.Compute(raw[..bodySize]);
      WriteLittleEndian(bodySize, checksum as int, 4);
      assert raw[..bodySize + 4] == Raw(p);
      Cobs.EncodedLength(Raw(p));
      if output.Length < 2 {
        return CapacityExceeded, 0;
      }
      var size;
      status, size := Cobs.CobsEncode(raw[..bodySize + 4], output, output.Length - 1);
      if status != Ok {
        return status, 0;
      }
      output[size] := 0;
      return Ok, size + 1;
    }

    method Decode(encoded: seq<Byte>) returns (verdict: Verdict)
      requires Valid()
      modifies raw
      ensures verdict == Decoding(encoded, maxPayload)
    {
      if |encoded| < 2 || encoded[|encoded| - 1] != 0 {
        return Rejected(ProtocolError);
      }
      var status, size := Cobs.CobsDecode(encoded[..|encoded| - 1], raw);
      if status != Ok {
        return Rejected(status);
      }
      verdict := ParseBuffer(raw[..size]);
    }

    /** The checks on the unstuffed packet. */
    method ParseBuffer(bytes: seq<Byte>) returns (verdict: Verdict)
      ensures verdict == Parse(bytes, maxPayload)
    {
      if |bytes| < HEADER_SIZE + CHECKSUM_SIZE {
        return Rejected(ProtocolError);
      }
      var magic := ReadLittleEndian(bytes[0..2]);
      if magic != MAGIC {
        return Rejected(ProtocolError);
      }
      if bytes[2] != PROTOCOL_VERSION {
        return Rejected(VersionMismatch);
      }
      var size := ReadLittleEndian(bytes[42..44]);
      if size > maxPayload {
        return Rejected(CapacityExceeded);
      }
      if |bytes| != HEADER_SIZE + size + CHECKSUM_SIZE {
        return Rejected(ProtocolError);
      }
      var expected := ReadLittleEndian(bytes[|bytes| - 4..]);
      var checksum := Crc32c.Compute(bytes[..|bytes| - 4]);
      if checksum as int != expected {
        return Rejected(ProtocolError);
      }
      if bytes[3] < 1 || bytes[3] > 4 {
        return Rejected(ProtocolError);
      }
      verdict := ReadFields(bytes, size);
    }

    method ReadFields(bytes: seq<Byte>, size: nat) returns (verdict: Verdict)
      requires |bytes| >= HEADER_SIZE + size
      ensures verdict == if FromLe(bytes[4..6]) == 0 then Rejected(ProtocolError)
                         else Accepted(Packet(FromLe(bytes[4..6]), bytes[3], FromLe(bytes[6..10]),
                                              FromLe(bytes[10..18]), FromLe(bytes[18..26]),
                                              bytes[26..42], bytes[44..44 + size]))
    {
      var route := ReadLittleEndian(bytes[4..6]);
      var sequence := ReadLittleEndian(bytes[6..10]);
      var timestamp := ReadLittleEndian(bytes[10..18]);
      var deadline := ReadLittleEndian(bytes[18..26]);
      return if route == 0 then Rejected(ProtocolError)
             else Accepted(Packet(route, bytes[3], sequence, timestamp, deadline, bytes[26..42],
                                  bytes[44..44 + size]));
    }
  }

  method ReadLittleEndian(input: seq<Byte>) returns (value: nat)
    ensures value == FromLe(input)
  {
    value := 0;
    var i := |input|;
    while i > 0
      invariant 0 <= i <= |input|
      invariant value == FromLe(input[i..])
    {
      i := i - 1;
      assert input[i..][1..] == input[i + 1..];
      value := input[i] + 256 * value;
    }
  }

  /* ---------------------------------------------------------- stream receiver */

  /** Bytes of the packet being received, and the packets handed to the receiver so far. */
  datatype Stream = Stream(buffer: seq<Byte>, delivered: seq<Packet>)

  /** The receiver's answer, given every packet it was handed so far, the newest last. */
  type Answers = seq<Packet> -> Status

  datatype Fed = Fed(stream: Stream, status: Status)

  /** One byte off the wire. */
  function Feed(s: Stream, value: Byte, maxPayload: nat, receiver: Answers): Fed {
    if value != 0 then
      if |s.buffer| + 1 >= EncodedCapacity(maxPayload) then Fed(s.(buffer := []), CapacityExceeded)
      else Fed(s.(buffer := s.buffer + [value]), Ok)
    else if s.buffer == [] then Fed(s, Ok)
    else
      match Decoding(s.buffer + [0], maxPayload)
      case Rejected(status) => Fed(s.(buffer := []), status)
      case Accepted(packet) => Fed(Stream([], s.delivered + [packet]), receiver(s.delivered + [packet]))
  }

  /** A chunk: stop at the first byte that is answered with an error, dropping the rest. */
  function FeedAll(s: Stream, chunk: seq<Byte>, maxPayload: nat, receiver: Answers): Fed
    decreases |chunk|
  {
    if chunk == [] then Fed(s, Ok)
    else
      var fed := Feed(s, chunk[0], maxPayload, receiver);
      if fed.status != Ok then fed else FeedAll(fed.stream, chunk[1..], maxPayload, receiver)
  }

  function PollOnce(s: Stream, chunk: seq<Byte>, maxPayload: nat, receiver: Answers): Fed {
    if chunk == [] then Fed(s, Unavailable) else FeedAll(s, chunk, maxPayload, receiver)
  }

  /** Successive reads: every one is polled, whatever the one before it returned. */
  function PollAll(s: Stream, chunks: seq<seq<Byte>>, maxPayload: nat, receiver: Answers)
    : (Stream, seq<Status>)
    decreases |chunks|
  {
    if chunks == [] then (s, [])
    else
      var fed := PollOnce(s, chunks[0], maxPayload, receiver);
      var (last, statuses) := PollAll(fed.stream, chunks[1..], maxPayload, receiver);
      (last, [fed.status] + statuses)
  }

  class StreamTransport {
    const maxPayload: nat
    const codec: PacketCodec
    const received: array<Byte>
    const receiver: Answers
    var receivedSize: nat
    var delivered: seq<Packet>

    ghost predicate Valid()
      reads this, codec
    {
      && codec.Valid() && codec.maxPayload == maxPayload
      && codec.raw != received
      && received.Length == EncodedCapacity(maxPayload)
      && receivedSize < received.Length
    }

    ghost function View(): Stream
      requires Valid()
      reads this, codec, received
    {
      Stream(received[..receivedSize], delivered)
    }

    constructor (maxPayload: nat, receiver: Answers)
      ensures Valid() && fresh(codec) && fresh(codec.raw) && fresh(received)
      ensures this.maxPayload == maxPayload && this.receiver == receiver
      ensures View() == Stream([], [])
    {
      this.maxPayload := maxPayload;
      this.receiver := receiver;
      codec := new PacketCodec(maxPayload);
      received := new Byte[EncodedCapacity(maxPayload)];
      receivedSize := 0;
      delivered := [];
    }

    /** The end of a packet: decode what was collected and hand it over. */
    method EndOfPacket() returns (status: Status)
      requires Valid() && receivedSize > 0
      modifies this, received, codec.raw
      ensures Valid()
      ensures Fed(View(), status) == Feed(old(View()), 0, maxPayload, receiver)
    {
      received[receivedSize] := 0;
      assert received[..receivedSize + 1] == old(received[..receivedSize]) + [0];
      var verdict := codec.Decode(received[..receivedSize + 1]);
      receivedSize := 0;
      if verdict.Rejected? {
        return verdict.status;
      }
      delivered := delivered + [verdict.packet];
      return receiver(delivered);
    }

    /** One poll: process the bytes of one read, up to the first error. */
    method Poll(chunk: seq<Byte>) returns (status: Status)
      requires Valid()
      modifies this, received, codec.raw
      ensures Valid()
      ensures Fed(View(), status) == PollOnce(old(View()), chunk, maxPayload, receiver)
    {
      if chunk == [] {
        return Unavailable;
      }
      for index := 0 to |chunk|
        invariant Valid()
        invariant FeedAll(View(), chunk[index..], maxPayload, receiver) ==
                  FeedAll(old(View()), chunk, maxPayload, receiver)
      {
        var value := chunk[index];
        assert chunk[index..][1..] == chunk[index + 1..];
        if value != 0 {
          if receivedSize + 1 >= received.Length {
            receivedSize := 0;
            return CapacityExceeded;
          }
          received[receivedSize] := value;
          assert received[..receivedSize + 1] == received[..receivedSize] + [value];
          receivedSize := receivedSize + 1;
          continue;
        }
        if receivedSize == 0 {
          continue;
        }
        status := EndOfPacket();
        if status != Ok {
          return;
        }
      }
      return Ok;
    }
  }

  /* ------------------------------------------------------- any split of the stream */

  ghost predicate AllOk(receiver: Answers) {
    forall packets :: receiver(packets) == Ok
  }

  ghost predicate Deliverable(p: Packet, maxPayload: nat) {
    p.Typed() && p.Sendable(maxPayload) && |p.payload| <= U16_MAX
  }

  ghost predicate AllDeliverable(packets: seq<Packet>, maxPayload: nat) {
    forall i :: 0 <= i < |packets| ==> Deliverable(packets[i], maxPayload)
  }

  ghost function Encodings(packets: seq<Packet>, maxPayload: nat): seq<seq<Byte>>
    requires AllDeliverable(packets, maxPayload)
  {
    seq(|packets|, i requires 0 <= i < |packets| && Deliverable(packets[i], maxPayload) =>
          Encoding(packets[i]))
  }

  function Flatten(chunks: seq<seq<Byte>>): seq<Byte> {
    if chunks == [] then [] else chunks[0] + Flatten(chunks[1..])
  }

  /** Where one chunk ends and the next begins makes no difference while nothing fails. */
  lemma {:induction false} FeedConcat(s: Stream, a: seq<Byte>, b: seq<Byte>, maxPayload: nat,
                                      receiver: Answers)
    ensures FeedAll(s, a, maxPayload, receiver).status == Ok ==>
              FeedAll(s, a + b, maxPayload, receiver) ==
              FeedAll(FeedAll(s, a, maxPayload, receiver).stream, b, maxPayload, receiver)
    ensures FeedAll(s, a, maxPayload, receiver).status != Ok ==>
              FeedAll(s, a + b, maxPayload, receiver) == FeedAll(s, a, maxPayload, receiver)
    decreases |a|
  {
    if a == [] {
      assert a + b == b;
    } else {
      assert (a + b)[1..] == a[1..] + b;
      FeedConcat(Feed(s, a[0], maxPayload, receiver).stream, a[1..], b, maxPayload, receiver);
    }
  }

  lemma FeedTwo(s: Stream, a: seq<Byte>, b: seq<Byte>, mid: Stream, last: Stream, maxPayload: nat,
                receiver: Answers)
    requires FeedAll(s, a, maxPayload, receiver) == Fed(mid, Ok)
    requires FeedAll(mid, b, maxPayload, receiver) == Fed(last, Ok)
    ensures FeedAll(s, a + b, maxPayload, receiver) == Fed(last, Ok)
  {
    FeedConcat(s, a, b, maxPayload, receiver);
  }

  /** Non-zero bytes only collect, as long as there is room for them and the terminator. */
  lemma {:induction false} FeedRun(s: Stream, run: seq<Byte>, maxPayload: nat,
                                   receiver: Answers)
    requires 0 !in run && |s.buffer| + |run| + 1 <= EncodedCapacity(maxPayload)
    ensures FeedAll(s, run, maxPayload, receiver) == Fed(s.(buffer := s.buffer + run), Ok)
    decreases |run|
  {
    if run == [] {
      assert s.buffer + run == s.buffer;
    } else {
      FeedRun(s.(buffer := s.buffer + [run[0]]), run[1..], maxPayload, receiver);
      assert s.buffer + [run[0]] + run[1..] == s.buffer + run;
    }
  }

  /** A whole encoding, from an empty buffer, hands over exactly its packet. */
  lemma FeedPacket(s: Stream, p: Packet, maxPayload: nat, receiver: Answers)
    requires s.buffer == [] && Deliverable(p, maxPayload) && AllOk(receiver)
    ensures FeedAll(s, Encoding(p), maxPayload, receiver) ==
            Fed(Stream([], s.delivered + [p]), Ok)
  {
    var stuffed := Cobs.Encoding(Raw(p));
    Cobs.RoundTrip(Raw(p), |Raw(p)|);
    Cobs.EncodedLength(Raw(p));
    EncodingFits(p, maxPayload);
    PacketRoundTrip(p, maxPayload);
    FeedRun(s, stuffed, maxPayload, receiver);
    assert s.buffer + stuffed == stuffed;
    FeedConcat(s, stuffed, [0], maxPayload, receiver);
  }

  /** From an empty buffer, these bytes hand over this packet and leave the buffer empty. */
  ghost predicate Delivers(bytes: seq<Byte>, p: Packet, maxPayload: nat, receiver: Answers) {
    forall before :: FeedAll(Stream([], before), bytes, maxPayload, receiver) ==
                     Fed(Stream([], before + [p]), Ok)
  }

  lemma {:induction false} FeedPackets(before: seq<Packet>, codes: seq<seq<Byte>>,
                                       packets: seq<Packet>, maxPayload: nat,
                                       receiver: Answers)
    requires |codes| == |packets|
    requires forall i :: 0 <= i < |codes| ==> Delivers(codes[i], packets[i], maxPayload, receiver)
    ensures FeedAll(Stream([], before), Flatten(codes), maxPayload, receiver) ==
            Fed(Stream([], before + packets), Ok)
    decreases |packets|
  {
    if packets == [] {
      assert before + packets == before;
    } else {
      assert Delivers(codes[0], packets[0], maxPayload, receiver);
      FeedPackets(before + [packets[0]], codes[1..], packets[1..], maxPayload, receiver);
      assert before + [packets[0]] + packets[1..] == before + packets;
      FeedTwo(Stream([], before), codes[0], Flatten(codes[1..]), Stream([], before + [packets[0]]),
              Stream([], before + packets), maxPayload, receiver);
    }
  }

  lemma {:induction false} SplitIsInvisible(s: Stream, chunks: seq<seq<Byte>>, maxPayload: nat,
                                            receiver: Answers)
    requires FeedAll(s, Flatten(chunks), maxPayload, receiver).status == Ok
    ensures var (last, statuses) := PollAll(s, chunks, maxPayload, receiver);
            && last == FeedAll(s, Flatten(chunks), maxPayload, receiver).stream
            && |statuses| == |chunks|
            && forall i :: 0 <= i < |statuses| ==>
                 statuses[i] == if chunks[i] == [] then Unavailable else Ok
    decreases |chunks|
  {
    if chunks != [] {
      FeedConcat(s, chunks[0], Flatten(chunks[1..]), maxPayload, receiver);
      var fed := FeedAll(s, chunks[0], maxPayload, receiver);
      SplitIsInvisible(fed.stream, chunks[1..], maxPayload, receiver);
    }
  }

  lemma PacketsFed(before: seq<Packet>, packets: seq<Packet>, maxPayload: nat, receiver: Answers)
    requires AllOk(receiver) && AllDeliverable(packets, maxPayload)
    ensures FeedAll(Stream([], before), Flatten(Encodings(packets, maxPayload)), maxPayload, receiver) ==
            Fed(Stream([], before + packets), Ok)
  {
    var codes := Encodings(packets, maxPayload);
    forall i | 0 <= i < |codes| ensures Delivers(codes[i], packets[i], maxPayload, receiver) {
      forall earlier
        ensures FeedAll(Stream([], earlier), codes[i], maxPayload, receiver) ==
                Fed(Stream([], earlier + [packets[i]]), Ok)
      {
        FeedPacket(Stream([], earlier), packets[i], maxPayload, receiver);
      }
    }
    FeedPackets(before, codes, packets, maxPayload, receiver);
  }

  /**
   However the bytes of a list of packets are split into reads, the receiver gets exactly those
   packets, in order, every poll that got bytes answers Ok (so neither the buffer-full branch
   nor a rejection is ever taken) and nothing is left over.
   */
  lemma ChunkingTheorem(before: seq<Packet>, packets: seq<Packet>, chunks: seq<seq<Byte>>, maxPayload: nat,
                        receiver: Answers)
    requires AllOk(receiver)
    requires AllDeliverable(packets, maxPayload)
    requires Flatten(chunks) == Flatten(Encodings(packets, maxPayload))
    ensures var (last, statuses) := PollAll(Stream([], before), chunks, maxPayload, receiver);
            && last == Stream([], before + packets)
            && |statuses| == |chunks|
            && forall i :: 0 <= i < |statuses| ==>
                 statuses[i] == if chunks[i] == [] then Unavailable else Ok
  {
    PacketsFed(before, packets, maxPayload, receiver);
    SplitIsInvisible(Stream([], before), chunks, maxPayload, receiver);
  }

  /* ------------------------------------------------------------ after damage */

  /** Whatever stops a poll, or a zero at its end, empties the buffer. */
  lemma {:induction false} EmptyAfter(s: Stream, chunk: seq<Byte>, maxPayload: nat, receiver: Answers)
    ensures FeedAll(s, chunk, maxPayload, receiver).status != Ok ||
            (chunk != [] && chunk[|chunk| - 1] == 0) ==>
              FeedAll(s, chunk, maxPayload, receiver).stream.buffer == []
    decreases |chunk|
  {
    if chunk != [] {
      var fed := Feed(s, chunk[0], maxPayload, receiver);
      if fed.status == Ok {
        EmptyAfter(fed.stream, chunk[1..], maxPayload, receiver);
        if |chunk| > 1 { assert chunk[1..][|chunk| - 2] == chunk[|chunk| - 1]; }
      }
    }
  }

  /**
   Damage does not outlast the read it ends in: in whatever state the receiver is, after a read of
   any bytes that ends with a delimiter, or that is answered with an error, the packets of the
   following reads are handed up, all of them and in order.
   */
  lemma ResyncTheorem(s: Stream, damaged: seq<Byte>, packets: seq<Packet>, chunks: seq<seq<Byte>>,
                      maxPayload: nat, receiver: Answers)
    requires AllOk(receiver) && AllDeliverable(packets, maxPayload)
    requires Flatten(chunks) == Flatten(Encodings(packets, maxPayload))
    requires damaged != []
    requires damaged[|damaged| - 1] == 0 || PollOnce(s, damaged, maxPayload, receiver).status != Ok
    ensures PollAll(s, [damaged] + chunks, maxPayload, receiver).0 ==
            Stream([], PollOnce(s, damaged, maxPayload, receiver).stream.delivered + packets)
  {
    EmptyAfter(s, damaged, maxPayload, receiver);
    var middle := PollOnce(s, damaged, maxPayload, receiver).stream;
    ChunkingTheorem(middle.delivered, packets, chunks, maxPayload, receiver);
    assert ([damaged] + chunks)[1..] == chunks;
  }
}

/** The USB packet: little-endian header, payload, CRC-32C, stuffed and zero-terminated. */
module Framing {
  import opened Bytes
  import opened LittleEndian
  import Cobs
  import Crc32c

  const MAGIC := 0xa57e
  const PROTOCOL_VERSION := 1
  const HEADER_SIZE := 44
  const CHECKSUM_SIZE := 4

  function RawCapacity(maxPayload: nat): nat {
    HEADER_SIZE + maxPayload + CHECKSUM_SIZE
  }

  function EncodedCapacity(maxPayload: nat): nat {
    RawCapacity(maxPayload) + RawCapacity(maxPayload) / 254 + 2
  }

  /* ----------------------------------------------------------------- packets */

  datatype Packet = Packet(
    route: nat, kind: nat, sequence: nat, timestamp: nat, deadline: nat,
    schemaHash: seq<Byte>, payload: seq<Byte>)
  {
    /** The ranges of the header's machine types. */
    ghost predicate Typed() {
      && route <= U16_MAX && kind <= 255 && sequence <= U32_MAX
      && timestamp <= U64_MAX && deadline <= U64_MAX && |schemaHash| == 16
    }

    /** What Encode asks of its caller. */
    predicate Sendable(maxPayload: nat) {
      route != 0 && |payload| <= maxPayload && 1 <= kind <= 4
    }
  }

  function Preamble(kind: Byte): (bytes: seq<Byte>)
    ensures |bytes| == 4
  {
    ToLe(MAGIC, 2) + [PROTOCOL_VERSION, kind]
  }

  /** Route and sequence, up to offset 10. */
  function Routing(p: Packet): (bytes: seq<Byte>)
    requires p.kind <= 255
    ensures |bytes| == 10
  {
    Preamble(p.kind) + ToLe(p.route, 2) + ToLe(p.sequence, 4)
  }

  /** Routing and times, up to offset 26. */
  function Addressing(p: Packet): (bytes: seq<Byte>)
    requires p.kind <= 255
    ensures |bytes| == 26
  {
    Routing(p) + ToLe(p.timestamp, 8) + ToLe(p.deadline, 8)
  }

  function Header(p: Packet): (bytes: seq<Byte>)
    requires |p.schemaHash| == 16 && p.kind <= 255
    ensures |bytes| == HEADER_SIZE
  {
    var identified := Addressing(p) + p.schemaHash;
    identified + ToLe(|p.payload|, 2)
  }

  function Body(p: Packet): seq<Byte>
    requires |p.schemaHash| == 16 && p.kind <= 255
  {
    Header(p) + p.payload
  }

  function ChecksumBytes(body: seq<Byte>): (bytes: seq<Byte>)
    ensures |bytes| == CHECKSUM_SIZE
  {
    ToLe(Crc32c.Checksum(body) as int, 4)
  }

  function Raw(p: Packet): seq<Byte>
    requires |p.schemaHash| == 16 && p.kind <= 255
  {
    Body(p) + ChecksumBytes(Body(p))
  }

  function Encoding(p: Packet): seq<Byte>
    requires |p.schemaHash| == 16 && p.kind <= 255
  {
    Cobs.Encoding(Raw(p)) + [0]
  }

  datatype Verdict = Accepted(packet: Packet) | Rejected(status: Status)

  /** The checks on an unstuffed packet, in order. */
  function Parse(raw: seq<Byte>, maxPayload: nat): Verdict {
    if |raw| < HEADER_SIZE + CHECKSUM_SIZE then Rejected(ProtocolError)
    else if FromLe(raw[0..2]) != MAGIC then Rejected(ProtocolError)
    else if raw[2] != PROTOCOL_VERSION then Rejected(VersionMismatch)
    else
      var size := FromLe(raw[42..44]);
      if size > maxPayload then Rejected(CapacityExceeded)
      else if |raw| != HEADER_SIZE + size + CHECKSUM_SIZE then Rejected(ProtocolError)
      else if Crc32c.Checksum(raw[..|raw| - 4]) as int != FromLe(raw[|raw| - 4..]) then
        Rejected(ProtocolError)
      else if raw[3] < 1 || raw[3] > 4 then Rejected(ProtocolError)
      else if FromLe(raw[4..6]) == 0 then Rejected(ProtocolError)
      else Accepted(Packet(FromLe(raw[4..6]), raw[3], FromLe(raw[6..10]), FromLe(raw[10..18]),
                           FromLe(raw[18..26]), raw[26..42], raw[44..44 + size]))
  }

  function Decoding(encoded: seq<Byte>, maxPayload: nat): Verdict {
    if |encoded| < 2 || encoded[|encoded| - 1] != 0 then Rejected(ProtocolError)
    else
      var raw := Cobs.Decoding(encoded[..|encoded| - 1], RawCapacity(maxPayload));
      if raw.status != Ok then Rejected(raw.status) else Parse(raw.bytes, maxPayload)
  }

  /* -------------------------------------------------------------- round trip */

  /** The last field of a prefix, and the shorter prefix before it. */
  lemma Slice(raw: seq<Byte>, front: seq<Byte>, field: seq<Byte>)
    requires |front| + |field| <= |raw| && raw[..|front| + |field|] == front + field
    ensures raw[|front|..|front| + |field|] == field
    ensures raw[..|front|] == front
  {
    assert raw[|front|..|front| + |field|] == (front + field)[|front|..];
    assert raw[..|front|] == (front + field)[..|front|];
  }

  /** Every header field reads back at its offset. */
  lemma HeaderFields(p: Packet, raw: seq<Byte>)
    requires |p.schemaHash| == 16 && p.kind <= 255
    requires |raw| >= HEADER_SIZE && raw[..HEADER_SIZE] == Header(p)
    ensures raw[..26] == Addressing(p)
    ensures raw[26..42] == p.schemaHash && raw[42..44] == ToLe(|p.payload|, 2)
  {
    Slice(raw, Addressing(p) + p.schemaHash, ToLe(|p.payload|, 2));
    Slice(raw, Addressing(p), p.schemaHash);
  }

  lemma AddressingFields(p: Packet, raw: seq<Byte>)
    requires p.kind <= 255 && |raw| >= 26 && raw[..26] == Addressing(p)
    ensures raw[0..2] == ToLe(MAGIC, 2) && raw[2] == PROTOCOL_VERSION && raw[3] == p.kind
    ensures raw[4..6] == ToLe(p.route, 2) && raw[6..10] == ToLe(p.sequence, 4)
    ensures raw[10..18] == ToLe(p.timestamp, 8) && raw[18..26] == ToLe(p.deadline, 8)
  {
    var route := Preamble(p.kind) + ToLe(p.route, 2);
    var sequence := route + ToLe(p.sequence, 4);
    var timestamp := sequence + ToLe(p.timestamp, 8);
    Slice(raw, timestamp, ToLe(p.deadline, 8));
    Slice(raw, sequence, ToLe(p.timestamp, 8));
    Slice(raw, route, ToLe(p.sequence, 4));
    Slice(raw, Preamble(p.kind), ToLe(p.route, 2));
    Slice(raw, ToLe(MAGIC, 2), [PROTOCOL_VERSION, p.kind]);
    assert raw[2..4][0] == PROTOCOL_VERSION && raw[2..4][1] == p.kind;
  }

  /** The numbers in the header read back, each within its width. */
  lemma HeaderValues(p: Packet, raw: seq<Byte>)
    requires p.Typed() && |p.payload| <= U16_MAX
    requires |raw| >= HEADER_SIZE && raw[..HEADER_SIZE] == Header(p)
    ensures FromLe(raw[0..2]) == MAGIC && raw[2] == PROTOCOL_VERSION && raw[3] == p.kind
    ensures FromLe(raw[4..6]) == p.route && FromLe(raw[6..10]) == p.sequence
    ensures FromLe(raw[10..18]) == p.timestamp && FromLe(raw[18..26]) == p.deadline
    ensures raw[26..42] == p.schemaHash && FromLe(raw[42..44]) == |p.payload|
  {
    HeaderFields(p, raw);
    AddressingFields(p, raw);
    Widths();
    LeRoundTrip(MAGIC, 2);
    LeRoundTrip(p.route, 2);
    LeRoundTrip(p.sequence, 4);
    LeRoundTrip(p.timestamp, 8);
    LeRoundTrip(p.deadline, 8);
    LeRoundTrip(|p.payload|, 2);
  }

  lemma ParseRaw(p: Packet, maxPayload: nat)
    requires p.Typed() && p.Sendable(maxPayload) && |p.payload| <= U16_MAX
    ensures Parse(Raw(p), maxPayload) == Accepted(p)
  {
    var raw, body := Raw(p), Body(p);
    assert raw[..HEADER_SIZE] == Header(p);
    HeaderValues(p, raw);
    assert raw[..|raw| - 4] == body && raw[|raw| - 4..] == ChecksumBytes(body);
    ChecksumReads(body);
    assert raw[44..44 + |p.payload|] == p.payload;
  }

  lemma ChecksumReads(body: seq<Byte>)
    ensures FromLe(ChecksumBytes(body)) == Crc32c.Checksum(body) as int
  {
    Widths();
    LeRoundTrip(Crc32c.Checksum(body) as int, 4);
  }

  /** A packet survives the trip exactly when its length fits the 16-bit length field. */
  lemma PacketRoundTrip(p: Packet, maxPayload: nat)
    requires p.Typed() && p.Sendable(maxPayload)
    ensures Decoding(Encoding(p), maxPayload) == Accepted(p) <==> |p.payload| <= U16_MAX
  {
    var raw, encoded := Raw(p), Encoding(p);
    Cobs.RoundTrip(raw, RawCapacity(maxPayload));
    Cobs.EncodedLength(raw);
    assert encoded[..|encoded| - 1] == Cobs.Encoding(raw);
    if |p.payload| <= U16_MAX {
      ParseRaw(p, maxPayload);
    } else {
      assert raw[..HEADER_SIZE] == Header(p);
      Slice(raw, Addressing(p) + p.schemaHash, ToLe(|p.payload|, 2));
      Widths();
      LeBounded(raw[42..44]);
    }
  }

  /** The encoding fits the transport's buffers, terminator included. */
  lemma EncodingFits(p: Packet, maxPayload: nat)
    requires p.Typed() && |p.payload| <= maxPayload
    ensures |Encoding(p)| <= EncodedCapacity(maxPayload)
  {
    Cobs.EncodedLength(Raw(p));
  }

  function Residue(raw: seq<Byte>): bv32 {
    Crc32c.Register(0xffff_ffff, Crc32c.Words(raw))
  }

  /** Whatever passes the checksum test leaves the checksum's residue. */
  lemma CheckedResidue(raw: seq<Byte>, body: seq<Byte>, check: seq<Byte>)
    requires |check| == 4 && raw == body + check && Matches(body, check)
    ensures Residue(raw) == Crc32c.Residue()
  {
    Crc32c.ResidueExactly(body, check);
  }

  /** What passes the checks was checked. */
  lemma AcceptedIsChecked(raw: seq<Byte>, maxPayload: nat) returns (body: seq<Byte>, check: seq<Byte>)
    requires Parse(raw, maxPayload).Accepted?
    ensures raw == body + check && |check| == 4 && Matches(body, check)
  {
    body, check := raw[..|raw| - 4], raw[|raw| - 4..];
  }

  /** The last four bytes are the checksum of the others. */
  predicate Matches(body: seq<Byte>, check: seq<Byte>) {
    Crc32c.Checksum(body) as int == FromLe(check)
  }

  lemma ResidueDecides(raw: seq<Byte>, maxPayload: nat)
    ensures Residue(raw) != Crc32c.Residue() ==> Parse(raw, maxPayload).Rejected?
  {
    if Parse(raw, maxPayload).Accepted? {
      var body, check := AcceptedIsChecked(raw, maxPayload);
      CheckedResidue(raw, body, check);
    }
  }

  lemma RawResidue(p: Packet)
    requires |p.schemaHash| == 16 && p.kind <= 255
    ensures Residue(Raw(p)) == Crc32c.Residue()
  {
    ChecksumReads(Body(p));
    CheckedResidue(Raw(p), Body(p), ChecksumBytes(Body(p)));
  }

  /**
   A packet that was altered, but only within 32 consecutive bits, is never accepted: not in the
   body, not in the checksum, and not across their border.
   */
  lemma CorruptionRejected(p: Packet, altered: seq<Byte>, at: nat, maxPayload: nat)
    requires |p.schemaHash| == 16 && p.kind <= 255
    requires |altered| == |Raw(p)| && altered != Raw(p) && Crc32c.DifferWithin(altered, Raw(p), at)
    ensures Parse(altered, maxPayload).Rejected?
  {
    RawResidue(p);
    Crc32c.BurstMovesRegister(altered, Raw(p), at);
    ResidueDecides(altered, maxPayload);
  }
}

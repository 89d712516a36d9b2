/**
 The frames and headers AsterCtrl puts on CAN and USB, byte by byte: where each field is and which
 digit of it a byte holds. Each layout is met by what the encoders of the model make, and by nothing else.
 */
module Layouts {
  import opened Bytes
  import opened LittleEndian
  import opened CanProtocol
  import opened Fragments
  import opened RpcPayload
  import opened ControlPlane
  import Reliable = ReliablePath
  import Fast = FastPath
  import Framing
  import Crc32c

  /** The bytes `at` up to `at + width` are the digits of the value, lowest first. */
  ghost predicate FieldAt(bytes: seq<Byte>, at: nat, width: nat, value: nat) {
    at + width <= |bytes| && IsFixed(bytes[at..at + width], width, value)
  }

  /** The bytes from `at` on begin with these. */
  predicate BytesAt(bytes: seq<Byte>, at: nat, part: seq<Byte>) {
    at + |part| <= |bytes| && bytes[at..at + |part|] == part
  }

  /* ------------------------------------------------------------------------- CAN */

  /** Eleven bits: two of priority above nine of route. */
  lemma IdLayout(priority: nat, route: nat, id: nat)
    ensures EncodeId(priority, route) == Some(id) <==>
            1 <= route <= 511 && priority <= 3 && id / 512 == priority && id % 512 == route
  {
  }

  /** Six bytes of the payload from a multiple of six on, or what is left of it. */
  predicate IsPiece(bytes: seq<Byte>, payload: seq<Byte>, index: nat) {
    && 6 * index < |payload|
    && |bytes| == (if |payload| - 6 * index < 6 then |payload| - 6 * index else 6)
    && forall j :: 0 <= j < |bytes| ==> bytes[j] == payload[6 * index + j]
  }

  /** A header byte, a byte with the number of fragments less one above the index, and the fragment. */
  predicate IsFragmentFrame(frame: CanFrame, id: nat, header: nat, payload: seq<Byte>, index: nat) {
    && frame.id == id && |frame.data| >= 2 && frame.data[0] == header
    && frame.data[1] % 16 == index && 6 * (frame.data[1] / 16) < |payload| <= 6 * (frame.data[1] / 16 + 1)
    && IsPiece(frame.data[2..], payload, index)
  }

  lemma PieceLayout(bytes: seq<Byte>, payload: seq<Byte>, index: nat)
    requires index < Count(payload)
    ensures IsPiece(bytes, payload, index) <==> bytes == Piece(payload, index)
  {
    var piece := Piece(payload, index);
    assert |piece| == if |payload| - 6 * index < 6 then |payload| - 6 * index else 6;
    forall j | 0 <= j < |piece| ensures piece[j] == payload[6 * index + j] {}
  }

  lemma FragmentLayout(frame: CanFrame, id: nat, header: Byte, payload: seq<Byte>, index: nat)
    requires index < Count(payload) <= MAXIMUM_FRAGMENTS
    ensures IsFragmentFrame(frame, id, header, payload, index) <==>
            frame == CanFrame(id, [header, (Count(payload) - 1) * 16 + index] + Piece(payload, index))
  {
    var made := CanFrame(id, [header, (Count(payload) - 1) * 16 + index] + Piece(payload, index));
    assert made.data[2..] == Piece(payload, index);
    if |frame.data| >= 2 {
      PieceLayout(frame.data[2..], payload, index);
      assert frame.data == [frame.data[0], frame.data[1]] + frame.data[2..];
      CountDigit(frame.data[1], payload, index);
    }
  }

  lemma CountDigit(byte: Byte, payload: seq<Byte>, index: nat)
    requires index < Count(payload) <= MAXIMUM_FRAGMENTS
    ensures byte % 16 == index && 6 * (byte / 16) < |payload| <= 6 * (byte / 16 + 1) <==>
            byte == (Count(payload) - 1) * 16 + index
  {
  }

  /** Reliable fragments have header 1000ssss, acknowledgements are the one byte 1001ssss. */
  lemma ReliableLayout(frame: CanFrame, id: nat, sequence: nat, payload: seq<Byte>, index: nat)
    requires sequence < 16 && index < Count(payload) <= MAXIMUM_FRAGMENTS
    ensures frame == Reliable.DataFrame(id, sequence, payload, index) <==>
            IsFragmentFrame(frame, id, 0x80 + sequence, payload, index)
    ensures Reliable.AckFrame(id, sequence) == CanFrame(id, [0x90 + sequence])
  {
    FragmentLayout(frame, id, 0x80 + sequence, payload, index);
  }

  /** Fast messages of up to seven bytes follow the byte 00ssssss, longer ones come in fragments under 01ssssss. */
  lemma FastLayout(frame: CanFrame, id: nat, sequence: nat, payload: seq<Byte>, index: nat)
    requires sequence < 64 && payload != [] && index < Fast.FrameCount(payload) <= MAXIMUM_FRAGMENTS
    ensures frame == Fast.FrameAt(id, sequence, payload, index) <==>
            if |payload| <= 7 then frame == CanFrame(id, [sequence] + payload)
            else IsFragmentFrame(frame, id, 0x40 + sequence, payload, index)
  {
    if |payload| > 7 { FragmentLayout(frame, id, 0x40 + sequence, payload, index); }
  }

  /** Critical priority, route 2: kind, node, number, flags and four bytes of uptime. */
  lemma HeartbeatLayout(frame: CanFrame, h: Heartbeat)
    requires h.Typed()
    ensures frame == EncodeHeartbeat(h) <==>
            && frame.id == 2 && |frame.data| == 8 && frame.data[..4] == [0xc0, h.node, h.sequence, h.flags]
            && FieldAt(frame.data, 4, 4, h.uptime)
  {
    if |frame.data| == 8 {
      FixedExactly(frame.data[4..8], 4, h.uptime);
      assert frame.data == frame.data[..4] + frame.data[4..8];
    }
    assert EncodeHeartbeat(h).data[..4] == [0xc0, h.node, h.sequence, h.flags];
    assert EncodeHeartbeat(h).data[4..8] == ToLe(h.uptime, 4);
  }

  /** Critical priority, route 3: kind, number and six bytes of microseconds. */
  lemma TimeSyncLayout(frame: CanFrame, sync: TimeSync)
    requires sync.sequence <= 255
    ensures frame == EncodeTimeSync(sync) <==>
            && frame.id == 3 && |frame.data| == 8 && frame.data[..2] == [0xc1, sync.sequence]
            && FieldAt(frame.data, 2, 6, sync.master)
  {
    if |frame.data| == 8 {
      FixedExactly(frame.data[2..8], 6, sync.master);
      assert frame.data == frame.data[..2] + frame.data[2..8];
    }
    assert EncodeTimeSync(sync).data[..2] == [0xc1, sync.sequence];
    assert EncodeTimeSync(sync).data[2..8] == ToLe(sync.master, 6);
  }

  lemma HandshakeLayout(payload: seq<Byte>, h: Handshake)
    requires h.Typed()
    ensures payload == EncodeHandshake(h) <==>
            && |payload| == 34 && payload[0] == h.version && payload[1] == h.node
            && BytesAt(payload, 2, h.deployment) && BytesAt(payload, 18, h.schema)
  {
    var made := EncodeHandshake(h);
    assert made[2..18] == h.deployment && made[18..34] == h.schema;
    if |payload| == 34 { assert payload == [payload[0], payload[1]] + payload[2..18] + payload[18..34]; }
  }

  /** Exactly these are read as heartbeats, of a node other than 0. */
  lemma HeartbeatExactly(frame: CanFrame, h: Heartbeat)
    ensures DecodeHeartbeat(frame) == Some(h) <==> h.Typed() && h.node != 0 && frame == EncodeHeartbeat(h)
  {
    if DecodeHeartbeat(frame) == Some(h) {
      LeDigits(frame.data[4..]);
      AfterFour(frame.data);
      CriticalRoute(frame.id, HEARTBEAT_ROUTE);
    }
    if h.Typed() && h.node != 0 { HeartbeatReadsBack(h); }
  }

  lemma AfterFour(data: seq<Byte>)
    requires |data| >= 4
    ensures data == [data[0], data[1], data[2], data[3]] + data[4..]
  {
  }

  lemma CriticalRoute(id: nat, route: nat)
    requires DecodeId(id) == Some(ArbitrationId(CRITICAL, route))
    ensures EncodeId(CRITICAL, route) == Some(id)
  {
  }

  lemma TimeSyncExactly(frame: CanFrame, sync: TimeSync)
    ensures DecodeTimeSync(frame) == Some(sync) <==>
            sync.sequence <= 255 && sync.master <= 0xffff_ffff_ffff && frame == EncodeTimeSync(sync)
  {
    if DecodeTimeSync(frame) == Some(sync) {
      LeDigits(frame.data[2..]);
      LeBounded(frame.data[2..]);
      Widths();
      assert Power256(6) == 65536 * Power256(4);
      assert frame.data == [frame.data[0], frame.data[1]] + frame.data[2..];
    }
    if sync.sequence <= 255 && sync.master <= 0xffff_ffff_ffff { TimeSyncReadsBack(sync); }
  }

  lemma HandshakeExactly(payload: seq<Byte>, h: Handshake)
    ensures DecodeHandshake(payload) == Some(h) <==>
            h.Typed() && h.version != 0 && h.node != 0 && payload == EncodeHandshake(h)
  {
    if DecodeHandshake(payload) == Some(h) {
      assert payload == [payload[0], payload[1]] + payload[2..18] + payload[18..34];
    }
    if h.Typed() && h.version != 0 && h.node != 0 { HandshakeReadsBack(h); }
  }

  /* --------------------------------------------------------------- remote calls on CAN */

  /** Four bytes of id, eight of deadline, then the body. */
  lemma RequestLayout(bytes: seq<Byte>, r: Request)
    ensures bytes == RequestBytes(r) <==>
            FieldAt(bytes, 0, 4, r.id) && FieldAt(bytes, 4, 8, r.deadline) && bytes[12..] == r.body
  {
    InThree(ToLe(r.id, 4), ToLe(r.deadline, 8), r.body);
    if |bytes| >= 12 {
      FixedExactly(bytes[0..4], 4, r.id);
      FixedExactly(bytes[4..12], 8, r.deadline);
      OfThree(bytes, 4, 12);
    }
  }

  lemma InThree(a: seq<Byte>, b: seq<Byte>, c: seq<Byte>)
    ensures var all := a + b + c; all[0..|a|] == a && all[|a|..|a| + |b|] == b && all[|a| + |b|..] == c
  {
  }

  lemma OfThree(all: seq<Byte>, i: nat, j: nat)
    requires i <= j <= |all|
    ensures all == all[0..i] + all[i..j] + all[j..]
  {
  }

  /** Anything of at least twelve bytes is read as the one request it is the bytes of. */
  lemma RequestExactly(payload: seq<Byte>, r: Request)
    ensures ParseRequest(payload) == Some(r) <==> r.Typed() && payload == RequestBytes(r)
  {
    if ParseRequest(payload) == Some(r) {
      Widths();
      LeDigits(payload[..4]);
      LeBounded(payload[..4]);
      LeDigits(payload[4..12]);
      LeBounded(payload[4..12]);
      OfThree(payload, 4, 12);
      assert payload[0..4] == payload[..4];
    }
    if r.Typed() { RequestReadsBack(r); }
  }

  /** The status, four bytes of id, then the body. */
  lemma ResponseLayout(bytes: seq<Byte>, r: Response)
    ensures bytes == ResponseBytes(r) <==>
            |bytes| >= 5 && bytes[0] == StatusCode(r.status) && FieldAt(bytes, 1, 4, r.id) && bytes[5..] == r.body
  {
    var made := ResponseBytes(r);
    assert made[1..5] == ToLe(r.id, 4) && made[5..] == r.body;
    if |bytes| >= 5 {
      FixedExactly(bytes[1..5], 4, r.id);
      assert bytes == [bytes[0]] + bytes[1..5] + bytes[5..];
    }
  }

  /* ------------------------------------------------------------------------ USB */

  ghost predicate IsPacket(raw: seq<Byte>, p: Framing.Packet) {
    var n := |p.payload|;
    && |raw| == 48 + n
    && raw[0] == 0x7e && raw[1] == 0xa5 && raw[2] == 1 && raw[3] == p.kind
    && FieldAt(raw, 4, 2, p.route) && FieldAt(raw, 6, 4, p.sequence)
    && FieldAt(raw, 10, 8, p.timestamp) && FieldAt(raw, 18, 8, p.deadline)
    && BytesAt(raw, 26, p.schemaHash) && FieldAt(raw, 42, 2, n)
    && BytesAt(raw, 44, p.payload) && FieldAt(raw, 44 + n, 4, Crc32c.Checksum(raw[..44 + n]) as int)
  }

  lemma PacketFields(p: Framing.Packet, raw: seq<Byte>)
    requires |p.schemaHash| == 16 && p.kind <= 255 && raw == Framing.Raw(p)
    ensures raw[..26] == Framing.Addressing(p) && raw[..44] == Framing.Header(p) && |raw| == 48 + |p.payload|
    ensures raw[44..44 + |p.payload|] == p.payload && raw[..44 + |p.payload|] == Framing.Body(p)
    ensures raw[44 + |p.payload|..44 + |p.payload| + 4] == Framing.ChecksumBytes(Framing.Body(p))
  {
    assert raw[..44] == Framing.Header(p);
    Framing.HeaderFields(p, raw);
  }

  lemma MagicDigits(bytes: seq<Byte>)
    ensures bytes == ToLe(0xa57e, 2) <==> |bytes| == 2 && bytes[0] == 0x7e && bytes[1] == 0xa5
  {
    assert ToLe(0xa57e, 2) == [0x7e, 0xa5];
  }

  lemma IsAPacket(p: Framing.Packet)
    requires |p.schemaHash| == 16 && p.kind <= 255
    ensures IsPacket(Framing.Raw(p), p)
  {
    var raw, n := Framing.Raw(p), |p.payload|;
    PacketFields(p, raw);
    Framing.HeaderFields(p, raw);
    Framing.AddressingFields(p, raw);
    MagicDigits(raw[0..2]);
    FixedExactly(raw[4..6], 2, p.route);
    FixedExactly(raw[6..10], 4, p.sequence);
    FixedExactly(raw[10..18], 8, p.timestamp);
    FixedExactly(raw[18..26], 8, p.deadline);
    FixedExactly(raw[42..44], 2, n);
    FixedExactly(raw[44 + n..48 + n], 4, Crc32c.Checksum(raw[..44 + n]) as int);
  }

  lemma SameField(a: seq<Byte>, b: seq<Byte>, at: nat, width: nat, value: nat)
    requires FieldAt(a, at, width, value) && FieldAt(b, at, width, value) && a[..at] == b[..at]
    ensures a[..at + width] == b[..at + width]
  {
    FixedExactly(a[at..at + width], width, value);
    FixedExactly(b[at..at + width], width, value);
    assert a[..at + width] == a[..at] + a[at..at + width] && b[..at + width] == b[..at] + b[at..at + width];
  }

  lemma SameBytes(a: seq<Byte>, b: seq<Byte>, at: nat, part: seq<Byte>)
    requires BytesAt(a, at, part) && BytesAt(b, at, part) && a[..at] == b[..at]
    ensures a[..at + |part|] == b[..at + |part|]
  {
    var end := at + |part|;
    assert a[..end] == a[..at] + a[at..end] && b[..end] == b[..at] + b[at..end];
  }

  lemma OnePacket(a: seq<Byte>, b: seq<Byte>, p: Framing.Packet)
    requires |p.schemaHash| == 16 && IsPacket(a, p) && IsPacket(b, p)
    ensures a == b
  {
    var n := |p.payload|;
    OneAddressing(a, b, p);
    SameBytes(a, b, 26, p.schemaHash);
    SameField(a, b, 42, 2, n);
    SameBytes(a, b, 44, p.payload);
    SameField(a, b, 44 + n, 4, Crc32c.Checksum(a[..44 + n]) as int);
    assert a == a[..48 + n] && b == b[..48 + n];
  }

  lemma OneAddressing(a: seq<Byte>, b: seq<Byte>, p: Framing.Packet)
    requires IsPacket(a, p) && IsPacket(b, p)
    ensures a[..26] == b[..26]
  {
    OneRouting(a, b, p);
    SameField(a, b, 10, 8, p.timestamp);
    SameField(a, b, 18, 8, p.deadline);
  }

  lemma FourBytes(a: seq<Byte>, b: seq<Byte>)
    requires |a| >= 4 && |b| >= 4 && a[0] == b[0] && a[1] == b[1] && a[2] == b[2] && a[3] == b[3]
    ensures a[..4] == b[..4]
  {
  }

  lemma OneRouting(a: seq<Byte>, b: seq<Byte>, p: Framing.Packet)
    requires IsPacket(a, p) && IsPacket(b, p)
    ensures a[..10] == b[..10]
  {
    FourBytes(a, b);
    SameField(a, b, 4, 2, p.route);
    SameField(a, b, 6, 4, p.sequence);
  }

  /** The USB packet before it is stuffed: every field at its offset, and the checksum of all before it. */
  lemma PacketLayout(raw: seq<Byte>, p: Framing.Packet)
    requires |p.schemaHash| == 16 && p.kind <= 255
    ensures raw == Framing.Raw(p) <==> IsPacket(raw, p)
  {
    IsAPacket(p);
    if IsPacket(raw, p) { OnePacket(raw, Framing.Raw(p), p); }
  }

  lemma ReadsField(raw: seq<Byte>, at: nat, width: nat)
    requires at + width <= |raw|
    ensures FieldAt(raw, at, width, FromLe(raw[at..at + width])) && FromLe(raw[at..at + width]) < Power256(width)
  {
    var bytes := raw[at..at + width];
    LeDigits(bytes);
    LeBounded(bytes);
    FixedExactly(bytes, width, FromLe(bytes));
  }

  lemma AcceptedIsPacket(raw: seq<Byte>, p: Framing.Packet, maxPayload: nat)
    requires Framing.Parse(raw, maxPayload) == Framing.Accepted(p)
    ensures p.Typed() && p.Sendable(maxPayload) && |p.payload| <= U16_MAX && IsPacket(raw, p)
  {
    var n := |p.payload|;
    Widths();
    ReadsField(raw, 0, 2);
    FixedExactly(raw[0..2], 2, 0xa57e);
    MagicDigits(raw[0..2]);
    ReadsField(raw, 4, 2);
    ReadsField(raw, 6, 4);
    ReadsField(raw, 10, 8);
    ReadsField(raw, 18, 8);
    ReadsField(raw, 42, 2);
    ReadsField(raw, 44 + n, 4);
    assert raw[..|raw| - 4] == raw[..44 + n] && raw[|raw| - 4..] == raw[44 + n..48 + n];
  }

  /** A packet is accepted exactly if it is laid out so, with a legal kind and route and a payload that fits. */
  lemma AcceptedExactly(raw: seq<Byte>, p: Framing.Packet, maxPayload: nat)
    ensures Framing.Parse(raw, maxPayload) == Framing.Accepted(p) <==>
            p.Typed() && p.Sendable(maxPayload) && |p.payload| <= U16_MAX && IsPacket(raw, p)
  {
    if Framing.Parse(raw, maxPayload) == Framing.Accepted(p) { AcceptedIsPacket(raw, p, maxPayload); }
    if p.Typed() && p.Sendable(maxPayload) && |p.payload| <= U16_MAX && IsPacket(raw, p) {
      PacketLayout(raw, p);
      Framing.ParseRaw(p, maxPayload);
    }
  }
}

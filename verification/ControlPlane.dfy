/** Control frames of the CAN link, the compatibility check and the heartbeat monitor. */
module ControlPlane {
  import opened Bytes
  import opened LittleEndian
  import opened CanProtocol

  const HANDSHAKE_ROUTE := 1
  const HEARTBEAT_ROUTE := 2
  const TIME_SYNC_ROUTE := 3
  const CRITICAL := 0
  const HANDSHAKE_SIZE := 34

  datatype Compatibility = Compatible | ProtocolMismatch | DeploymentMismatch | SchemaMismatch

  datatype Handshake = Handshake(version: nat, node: nat, deployment: seq<Byte>, schema: seq<Byte>)
  {
    predicate Typed() {
      version <= 255 && node <= 255 && |deployment| == 16 && |schema| == 16
    }
  }

  function EncodeHandshake(h: Handshake): (payload: seq<Byte>)
    requires h.Typed()
    ensures |payload| == HANDSHAKE_SIZE
  {
    [h.version, h.node] + h.deployment + h.schema
  }

  function DecodeHandshake(payload: seq<Byte>): (h: Option<Handshake>)
    ensures h.Some? ==> h.value.Typed()
  {
    if |payload| != HANDSHAKE_SIZE || payload[0] == 0 || payload[1] == 0 then None
    else Some(Handshake(payload[0], payload[1], payload[2..18], payload[18..34]))
  }

  lemma HandshakeReadsBack(h: Handshake)
    requires h.Typed() && h.version != 0 && h.node != 0
    ensures DecodeHandshake(EncodeHandshake(h)) == Some(h)
  {
    var payload := EncodeHandshake(h);
    assert payload[2..18] == h.deployment && payload[18..34] == h.schema;
  }

  function Check(local: Handshake, remote: Handshake): (c: Compatibility)
    ensures c == Compatible <==> remote == local.(node := remote.node)
  {
    if local.version != remote.version then ProtocolMismatch
    else if local.deployment != remote.deployment then DeploymentMismatch
    else if local.schema != remote.schema then SchemaMismatch
    else Compatible
  }

  /* --------------------------------------------------------------- heartbeats */

  datatype Heartbeat = Heartbeat(node: nat, sequence: nat, flags: nat, uptime: nat)
  {
    predicate Typed() {
      node <= 255 && sequence <= 255 && flags <= 255 && uptime <= U32_MAX
    }
  }

  function EncodeHeartbeat(h: Heartbeat): CanFrame
    requires h.Typed()
  {
    CanFrame(EncodeId(CRITICAL, HEARTBEAT_ROUTE).value, [0xc0, h.node, h.sequence, h.flags] + ToLe(h.uptime, 4))
  }

  function DecodeHeartbeat(frame: CanFrame): (h: Option<Heartbeat>)
    ensures h.Some? ==> h.value.Typed()
  {
    var id := DecodeId(frame.id);
    if id.None? || id.value.priority != CRITICAL || id.value.route != HEARTBEAT_ROUTE ||
       |frame.data| != 8 || frame.data[0] != 0xc0 || frame.data[1] == 0 then None
    else
      LeBounded(frame.data[4..]);
      Widths();
      Some(Heartbeat(frame.data[1], frame.data[2], frame.data[3], FromLe(frame.data[4..])))
  }

  lemma HeartbeatReadsBack(h: Heartbeat)
    requires h.Typed() && h.node != 0
    ensures DecodeHeartbeat(EncodeHeartbeat(h)) == Some(h)
  {
    IdRoundTrip(CRITICAL, HEARTBEAT_ROUTE);
    Widths();
    LeRoundTrip(h.uptime, 4);
    assert EncodeHeartbeat(h).data[4..] == ToLe(h.uptime, 4);
  }

  /* --------------------------------------------------------------- time sync */

  datatype TimeSync = TimeSync(sequence: nat, master: nat)

  function DecodeTimeSync(frame: CanFrame): Option<TimeSync> {
    var id := DecodeId(frame.id);
    if id.None? || id.value.priority != CRITICAL || id.value.route != TIME_SYNC_ROUTE ||
       |frame.data| != 8 || frame.data[0] != 0xc1 then None
    else Some(TimeSync(frame.data[1], FromLe(frame.data[2..])))
  }

  function EncodeTimeSync(sync: TimeSync): CanFrame
    requires sync.sequence <= 255
  {
    CanFrame(EncodeId(CRITICAL, TIME_SYNC_ROUTE).value, [0xc1, sync.sequence] + ToLe(sync.master, 6))
  }

  lemma TimeSyncReadsBack(sync: TimeSync)
    requires sync.sequence <= 255 && sync.master <= 0xffff_ffff_ffff
    ensures DecodeTimeSync(EncodeTimeSync(sync)) == Some(sync)
  {
    IdRoundTrip(CRITICAL, TIME_SYNC_ROUTE);
    Widths();
    assert Power256(6) == 65536 * Power256(4);
    LeRoundTrip(sync.master, 6);
    assert EncodeTimeSync(sync).data[2..] == ToLe(sync.master, 6);
  }

  /* ---------------------------------------------------------- the monitor */

  datatype LinkState = Lost | Recovering | Online

  /** Unsigned 64-bit subtraction, which wraps when the later time is the smaller. */
  function Elapsed(from: U64, to: U64): U64 {
    if to >= from then to - from else to - from + U64_MAX + 1
  }

  /** The next eight-bit sequence number. */
  function Successor(sequence: nat): nat {
    if sequence >= 255 then 0 else sequence + 1
  }

  datatype Monitor = Monitor(
    timeout: nat, recovery: nat, time: U64, samples: nat, sequence: nat, observed: bool, state: LinkState)
  {
    function Observe(sequence': nat, now: U64): Monitor {
      var count :=
        if !observed || state == Lost || sequence' != Successor(sequence) then 1
        else if samples < recovery then samples + 1
        else samples;
      this.(observed := true, sequence := sequence', time := now, samples := count,
            state := if count >= recovery then Online else Recovering)
    }

    function Poll(now: U64): Monitor {
      if !observed || Elapsed(time, now) >= timeout then this.(state := Lost, samples := 0) else this
    }
  }

  function NewMonitor(timeout: nat, recovery: nat): Monitor {
    Monitor(timeout, recovery, 0, 0, 0, false, Lost)
  }

  /* ------------------------------------------------------- restart detection */

  datatype Arrival = Next | Restart | Stale | Duplicate

  /** What a heartbeat is, after one with the given sequence and uptime. */
  function Classify(sequence: nat, uptime: nat, h: Heartbeat): Arrival {
    var ahead := (h.sequence - sequence) % 256;
    var later := (h.uptime - uptime) % (U32_MAX + 1);
    var backward := later > U32_MAX / 2;
    if backward && (ahead <= 127 || h.sequence <= 1) then Restart
    else if backward then Stale
    else if later == 0 && ahead == 0 then Duplicate
    else if later == 0 && ahead > 127 then Stale
    else Next
  }

  /**
   A peer that kept running, heard again before its uptime has run half round, is never taken for
   a restarted one, however many heartbeats were lost; once its uptime has moved it is accepted.
   */
  lemma RunningPeerIsNext(sequence: nat, uptime: nat, h: Heartbeat, beats: nat, elapsed: nat)
    requires sequence <= 255 && uptime <= U32_MAX && elapsed <= U32_MAX / 2
    requires h.sequence == (sequence + beats) % 256 && h.uptime == (uptime + elapsed) % (U32_MAX + 1)
    ensures Classify(sequence, uptime, h) != Restart
    ensures elapsed >= 1 ==> Classify(sequence, uptime, h) == Next
    ensures elapsed == 0 && 1 <= beats <= 127 ==> Classify(sequence, uptime, h) == Next
  {
  }

  /** The heartbeat is at most 127 after the last one heard, or one of the first two after a start. */
  predicate Telling(sequence: nat, h: Heartbeat) {
    (h.sequence - sequence) % 256 <= 127 || h.sequence <= 1
  }

  /** The milliseconds passed bring a 32-bit uptime to its other half. */
  predicate HalfRound(elapsed: nat) {
    elapsed % (U32_MAX + 1) >= 0x8000_0000
  }

  /**
   A peer that kept running is taken for a restarted one exactly if its uptime has run half round
   since it was heard and the heartbeat is telling; if it is not telling it is taken for an old one.
   */
  lemma LongSilence(sequence: nat, uptime: nat, h: Heartbeat, beats: nat, elapsed: nat)
    requires sequence <= 255 && uptime <= U32_MAX
    requires h.sequence == (sequence + beats) % 256 && h.uptime == (uptime + elapsed) % (U32_MAX + 1)
    ensures Telling(sequence, h) <==> beats % 256 <= 127 || (sequence + beats) % 256 <= 1
    ensures Classify(sequence, uptime, h) == Restart <==> HalfRound(elapsed) && Telling(sequence, h)
    ensures HalfRound(elapsed) && !Telling(sequence, h) ==> Classify(sequence, uptime, h) == Stale
  {
    assert (h.uptime - uptime) % (U32_MAX + 1) == elapsed % (U32_MAX + 1);
    assert (h.sequence - sequence) % 256 == beats % 256;
  }

  /**
   A peer that starts again reports an earlier uptime. One of its heartbeats gives it away exactly
   if the uptime fell by at most 2^31 ms and the heartbeat is at most 127 after the last one
   heard, eight bits wide, or one of the first two; otherwise that heartbeat is taken for an old
   one, or, after a longer life, for one of the same peer.
   */
  lemma RestartNoticed(sequence: nat, uptime: nat, h: Heartbeat)
    requires h.uptime < uptime <= U32_MAX
    ensures Classify(sequence, uptime, h) == Restart <==> uptime - h.uptime <= 0x8000_0000 && Telling(sequence, h)
    ensures Classify(sequence, uptime, h) == Stale <== uptime - h.uptime <= 0x8000_0000 && !Telling(sequence, h)
  {
    assert (h.uptime - uptime) % (U32_MAX + 1) == h.uptime - uptime + U32_MAX + 1;
  }

  /** Whether one of the heartbeats is found to be of a restarted peer; an old one changes nothing. */
  predicate Notices(sequence: nat, uptime: nat, heard: seq<Heartbeat>)
    decreases |heard|
  {
    heard != [] &&
    match Classify(sequence, uptime, heard[0])
    case Restart => true
    case Next => Notices(heard[0].sequence, heard[0].uptime, heard[1..])
    case _ => Notices(sequence, uptime, heard[1..])
  }

  /**
   Which of the heartbeats after a restart reach us does not matter: while their uptimes are below
   the last one heard, by at most 2^31 ms, the restart is noticed exactly if one of those that
   reach us is telling.
   */
  lemma {:induction false} RestartNoticedInRun(sequence: nat, uptime: nat, heard: seq<Heartbeat>)
    requires uptime <= U32_MAX
    requires forall i :: 0 <= i < |heard| ==> heard[i].uptime < uptime && uptime - heard[i].uptime <= 0x8000_0000
    ensures Notices(sequence, uptime, heard) <==> exists i :: 0 <= i < |heard| && Telling(sequence, heard[i])
  {
    if heard != [] {
      RestartNoticed(sequence, uptime, heard[0]);
      RestartNoticedInRun(sequence, uptime, heard[1..]);
      if i :| 0 <= i < |heard| && Telling(sequence, heard[i]) && i > 0 {
        assert Telling(sequence, heard[1..][i - 1]);
      }
    }
  }

  /**
   A restarted peer counts its heartbeats from zero. The first of them that reaches us with a
   number from the last one heard to 127 beyond it gives it away, if its uptime is still below.
   */
  lemma NoticedOnceReached(sequence: nat, uptime: nat, heard: seq<Heartbeat>, numbers: seq<nat>, k: nat)
    requires sequence <= 255 && uptime <= U32_MAX && |numbers| == |heard| && k < |heard|
    requires forall i :: 0 <= i < |heard| ==>
               && heard[i].sequence == numbers[i] % 256
               && heard[i].uptime < uptime && uptime - heard[i].uptime <= 0x8000_0000
    requires sequence <= numbers[k] <= sequence + 127
    ensures Notices(sequence, uptime, heard[..k + 1])
  {
    assert (numbers[k] % 256 - sequence) % 256 == (numbers[k] - sequence) % 256;
    assert Telling(sequence, heard[..k + 1][k]);
    RestartNoticedInRun(sequence, uptime, heard[..k + 1]);
  }
}

/** The link control plane object: what it keeps, and that it lets frames through only at an open gate. */
module LinkControlEnds {
  import opened Bytes
  import opened CanProtocol
  import opened ControlPlane
  import opened FrameWriting
  import opened LinkBeacon
  import opened LinkControl

  /** The sequence and uptime of the peer's last accepted heartbeat. */
  datatype Pulse = Pulse(sequence: nat, uptime: nat)

  /** What a heartbeat frame adds to the list of events. */
  function HeartbeatEvents(c: Config, last: Option<Pulse>, frame: CanFrame, time: U64): seq<Event> {
    match DecodeHeartbeat(frame)
    case None => []
    case Some(h) =>
      if h.node != c.peer then [] else ArrivalEvents(ArrivalOf(last, h), h.sequence, time)
  }

  function ArrivalOf(last: Option<Pulse>, h: Heartbeat): Arrival {
    if last.None? then Next else Classify(last.value.sequence, last.value.uptime, h)
  }

  /** The heartbeat the next one will be compared with. */
  function PulseAfter(c: Config, last: Option<Pulse>, frame: CanFrame): Option<Pulse> {
    match DecodeHeartbeat(frame)
    case None => last
    case Some(h) => if h.node != c.peer then last else PulseOf(ArrivalOf(last, h), last, h)
  }

  function PulseOf(arrival: Arrival, last: Option<Pulse>, h: Heartbeat): Option<Pulse> {
    if arrival == Next || arrival == Restart then Some(Pulse(h.sequence, h.uptime)) else last
  }

  function ArrivalEvents(arrival: Arrival, sequence: nat, time: U64): seq<Event> {
    match arrival
    case Restart => [Restarted, Beat(sequence, time)]
    case Next => [Beat(sequence, time)]
    case _ => []
  }

  /**
   What the reliable path makes of a frame on the handshake route: an acknowledgement, with the
   sender's verdict; a message that is handed up and acknowledged; or neither.
   */
  datatype Handed = Acknowledged(status: Status) | Delivered(payload: seq<Byte>) | Undelivered(status: Status)

  /** What a reassembled handshake adds. */
  function HandshakeEvents(c: Config, handed: Handed): seq<Event> {
    if !handed.Delivered? then []
    else
      match DecodeHandshake(handed.payload)
      case None => []
      case Some(remote) => if remote.node != c.peer then [] else [Greeted(remote)]
  }

  function TimeSyncEvents(c: Config, frame: CanFrame): seq<Event> {
    if c.authority || DecodeTimeSync(frame).None? then [] else [Synced]
  }

  /** What a frame adds. */
  function Heard(c: Config, last: Option<Pulse>, frame: CanFrame, time: U64, handed: Handed): seq<Event> {
    var id := DecodeId(frame.id);
    if id.None? || id.value.priority != CRITICAL then []
    else if id.value.route == HANDSHAKE_ROUTE then HandshakeEvents(c, handed)
    else if id.value.route == HEARTBEAT_ROUTE then HeartbeatEvents(c, last, frame, time)
    else if id.value.route == TIME_SYNC_ROUTE then TimeSyncEvents(c, frame)
    else []
  }

  /** Only a frame on the heartbeat route can be a heartbeat. */
  lemma NoHeartbeat(c: Config, last: Option<Pulse>, frame: CanFrame)
    requires DecodeId(frame.id) != Some(ArbitrationId(CRITICAL, HEARTBEAT_ROUTE))
    ensures PulseAfter(c, last, frame) == last
  {
  }

  lemma HeartbeatsAreWelcome(c: Config, last: Option<Pulse>, frame: CanFrame, time: U64)
    ensures Welcome(c, HeartbeatEvents(c, last, frame, time)) <==> HeartbeatEvents(c, last, frame, time) != []
  {
  }

  /** A control frame that is answered with Ok though it tells nothing: an acknowledgement the sender takes. */
  predicate AcknowledgesHandshake(frame: CanFrame, handed: Handed) {
    var id := DecodeId(frame.id);
    id == Some(ArbitrationId(CRITICAL, HANDSHAKE_ROUTE)) && handed == Acknowledged(Ok)
  }

  /** The last greeting in the list, if it is the newest event, is of a compatible peer. */
  predicate Welcome(c: Config, events: seq<Event>) {
    && events != []
    && (events[|events| - 1].Greeted? ==> Check(c.local, events[|events| - 1].remote) == Compatible)
  }

  /** The heartbeat and the time sync a poll offers, each if it is due. */
  ghost function BeatFrames(b: Beacon, c: Config, flags: Byte, now: U64): seq<CanFrame>
    requires c.Sensible()
  {
    if IsDue(b.heartbeatDue, now) then [BeatFrame(c.local.node, b.heartbeat, flags, now)] else []
  }

  ghost function SyncFrames(b: Beacon, c: Config, now: U64): seq<CanFrame> {
    if c.authority && IsDue(b.syncDue, now) then [SyncFrame(b.sync, now)] else []
  }

  /** The writer's answer to the last of some frames; nothing offered is nothing refused. */
  ghost function AnswerTo(answers: seq<CanFrame> -> Status, before: seq<CanFrame>, frames: seq<CanFrame>): Status {
    if frames == [] then Ok else answers(before + frames)
  }

  /** What the plane knows is what the events tell, and the gate is open exactly if they allow it. */
  ghost predicate Sound(c: Config, known: Knowledge, enabled: bool, seen: seq<Event>) {
    c.Sensible() && Agrees(known, Recent(seen), c) && (enabled <==> Gate(c, seen))
  }

  class LinkControlPlane {
    const config: Config
    const valid: bool
    var monitor: Monitor
    var synchronized: bool
    var received: bool
    var compatibility: Compatibility
    var enabled: bool
    const periods: Periods
    const writer: FrameWriter
    var beacon: Beacon
    var lastPoll: Option<U64>
    var pulse: Option<Pulse>
    var restarts: nat
    var blocked: nat
    var forwarded: nat
    ghost var seen: seq<Event>

    ghost function Known(): Knowledge
      reads `monitor, `synchronized, `received, `compatibility
    {
      Knowledge(monitor, if received then Some(compatibility) else None, synchronized)
    }

    ghost predicate Valid()
      reads `monitor, `synchronized, `received, `compatibility, `enabled, `seen
    {
      if valid then Sound(config, Known(), enabled, seen) else !enabled
    }

    /** `sound` is the rest of the configuration check. */
    constructor (config: Config, periods: Periods, writer: FrameWriter, sound: bool)
      ensures Valid() && this.config == config && seen == [] && !enabled
      ensures this.periods == periods && this.writer == writer && beacon == Beacon(None, 0, None, 0)
      ensures valid <==> sound && config.Sensible()
    {
      this.config, this.periods, this.writer := config, periods, writer;
      beacon := Beacon(None, 0, None, 0);
      valid := sound && config.Sensible();
      monitor := NewMonitor(config.timeout, config.recovery);
      synchronized, received, compatibility, enabled := false, false, ProtocolMismatch, false;
      lastPoll, pulse := None, None;
      restarts, blocked, forwarded := 0, 0, 0;
      seen := [];
    }

    /** The fields agree with the events; the flag may still be that of an earlier moment. */
    ghost predicate Consistent()
      reads `monitor, `synchronized, `received, `compatibility, `seen
    {
      valid && config.Sensible() && Agrees(Known(), Recent(seen), config)
    }

    method RefreshApplicationGate()
      requires Consistent()
      modifies this`enabled
      ensures Valid()
    {
      enabled := received && compatibility == Compatible && monitor.state == Online &&
                 (config.authority || synchronized);
      OpenIsGate(Known(), seen, config);
    }

    /** The state a heartbeat tells the peer. */
    function Flags(): Byte
      reads `received, `compatibility, `enabled, `synchronized
    {
      (if received && compatibility == Compatible then 1 else 0) + (if enabled then 2 else 0) +
      (if config.authority || synchronized then 4 else 0)
    }

    /**
     A poll: the clock may not run backwards, the gate is refreshed, and what is due is sent, up to
     the first frame that is refused. `handshake` is what becomes of the handshake before that.
     */
    method Poll(now: U64, interrupt: bool, handshake: Status) returns (status: Status, taken: bool)
      requires Valid()
      modifies this, writer
      ensures Valid()
      ensures taken <==> valid && !interrupt && (old(lastPoll).Some? ==> now >= old(lastPoll).value)
      ensures seen == old(seen) + if taken then [Event.Polled(now)] else []
      ensures lastPoll == if taken then Some(now) else old(lastPoll)
      ensures !taken ==> status == InvalidArgument
      ensures if taken && handshake == Ok then SentWhatIsDue(old(beacon), old(writer.offered), now, status)
              else writer.offered == old(writer.offered) && beacon == old(beacon) && (taken ==> status == handshake)
    {
      if !valid || interrupt || (lastPoll.Some? && now < lastPoll.value) { return InvalidArgument, false; }
      taken := true;
      status := Due(now, handshake);
    }

    method Due(now: U64, handshake: Status) returns (status: Status)
      requires Valid() && valid
      modifies this, writer
      ensures Valid() && seen == old(seen) + [Event.Polled(now)] && lastPoll == Some(now)
      ensures handshake == Ok ==> SentWhatIsDue(old(beacon), old(writer.offered), now, status)
      ensures handshake != Ok ==>
                writer.offered == old(writer.offered) && beacon == old(beacon) && status == handshake
    {
      Tick(now);
      ghost var known, open := Known(), enabled;
      assert Sound(config, known, open, seen);
      status := SendUnless(handshake, now);
      assert Known() == known && enabled == open;
    }

    method SendUnless(handshake: Status, now: U64) returns (status: Status)
      requires config.Sensible()
      modifies this`beacon, writer
      ensures handshake == Ok ==> SentWhatIsDue(old(beacon), old(writer.offered), now, status)
      ensures handshake != Ok ==>
                writer.offered == old(writer.offered) && beacon == old(beacon) && status == handshake
    {
      if handshake != Ok { return handshake; }
      status := Send(now);
    }

    method Tick(now: U64)
      requires Valid() && valid
      modifies `lastPoll, `monitor, `enabled, `seen
      ensures Valid() && seen == old(seen) + [Event.Polled(now)] && lastPoll == Some(now)
    {
      lastPoll := Some(now);
      Watch(now);
      RefreshApplicationGate();
    }

    /** What was due was offered, the time sync only if the heartbeat was not refused. */
    ghost predicate SentWhatIsDue(b: Beacon, before: seq<CanFrame>, now: U64, status: Status)
      requires config.Sensible()
      reads `beacon, `received, `compatibility, `enabled, `synchronized, writer
    {
      var beats := BeatFrames(b, config, Flags(), now);
      var first := AnswerTo(writer.answers, before, beats);
      var syncs := if first == Ok then SyncFrames(b, config, now) else [];
      var second := AnswerTo(writer.answers, before + beats, syncs);
      && writer.offered == before + beats + syncs
      && (beacon, status) == LinkBeacon.Polled(b, periods, config.authority, now, Answers(first, second))
    }

    method Send(now: U64) returns (status: Status)
      requires config.Sensible()
      modifies this`beacon, writer
      ensures SentWhatIsDue(old(beacon), old(writer.offered), now, status)
    {
      status := SendHeartbeat(now);
      if status == Ok {
        status := SendTimeSync(now);
      }
    }

    method SendHeartbeat(now: U64) returns (status: Status)
      requires config.Sensible()
      modifies this`beacon, writer
      ensures var beats := BeatFrames(old(beacon), config, Flags(), now);
              && writer.offered == old(writer.offered) + beats
              && status == AnswerTo(writer.answers, old(writer.offered), beats)
              && beacon == if beats == [] then old(beacon)
                           else BeatOffered(old(beacon), now, periods.heartbeat, status)
    {
      if !IsDue(beacon.heartbeatDue, now) {
        return Ok;
      }
      status := writer.Write(BeatFrame(config.local.node, beacon.heartbeat, Flags(), now));
      beacon := BeatOffered(beacon, now, periods.heartbeat, status);
    }

    method SendTimeSync(now: U64) returns (status: Status)
      modifies this`beacon, writer
      ensures var syncs := SyncFrames(old(beacon), config, now);
              && writer.offered == old(writer.offered) + syncs
              && status == AnswerTo(writer.answers, old(writer.offered), syncs)
              && beacon == if syncs == [] then old(beacon) else SyncOffered(old(beacon), now, periods.sync, status)
    {
      if !config.authority || !IsDue(beacon.syncDue, now) {
        return Ok;
      }
      status := writer.Write(SyncFrame(beacon.sync, now));
      beacon := SyncOffered(beacon, now, periods.sync, status);
    }

    method Watch(now: U64)
      requires Consistent()
      modifies `monitor, `seen
      ensures Consistent() && seen == old(seen) + [Event.Polled(now)]
    {
      ghost var learnt := Learn(Known(), config, Event.Polled(now));
      LearnAgrees(Known(), seen, config, Event.Polled(now));
      monitor := monitor.Poll(now);
      assert Known() == learnt;
      seen := seen + [Event.Polled(now)];
    }

    method HandlePeerRestart()
      requires Consistent()
      modifies `monitor, `synchronized, `received, `compatibility, `enabled, `restarts, `seen
      ensures Consistent() && seen == old(seen) + [Restarted] && !enabled && restarts == old(restarts) + 1
    {
      restarts := restarts + 1;
      LearnAgrees(Known(), seen, config, Restarted);
      received, compatibility, enabled := false, ProtocolMismatch, false;
      monitor := NewMonitor(config.timeout, config.recovery);
      synchronized := false;
      seen := seen + [Restarted];
    }

    method AcceptHandshake(handed: Handed) returns (status: Status)
      requires Consistent() && handed != Undelivered(Ok)
      modifies this
      ensures Consistent() && seen == old(seen) + HandshakeEvents(config, handed) && pulse == old(pulse)
      ensures status == Ok <==> handed == Acknowledged(Ok) || Welcome(config, HandshakeEvents(config, handed))
    {
      if !handed.Delivered? { return handed.status; }
      var remote := DecodeHandshake(handed.payload);
      if remote.None? || remote.value.node != config.peer { return TypeMismatch; }
      Greet(remote.value);
      return if compatibility == Compatible then Ok else TypeMismatch;
    }

    method Greet(remote: Handshake)
      requires Consistent()
      modifies `received, `compatibility, `seen
      ensures Consistent() && seen == old(seen) + [Greeted(remote)] && compatibility == Check(config.local, remote)
    {
      ghost var learnt := Learn(Known(), config, Greeted(remote));
      LearnAgrees(Known(), seen, config, Greeted(remote));
      received := true;
      compatibility := Check(config.local, remote);
      assert Known() == learnt;
      seen := seen + [Greeted(remote)];
    }

    method Observe(sequence: nat, time: U64)
      requires Consistent()
      modifies `monitor, `seen
      ensures Consistent() && seen == old(seen) + [Beat(sequence, time)]
    {
      LearnAgrees(Known(), seen, config, Beat(sequence, time));
      monitor := monitor.Observe(sequence, time);
      seen := seen + [Beat(sequence, time)];
    }

    method AcceptHeartbeat(frame: CanFrame, time: U64) returns (status: Status)
      requires Consistent()
      modifies this
      ensures Consistent() && seen == old(seen) + HeartbeatEvents(config, old(pulse), frame, time)
      ensures pulse == PulseAfter(config, old(pulse), frame)
      ensures status == Ok <==> HeartbeatEvents(config, old(pulse), frame, time) != []
    {
      var heartbeat := DecodeHeartbeat(frame);
      if heartbeat.None? || heartbeat.value.node != config.peer { return TypeMismatch; }
      var h := heartbeat.value;
      status := Admit(h, ArrivalOf(pulse, h), time);
    }

    method Admit(h: Heartbeat, arrival: Arrival, time: U64) returns (status: Status)
      requires Consistent()
      modifies this
      ensures Consistent() && seen == old(seen) + ArrivalEvents(arrival, h.sequence, time)
      ensures pulse == PulseOf(arrival, old(pulse), h) && (status == Ok <==> arrival == Next || arrival == Restart)
    {
      if arrival == Stale || arrival == Duplicate { return Unavailable; }
      pulse := Some(Pulse(h.sequence, h.uptime));
      if arrival == Restart {
        RestartAndObserve(h.sequence, time);
      } else {
        Observe(h.sequence, time);
      }
      return Ok;
    }

    method RestartAndObserve(sequence: nat, time: U64)
      requires Consistent()
      modifies `monitor, `synchronized, `received, `compatibility, `enabled, `restarts, `seen
      ensures Consistent() && seen == old(seen) + [Restarted, Beat(sequence, time)]
    {
      HandlePeerRestart();
      Observe(sequence, time);
    }

    method AcceptTimeSync(frame: CanFrame) returns (status: Status)
      requires Consistent()
      modifies this
      ensures Consistent() && seen == old(seen) + TimeSyncEvents(config, frame) && pulse == old(pulse)
      ensures status == Ok <==> TimeSyncEvents(config, frame) != []
    {
      if config.authority { return Unavailable; }
      if DecodeTimeSync(frame).None? { return InvalidArgument; }
      LearnAgrees(Known(), seen, config, Synced);
      synchronized := true;
      seen := seen + [Synced];
      return Ok;
    }

    /** A control frame. An undelivered one is never answered with Ok by the reliable path. */
    method Accept(frame: CanFrame, time: U64, handed: Handed) returns (status: Status)
      requires Valid() && handed != Undelivered(Ok)
      modifies this
      ensures Valid()
      ensures seen == old(seen) + if valid then Heard(config, old(pulse), frame, time, handed) else []
      ensures pulse == if valid then PulseAfter(config, old(pulse), frame) else old(pulse)
      ensures status == Ok <==>
                && valid
                && (AcknowledgesHandshake(frame, handed)
                    || Welcome(config, Heard(config, old(pulse), frame, time, handed)))
    {
      if !valid { return InvalidArgument; }
      status := Dispatch(frame, time, handed);
      RefreshApplicationGate();
    }

    /** To the part the frame is for. */
    method Dispatch(frame: CanFrame, time: U64, handed: Handed) returns (status: Status)
      requires Consistent() && handed != Undelivered(Ok)
      modifies this
      ensures Consistent() && seen == old(seen) + Heard(config, old(pulse), frame, time, handed)
      ensures pulse == PulseAfter(config, old(pulse), frame)
      ensures status == Ok <==>
                AcknowledgesHandshake(frame, handed) || Welcome(config, Heard(config, old(pulse), frame, time, handed))
    {
      var id := DecodeId(frame.id);
      if id != Some(ArbitrationId(CRITICAL, HEARTBEAT_ROUTE)) { NoHeartbeat(config, pulse, frame); }
      if id.None? || id.value.priority != CRITICAL {
        return InvalidArgument;
      }
      if id.value.route == HANDSHAKE_ROUTE {
        status := AcceptHandshake(handed);
      } else if id.value.route == HEARTBEAT_ROUTE {
        HeartbeatsAreWelcome(config, pulse, frame, time);
        status := AcceptHeartbeat(frame, time);
      } else if id.value.route == TIME_SYNC_ROUTE {
        status := AcceptTimeSync(frame);
      } else {
        return Unavailable;
      }
    }

    /** A frame reaches the physical writer exactly if it is an application frame and the gate is open. */
    method WriteApplication(frame: CanFrame) returns (status: Status, ghost written: bool)
      requires Valid()
      modifies `blocked, `forwarded, writer
      ensures Valid() && seen == old(seen)
      ensures written <==>
                && DecodeId(frame.id).Some? && DecodeId(frame.id).value.route >= FIRST_APPLICATION_ROUTE_ID
                && valid && Gate(config, seen)
      ensures written ==> writer.offered == old(writer.offered) + [frame] && status == writer.answers(writer.offered)
      ensures !written ==>
                writer.offered == old(writer.offered) && (status == InvalidArgument || status == Unavailable)
    {
      var id := DecodeId(frame.id);
      if id.None? || id.value.route < FIRST_APPLICATION_ROUTE_ID { return InvalidArgument, false; }
      if !enabled {
        blocked := blocked + 1;
        return Unavailable, false;
      }
      written := true;
      status := writer.Write(frame);
      if status == Ok { forwarded := forwarded + 1; }
    }
  }
}

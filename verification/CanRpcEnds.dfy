/**
 The client and server objects of CAN remote calls, with their payload buffers and the reliable
 sender and receiver each of them owns. What a call puts on the bus, what a frame off the bus
 completes, and in which states the objects get stuck all follow from those parts.
 */
module CanRpcEnds {
  import opened Bytes
  import opened LittleEndian
  import opened CanProtocol
  import opened Fragments
  import opened FrameWriting
  import opened ReassemblyBuffer
  import opened RpcPayload
  import opened CanRpc
  import opened ReliableEnds
  import RP = ReliablePath
  import ReliablePump

  const CAPACITY := 96  // what the reliable path can carry

  /* ------------------------------------------------------------------ writing */

  /** After `before`, the first `n` fragments of a message were offered, one by one, and accepted. */
  ghost predicate Went(answers: seq<CanFrame> -> Status, before: seq<CanFrame>, s: RP.Sender, n: nat,
                       after: seq<CanFrame>)
    requires n <= Count(s.payload) <= MAXIMUM_FRAGMENTS
  {
    && after == before + ReliablePump.FirstFrames(s, n)
    && forall i :: 0 < i <= n ==> answers(before + ReliablePump.FirstFrames(s, i)) == Ok
  }

  /** All fragments went, or all up to the first one that was refused, with `status`. */
  ghost predicate Pumped(answers: seq<CanFrame> -> Status, before: seq<CanFrame>, s: RP.Sender, n: nat,
                         after: seq<CanFrame>, status: Status)
    requires n <= Count(s.payload) <= MAXIMUM_FRAGMENTS
  {
    if status == Ok then n == Count(s.payload) && Went(answers, before, s, n, after)
    else
      && n < Count(s.payload) && Went(answers, before, s, n, before + ReliablePump.FirstFrames(s, n))
      && after == before + ReliablePump.FirstFrames(s, n + 1) && status == answers(after)
  }

  /** Some of the fragments went, and then one was refused. */
  ghost predicate Stopped(answers: seq<CanFrame> -> Status, before: seq<CanFrame>, s: RP.Sender,
                          after: seq<CanFrame>, status: Status)
    requires Count(s.payload) <= MAXIMUM_FRAGMENTS
  {
    status != Ok && exists n :: 0 <= n < Count(s.payload) && Pumped(answers, before, s, n, after, status)
  }

  /** The same message, its cursor moved and no write under way. */
  ghost predicate Moved(s: RP.Sender, t: RP.Sender) {
    t == s.(next := t.next, state := t.state, pending := None, lastToken := t.lastToken)
  }

  /** Offer one frame and report the answer to the sender. */
  method Offer(sender: ReliableSender, writer: FrameWriter, ghost begun: RP.Sender, ghost before: seq<CanFrame>)
    returns (status: Status)
    requires sender.Valid() && sender.state == RP.Sending && Moved(begun, sender.model)
    requires Count(begun.payload) <= MAXIMUM_FRAGMENTS
    requires Went(writer.answers, before, begun, sender.model.next, writer.offered)
    modifies sender, writer
    ensures sender.Valid() && Moved(begun, sender.model)
    ensures status == Ok ==>
              && sender.model.next == old(sender.model.next) + 1 <= Count(begun.payload)
              && sender.state == (if sender.model.next == Count(begun.payload) then RP.WaitingForAck else RP.Sending)
              && Went(writer.answers, before, begun, sender.model.next, writer.offered)
    ensures status != Ok ==>
              && sender.state == RP.Sending && sender.model.next == old(sender.model.next) < Count(begun.payload)
              && Pumped(writer.answers, before, begun, sender.model.next, writer.offered, status)
  {
    ghost var n := sender.model.next;
    var frame := sender.NextFrame();
    status := writer.Write(frame.value);
    sender.OnFrameWrite(sender.pendingWriteToken, status);
    assert ReliablePump.FirstFrames(begun, n + 1) == ReliablePump.FirstFrames(begun, n) + [frame.value];
    assert writer.offered == before + ReliablePump.FirstFrames(begun, n + 1);
  }

  /** Offer the frames of a message just begun, or begun again, until one is refused. */
  method Pump(sender: ReliableSender, writer: FrameWriter) returns (status: Status)
    requires sender.Valid() && sender.state == RP.Sending && sender.model.next == 0 && sender.model.pending == None
    modifies sender, writer
    ensures sender.Valid() && Moved(old(sender.model), sender.model)
    ensures sender.state == if status == Ok then RP.WaitingForAck else RP.Sending
    ensures Pumped(writer.answers, old(writer.offered), old(sender.model), sender.model.next, writer.offered, status)
  {
    ghost var begun, before := sender.model, writer.offered;
    assert before == before + ReliablePump.FirstFrames(begun, 0);
    status := Ok;
    while sender.state == RP.Sending
      invariant sender.Valid() && Moved(begun, sender.model) && sender.model.Busy() && status == Ok
      invariant Went(writer.answers, before, begun, sender.model.next, writer.offered)
      decreases Count(begun.payload) - sender.model.next
    {
      status := Offer(sender, writer, begun, before);
      if status != Ok {
        return;
      }
    }
  }

  /** A sender that has just taken a message over and sent nothing of it. */
  ghost predicate Took(begun: RP.Sender, id: Option<nat>, sequence: nat, payload: seq<Byte>, now: U64, timeout: U64,
                       retries: nat)
  {
    && begun.state == RP.Sending && begun.next == 0 && begun.retries == 0 && begun.pending == None
    && Some(begun.id) == id && begun.sequence == sequence
    && begun.payload == payload && Count(payload) <= MAXIMUM_FRAGMENTS
    && begun.timeout == timeout && begun.deadline == SaturatingAdd(now, timeout) && begun.maximumRetries == retries
  }

  /** Begin a message and write its frames. `begun` is the sender as it took the message over. */
  method Post(sender: ReliableSender, writer: FrameWriter, routeId: nat, priority: nat, sequence: nat,
              payload: seq<Byte>, now: U64, timeout: U64, retries: nat)
    returns (begin: Status, pump: Status, ghost begun: RP.Sender)
    requires sender.Valid() && sender.model.pending == None
    modifies sender, sender.payload, writer
    ensures sender.Valid() && sender.model.pending == None
    ensures (begun, begin) == old(sender.model).Begin(routeId, priority, sequence, payload, now, timeout, retries)
    ensures begin != Ok ==> sender.model == begun && writer.offered == old(writer.offered) && pump == Ok
    ensures begin == Ok ==>
              && Count(payload) <= MAXIMUM_FRAGMENTS && Moved(begun, sender.model)
              && sender.model.next <= Count(payload)
              && sender.state == (if pump == Ok then RP.WaitingForAck else RP.Sending)
              && Pumped(writer.answers, old(writer.offered), begun, sender.model.next, writer.offered, pump)
  {
    begin := sender.Begin(routeId, priority, sequence, payload, now, timeout, retries);
    pump := Ok;
    begun := sender.model;
    if begin == Ok {
      pump := Pump(sender, writer);
    }
  }

  /** Poll the sender, and write the frames of its message again if it is due. */
  method Retry(sender: ReliableSender, writer: FrameWriter, now: U64) returns (retry: Status, pump: Status)
    requires sender.Valid() && sender.model.pending == None
    modifies sender, writer
    ensures sender.Valid() && sender.model.pending == None
    ensures retry == old(sender.model).Poll(now).1
    ensures retry != Ok ==>
              sender.model == old(sender.model).Poll(now).0 && writer.offered == old(writer.offered) && pump == Ok
    ensures retry == Ok ==> Repeated(old(sender.model).Poll(now).0, sender.model, writer.answers, old(writer.offered),
                                     writer.offered, pump)
  {
    retry := sender.Poll(now);
    pump := Ok;
    if retry == Ok {
      pump := Pump(sender, writer);
    }
  }

  /** The frames of a message begun again were written, or written up to a refused one. */
  ghost predicate Repeated(again: RP.Sender, s: RP.Sender, answers: seq<CanFrame> -> Status, before: seq<CanFrame>,
                           after: seq<CanFrame>, status: Status)
  {
    && Moved(again, s) && s.next <= Count(s.payload) <= MAXIMUM_FRAGMENTS
    && s.state == (if status == Ok then RP.WaitingForAck else RP.Sending)
    && Pumped(answers, before, again, s.next, after, status)
  }

  /** Take a frame in and acknowledge what it completes; a message whose acknowledgement is refused is dropped. */
  method Receive(receiver: ReliableReceiver, writer: FrameWriter, frame: CanFrame)
    returns (status: Status, message: Option<Message>, refused: bool)
    requires receiver.Valid()
    modifies receiver, receiver.payload, receiver.fragmentLengths, writer
    ensures receiver.Valid() && receiver.model == old(receiver.model).AcceptFrame(frame, None).0
    ensures message == Kept(old(receiver.model).AcceptFrame(frame, None).1, writer.answers, old(writer.offered))
    ensures message.Some? <==> status == Ok
    ensures message.Some? ==> !refused && message.value.sequence < 16
    ensures message.None? && !refused ==> status == old(receiver.model).AcceptFrame(frame, None).1.status
    ensures refused ==> status == writer.answers(writer.offered)
    ensures writer.offered == old(writer.offered) + AckOf(old(receiver.model).AcceptFrame(frame, None).1)
  {
    OkHandsUp(receiver.model, frame, None);
    var reply := receiver.AcceptImpl(frame, None);
    if reply.ack.Some? {
      status := writer.Write(reply.ack.value);
      if status != Ok {
        return status, None, true;
      }
    }
    return reply.status, reply.message, false;
  }

  ghost function AckOf(reply: RP.Reply): seq<CanFrame> {
    if reply.ack.Some? then [reply.ack.value] else []
  }

  /** The message a frame completed, if its acknowledgement can be written. */
  ghost function Kept(reply: RP.Reply, answers: seq<CanFrame> -> Status, before: seq<CanFrame>): Option<Message> {
    if reply.ack.Some? && answers(before + [reply.ack.value]) == Ok then reply.message else None
  }

  /** A reliable frame of this route. */
  predicate Addressed(frame: CanFrame, routeId: nat) {
    && frame.data != [] && DecodeId(frame.id).Some? && DecodeId(frame.id).value.route == routeId
    && Kind(frame.data[0]) == Reliable
  }

  /** A frame for the receiver, not an acknowledgement. */
  predicate ForReceiver(frame: CanFrame, routeId: nat) {
    Addressed(frame, routeId) && RP.HeaderSubtype(frame.data[0]) != RP.Ack
  }

  /** Messages are handed up with Ok and with nothing else, under a four-bit sequence number. */
  lemma OkHandsUp(r: RP.Receiver, frame: CanFrame, now: Option<U64>)
    ensures var reply := r.AcceptFrame(frame, now).1;
            && (reply.status == Ok <==> reply.message.Some?)
            && (reply.message.Some? ==> reply.ack.Some? && reply.message.value.sequence < 16)
  {
  }

  /* ------------------------------------------------------------------- client */

  lemma RefusedClient(c: Client, a: Attempt)
    requires c.Refusal(a).Some?
    ensures var (d, status, _) := c.CallAsync(a);
            d == c.(rejected := d.rejected, timeouts := d.timeouts) && status == c.Refusal(a).value != Ok
  {
  }

  lemma PlacedClient(c: Client, a: Attempt)
    requires c.Refusal(a).None? && c.nextId <= U32_MAX
    ensures var (d, status, _) := c.CallAsync(a);
            && status == (if a.begin != Ok then a.begin else a.pump)
            && d.maxRequest == c.maxRequest && d.maxResponse == c.maxResponse
            && 0 < d.id == d.nextId == c.FreshId() <= U32_MAX && d.nextSequence < 16
            && d.sequence == c.nextSequence && d.deadline == a.deadline && d.completed == c.completed
            && d.pending == (status == Ok) && d.accepted == c.accepted + (if status == Ok then 1 else 0)
  {
  }

  predicate Late(c: Client, now: nat) {
    c.deadline != 0 && now >= c.deadline
  }

  /** A message that answers the pending call. */
  predicate Answered(c: Client, m: Message) {
    && m.sequence == c.sequence && |m.payload| >= RESPONSE_HEADER && ResponseId(m.payload) == c.id
    && ParseResponse(m.payload, c.maxResponse).Some?
  }

  /** The callback it causes. */
  function Callback(c: Client, m: Message): Option<Notice> {
    if !Answered(c, m) then None
    else
      var response := ParseResponse(m.payload, c.maxResponse).value;
      Some(Notify(c.id, response.status, response.body))
  }

  lemma AcceptedAnswer(c: Client, m: Message)
    requires c.sealed
    ensures var (d, _, notice) := c.Accept(Letter(m.sequence, m.payload));
            && d == c.(pending := d.pending, completed := d.completed, decodeFailures := d.decodeFailures)
            && (notice.Notify? <==> c.pending && Answered(c, m))
            && (notice.Notify? ==> Some(notice) == Callback(c, m))
            && d.pending == (c.pending && notice.Quiet?)
            && d.completed == c.completed + (if notice.Notify? then 1 else 0)
  {
  }

  lemma PolledClient(c: Client, now: nat, retry: Status, pump: Status)
    ensures var (d, status, notice) := c.Poll(now, retry, pump);
            && d == c.(pending := d.pending, completed := d.completed, timeouts := d.timeouts,
                       sendFailures := d.sendFailures)
            && (notice.Notify? <==> c.sealed && c.pending && (Late(c, now) || retry == Timeout))
            && (notice.Notify? ==> notice == Notify(c.id, Timeout, []))
            && d.pending == (c.pending && notice.Quiet?)
            && d.completed == c.completed + (if notice.Notify? then 1 else 0)
            && (c.sealed && c.pending && notice.Quiet? && retry == Ok ==> status == pump)
  {
  }

  class CanRpcClient {
    const routeId: nat
    const priority: nat
    const retryTimeout: U64
    const maximumRetries: nat
    const writer: FrameWriter
    const requestPayload: array<Byte>
    const responseReceiver: ReliableReceiver
    var requestSender: ReliableSender
    var state: Client  // the call fields and the statistics

    ghost predicate Parts()
      reads this, requestSender, requestSender.payload, responseReceiver, responseReceiver.payload,
            responseReceiver.fragmentLengths
    {
      && requestSender.Valid() && responseReceiver.Valid()
      && requestPayload != requestSender.payload
      && requestPayload !in {responseReceiver.payload, responseReceiver.fragmentLengths}
      && requestSender.payload !in {responseReceiver.payload, responseReceiver.fragmentLengths}
      && requestPayload.Length == requestSender.payload.Length == REQUEST_HEADER + state.maxRequest <= CAPACITY
      && responseReceiver.payload.Length == RESPONSE_HEADER + state.maxResponse
      && requestSender.model.pending == None
    }

    /** The sender holds the request of the pending call and has neither dropped nor failed it. */
    ghost predicate Underway()
      reads this, requestSender
    {
      && requestSender.model.state !in {RP.Idle, RP.Failed}
      && requestSender.model.sequence == state.sequence
      && ParseRequest(requestSender.model.payload).Some?
      && ParseRequest(requestSender.model.payload).value.id == state.id != 0
      && ParseRequest(requestSender.model.payload).value.deadline == state.deadline
    }

    ghost predicate Valid()
      reads this, requestSender, requestSender.payload, responseReceiver, responseReceiver.payload,
            responseReceiver.fragmentLengths
    {
      && Parts() && state.nextId <= U32_MAX && state.nextSequence < 16 && (state.sealed ==> retryTimeout != 0)
      && state.accepted == state.completed + (if state.pending then 1 else 0)
      && (state.pending ==> Underway())
    }

    /** No call is pending, and yet the sender still waits for the last one's acknowledgement. */
    ghost predicate Blocked()
      reads this, requestSender
    {
      !state.pending && requestSender.model.Busy()
    }

    /** A call is pending, and its request stopped at a refused frame. */
    ghost predicate Stalled()
      reads this, requestSender
    {
      state.pending && requestSender.model.state == RP.Sending
    }

    constructor (routeId: nat, priority: nat, retryTimeout: U64, maximumRetries: nat, maxRequest: nat,
                 maxResponse: nat, writer: FrameWriter)
      requires REQUEST_HEADER + maxRequest <= CAPACITY && RESPONSE_HEADER + maxResponse <= CAPACITY
      ensures Valid() && fresh(requestSender) && fresh(requestSender.payload) && fresh(responseReceiver)
      ensures fresh(requestPayload) && fresh(responseReceiver.payload) && fresh(responseReceiver.fragmentLengths)
      ensures this.writer == writer && this.routeId == routeId && this.priority == priority
      ensures this.retryTimeout == retryTimeout && this.maximumRetries == maximumRetries
      ensures requestSender.model == RP.NewSender(REQUEST_HEADER + maxRequest)
      ensures responseReceiver.model == RP.NewReceiver(RESPONSE_HEADER + maxResponse, 0)
      ensures state == Client(false, maxRequest, maxResponse, false, 0, 0, 0, 0, 0, 0, 0, 0, 0, 0, 0)
    {
      this.routeId, this.priority, this.writer := routeId, priority, writer;
      this.retryTimeout, this.maximumRetries := retryTimeout, maximumRetries;
      state := Client(false, maxRequest, maxResponse, false, 0, 0, 0, 0, 0, 0, 0, 0, 0, 0, 0);
      requestPayload := new Byte[REQUEST_HEADER + maxRequest];
      requestSender := new ReliableSender(REQUEST_HEADER + maxRequest);
      responseReceiver := new ReliableReceiver(RESPONSE_HEADER + maxResponse, 0);
    }

    /** Calls are let through only after this; a client without a retry timeout never gets there. */
    method Seal(registered: bool, wired: bool) returns (status: Status)
      requires Valid()
      modifies this`state
      ensures Valid() && state == old(state).(sealed := old(state).sealed || status == Ok)
      ensures status == Ok <==> !old(state).sealed && registered && wired && retryTimeout != 0
      ensures status != Ok ==> status == if old(state).sealed then InvalidState else Unavailable
    {
      if state.sealed {
        return InvalidState;
      }
      if !registered || !wired || retryTimeout == 0 {
        return Unavailable;
      }
      state := state.(sealed := true);
      return Ok;
    }

    /** The sender has taken over the request under `sequence`. */
    ghost predicate Loaded(begun: RP.Sender, request: Request, sequence: nat, now: U64) {
      Took(begun, EncodeId(priority, routeId), sequence, RequestBytes(request), now, retryTimeout, maximumRetries)
    }

    /** The request went out as a whole, under this call's sequence. */
    ghost predicate Sent(before: seq<CanFrame>, begun: RP.Sender, request: Request, now: U64)
      reads this, requestSender, writer
    {
      && Loaded(begun, request, state.sequence, now)
      && Moved(begun, requestSender.model) && requestSender.model.state == RP.WaitingForAck
      && Went(writer.answers, before, begun, Count(begun.payload), writer.offered)
    }

    /** The route, priority and timeout are such that the sender takes a message. */
    predicate CanSend() {
      EncodeId(priority, routeId).Some? && retryTimeout != 0
    }

    /** Why a call that passed the checks failed: it could not be begun, or one of its frames was refused. */
    ghost predicate Reason(before: seq<CanFrame>, begun: RP.Sender, request: Request, now: U64, status: Status)
      reads this, writer
    {
      if !CanSend() then writer.offered == before
      else
        && Loaded(begun, request, state.sequence, now)
        && Stopped(writer.answers, before, begun, writer.offered, status)
    }

    /**
     A call. `attempt` is what the model of CanRpc is told about the sender, `begun` the sender as it
     took the request over. Accepted means: pending, and all its frames written, in order.
     */
    method CallAsync(sameService: bool, hasCompletion: bool, body: seq<Byte>, expiry: U64, clock: Status, now: U64)
      returns (status: Status, attempt: Attempt, ghost begun: RP.Sender)
      requires Valid()
      modifies this, requestPayload, requestSender, requestSender.payload, writer
      ensures Valid()
      ensures requestSender == old(requestSender) || (fresh(requestSender) && fresh(requestSender.payload))
      ensures attempt == Attempt(sameService, hasCompletion, body, expiry, clock, now,
                                 old(requestSender.model.Busy()), attempt.begin, attempt.pump)
      ensures (state, status) == (old(state).CallAsync(attempt).0, old(state).CallAsync(attempt).1)
      ensures old(state).Refusal(attempt).None? ==> (attempt.begin == Ok <==> CanSend())
      ensures status == Ok ==>
                state.pending && Sent(old(writer.offered), begun, Request(state.id, expiry, body), now)
      ensures status != Ok ==>
                && state.pending == old(state).pending
                && state.accepted == old(state).accepted && state.completed == old(state).completed
                && (writer.offered != old(writer.offered) ==> requestSender.state == RP.Idle)
      ensures status != Ok && old(state).Refusal(attempt).None? ==>
                Reason(old(writer.offered), begun, Request(state.id, expiry, body), now, status)
      ensures old(Blocked()) ==> status != Ok && Blocked() && writer.offered == old(writer.offered)
      ensures old(Stalled()) ==> status != Ok && Stalled() && writer.offered == old(writer.offered)
    {
      var busy := requestSender.state == RP.Sending || requestSender.state == RP.WaitingForAck;
      attempt := Attempt(sameService, hasCompletion, body, expiry, clock, now, busy, Ok, Ok);
      begun := requestSender.model;
      if state.Refusal(attempt).None? {
        status, attempt, begun := Admit(attempt);
      } else {
        RefusedClient(state, attempt);
        var after := state.CallAsync(attempt);
        state, status := after.0, after.1;
      }
    }

    /** A call that is not refused at once: number it, send it, keep the books. */
    method Admit(admitted: Attempt) returns (status: Status, attempt: Attempt, ghost begun: RP.Sender)
      requires Valid() && state.Refusal(admitted).None? && admitted.senderBusy == requestSender.model.Busy()
      requires admitted.deadline <= U64_MAX && admitted.now <= U64_MAX
      modifies this, requestPayload, requestSender, requestSender.payload, writer
      ensures Valid()
      ensures requestSender == old(requestSender) || (fresh(requestSender) && fresh(requestSender.payload))
      ensures attempt == admitted.(begin := attempt.begin, pump := attempt.pump)
      ensures (state, status) == (old(state).CallAsync(attempt).0, old(state).CallAsync(attempt).1)
      ensures attempt.begin == Ok <==> CanSend()
      ensures status == Ok ==>
                && state.pending
                && Sent(old(writer.offered), begun, Request(state.id, admitted.deadline, admitted.body), admitted.now)
      ensures status != Ok ==>
                && !state.pending && state.accepted == old(state).accepted && state.completed == old(state).completed
                && (writer.offered != old(writer.offered) ==> requestSender.state == RP.Idle)
      ensures status != Ok ==>
                Reason(old(writer.offered), begun, Request(state.id, admitted.deadline, admitted.body), admitted.now,
                       status)
    {
      var request := Request(state.FreshId(), admitted.deadline, admitted.body);
      var begin, pump;
      begin, pump, begun := Place(request, state.nextSequence, admitted.now);
      attempt := admitted.(begin := begin, pump := pump);
      PlacedClient(state, attempt);
      RequestReadsBack(request);
      var after := state.CallAsync(attempt);
      state, status := after.0, after.1;
    }

    /** What became of a request handed to the idle sender. */
    ghost predicate Placed(before: seq<CanFrame>, begun: RP.Sender, request: Request, sequence: nat, now: U64,
                           begin: Status, pump: Status)
      reads this, requestSender, writer
    {
      && (begin == Ok <==> CanSend())
      && (begin != Ok ==> pump == Ok && writer.offered == before)
      && (begin == Ok ==> Loaded(begun, request, sequence, now))
      && (begin == Ok && pump == Ok ==>
            && Moved(begun, requestSender.model) && requestSender.model.state == RP.WaitingForAck
            && Went(writer.answers, before, begun, Count(begun.payload), writer.offered))
      && (begin == Ok && pump != Ok ==>
            requestSender.state == RP.Idle && Stopped(writer.answers, before, begun, writer.offered, pump))
    }

    /** Lay the request out, hand it to the idle sender and write its frames. */
    method Place(request: Request, sequence: nat, now: U64)
      returns (begin: Status, pump: Status, ghost begun: RP.Sender)
      requires Parts() && !requestSender.model.Busy() && |request.body| <= state.maxRequest && sequence < 16
      modifies this`requestSender, requestPayload, requestSender, requestSender.payload, writer
      ensures Parts() && Placed(old(writer.offered), begun, request, sequence, now, begin, pump)
      ensures requestSender == old(requestSender) || (fresh(requestSender) && fresh(requestSender.payload))
    {
      WriteRequest(requestPayload, request);
      begin, pump, begun := Launch(request, sequence, now);
    }

    /** On a refused frame the sender starts afresh. */
    method Launch(request: Request, sequence: nat, now: U64)
      returns (begin: Status, pump: Status, ghost begun: RP.Sender)
      requires Parts() && !requestSender.model.Busy() && |request.body| <= state.maxRequest && sequence < 16
      requires requestPayload[..REQUEST_HEADER + |request.body|] == RequestBytes(request)
      modifies this`requestSender, requestSender, requestSender.payload, writer
      ensures Parts() && Placed(old(writer.offered), begun, request, sequence, now, begin, pump)
      ensures requestSender == old(requestSender) || (fresh(requestSender) && fresh(requestSender.payload))
    {
      var payload := requestPayload[..REQUEST_HEADER + |request.body|];
      begin, pump, begun := Post(requestSender, writer, routeId, priority, sequence, payload, now, retryTimeout,
                                 maximumRetries);
      if begin == Ok && pump != Ok {
        requestSender := new ReliableSender(REQUEST_HEADER + state.maxRequest);
      }
    }

    /** The message a frame completes for this client. */
    ghost function Heard(frame: CanFrame): Option<Message>
      reads this, responseReceiver, writer
    {
      if state.sealed && ForReceiver(frame, routeId)
      then Kept(responseReceiver.model.AcceptFrame(frame, None).1, writer.answers, writer.offered)
      else None
    }

    /**
     A frame off the bus completes the pending call exactly if it completes a message that answers
     that call and the message's acknowledgement could be written.
     */
    method Accept(frame: CanFrame) returns (status: Status, notice: Notice)
      requires Valid()
      modifies this`state, requestSender, responseReceiver, responseReceiver.payload, responseReceiver.fragmentLengths,
               writer
      ensures Valid()
      ensures notice.Notify? <==> old(state.pending && Heard(frame).Some? && Answered(state, Heard(frame).value))
      ensures notice.Notify? ==>
                && Some(notice) == old(Callback(state, Heard(frame).value))
                && !state.pending && state.completed == old(state).completed + 1
                && (Blocked() <==> old(requestSender.model.Busy()))
      ensures notice.Quiet? ==>
                state.pending == old(state).pending && state.completed == old(state).completed
      ensures ForReceiver(frame, routeId) ==> requestSender.model == old(requestSender.model)
      ensures old(state).sealed && ForReceiver(frame, routeId) ==>
                && responseReceiver.model == old(responseReceiver.model).AcceptFrame(frame, None).0
                && writer.offered == old(writer.offered + AckOf(responseReceiver.model.AcceptFrame(frame, None).1))
      ensures old(Heard(frame)).Some? ==>
                (state, status, notice) == old(state).Accept(
                  Letter(old(Heard(frame)).value.sequence, old(Heard(frame)).value.payload))
      ensures old(Heard(frame)).None? ==> state == old(state).(sendFailures := state.sendFailures)
      ensures old(Blocked()) && old(requestSender.model.HandleAck(frame).1) != Ok ==> Blocked()
      ensures old(Stalled()) && notice.Quiet? ==> Stalled()
    {
      notice := Quiet;
      var message;
      status, message := Hear(frame);
      if message.Some? {
        AcceptedAnswer(state, message.value);
        var after := state.Accept(Letter(message.value.sequence, message.value.payload));
        state, status, notice := after.0, after.1, after.2;
      }
    }

    /** The frame's way up to the message it completes; an acknowledgement goes to the sender. */
    method Hear(frame: CanFrame) returns (status: Status, message: Option<Message>)
      requires Valid()
      modifies this`state, requestSender, responseReceiver, responseReceiver.payload, responseReceiver.fragmentLengths,
               writer
      ensures Valid() && message == old(Heard(frame)) && state == old(state).(sendFailures := state.sendFailures)
      ensures message.Some? ==> ForReceiver(frame, routeId) && old(state).sealed && state == old(state)
      ensures ForReceiver(frame, routeId) ==> requestSender.model == old(requestSender.model)
      ensures old(state).sealed && ForReceiver(frame, routeId) ==>
                && responseReceiver.model == old(responseReceiver.model).AcceptFrame(frame, None).0
                && writer.offered == old(writer.offered + AckOf(responseReceiver.model.AcceptFrame(frame, None).1))
      ensures requestSender.model == old(requestSender.model)
              || requestSender.model == old(requestSender.model).HandleAck(frame).0
    {
      if !state.sealed {
        return InvalidState, None;
      }
      if !Addressed(frame, routeId) {
        return InvalidArgument, None;
      }
      if RP.HeaderSubtype(frame.data[0]) == RP.Ack {
        status := requestSender.HandleAck(frame);
        return status, None;
      }
      var refused;
      status, message, refused := Receive(responseReceiver, writer, frame);
      if refused { state := state.(sendFailures := state.sendFailures + 1); }
    }

    /**
     A pending call times out exactly if its deadline has passed or its request is out of retries;
     a request that is due again is offered from the start.
     */
    method Poll(now: U64) returns (status: Status, notice: Notice)
      requires Valid()
      modifies this, requestSender, writer
      ensures Valid()
      ensures requestSender == old(requestSender) || (fresh(requestSender) && fresh(requestSender.payload))
      ensures notice.Notify? <==>
                old(state.sealed && state.pending && (Late(state, now) || requestSender.model.Poll(now).1 == Timeout))
      ensures notice.Notify? ==>
                && notice == Notify(old(state).id, Timeout, []) && requestSender.state == RP.Idle
                && !state.pending && state.completed == old(state).completed + 1
      ensures notice.Quiet? ==> state == old(state).(sendFailures := state.sendFailures)
      ensures if notice.Quiet? && old(state.sealed && state.pending && requestSender.model.Poll(now).1 == Ok)
              then Repeated(old(requestSender.model.Poll(now).0), requestSender.model, writer.answers,
                            old(writer.offered), writer.offered, status)
              else writer.offered == old(writer.offered)
      ensures old(Stalled()) && !old(Late(state, now)) ==> Stalled() && writer.offered == old(writer.offered)
      ensures old(Blocked()) ==> Blocked() && writer.offered == old(writer.offered)
    {
      notice := Quiet;
      if !state.sealed {
        return InvalidState, notice;
      }
      if !state.pending {
        return Unavailable, notice;
      }
      if Late(state, now) {
        notice := FinishTimeout();
        return Timeout, notice;
      }
      status, notice := PollSender(now);
    }

    method FinishTimeout() returns (notice: Notice)
      requires Parts() && state.nextId <= U32_MAX && state.nextSequence < 16 && (state.sealed ==> retryTimeout != 0)
      requires state.pending && state.accepted == state.completed + 1
      modifies this
      ensures Valid() && fresh(requestSender) && fresh(requestSender.payload) && requestSender.state == RP.Idle
      ensures (state, notice) == old(state).FinishTimeout()
    {
      requestSender := new ReliableSender(REQUEST_HEADER + state.maxRequest);
      var after := state.FinishTimeout();
      state, notice := after.0, after.1;
    }

    method PollSender(now: U64) returns (status: Status, notice: Notice)
      requires Valid() && state.sealed && state.pending && !Late(state, now)
      modifies this, requestSender, writer
      ensures Valid()
      ensures requestSender == old(requestSender) || (fresh(requestSender) && fresh(requestSender.payload))
      ensures notice == if old(requestSender.model).Poll(now).1 == Timeout then Notify(old(state).id, Timeout, []) else Quiet
      ensures notice.Notify? ==> requestSender.state == RP.Idle && state == old(state).FinishTimeout().0
      ensures notice.Quiet? ==> state == old(state).(sendFailures := state.sendFailures)
      ensures if old(requestSender.model).Poll(now).1 == Ok
              then Repeated(old(requestSender.model).Poll(now).0, requestSender.model, writer.answers,
                            old(writer.offered), writer.offered, status)
              else
                && writer.offered == old(writer.offered)
                && (notice.Quiet? ==> requestSender.model == old(requestSender.model))
    {
      var retry, pump := Retry(requestSender, writer, now);
      PolledClient(state, now, retry, pump);
      if retry == Timeout {
        notice := FinishTimeout();
        return Timeout, notice;
      }
      var after := state.Poll(now, retry, pump);
      state, status, notice := after.0, after.1, after.2;
    }

    /** The peer restarted: the pending call ends, and sender and receiver forget it. */
    method ResetPeer() returns (notice: Notice)
      requires Valid()
      modifies this, responseReceiver, responseReceiver.fragmentLengths
      ensures Valid() && fresh(requestSender) && fresh(requestSender.payload)
      ensures requestSender.state == RP.Idle && !state.pending && !Blocked()
      ensures responseReceiver.model.assembly == None && responseReceiver.model.last == None
      ensures notice == if old(state).pending then Notify(old(state).id, Unavailable, []) else Quiet
      ensures state.completed == old(state).completed + (if old(state).pending then 1 else 0)
    {
      requestSender := new ReliableSender(REQUEST_HEADER + state.maxRequest);
      responseReceiver.ResetPeerHistory();
      var after := state.ResetPeer();
      state, notice := after.0, after.1;
    }
  }

  /** Lay a request out at the front of a buffer. */
  method WriteRequest(buffer: array<Byte>, request: Request)
    requires REQUEST_HEADER + |request.body| <= buffer.Length
    modifies buffer
    ensures buffer[..REQUEST_HEADER + |request.body|] == RequestBytes(request)
  {
    CopyInto(buffer, 0, ToLe(request.id, 4));
    assert buffer[..4] == ToLe(request.id, 4);
    CopyInto(buffer, 4, ToLe(request.deadline, 8));
    assert buffer[..12] == ToLe(request.id, 4) + ToLe(request.deadline, 8);
    CopyInto(buffer, 12, request.body);
  }

  /* ------------------------------------------------------------------- server */

  method WriteResponse(buffer: array<Byte>, response: Response)
    requires RESPONSE_HEADER + |response.body| <= buffer.Length
    modifies buffer
    ensures buffer[..RESPONSE_HEADER + |response.body|] == ResponseBytes(response)
  {
    buffer[0] := StatusCode(response.status);
    CopyInto(buffer, 1, ToLe(response.id, 4));
    assert buffer[..5] == [StatusCode(response.status)] + ToLe(response.id, 4);
    CopyInto(buffer, 5, response.body);
  }

  /** The deadline a request carries has passed. */
  predicate Overdue(payload: seq<Byte>, time: nat) {
    && |payload| >= REQUEST_HEADER && ParseRequest(payload).value.deadline != 0
    && time >= ParseRequest(payload).value.deadline
  }

  /** What a usable request is answered with, if it is answered at once. */
  function Verdict(payload: seq<Byte>, time: nat, backend: Status): Status {
    if Overdue(payload, time) then Timeout else backend
  }

  /** What the model of CanRpc makes of a request. */
  function AcceptedAs(server: Server, m: Message, busy: bool, time: nat, backend: Status, e: Sending)
    : (Server, Status)
  {
    var (next, status, _) := server.Accept(Letter(m.sequence, m.payload), busy, time, backend, e);
    (next, status)
  }

  lemma AcceptedRequest(server: Server, m: Letter, busy: bool, time: nat, backend: Status, e: Sending)
    ensures var (next, _, _) := server.Accept(m, busy, time, backend, e);
            && next.maxRequest == server.maxRequest && next.maxResponse == server.maxResponse
            && next.drop == server.drop
            && (server.Unusable(m, busy).Some? ==> next.active == server.active)
            && (server.active ==> next.id == server.id && next.sequence == server.sequence)
            && (server.Unusable(m, busy).None? ==>
                  && (next.active <==> Verdict(m.payload, time, backend) == Ok)
                  && next.id == ParseRequest(m.payload).value.id && next.sequence == m.sequence)
  {
  }

  lemma CompletedServer(server: Server, status: Status, body: seq<Byte>, e: Sending)
    ensures var next := server.Complete(status, body, e).0;
            && !next.active && !next.drop
            && next.maxRequest == server.maxRequest && next.maxResponse == server.maxResponse
  {
  }

  class CanRpcServer {
    const routeId: nat
    const priority: nat
    const retryTimeout: U64
    const maximumRetries: nat
    const writer: FrameWriter
    const responsePayload: array<Byte>
    const requestReceiver: ReliableReceiver
    var responseSender: ReliableSender
    var bound: bool
    var state: Server  // the active request and the statistics

    ghost predicate Parts()
      reads this, responseSender, responseSender.payload, requestReceiver, requestReceiver.payload,
            requestReceiver.fragmentLengths
    {
      && responseSender.Valid() && requestReceiver.Valid()
      && responsePayload != responseSender.payload
      && responsePayload !in {requestReceiver.payload, requestReceiver.fragmentLengths}
      && responseSender.payload !in {requestReceiver.payload, requestReceiver.fragmentLengths}
      && responsePayload.Length == responseSender.payload.Length == RESPONSE_HEADER + state.maxResponse <= CAPACITY
      && requestReceiver.payload.Length == REQUEST_HEADER + state.maxRequest
      && responseSender.model.pending == None
    }

    /** While a request is active there is no response on its way, so its own can always be begun. */
    ghost predicate Valid()
      reads this, responseSender, responseSender.payload, requestReceiver, requestReceiver.payload,
            requestReceiver.fragmentLengths
    {
      && Parts() && (state.drop ==> state.active)
      && (state.active ==> state.id != 0 && state.sequence < 16 && !responseSender.model.Busy())
    }

    /** A response stopped at a refused frame. */
    ghost predicate Blocked()
      reads this, responseSender
    {
      responseSender.model.state == RP.Sending
    }

    constructor (routeId: nat, priority: nat, retryTimeout: U64, maximumRetries: nat, maxRequest: nat,
                 maxResponse: nat, writer: FrameWriter)
      requires REQUEST_HEADER + maxRequest <= CAPACITY && RESPONSE_HEADER + maxResponse <= CAPACITY
      ensures Valid() && fresh(responseSender) && fresh(responseSender.payload) && fresh(requestReceiver)
      ensures fresh(responsePayload) && fresh(requestReceiver.payload) && fresh(requestReceiver.fragmentLengths)
      ensures this.writer == writer && this.routeId == routeId && this.priority == priority && !bound
      ensures this.retryTimeout == retryTimeout && this.maximumRetries == maximumRetries
      ensures responseSender.model == RP.NewSender(RESPONSE_HEADER + maxResponse)
      ensures requestReceiver.model == RP.NewReceiver(REQUEST_HEADER + maxRequest, 0)
      ensures state == Server(maxRequest, maxResponse, false, false, 0, 0, 0, 0, 0, 0, 0, 0)
    {
      this.routeId, this.priority, this.writer := routeId, priority, writer;
      this.retryTimeout, this.maximumRetries := retryTimeout, maximumRetries;
      bound := false;
      state := Server(maxRequest, maxResponse, false, false, 0, 0, 0, 0, 0, 0, 0, 0);
      responsePayload := new Byte[RESPONSE_HEADER + maxResponse];
      responseSender := new ReliableSender(RESPONSE_HEADER + maxResponse);
      requestReceiver := new ReliableReceiver(REQUEST_HEADER + maxRequest, 0);
    }

    /** `registered` is the answer of the local backend. */
    method Bind(registered: Status) returns (status: Status)
      requires Valid()
      modifies this`bound
      ensures Valid() && bound == (old(bound) || registered == Ok)
      ensures status == if old(bound) then InvalidState else registered
    {
      if bound {
        return InvalidState;
      }
      bound := registered == Ok;
      return registered;
    }

    /** The route, priority and timeout are such that the sender takes a message. */
    predicate CanSend() {
      EncodeId(priority, routeId).Some? && retryTimeout != 0
    }

    /** `response` was begun under `sequence`, and its frames written up to a refused one, if any. */
    ghost predicate Answering(before: seq<CanFrame>, begun: RP.Sender, response: Response, sequence: nat, now: U64,
                              pump: Status)
      reads this, responseSender, writer
    {
      && Took(begun, EncodeId(priority, routeId), sequence, ResponseBytes(response), now, retryTimeout, maximumRetries)
      && Repeated(begun, responseSender.model, writer.answers, before, writer.offered, pump)
    }

    /**
     What became of a response: it is begun exactly if it may be sent, the clock can be read and the
     sender takes it. `e` is what the model of CanRpc is told.
     */
    ghost predicate Owed(before: seq<CanFrame>, begun: RP.Sender, response: Response, sequence: nat, clock: Status,
                         now: U64, e: Sending)
      reads this, responseSender, writer
    {
      && e.clock == clock
      && if !Sendable(response, state.maxResponse) || clock != Ok
         then writer.offered == before && !responseSender.model.Busy() && e.pump == Ok
         else if !CanSend()
         then writer.offered == before && !responseSender.model.Busy() && e.pump == Ok && e.begin != Ok
         else e.begin == Ok && Answering(before, begun, response, sequence, now, e.pump)
    }

    /** Lay out, begin and write a response. `e` is what the model of CanRpc is told about it. */
    method Respond(response: Response, sequence: nat, clock: Status, now: U64)
      returns (e: Sending, ghost begun: RP.Sender)
      requires Parts() && !responseSender.model.Busy() && sequence < 16
      modifies responsePayload, responseSender, responseSender.payload, writer
      ensures Parts() && Owed(old(writer.offered), begun, response, sequence, clock, now, e)
    {
      e, begun := Sending(clock, Ok, Ok), responseSender.model;
      if !Sendable(response, state.maxResponse) || clock != Ok {
        return;
      }
      WriteResponse(responsePayload, response);
      var payload := responsePayload[..RESPONSE_HEADER + |response.body|];
      var begin, pump;
      begin, pump, begun := Post(responseSender, writer, routeId, priority, sequence, payload, now, retryTimeout,
                                 maximumRetries);
      e := Sending(clock, begin, pump);
    }

    /** The message a frame completes for this server. */
    ghost function Heard(frame: CanFrame): Option<Message>
      reads this, requestReceiver, writer
    {
      if bound && ForReceiver(frame, routeId)
      then Kept(requestReceiver.model.AcceptFrame(frame, None).1, writer.answers, writer.offered)
      else None
    }

    /** A late or refused request was answered, as far as it could be. */
    ghost predicate AnsweredAtOnce(before: seq<CanFrame>, begun: RP.Sender, m: Message, verdict: Status, clock: Status,
                                   now: U64, e: Sending)
      reads this, responseSender, writer
    {
      && |m.payload| >= REQUEST_HEADER
      && Owed(before, begun, Response(verdict, ParseRequest(m.payload).value.id, []), m.sequence, clock, now, e)
    }

    /** A request that is taken up: nothing else is under way and it reads as a request. */
    ghost predicate Usable(m: Message)
      reads this, responseSender
    {
      && !state.active && !responseSender.model.Busy()
      && REQUEST_HEADER <= |m.payload| <= REQUEST_HEADER + state.maxRequest
      && ParseRequest(m.payload).value.id != 0
    }

    /**
     A frame off the bus makes a request active exactly if it completes a usable request in time that
     the local backend accepts; one that is late or not accepted is answered at once.
     */
    method Accept(frame: CanFrame, time: U64, backend: Status, clock: Status, now: U64)
      returns (status: Status, e: Sending, ghost begun: RP.Sender)
      requires Valid()
      modifies this`state, responsePayload, responseSender, responseSender.payload, requestReceiver,
               requestReceiver.payload, requestReceiver.fragmentLengths, writer
      ensures Valid()
      ensures state.active && !old(state).active <==>
              old(Heard(frame).Some? && Usable(Heard(frame).value))
              && Verdict(old(Heard(frame)).value.payload, time, backend) == Ok
      ensures state.active && !old(state).active ==>
                && state.id == ParseRequest(old(Heard(frame)).value.payload).value.id
                && state.sequence == old(Heard(frame)).value.sequence
      ensures old(state).active ==>
                && state.active && state.id == old(state).id && state.sequence == old(state).sequence
                && state.drop == old(state).drop && !responseSender.model.Busy()
      ensures old(Heard(frame).Some? && Usable(Heard(frame).value))
              && Verdict(old(Heard(frame)).value.payload, time, backend) != Ok ==>
                AnsweredAtOnce(old(writer.offered + AckOf(requestReceiver.model.AcceptFrame(frame, None).1)), begun,
                               old(Heard(frame)).value, Verdict(old(Heard(frame)).value.payload, time, backend),
                               clock, now, e)
      ensures old(Heard(frame)).Some? ==>
                (state, status) == AcceptedAs(old(state), old(Heard(frame)).value, old(responseSender.model.Busy()), time,
                                              backend, e)
      ensures old(Heard(frame)).None? ==> state == old(state).(sendFailures := state.sendFailures)
      ensures bound && ForReceiver(frame, routeId) ==>
                requestReceiver.model == old(requestReceiver.model).AcceptFrame(frame, None).0
      ensures old(Heard(frame)).None? && bound && ForReceiver(frame, routeId) ==>
                responseSender.model == old(responseSender.model)
      ensures bound && ForReceiver(frame, routeId) &&
              (state.active || old(Heard(frame).None? || !Usable(Heard(frame).value))) ==>
                writer.offered == old(writer.offered + AckOf(requestReceiver.model.AcceptFrame(frame, None).1))
      ensures old(Blocked()) ==> Blocked() && !state.active
    {
      e, begun := Sending(clock, Ok, Ok), responseSender.model;
      var message;
      status, message := Hear(frame);
      if message.Some? {
        status, e, begun := TakeUp(message.value, time, backend, clock, now);
      }
    }

    /** The frame's way up to the message it completes. */
    method Hear(frame: CanFrame) returns (status: Status, message: Option<Message>)
      requires Valid()
      modifies this`state, responseSender, requestReceiver, requestReceiver.payload, requestReceiver.fragmentLengths,
               writer
      ensures Valid() && message == old(Heard(frame)) && state == old(state).(sendFailures := state.sendFailures)
      ensures message.Some? ==>
                && message.value.sequence < 16 && state == old(state) && bound && ForReceiver(frame, routeId)
      ensures ForReceiver(frame, routeId) ==> responseSender.model == old(responseSender.model)
      ensures bound && ForReceiver(frame, routeId) ==>
                && requestReceiver.model == old(requestReceiver.model).AcceptFrame(frame, None).0
                && writer.offered == old(writer.offered + AckOf(requestReceiver.model.AcceptFrame(frame, None).1))
      ensures old(Blocked()) ==> Blocked()
    {
      if !bound {
        return InvalidState, None;
      }
      if !Addressed(frame, routeId) {
        return InvalidArgument, None;
      }
      if RP.HeaderSubtype(frame.data[0]) == RP.Ack {
        status := responseSender.HandleAck(frame);
        return status, None;
      }
      var refused;
      status, message, refused := Receive(requestReceiver, writer, frame);
      if refused { state := state.(sendFailures := state.sendFailures + 1); }
    }

    method TakeUp(m: Message, time: U64, backend: Status, clock: Status, now: U64)
      returns (status: Status, e: Sending, ghost begun: RP.Sender)
      requires Valid() && m.sequence < 16
      modifies this`state, responsePayload, responseSender, responseSender.payload, writer
      ensures Valid()
      ensures (state, status) == AcceptedAs(old(state), m, old(responseSender.model.Busy()), time, backend, e)
      ensures state.active && !old(state).active <==> old(Usable(m)) && Verdict(m.payload, time, backend) == Ok
      ensures state.active && !old(state).active ==>
                state.id == ParseRequest(m.payload).value.id && state.sequence == m.sequence
      ensures !old(Usable(m)) ==> responseSender.model == old(responseSender.model)
      ensures !old(Usable(m)) || Verdict(m.payload, time, backend) == Ok ==> writer.offered == old(writer.offered)
      ensures old(state).active ==>
                && state.active && state.id == old(state).id && state.sequence == old(state).sequence
                && state.drop == old(state).drop
      ensures old(Usable(m)) && Verdict(m.payload, time, backend) != Ok ==>
                AnsweredAtOnce(old(writer.offered), begun, m, Verdict(m.payload, time, backend), clock, now, e)
    {
      var busy := responseSender.state == RP.Sending || responseSender.state == RP.WaitingForAck;
      var letter := Letter(m.sequence, m.payload);
      if state.Unusable(letter, busy).Some? {
        e, begun := Sending(clock, Ok, Ok), responseSender.model;
        AcceptedRequest(state, letter, busy, time, backend, e);
        var after := state.Accept(letter, busy, time, backend, e);
        state, status := after.0, after.1;
      } else {
        status, e, begun := Handle(m, time, backend, clock, now);
      }
    }

    method Handle(m: Message, time: U64, backend: Status, clock: Status, now: U64)
      returns (status: Status, e: Sending, ghost begun: RP.Sender)
      requires Valid() && Usable(m) && m.sequence < 16
      modifies this`state, responsePayload, responseSender, responseSender.payload, writer
      ensures Valid()
      ensures (state, status) == AcceptedAs(old(state), m, false, time, backend, e)
      ensures Verdict(m.payload, time, backend) == Ok ==> writer.offered == old(writer.offered)
      ensures state.active <==> Verdict(m.payload, time, backend) == Ok
      ensures state.id == ParseRequest(m.payload).value.id && state.sequence == m.sequence
      ensures Verdict(m.payload, time, backend) != Ok ==>
                AnsweredAtOnce(old(writer.offered), begun, m, Verdict(m.payload, time, backend), clock, now, e)
    {
      e, begun := Sending(clock, Ok, Ok), responseSender.model;
      var verdict := Verdict(m.payload, time, backend);
      if verdict != Ok {
        e, begun := Respond(Response(verdict, ParseRequest(m.payload).value.id, []), m.sequence, clock, now);
      }
      AcceptedRequest(state, Letter(m.sequence, m.payload), false, time, backend, e);
      var after := state.Accept(Letter(m.sequence, m.payload), false, time, backend, e);
      state, status := after.0, after.1;
    }

    /**
     The local call has finished: the request is no longer active, and unless the peer was reset in
     between exactly one response is begun, with the request's id and sequence.
     */
    method Complete(status: Status, body: seq<Byte>, clock: Status, now: U64)
      returns (e: Sending, ghost begun: RP.Sender)
      requires Valid() && state.active
      modifies this`state, responsePayload, responseSender, responseSender.payload, writer
      ensures Valid() && !state.active && !state.drop
      ensures state == old(state).Complete(status, body, e).0
      ensures if old(state).drop then writer.offered == old(writer.offered) && !Blocked()
              else Owed(old(writer.offered), begun, Response(status, old(state).id, body), old(state).sequence,
                        clock, now, e)
      ensures Blocked() <==> e.pump != Ok
    {
      e, begun := Sending(clock, Ok, Ok), responseSender.model;
      if !state.drop {
        e, begun := Respond(Response(status, state.id, body), state.sequence, clock, now);
      }
      CompletedServer(state, status, body, e);
      state := state.Complete(status, body, e).0;
    }

    /** The peer restarted: a request still active will not be answered. */
    method ResetPeer()
      requires Valid()
      modifies this, requestReceiver, requestReceiver.fragmentLengths
      ensures Valid() && fresh(responseSender) && fresh(responseSender.payload)
      ensures bound == old(bound) && state == old(state).ResetPeer() && (state.drop <==> state.active)
      ensures responseSender.state == RP.Idle && !Blocked()
      ensures requestReceiver.model.assembly == None && requestReceiver.model.last == None
    {
      requestReceiver.ResetPeerHistory();
      responseSender := new ReliableSender(RESPONSE_HEADER + state.maxResponse);
      state := state.ResetPeer();
    }

    /** A response that is due again is offered from the start; one that was refused never is. */
    method Poll(now: U64) returns (status: Status)
      requires Valid()
      modifies responseSender, writer
      ensures Valid()
      ensures if old(responseSender.model).Poll(now).1 == Ok
              then Repeated(old(responseSender.model).Poll(now).0, responseSender.model, writer.answers,
                            old(writer.offered), writer.offered, status)
              else
                && writer.offered == old(writer.offered) && status == old(responseSender.model).Poll(now).1
                && responseSender.model == old(responseSender.model).Poll(now).0
      ensures old(Blocked()) ==> Blocked() && status == Unavailable && writer.offered == old(writer.offered)
    {
      var retry, pump := Retry(responseSender, writer, now);
      return if retry == Ok then pump else retry;
    }
  }
}

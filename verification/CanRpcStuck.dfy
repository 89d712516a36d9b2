/**
 How the objects of CAN remote calls get stuck: one method for each way, from new objects to the
 state in which the contracts of CanRpcEnds keep them.
 */
module CanRpcStuck {
  import opened Bytes
  import opened LittleEndian
  import opened CanProtocol
  import opened Fragments
  import opened FrameWriting
  import opened RpcPayload
  import opened CanRpc
  import opened CanRpcEnds
  import RP = ReliablePath
  import ReliablePump

  /* ------------------------------------------------ receivers fed with one message */

  /** A new receiver takes a message of one fragment. */
  lemma OneFrame(maximum: nat, id: nat, sequence: nat, payload: seq<Byte>)
    requires DecodeId(id).Some? && sequence < 16 && 1 <= |payload| <= 6 && |payload| <= maximum
    ensures RP.NewReceiver(maximum, 0).AcceptFrame(RP.DataFrame(id, sequence, payload, 0), None)
         == (RP.NewReceiver(maximum, 0).(last := Some(RP.Finished(id, sequence))),
             RP.Reply(Ok, Some(Message(DecodeId(id).value.route, sequence, payload)), Some(RP.AckFrame(id, sequence))))
  {
    RP.ParseDataFrame(id, sequence, payload, 0, maximum);
    var pieces := map[0 := Piece(payload, 0)];
    assert Covers(pieces, 1) && Count(payload) == 1;
    JoinIsPayload(payload, pieces);
  }

  /** And acknowledges it again, without handing it up again. */
  lemma OneFrameAgain(r: RP.Receiver, id: nat, sequence: nat, payload: seq<Byte>)
    requires DecodeId(id).Some? && sequence < 16 && 1 <= |payload| <= 6 && |payload| <= r.maximum
    requires r.assembly.None? && r.last == Some(RP.Finished(id, sequence))
    ensures r.AcceptFrame(RP.DataFrame(id, sequence, payload, 0), None)
         == (r, RP.Reply(Unavailable, None, Some(RP.AckFrame(id, sequence))))
  {
    RP.ParseDataFrame(id, sequence, payload, 0, r.maximum);
    assert Covers(map[0 := Piece(payload, 0)], 1);
  }

  /** A receiver that has the first of two fragments. */
  function Half(maximum: nat, id: nat, sequence: nat, payload: seq<Byte>): RP.Receiver
    requires DecodeId(id).Some? && Count(payload) == 2
  {
    RP.NewReceiver(maximum, 0).(assembly := Some(RP.Assembly(id, DecodeId(id).value.route, sequence, 2,
                                                             map[0 := Piece(payload, 0)], 0)))
  }

  lemma FirstOfTwo(maximum: nat, id: nat, sequence: nat, payload: seq<Byte>)
    requires DecodeId(id).Some? && sequence < 16 && Count(payload) == 2 && |payload| <= maximum
    ensures RP.NewReceiver(maximum, 0).AcceptFrame(RP.DataFrame(id, sequence, payload, 0), None)
         == (Half(maximum, id, sequence, payload), RP.Reply(Unavailable, None, None))
  {
    RP.ParseDataFrame(id, sequence, payload, 0, maximum);
    assert 1 !in map[0 := Piece(payload, 0)];
  }

  lemma SecondOfTwo(maximum: nat, id: nat, sequence: nat, payload: seq<Byte>)
    requires DecodeId(id).Some? && sequence < 16 && Count(payload) == 2 && |payload| <= maximum
    ensures Half(maximum, id, sequence, payload).AcceptFrame(RP.DataFrame(id, sequence, payload, 1), None).1
         == RP.Reply(Ok, Some(Message(DecodeId(id).value.route, sequence, payload)), Some(RP.AckFrame(id, sequence)))
  {
    RP.ParseDataFrame(id, sequence, payload, 1, maximum);
    var pieces := map[0 := Piece(payload, 0)][1 := Piece(payload, 1)];
    assert Covers(pieces, 2);
    JoinIsPayload(payload, pieces);
  }

  /* ------------------------------------------------------------------------ client */

  /** A client whose first call is pending; its `n` frames went out to a writer that takes those. */
  method Called(routeId: nat, priority: nat, retryTimeout: U64, retries: nat, maxRequest: nat, maxResponse: nat,
                body: seq<Byte>, writer: FrameWriter) returns (c: CanRpcClient)
    requires REQUEST_HEADER + maxRequest <= CAPACITY && RESPONSE_HEADER + maxResponse <= CAPACITY
    requires EncodeId(priority, routeId).Some? && retryTimeout != 0 && |body| <= maxRequest
    requires writer.offered == []
    requires forall frames :: |frames| <= Frames(body) ==> writer.answers(frames) == Ok
    modifies writer
    ensures fresh(c) && fresh(c.requestSender) && fresh(c.responseReceiver) && c.writer == writer
    ensures fresh(c.requestPayload) && fresh(c.requestSender.payload)
    ensures fresh(c.responseReceiver.payload) && fresh(c.responseReceiver.fragmentLengths)
    ensures c.Valid() && c.routeId == routeId && c.retryTimeout == retryTimeout
    ensures FirstPending(c.state) && c.state.maxResponse == maxResponse
    ensures c.responseReceiver.model == RP.NewReceiver(RESPONSE_HEADER + maxResponse, 0)
    ensures |writer.offered| == Frames(body)
    ensures var sender := c.requestSender.model;
            && sender.state == RP.WaitingForAck && sender.deadline == retryTimeout
            && sender.retries == 0 && sender.maximumRetries == retries && Count(sender.payload) == Frames(body)
  {
    c := new CanRpcClient(routeId, priority, retryTimeout, retries, maxRequest, maxResponse, writer);
    var seal := c.Seal(true, true);
    ghost var begun := CallFirst(c, body);
  }

  /** A sealed client that has not called yet. */
  predicate Unused(c: Client) {
    c == Client(true, c.maxRequest, c.maxResponse, false, 0, 0, 0, 0, 0, 0, 0, 0, 0, 0, 0)
  }

  /** The same client with its first call pending, which has no deadline. */
  function WithFirst(c: Client): Client {
    c.(pending := true, nextSequence := 1, nextId := 1, id := 1, accepted := 1)
  }

  predicate FirstPending(c: Client) {
    c == WithFirst(Client(true, c.maxRequest, c.maxResponse, false, 0, 0, 0, 0, 0, 0, 0, 0, 0, 0, 0))
  }

  /** The first call of a sealed client. */
  method CallFirst(c: CanRpcClient, body: seq<Byte>) returns (ghost begun: RP.Sender)
    requires c.Valid() && c.CanSend() && c.writer.offered == [] && Unused(c.state)
    requires |body| <= c.state.maxRequest && c.requestSender.model.state == RP.Idle
    requires forall frames :: |frames| <= Frames(body) ==> c.writer.answers(frames) == Ok
    modifies c, c.requestPayload, c.requestSender, c.requestSender.payload, c.writer
    ensures c.Valid()
    ensures c.requestSender == old(c.requestSender) || (fresh(c.requestSender) && fresh(c.requestSender.payload))
    ensures c.state == WithFirst(old(c.state)) && c.Sent([], begun, Request(1, 0, body), 0)
  {
    var status, attempt;
    status, attempt, begun := c.CallAsync(true, true, body, 0, Ok, 0);
    FirstClient(old(c.state), attempt);
    if status != Ok {
      AllTaken(c.writer.answers, [], begun, c.writer.offered, status);
    }
  }

  /** Where every frame is accepted, none is refused. */
  lemma AllTaken(answers: seq<CanFrame> -> Status, before: seq<CanFrame>, s: RP.Sender, after: seq<CanFrame>,
                 status: Status)
    requires Count(s.payload) <= MAXIMUM_FRAGMENTS
    requires forall frames :: |frames| <= |before| + Count(s.payload) ==> answers(frames) == Ok
    ensures !Stopped(answers, before, s, after, status)
  {
  }

  lemma FirstClient(c: Client, a: Attempt)
    requires Unused(c)
    requires a == Attempt(true, true, a.body, 0, Ok, 0, false, a.begin, a.pump) && |a.body| <= c.maxRequest
    ensures c.Refusal(a).None?
    ensures c.CallAsync(a).1 == Ok ==> c.CallAsync(a).0 == WithFirst(c)
  {
  }

  /** How many frames a request takes. */
  function Frames(body: seq<Byte>): nat {
    (REQUEST_HEADER + |body| + 5) / 6
  }

  /** The frame that answers the first call, with `status` and no body. */
  function AnswerFrame(id: nat, status: Status): CanFrame {
    RP.DataFrame(id, 0, ResponseBytes(Response(status, 1, [])), 0)
  }

  /** It answers that call. */
  lemma Answers(c: Client, id: nat, status: Status)
    requires DecodeId(id).Some? && FirstPending(c)
    ensures var m := Message(DecodeId(id).value.route, 0, ResponseBytes(Response(status, 1, [])));
            && ForReceiver(AnswerFrame(id, status), DecodeId(id).value.route)
            && Answered(c, m) && Callback(c, m) == Some(Notify(1, status, []))
  {
    ResponseReadsBack(Response(status, 1, []), c.maxResponse);
  }

  /**
   Blocked: the answer comes before the request is acknowledged. The call is completed, and yet
   every later call is refused.
   */
  method AnsweredFirst(routeId: nat, priority: nat, retryTimeout: U64, retries: nat, maxRequest: nat,
                       maxResponse: nat, body: seq<Byte>, answer: Status, next: seq<Byte>, now: U64)
    returns (c: CanRpcClient, notice: Notice, refusal: Status)
    requires REQUEST_HEADER + maxRequest <= CAPACITY && RESPONSE_HEADER + maxResponse <= CAPACITY
    requires EncodeId(priority, routeId).Some? && retryTimeout != 0 && |body| <= maxRequest
    ensures c.Valid() && c.Blocked() && notice == Notify(1, answer, []) && c.state.completed == 1
    ensures refusal != Ok
  {
    IdRoundTrip(priority, routeId);
    var id := EncodeId(priority, routeId).value;
    var writer := new FrameWriter(frames => Ok);
    c := Called(routeId, priority, retryTimeout, retries, maxRequest, maxResponse, body, writer);
    notice := AcceptAnswer(c, id, answer);
    refusal := CallNext(c, next, now);
  }

  method CallNext(c: CanRpcClient, body: seq<Byte>, now: U64) returns (status: Status)
    requires c.Valid() && c.Blocked()
    modifies c, c.requestPayload, c.requestSender, c.requestSender.payload, c.writer
    ensures c.Valid() && c.Blocked() && status != Ok && c.state.completed == old(c.state).completed
  {
    var attempt;
    ghost var begun;
    status, attempt, begun := c.CallAsync(true, true, body, 0, Ok, now);
  }

  /** The answer to the first call comes in; the acknowledgement is the next frame offered. */
  method AcceptAnswer(c: CanRpcClient, id: nat, answer: Status) returns (notice: Notice)
    requires c.Valid() && DecodeId(id).Some? && c.routeId == DecodeId(id).value.route
    requires FirstPending(c.state)
    requires c.responseReceiver.model == RP.NewReceiver(RESPONSE_HEADER + c.state.maxResponse, 0)
    modifies c`state, c.requestSender, c.responseReceiver, c.responseReceiver.payload,
             c.responseReceiver.fragmentLengths, c.writer
    ensures c.Valid() && c.requestSender.model == old(c.requestSender.model)
    ensures |c.writer.offered| == |old(c.writer.offered)| + 1
    ensures c.responseReceiver.model == old(c.responseReceiver.model).(last := Some(RP.Finished(id, 0)))
    ensures if c.writer.answers(c.writer.offered) == Ok
            then notice == Notify(1, answer, []) && !c.state.pending && c.state.completed == 1
            else notice == Quiet && c.state == old(c.state).(sendFailures := c.state.sendFailures)
  {
    OneFrame(RESPONSE_HEADER + c.state.maxResponse, id, 0, ResponseBytes(Response(answer, 1, [])));
    Answers(c.state, id, answer);
    var status;
    status, notice := c.Accept(AnswerFrame(id, answer));
  }

  /**
   Lost: the answer's acknowledgement is refused. The call stays pending, and the answer does not
   complete it however often it is sent again.
   */
  method AnswerLost(routeId: nat, priority: nat, retryTimeout: U64, retries: nat, maxRequest: nat,
                    maxResponse: nat, body: seq<Byte>, answer: Status, times: nat) returns (c: CanRpcClient)
    requires REQUEST_HEADER + maxRequest <= CAPACITY && RESPONSE_HEADER + maxResponse <= CAPACITY
    requires EncodeId(priority, routeId).Some? && retryTimeout != 0 && |body| <= maxRequest
    ensures c.Valid() && c.state.pending && c.state.completed == 0
  {
    IdRoundTrip(priority, routeId);
    var id := EncodeId(priority, routeId).value;
    var n := Frames(body);
    var writer := new FrameWriter(frames => if |frames| == n + 1 then Unavailable else Ok);
    c := Called(routeId, priority, retryTimeout, retries, maxRequest, maxResponse, body, writer);
    var notice := AcceptAnswer(c, id, answer);
    AnswerAgain(c, id, answer, times);
  }

  method AnswerAgain(c: CanRpcClient, id: nat, answer: Status, times: nat)
    requires c.Valid() && DecodeId(id).Some? && c.routeId == DecodeId(id).value.route
    requires c.state.sealed && c.state.pending && c.state.completed == 0
    requires c.responseReceiver.model.assembly.None? && c.responseReceiver.model.last == Some(RP.Finished(id, 0))
    modifies c`state, c.requestSender, c.responseReceiver, c.responseReceiver.payload,
             c.responseReceiver.fragmentLengths, c.writer
    ensures c.Valid() && c.state.pending && c.state.completed == 0
  {
    for i := 0 to times
      invariant c.Valid() && c.state.sealed && c.state.pending && c.state.completed == 0
      invariant c.responseReceiver.model.assembly.None? && c.responseReceiver.model.last == Some(RP.Finished(id, 0))
    {
      OneFrameAgain(c.responseReceiver.model, id, 0, ResponseBytes(Response(answer, 1, [])));
      var status, notice := c.Accept(AnswerFrame(id, answer));
    }
  }

  /**
   Stalled: a retry is refused. The call stays pending, and no poll offers a frame again.
   */
  method RetryRefused(routeId: nat, priority: nat, retryTimeout: U64, retries: nat, maxRequest: nat,
                      maxResponse: nat, body: seq<Byte>, later: seq<U64>) returns (c: CanRpcClient)
    requires REQUEST_HEADER + maxRequest <= CAPACITY && RESPONSE_HEADER + maxResponse <= CAPACITY
    requires EncodeId(priority, routeId).Some? && retryTimeout != 0 && |body| <= maxRequest && retries > 0
    ensures c.Valid() && c.Stalled() && |c.writer.offered| == Frames(body) + 1
  {
    var n := Frames(body);
    var writer := new FrameWriter(frames => if |frames| <= n then Ok else Unavailable);
    c := Called(routeId, priority, retryTimeout, retries, maxRequest, maxResponse, body, writer);
    PollDue(c);
    PollOn(c, later);
  }

  /** The request is due again, and its first frame is refused. */
  method PollDue(c: CanRpcClient)
    requires c.Valid() && c.state.sealed && c.state.pending && c.state.deadline == 0
    requires c.requestSender.model.state == RP.WaitingForAck && c.requestSender.model.deadline == c.retryTimeout
    requires c.requestSender.model.retries < c.requestSender.model.maximumRetries
    requires forall frames :: |frames| > |c.writer.offered| ==> c.writer.answers(frames) != Ok
    modifies c, c.requestSender, c.writer
    ensures c.Valid() && c.Stalled() && c.state.deadline == 0 && |c.writer.offered| == |old(c.writer.offered)| + 1
    ensures c.requestSender == old(c.requestSender) || fresh(c.requestSender)
  {
    ghost var before, again := c.writer.offered, c.requestSender.model.Poll(c.retryTimeout).0;
    var status, notice := c.Poll(c.retryTimeout);
    NoneTaken(c.writer.answers, before, again, c.requestSender.model, c.writer.offered, status);
  }

  lemma OneTaken(answers: seq<CanFrame> -> Status, before: seq<CanFrame>, s: RP.Sender, n: nat)
    requires 0 < n <= Count(s.payload) <= MAXIMUM_FRAGMENTS
    requires Went(answers, before, s, n, before + ReliablePump.FirstFrames(s, n))
    ensures exists frames :: |frames| > |before| && answers(frames) == Ok
  {
    assert answers(before + ReliablePump.FirstFrames(s, 1)) == Ok;
  }

  lemma NoneTaken(answers: seq<CanFrame> -> Status, before: seq<CanFrame>, again: RP.Sender, s: RP.Sender,
                  after: seq<CanFrame>, status: Status)
    requires Repeated(again, s, answers, before, after, status) && s.payload != []
    requires forall frames :: |frames| > |before| ==> answers(frames) != Ok
    ensures status != Ok && s.next == 0 && |after| == |before| + 1
  {
    if s.next > 0 { OneTaken(answers, before, again, s.next); }
  }

  method PollOn(c: CanRpcClient, later: seq<U64>)
    requires c.Valid() && c.Stalled() && c.state.deadline == 0
    modifies c, c.requestSender, c.writer
    ensures c.Valid() && c.Stalled() && c.writer.offered == old(c.writer.offered)
  {
    for i := 0 to |later|
      invariant c.Valid() && c.Stalled() && c.state.deadline == 0 && c.writer.offered == old(c.writer.offered)
      invariant c.requestSender == old(c.requestSender) || fresh(c.requestSender)
    {
      var status, notice := c.Poll(later[i]);
    }
  }

  /* ------------------------------------------------------------------------ server */

  /**
   Blocked: a frame of the response is refused. The server takes up no later request.
   */
  method ResponseRefused(routeId: nat, priority: nat, retryTimeout: U64, retries: nat, maxRequest: nat,
                         maxResponse: nat, requestId: nat, status: Status, later: seq<U64>) returns (d: CanRpcServer)
    requires REQUEST_HEADER + maxRequest <= CAPACITY && RESPONSE_HEADER + maxResponse <= CAPACITY
    requires EncodeId(priority, routeId).Some? && retryTimeout != 0 && 0 < requestId <= U32_MAX
    ensures d.Valid() && d.Blocked()
  {
    IdRoundTrip(priority, routeId);
    var id := EncodeId(priority, routeId).value;
    var writer := new FrameWriter(frames => if |frames| <= 1 then Ok else Unavailable);
    d := new CanRpcServer(routeId, priority, retryTimeout, retries, maxRequest, maxResponse, writer);
    var bind := d.Bind(Ok);
    TakeRequest(d, id, requestId);
    CompleteRefused(d, status);
    PollServer(d, later);
  }

  method CompleteRefused(d: CanRpcServer, status: Status)
    requires d.Valid() && d.state.active && !d.state.drop && d.CanSend()
    requires forall frames :: |frames| > |d.writer.offered| ==> d.writer.answers(frames) != Ok
    modifies d`state, d.responsePayload, d.responseSender, d.responseSender.payload, d.writer
    ensures d.Valid() && d.Blocked()
  {
    ghost var before := d.writer.offered;
    var e;
    ghost var begun;
    e, begun := d.Complete(status, [], Ok, 0);
    NoneTaken(d.writer.answers, before, begun, d.responseSender.model, d.writer.offered, e.pump);
  }

  method PollServer(d: CanRpcServer, later: seq<U64>)
    requires d.Valid() && d.Blocked()
    modifies d.responseSender, d.writer
    ensures d.Valid() && d.Blocked() && d.writer.offered == old(d.writer.offered)
  {
    for i := 0 to |later|
      invariant d.Valid() && d.Blocked() && d.writer.offered == old(d.writer.offered)
    {
      var polled := d.Poll(later[i]);
    }
  }

  /** A request without a body is received whole, acknowledged and taken up. */
  method TakeRequest(d: CanRpcServer, id: nat, requestId: nat)
    requires d.Valid() && d.bound && DecodeId(id).Some? && d.routeId == DecodeId(id).value.route
    requires !d.state.active && !d.responseSender.model.Busy() && 0 < requestId <= U32_MAX && d.writer.offered == []
    requires d.requestReceiver.model == RP.NewReceiver(REQUEST_HEADER + d.state.maxRequest, 0)
    requires forall frames :: |frames| <= 1 ==> d.writer.answers(frames) == Ok
    modifies d`state, d.responsePayload, d.responseSender, d.responseSender.payload, d.requestReceiver,
             d.requestReceiver.payload, d.requestReceiver.fragmentLengths, d.writer
    ensures d.Valid() && d.state.active && !d.state.drop && |d.writer.offered| == 1
  {
    TakeFirst(d, id, requestId);
    TakeSecond(d, id, requestId);
  }

  function Bare(requestId: nat): seq<Byte> {
    RequestBytes(Request(requestId, 0, []))
  }

  method TakeFirst(d: CanRpcServer, id: nat, requestId: nat)
    requires d.Valid() && d.bound && DecodeId(id).Some? && d.routeId == DecodeId(id).value.route
    requires d.requestReceiver.model == RP.NewReceiver(REQUEST_HEADER + d.state.maxRequest, 0)
    modifies d`state, d.responsePayload, d.responseSender, d.responseSender.payload, d.requestReceiver,
             d.requestReceiver.payload, d.requestReceiver.fragmentLengths, d.writer
    ensures d.Valid() && d.writer.offered == old(d.writer.offered)
    ensures d.requestReceiver.model == Half(REQUEST_HEADER + d.state.maxRequest, id, 0, Bare(requestId))
    ensures d.responseSender.model == old(d.responseSender.model)
    ensures d.state == old(d.state).(sendFailures := d.state.sendFailures)
  {
    FirstOfTwo(REQUEST_HEADER + d.state.maxRequest, id, 0, Bare(requestId));
    var status, e;
    ghost var begun;
    status, e, begun := d.Accept(RP.DataFrame(id, 0, Bare(requestId), 0), 0, Ok, Ok, 0);
  }

  method TakeSecond(d: CanRpcServer, id: nat, requestId: nat)
    requires d.Valid() && d.bound && DecodeId(id).Some? && d.routeId == DecodeId(id).value.route
    requires !d.state.active && !d.responseSender.model.Busy() && 0 < requestId <= U32_MAX && d.writer.offered == []
    requires d.requestReceiver.model == Half(REQUEST_HEADER + d.state.maxRequest, id, 0, Bare(requestId))
    requires forall frames :: |frames| <= 1 ==> d.writer.answers(frames) == Ok
    modifies d`state, d.responsePayload, d.responseSender, d.responseSender.payload, d.requestReceiver,
             d.requestReceiver.payload, d.requestReceiver.fragmentLengths, d.writer
    ensures d.Valid() && d.state.active && !d.state.drop && |d.writer.offered| == 1
  {
    RequestReadsBack(Request(requestId, 0, []));
    SecondOfTwo(REQUEST_HEADER + d.state.maxRequest, id, 0, Bare(requestId));
    var status, e;
    ghost var begun;
    status, e, begun := d.Accept(RP.DataFrame(id, 0, Bare(requestId), 1), 0, Ok, Ok, 0);
  }
}

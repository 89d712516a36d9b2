/**
 Remote calls over the reliable CAN path: the client with its one pending call, the server with
 its one active request. What the reliable sender and receiver, the clock and the local
 backend answer are inputs; every combination of them is allowed.
 */
module CanRpc {
  import opened Bytes
  import opened RpcPayload

  /** A message given to, or handed up by, the reliable path. */
  datatype Letter = Letter(sequence: nat, payload: seq<Byte>)

  /** The completion callback of a call. */
  datatype Notice = Quiet | Notify(id: nat, status: Status, body: seq<Byte>)

  /* ------------------------------------------------------------------ client */

  datatype Attempt = Attempt(
    sameService: bool, hasCompletion: bool, body: seq<Byte>, deadline: nat,
    clock: Status, now: nat, senderBusy: bool, begin: Status, pump: Status)

  datatype Client = Client(
    sealed: bool, maxRequest: nat, maxResponse: nat,
    pending: bool, sequence: nat, nextSequence: nat, nextId: nat,
    id: nat, deadline: nat,
    accepted: nat, completed: nat, rejected: nat, timeouts: nat, decodeFailures: nat, sendFailures: nat)
  {
    function Reject(): Client { this.(rejected := rejected + 1) }

    /** Why a call is turned away before anything is changed, if it is. */
    function Refusal(a: Attempt): Option<Status> {
      if !sealed then Some(InvalidState)
      else if !a.sameService || |a.body| > maxRequest then Some(TypeMismatch)
      else if !a.hasCompletion then Some(InvalidArgument)
      else if a.clock != Ok then Some(a.clock)
      else if a.deadline != 0 && a.now >= a.deadline then Some(Timeout)
      else if pending || a.senderBusy then Some(CapacityExceeded)
      else None
    }

    /** Request ids run through 1 .. 2^32 - 1 and skip zero. */
    function FreshId(): (id: nat)
      ensures nextId <= U32_MAX ==> 1 <= id <= U32_MAX
    {
      var next := (nextId + 1) % (U32_MAX + 1);
      if next == 0 then 1 else next
    }

    /** The call gets the next request id and the next sequence. */
    function Numbered(deadline': nat): Client {
      this.(nextId := FreshId(), sequence := nextSequence, nextSequence := (nextSequence + 1) % 16,
            id := FreshId(), deadline := deadline')
    }

    function CallAsync(a: Attempt): (Client, Status, Option<Letter>) {
      match Refusal(a)
      case Some(status) =>
        var late := if sealed && status == Timeout && a.clock == Ok then 1 else 0;
        (Reject().(timeouts := timeouts + late), status, None)
      case None =>
        var begun := Numbered(a.deadline);
        var letter := Letter(begun.sequence, RequestBytes(Request(begun.id, a.deadline, a.body)));
        if a.begin != Ok then (begun.Reject(), a.begin, None)
        else if a.pump != Ok then (begun.(sendFailures := sendFailures + 2), a.pump, Some(letter))
        else (begun.(pending := true, accepted := accepted + 1), Ok, Some(letter))
    }

    /** A message of the response path; frames that complete none change nothing here. */
    function Accept(m: Letter): (Client, Status, Notice) {
      if !sealed then (this, InvalidState, Quiet)
      else if !pending then (this, Unavailable, Quiet)
      else if m.sequence != sequence || |m.payload| < RESPONSE_HEADER || ResponseId(m.payload) != id then
        (this.(decodeFailures := decodeFailures + 1), TypeMismatch, Quiet)
      else
        match ParseResponse(m.payload, maxResponse)
        case None => (this.(decodeFailures := decodeFailures + 1), InvalidArgument, Quiet)
        case Some(response) =>
          (this.(pending := false, completed := completed + 1), Ok, Notify(id, response.status, response.body))
    }

    function FinishTimeout(): (Client, Notice) {
      (this.(pending := false, timeouts := timeouts + 1, completed := completed + 1), Notify(id, Timeout, []))
    }

    /** `retry` is what the sender's own poll says, `pump` what writing the frames again says. */
    function Poll(now: nat, retry: Status, pump: Status): (Client, Status, Notice) {
      if !sealed then (this, InvalidState, Quiet)
      else if !pending then (this, Unavailable, Quiet)
      else if deadline != 0 && now >= deadline then
        (FinishTimeout().0, Timeout, FinishTimeout().1)
      else if retry == Ok then (if pump == Ok then this else this.(sendFailures := sendFailures + 1), pump, Quiet)
      else if retry == Timeout then (FinishTimeout().0, Timeout, FinishTimeout().1)
      else (this, retry, Quiet)
    }

    function ResetPeer(): (Client, Notice) {
      if !pending then (this, Quiet)
      else (this.(pending := false, completed := completed + 1), Notify(id, Unavailable, []))
    }
  }

  /* ------------------------------------------------------------------ server */

  /** The clock and the reliable sender, when a response is to be sent. */
  datatype Sending = Sending(clock: Status, begin: Status, pump: Status)

  datatype Server = Server(
    maxRequest: nat, maxResponse: nat,
    active: bool, drop: bool, id: nat, sequence: nat,
    requests: nat, responses: nat, rejected: nat, timeouts: nat, decodeFailures: nat, sendFailures: nat)
  {
    function SendResponse(status: Status, body: seq<Byte>, e: Sending): (Server, Status, Option<Letter>) {
      var response := Response(status, id, body);
      if !Sendable(response, maxResponse) then (this, InvalidArgument, None)
      else if e.clock != Ok then (this, e.clock, None)
      else if e.begin != Ok then (this, e.begin, None)
      else
        var letter := Letter(sequence, ResponseBytes(response));
        if e.pump != Ok then (this.(sendFailures := sendFailures + 1), e.pump, Some(letter))
        else (this.(responses := responses + 1), Ok, Some(letter))
    }

    /** Why a request is not taken up, if it is not. */
    function Unusable(m: Letter, senderBusy: bool): Option<(Server, Status)> {
      if active || senderBusy then Some((this.(rejected := rejected + 1), CapacityExceeded))
      else if |m.payload| < REQUEST_HEADER || |m.payload| - REQUEST_HEADER > maxRequest then
        Some((this.(decodeFailures := decodeFailures + 1), TypeMismatch))
      else if ParseRequest(m.payload).value.id == 0 then
        Some((this.(decodeFailures := decodeFailures + 1, id := 0), InvalidArgument))
      else None
    }

    /** `backend` is the answer of the local call. */
    function Accept(m: Letter, senderBusy: bool, time: nat, backend: Status, e: Sending)
      : (Server, Status, Option<Letter>)
    {
      match Unusable(m, senderBusy)
      case Some(refused) => (refused.0, refused.1, None)
      case None =>
        var request := ParseRequest(m.payload).value;
        var taken := this.(id := request.id, sequence := m.sequence);
        if request.deadline != 0 && time >= request.deadline then
          taken.(timeouts := timeouts + 1).SendResponse(Timeout, [], e)
        else if backend != Ok then
          taken.(rejected := rejected + 1).SendResponse(backend, [], e)
        else (taken.(active := true, requests := requests + 1), Ok, None)
    }

    /** The local call's completion. */
    function Complete(status: Status, body: seq<Byte>, e: Sending): (Server, Option<Letter>) {
      if drop then (this.(active := false, drop := false), None)
      else
        var (sent, result, letter) := this.(active := false).SendResponse(status, body, e);
        (if result == Ok then sent else sent.(sendFailures := sent.sendFailures + 1), letter)
    }

    function ResetPeer(): Server { this.(drop := active) }
  }
}

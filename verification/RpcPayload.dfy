/** The payloads of CAN remote calls: request and response headers, and status codes. */
module RpcPayload {
  import opened Bytes
  import opened LittleEndian

  const REQUEST_HEADER := 12
  const RESPONSE_HEADER := 5

  datatype Request = Request(id: nat, deadline: nat, body: seq<Byte>)
  {
    /** The ranges of the header's machine types. */
    predicate Typed() { id <= U32_MAX && deadline <= U64_MAX }
  }

  datatype Response = Response(status: Status, id: nat, body: seq<Byte>)

  function StatusCode(status: Status): Byte {
    match status
    case Ok => 0
    case InvalidArgument => 1
    case InvalidState => 2
    case CapacityExceeded => 3
    case Unavailable => 4
    case Timeout => 5
    case Cancelled => 6
    case TypeMismatch => 7
    case NotFound => 8
    case AlreadyExists => 9
    case VersionMismatch => 10
    case Internal => 11
    case ProtocolError => 12
  }

  function FromCode(code: Byte): (status: Option<Status>)
    ensures status.Some? ==> StatusCode(status.value) == code
  {
    match code
    case 0 => Some(Ok)
    case 1 => Some(InvalidArgument)
    case 2 => Some(InvalidState)
    case 3 => Some(CapacityExceeded)
    case 4 => Some(Unavailable)
    case 5 => Some(Timeout)
    case 6 => Some(Cancelled)
    case 7 => Some(TypeMismatch)
    case 8 => Some(NotFound)
    case 9 => Some(AlreadyExists)
    case 10 => Some(VersionMismatch)
    case 11 => Some(Internal)
    case 12 => Some(ProtocolError)
    case _ => None
  }

  function RequestBytes(r: Request): (bytes: seq<Byte>)
    ensures |bytes| == REQUEST_HEADER + |r.body|
  {
    ToLe(r.id, 4) + ToLe(r.deadline, 8) + r.body
  }

  function ParseRequest(payload: seq<Byte>): Option<Request> {
    if |payload| < REQUEST_HEADER then None
    else Some(Request(FromLe(payload[..4]), FromLe(payload[4..12]), payload[12..]))
  }

  lemma RequestReadsBack(r: Request)
    requires r.Typed()
    ensures ParseRequest(RequestBytes(r)) == Some(r)
  {
    Widths();
    LeRoundTrip(r.id, 4);
    LeRoundTrip(r.deadline, 8);
    var bytes := RequestBytes(r);
    assert bytes[..4] == ToLe(r.id, 4) && bytes[4..12] == ToLe(r.deadline, 8) && bytes[12..] == r.body;
  }

  function ResponseBytes(r: Response): (bytes: seq<Byte>)
    ensures |bytes| == RESPONSE_HEADER + |r.body|
  {
    [StatusCode(r.status)] + ToLe(r.id, 4) + r.body
  }

  function ResponseId(payload: seq<Byte>): nat
    requires |payload| >= RESPONSE_HEADER
  {
    FromLe(payload[1..5])
  }

  /** The client's checks after the request id has matched. */
  function ParseResponse(payload: seq<Byte>, maximum: nat): Option<Response>
    requires |payload| >= RESPONSE_HEADER
  {
    match FromCode(payload[0])
    case None => None
    case Some(status) =>
      if status == Ok && |payload| - RESPONSE_HEADER > maximum then None
      else if status != Ok && |payload| != RESPONSE_HEADER then None
      else Some(Response(status, ResponseId(payload), payload[5..]))
  }

  /** What the server lets itself send. */
  predicate Sendable(r: Response, maximum: nat) {
    |r.body| <= maximum && (r.status != Ok ==> r.body == [])
  }

  lemma ResponseReadsBack(r: Response, maximum: nat)
    requires r.id <= U32_MAX && Sendable(r, maximum)
    ensures ResponseId(ResponseBytes(r)) == r.id
    ensures ParseResponse(ResponseBytes(r), maximum) == Some(r)
  {
    Widths();
    LeRoundTrip(r.id, 4);
    var bytes := ResponseBytes(r);
    assert bytes[1..5] == ToLe(r.id, 4) && bytes[5..] == r.body;
  }
}

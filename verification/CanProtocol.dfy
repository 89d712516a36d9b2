/** Classic CAN frames: the 11-bit arbitration id and the header byte. */
module CanProtocol {
  import opened Bytes

  const MAXIMUM_ROUTE_ID := 511
  const FIRST_APPLICATION_ROUTE_ID := 8

  /** A frame on the bus; `data` holds exactly the bytes counted by its size field. */
  datatype CanFrame = CanFrame(id: nat, data: seq<Byte>)

  datatype ArbitrationId = ArbitrationId(priority: nat, route: nat)

  function EncodeId(priority: nat, route: nat): (id: Option<nat>)
    ensures id.Some? ==> id.value <= 0x7ff
  {
    if route == 0 || route > MAXIMUM_ROUTE_ID || priority > 3 then None
    else Some(priority * 512 + route)
  }

  function DecodeId(id: nat): (decoded: Option<ArbitrationId>)
    ensures decoded.Some? ==> EncodeId(decoded.value.priority, decoded.value.route) == Some(id)
  {
    if id > 0x7ff || id % 512 == 0 then None
    else Some(ArbitrationId(id / 512, id % 512))
  }

  /** Every id the encoder produces decodes to the same priority and route, and nothing else decodes. */
  lemma IdRoundTrip(priority: nat, route: nat)
    ensures EncodeId(priority, route).Some? <==> 0 < route <= MAXIMUM_ROUTE_ID && priority <= 3
    ensures EncodeId(priority, route).Some? ==>
              DecodeId(EncodeId(priority, route).value) == Some(ArbitrationId(priority, route))
  {
    if EncodeId(priority, route).Some? {
      assert (priority * 512 + route) % 512 == route;
    }
  }

  datatype FrameKind = FastSingle | FastFragment | Reliable | Control

  /** The top two bits of the header byte. */
  function Kind(header: Byte): FrameKind {
    match header / 64
    case 0 => FastSingle
    case 1 => FastFragment
    case 2 => Reliable
    case _ => Control
  }

  datatype Message = Message(route: nat, sequence: nat, payload: seq<Byte>)
}

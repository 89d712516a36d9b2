/** Bytes, machine words and the status codes shared by every transport. */
module Bytes {
  type Byte = b: int | 0 <= b < 256

  const U16_MAX := 0xffff
  const U32_MAX := 0xffff_ffff
  const U64_MAX := 0xffff_ffff_ffff_ffff

  type U64 = x: int | 0 <= x <= U64_MAX

  datatype Option<+T> = None | Some(value: T)

  datatype Status =
    | Ok
    | InvalidArgument
    | InvalidState
    | CapacityExceeded
    | Unavailable
    | Timeout
    | Cancelled
    | TypeMismatch
    | NotFound
    | AlreadyExists
    | VersionMismatch
    | Internal
    | ProtocolError

  /** Unsigned 64-bit addition that sticks at the maximum. */
  function SaturatingAdd(value: U64, increment: U64): (sum: U64)
    ensures sum >= value && sum >= increment
    ensures sum == value + increment || (sum == U64_MAX && value + increment > U64_MAX)
  {
    if increment > U64_MAX - value then U64_MAX else value + increment
  }
}

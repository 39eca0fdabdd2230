/** The value types every layer shares: fixed-width integers, RTPS identifiers,
    transport addresses and the result of an operation that may fail. */
module Types {

  /** A result that may be absent. A decoder that rejects its input returns None. */
  datatype Option<+T> = None | Some(value: T) {
    predicate IsFailure() {
      None?
    }

    function PropagateFailure<U>(): Option<U>
      requires None?
    {
      None
    }

    function Extract(): T
      requires Some?
    {
      value
    }

    function GetOr(other: T): T {
      if Some? then value else other
    }
  }

  const TWO_32: int := 0x1_0000_0000
  const TWO_63: int := 0x8000_0000_0000_0000
  const TWO_64: int := 0x1_0000_0000_0000_0000
  const INT64_MAX: int := TWO_63 - 1
  const INT32_MAX: int := 0x7FFF_FFFF

  newtype Byte = b: int | 0 <= b < 0x100
  type UInt16 = n: int | 0 <= n < 0x1_0000
  type UInt32 = n: int | 0 <= n < TWO_32
  type UInt64 = n: int | 0 <= n < TWO_64
  type Int32 = n: int | -0x8000_0000 <= n < 0x8000_0000
  type Int64 = n: int | -TWO_63 <= n < TWO_63

  type Bytes = seq<Byte>

  type EntityId = s: Bytes | |s| == 4 witness [0, 0, 0, 0]
  type GuidPrefix = s: Bytes | |s| == 12 witness [0, 0, 0, 0, 0, 0, 0, 0, 0, 0, 0, 0]

  const UNKNOWN_ENTITY: EntityId := [0, 0, 0, 0]

  datatype Guid = Guid(prefix: GuidPrefix, entity: EntityId)

  datatype Endpoint = Endpoint(address: Bytes, port: UInt16)

  datatype Datagram = Datagram(payload: Bytes, source: Endpoint)

  /** What a transport hands over when it is asked for a datagram. */
  datatype Received = Timeout | Failed | Got(datagram: Datagram)

  /** A sample as the histories store it; every change here has kind "alive". */
  datatype CacheChange = CacheChange(writer: Guid, sequence: int, payload: Bytes)

  function Max(a: int, b: int): int {
    if a >= b then a else b
  }

  function Min(a: int, b: int): int {
    if a <= b then a else b
  }

  /** Does a submessage addressed to `target` concern the endpoint `local`? */
  predicate TargetsEntity(target: EntityId, local: EntityId) {
    target == UNKNOWN_ENTITY || target == local
  }

  /** The two's complement pattern of a signed 32-bit value, and its inverse. */
  function UnsignedOf32(n: Int32): UInt32 {
    if n < 0 then n + TWO_32 else n
  }

  function SignedOf32(n: UInt32): Int32 {
    if n < 0x8000_0000 then n else n - TWO_32
  }

  function UnsignedOf64(n: Int64): UInt64 {
    if n < 0 then n + TWO_64 else n
  }

  function SignedOf64(n: UInt64): Int64 {
    if n < TWO_63 then n else n - TWO_64
  }
}

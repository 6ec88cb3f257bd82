/** Fixed-width words, the option type and the address forms the other modules share. */
module Words {

  const TWO16: int := 0x1_0000
  const TWO32: int := 0x1_0000_0000
  const TWO64: int := 0x1_0000_0000_0000_0000

  type uint8 = x: int | 0 <= x < 0x100
  type uint16 = x: int | 0 <= x < 0x1_0000
  type uint32 = x: int | 0 <= x < 0x1_0000_0000
  type uint64 = x: int | 0 <= x < 0x1_0000_0000_0000_0000

  datatype Option<+T> = None | Some(value: T)

  /** An IPv6 address as it lies in memory: sixteen bytes in network order. */
  type Ipv6 = b: seq<uint8> | |b| == 16 witness [0, 0, 0, 0, 0, 0, 0, 0, 0, 0, 0, 0, 0, 0, 0, 0]

  const ZERO_IPV6: Ipv6 := [0, 0, 0, 0, 0, 0, 0, 0, 0, 0, 0, 0, 0, 0, 0, 0]

  /** Unsigned conversion of an arithmetic result to 16 or 32 bits, as C performs it. */
  function Wrap16(x: int): uint16 { x % TWO16 }

  function Wrap32(x: int): uint32 { x % TWO32 }
}

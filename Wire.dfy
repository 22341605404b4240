// Machine-level value types shared by the socket utilities: bytes, 16-bit
// words and their layout in memory.  The host is a little-endian machine
// (x86), so a 16-bit value stored by the CPU has its low byte first, while
// the network order used on the wire puts the high byte first.

module Wire {

  type uint8 = x: int | 0 <= x < 0x100
  type uint16 = x: int | 0 <= x < 0x1_0000

  datatype Option<+T> = None | Some(value: T)

  /** The 16-bit value whose high byte is `hi` and low byte is `lo`. */
  function Word(hi: uint8, lo: uint8): uint16
  {
    hi * 0x100 + lo
  }

  /** The two bytes of `x` in network (big-endian) order, as `htons` lays them out. */
  function BE16(x: uint16): (r: seq<uint8>)
    ensures |r| == 2 && Word(r[0], r[1]) == x
  {
    [x / 0x100, x % 0x100]
  }

  /** The two bytes of `x` as the little-endian host stores an `unsigned short`. */
  function LE16(x: uint16): (r: seq<uint8>)
    ensures |r| == 2 && Word(r[1], r[0]) == x
  {
    [x % 0x100, x / 0x100]
  }

  /** `ntohs`/`htons` on the little-endian host: the two bytes exchanged. */
  function Swap16(x: uint16): (r: uint16)
    ensures LE16(r) == BE16(x)
  {
    (x % 0x100) * 0x100 + x / 0x100
  }
}

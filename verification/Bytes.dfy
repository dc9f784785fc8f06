/** Bytes of a file and the numbers stored in them. */
module Bytes {

  type Byte = n: int | 0 <= n < 256

  /** Four bytes, most significant first. */
  function Big32(bytes: seq<Byte>, at: nat): (r: nat)
    requires at + 4 <= |bytes|
    ensures r < 0x1_0000_0000
  {
    bytes[at] as int * 0x100_0000 + bytes[at + 1] as int * 0x1_0000 + bytes[at + 2] as int * 0x100 + bytes[at + 3] as int
  }

  /** Four bytes, least significant first. */
  function Little32(bytes: seq<Byte>, at: nat): (r: nat)
    requires at + 4 <= |bytes|
    ensures r < 0x1_0000_0000
  {
    bytes[at] as int + bytes[at + 1] as int * 0x100 + bytes[at + 2] as int * 0x1_0000 + bytes[at + 3] as int * 0x100_0000
  }

  /** Two bytes, most significant first. */
  function Big16(bytes: seq<Byte>, at: nat): (r: nat)
    requires at + 2 <= |bytes|
    ensures r < 0x1_0000
  {
    bytes[at] as int * 0x100 + bytes[at + 1] as int
  }
}

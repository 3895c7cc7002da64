// Fixed-width unsigned integers and their little-endian byte strings, shared by
// the record of RebootTest, the option ROM headers and the ring descriptors.
module Bytes {

  type byte = x: int | 0 <= x < 0x100
  type uint16 = x: int | 0 <= x < 0x1_0000
  type uint32 = x: int | 0 <= x < 0x1_0000_0000
  type uint64 = x: int | 0 <= x < 0x1_0000_0000_0000_0000

  const MAX_UINT32: int := 0xFFFF_FFFF
  const MAX_UINT64: int := 0xFFFF_FFFF_FFFF_FFFF

  datatype Option<+T> = None | Some(value: T)

  // The little-endian number at a position, as Le32 (P + at) reads it.
  function Le16(b: seq<byte>, at: nat): uint16
    requires at + 2 <= |b|
  {
    b[at] as int + 0x100 * (b[at + 1] as int)
  }

  function Le32(b: seq<byte>, at: nat): uint32
    requires at + 4 <= |b|
  {
    b[at] as int + 0x100 * (b[at + 1] as int) + 0x1_0000 * (b[at + 2] as int) + 0x100_0000 * (b[at + 3] as int)
  }

  function Le64(b: seq<byte>, at: nat): uint64
    requires at + 8 <= |b|
  {
    Le32(b, at) as int + 0x1_0000_0000 * (Le32(b, at + 4) as int)
  }

  function Bytes16(n: uint16): (b: seq<byte>)
    ensures |b| == 2 && Le16(b, 0) == n
  {
    [n % 0x100, n / 0x100]
  }

  function Bytes32(n: uint32): (b: seq<byte>)
    ensures |b| == 4 && Le32(b, 0) == n
  {
    var q1: int := n / 0x100;
    var q2 := q1 / 0x100;
    [n % 0x100, q1 % 0x100, q2 % 0x100, q2 / 0x100]
  }

  function Bytes64(n: uint64): (b: seq<byte>)
    ensures |b| == 8 && Le64(b, 0) == n
  {
    var low, high := n % 0x1_0000_0000, n / 0x1_0000_0000;
    var b := Bytes32(low) + Bytes32(high);
    assert Le32(b, 0) == Le32(Bytes32(low), 0) && Le32(b, 4) == Le32(Bytes32(high), 0);
    b
  }
}

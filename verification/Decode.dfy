// NicDmaScan's Decode.c: the 64-bit range arithmetic the ring walk rests on.
module Decode {
  import opened Bytes

  const PAGE_SHIFT: nat := 12
  const PAGE_SIZE: nat := 4096

  function Bit(n: nat, weight: nat): bool
    requires weight > 0
  {
    n / weight % 2 == 1
  }

  // The exclusive end of a range, if the range is not empty and its end is a number.
  function DmaEnd(base: uint64, length: uint64): (end: Option<uint64>)
    ensures end.Some? <==> 0 < length && base as int + length as int <= MAX_UINT64
    ensures end.Some? ==> base < end.value
  {
    if length == 0 || base > MAX_UINT64 - length then None else Some(base as int + length as int)
  }

  // Loader and boot services code and data and conventional memory, mapped write-back,
  // neither runtime nor read-protected.
  function SafeRamType(kind: uint32, attributes: uint64): bool {
    && (kind == 1 || kind == 2 || kind == 3 || kind == 4 || kind == 7)
    && !Bit(attributes, 0x8000_0000_0000_0000) && !Bit(attributes, 0x2000)
    && Bit(attributes, 8)
  }

  // The range lies in the pages from start on; pages whose end is no 64-bit number hold nothing.
  function RamContains(start: uint64, pages: uint64, base: uint64, length: uint64): (inside: bool)
    ensures inside <==>
      && base != 0 && 0 < length && start <= base
      && base as int + length as int <= start as int + PAGE_SIZE * pages <= MAX_UINT64
  {
    if base == 0 || pages > MAX_UINT64 / PAGE_SIZE then false
    else
      var regionEnd := DmaEnd(start, PAGE_SIZE * pages);
      var end := DmaEnd(base, length);
      regionEnd.Some? && end.Some? && base >= start && end.value <= regionEnd.value
  }

  function RtlLength(opts1: uint32, rx: bool): uint32 {
    opts1 % if rx then 0x4000 else 0x1_0000
  }
}

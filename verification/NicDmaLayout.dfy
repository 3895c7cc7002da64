// What NicDmaScan reads, built field by field: the firmware's memory map, the descriptors of
// a ring, and a capability list.
module NicDmaLayout {
  import opened Bytes
  import opened Decode
  import opened NicDmaScan

  // These bytes hold x at this position.
  predicate Holds(s: seq<byte>, at: nat, x: seq<byte>) {
    at + |x| <= |s| && s[at..at + |x|] == x
  }

  lemma HoldsBehind(s: seq<byte>, x: seq<byte>)
    ensures Holds(s + x, |s|, x)
  {
  }

  lemma HoldsBefore(s: seq<byte>, more: seq<byte>, at: nat, x: seq<byte>)
    requires Holds(s, at, x)
    ensures Holds(s + more, at, x)
  {
    assert (s + more)[at..at + |x|] == s[at..at + |x|];
  }

  lemma HoldsInside(s: seq<byte>, at: nat, x: seq<byte>, offset: nat, y: seq<byte>)
    requires Holds(s, at, x) && Holds(x, offset, y)
    ensures Holds(s, at + offset, y)
  {
    forall i | 0 <= i < |y|
      ensures s[at + offset + i] == y[i]
    {
      assert s[at..at + |x|][offset + i] == x[offset + i] == x[offset..offset + |y|][i];
    }
  }

  lemma Word64(b: seq<byte>, at: nat, n: uint64)
    requires Holds(b, at, Bytes64(n))
    ensures Le64(b, at) == n
  {
    assert Le64(b, at) == Le64(b[at..at + 8], 0);
  }

  lemma Word32(b: seq<byte>, at: nat, n: uint32)
    requires Holds(b, at, Bytes32(n))
    ensures Le32(b, at) == n
  {
    assert Le32(b, at) == Le32(b[at..at + 4], 0);
  }

  lemma WordInside(s: seq<byte>, at: nat, x: seq<byte>, offset: nat, n: uint64)
    requires Holds(s, at, x) && Holds(x, offset, Bytes64(n))
    ensures at + offset + 8 <= |s| && Le64(s, at + offset) == n
  {
    HoldsInside(s, at, x, offset, Bytes64(n));
    Word64(s, at + offset, n);
  }

  lemma HalfInside(s: seq<byte>, at: nat, x: seq<byte>, offset: nat, n: uint32)
    requires Holds(s, at, x) && Holds(x, offset, Bytes32(n))
    ensures at + offset + 4 <= |s| && Le32(s, at + offset) == n
  {
    HoldsInside(s, at, x, offset, Bytes32(n));
    Word32(s, at + offset, n);
  }

  // ---- The memory map: EFI_MEMORY_DESCRIPTOR, section 7.2 of the UEFI specification.

  // A 32-bit Type and four bytes of padding, then 64 bits each of PhysicalStart,
  // VirtualStart, NumberOfPages and Attribute, and what a larger stride leaves behind them.
  datatype MapEntry = MapEntry(
    kind: uint32, padding: seq<byte>, physicalStart: uint64, virtualStart: uint64, numberOfPages: uint64,
    attribute: uint64, tail: seq<byte>)

  predicate FillsStride(e: MapEntry, stride: nat) {
    |e.padding| == 4 && 40 + |e.tail| == stride
  }

  function EntryBytes(e: MapEntry): seq<byte> {
    Bytes32(e.kind) + e.padding + Bytes64(e.physicalStart) + Bytes64(e.virtualStart) + Bytes64(e.numberOfPages)
    + Bytes64(e.attribute) + e.tail
  }

  function MapBytes(entries: seq<MapEntry>): seq<byte> {
    if entries == [] then []
    else MapBytes(entries[..|entries| - 1]) + EntryBytes(entries[|entries| - 1])
  }

  // A buffer with these entries at its start and anything behind them.
  function BuildMap(entries: seq<MapEntry>, stride: uint64, spare: seq<byte>): MapBuffer
    requires |entries| * stride <= MAX_UINT64
  {
    MapBuffer(MapBytes(entries) + spare, |entries| * stride, stride)
  }

  predicate AllFill(entries: seq<MapEntry>, stride: nat) {
    forall k :: 0 <= k < |entries| ==> FillsStride(entries[k], stride)
  }

  // Where entry n begins.
  function Position(n: nat, stride: nat): nat {
    if n == 0 then 0 else Position(n - 1, stride) + stride
  }

  lemma {:induction false} PositionIs(n: nat, stride: nat)
    ensures Position(n, stride) == n * stride
  {
    if n > 0 {
      PositionIs(n - 1, stride);
      assert n * stride == (n - 1) * stride + stride;
    }
  }

  lemma {:induction false} MapBytesAt(entries: seq<MapEntry>, stride: nat, k: nat)
    requires AllFill(entries, stride)
    ensures |MapBytes(entries)| == Position(|entries|, stride)
    ensures k < |entries| ==> Holds(MapBytes(entries), Position(k, stride), EntryBytes(entries[k]))
    decreases |entries|
  {
    if entries != [] {
      var n := |entries| - 1;
      var before, last := MapBytes(entries[..n]), EntryBytes(entries[n]);
      MapBytesAt(entries[..n], stride, k);
      if k < n {
        HoldsBefore(before, last, Position(k, stride), EntryBytes(entries[k]));
      } else if k == n {
        HoldsBehind(before, last);
      }
    }
  }

  lemma EntryHolds(e: MapEntry)
    requires |e.padding| == 4
    ensures
      var s := EntryBytes(e);
      && Holds(s, 0, Bytes32(e.kind)) && Holds(s, 8, Bytes64(e.physicalStart))
      && Holds(s, 24, Bytes64(e.numberOfPages)) && Holds(s, 32, Bytes64(e.attribute))
  {
    var s0 := Bytes32(e.kind) + e.padding;
    var s1 := s0 + Bytes64(e.physicalStart);
    var s2 := s1 + Bytes64(e.virtualStart);
    var s3 := s2 + Bytes64(e.numberOfPages);
    var s4 := s3 + Bytes64(e.attribute);
    HoldsBehind([], Bytes32(e.kind));
    assert [] + Bytes32(e.kind) == Bytes32(e.kind);
    HoldsBehind(s0, Bytes64(e.physicalStart));
    HoldsBehind(s2, Bytes64(e.numberOfPages));
    HoldsBehind(s3, Bytes64(e.attribute));
    HoldsBefore(Bytes32(e.kind), e.padding, 0, Bytes32(e.kind));
    HoldsBefore(s0, Bytes64(e.physicalStart), 0, Bytes32(e.kind));
    Through(s1, Bytes64(e.virtualStart), Bytes64(e.numberOfPages), Bytes64(e.attribute), e.tail, 0, Bytes32(e.kind));
    Through(s1, Bytes64(e.virtualStart), Bytes64(e.numberOfPages), Bytes64(e.attribute), e.tail, 8,
            Bytes64(e.physicalStart));
    HoldsBefore(s3, Bytes64(e.attribute), 24, Bytes64(e.numberOfPages));
    HoldsBefore(s4, e.tail, 24, Bytes64(e.numberOfPages));
    HoldsBefore(s4, e.tail, 32, Bytes64(e.attribute));
  }

  lemma Through(s: seq<byte>, a: seq<byte>, b: seq<byte>, c: seq<byte>, d: seq<byte>, at: nat, x: seq<byte>)
    requires Holds(s, at, x)
    ensures Holds(s + a + b + c + d, at, x)
  {
    HoldsBefore(s, a, at, x);
    HoldsBefore(s + a, b, at, x);
    HoldsBefore(s + a + b, c, at, x);
    HoldsBefore(s + a + b + c, d, at, x);
  }

  // The four fields of an entry that count.
  function RegionOf(e: MapEntry): Region {
    Region(e.kind, e.attribute, e.physicalStart, e.numberOfPages)
  }

  lemma EntryReadBack(b: MapBuffer, offset: nat, e: MapEntry)
    requires |e.padding| == 4 && Holds(b.bytes, offset, EntryBytes(e))
    ensures offset + 40 <= |b.bytes|
    ensures RegionAt(b, offset) == RegionOf(e)
  {
    EntryHolds(e);
    HalfInside(b.bytes, offset, EntryBytes(e), 0, e.kind);
    WordInside(b.bytes, offset, EntryBytes(e), 8, e.physicalStart);
    WordInside(b.bytes, offset, EntryBytes(e), 24, e.numberOfPages);
    WordInside(b.bytes, offset, EntryBytes(e), 32, e.attribute);
  }

  lemma Divides(n: nat, d: nat)
    requires d > 0
    ensures n * d % d == 0 && n * d / d == n
  {
    var q, r := n * d / d, n * d % d;
    assert n * d == q * d + r;
    assert (q + 1) * d == q * d + d && (n + 1) * d == n * d + d;
    if n > q {
      MoreSteps(q + 1, n, d);
    } else if n < q {
      MoreSteps(n + 1, q, d);
    }
  }

  lemma WholeMap(entries: seq<MapEntry>, stride: uint64, spare: seq<byte>)
    requires stride >= 40 && AllFill(entries, stride) && |entries| * stride <= MAX_UINT64
    ensures WholeDescriptors(BuildMap(entries, stride, spare))
    ensures |Regions(BuildMap(entries, stride, spare))| == |entries|
  {
    MapBytesAt(entries, stride, 0);
    PositionIs(|entries|, stride);
    Divides(|entries|, stride);
  }

  lemma EntryAt(entries: seq<MapEntry>, stride: uint64, spare: seq<byte>, k: nat, at: nat)
    requires AllFill(entries, stride) && |entries| * stride <= MAX_UINT64
    requires k < |entries| && at == Position(k, stride)
    ensures
      var b := BuildMap(entries, stride, spare);
      at + 40 <= |b.bytes| && RegionAt(b, at) == RegionOf(entries[k])
  {
    MapBytesAt(entries, stride, k);
    HoldsBefore(MapBytes(entries), spare, at, EntryBytes(entries[k]));
    EntryReadBack(BuildMap(entries, stride, spare), at, entries[k]);
  }

  // The map read from a built buffer is the list it was built from, for every stride.
  lemma MapReadBack(entries: seq<MapEntry>, stride: uint64, spare: seq<byte>, k: nat)
    requires stride >= 40 && AllFill(entries, stride) && |entries| * stride <= MAX_UINT64
    ensures
      var b := BuildMap(entries, stride, spare);
      && WholeDescriptors(b) && |Regions(b)| == |entries|
      && (k < |entries| ==> Regions(b)[k] == RegionOf(entries[k]))
  {
    WholeMap(entries, stride, spare);
    if k < |entries| {
      EntryAt(entries, stride, spare, k, Position(k, stride));
      PositionIs(k, stride);
    }
  }

  // What makes a range of memory safe to read: one entry of loader, boot services or
  // conventional memory, write-back, neither runtime nor read-protected, that holds all of it.
  predicate SafeEntry(e: MapEntry, base: uint64, length: uint64) {
    && e.kind in {1, 2, 3, 4, 7}
    && e.attribute / 8 % 2 == 1 && e.attribute / 0x2000 % 2 == 0 && e.attribute < 0x8000_0000_0000_0000
    && base != 0 && length > 0 && e.physicalStart <= base
    && base as int + length as int <= e.physicalStart as int + 4096 * e.numberOfPages < 0x1_0000_0000_0000_0000
  }

  lemma SafeRegion(e: MapEntry, base: uint64, length: uint64)
    ensures Covers(RegionOf(e), base, length) <==> SafeEntry(e, base, length)
  {
  }

  lemma CoversExactly(entries: seq<MapEntry>, stride: uint64, spare: seq<byte>, base: uint64, length: uint64, k: nat)
    requires stride >= 40 && AllFill(entries, stride) && |entries| * stride <= MAX_UINT64 && k < |entries|
    ensures
      var b := BuildMap(entries, stride, spare);
      && WholeDescriptors(b) && |Regions(b)| == |entries|
      && (Covers(Regions(b)[k], base, length) <==> SafeEntry(entries[k], base, length))
  {
    MapReadBack(entries, stride, spare, k);
    SafeRegion(entries[k], base, length);
  }

  // So the answer about a built map, as ReadableRam gives it, is about the entries.
  lemma EligibleExactly(entries: seq<MapEntry>, stride: uint64, spare: seq<byte>, base: uint64, length: uint64)
    requires stride >= 40 && AllFill(entries, stride) && |entries| * stride <= MAX_UINT64
    ensures WholeDescriptors(BuildMap(entries, stride, spare))
    ensures Eligible(Regions(BuildMap(entries, stride, spare)), base, length) <==>
            exists k :: 0 <= k < |entries| && SafeEntry(entries[k], base, length)
  {
    WholeMap(entries, stride, spare);
    var regions := Regions(BuildMap(entries, stride, spare));
    if Eligible(regions, base, length) {
      var r :| r in regions && Covers(r, base, length);
      var k :| 0 <= k < |regions| && regions[k] == r;
      CoversExactly(entries, stride, spare, base, length, k);
    }
    if k :| 0 <= k < |entries| && SafeEntry(entries[k], base, length) {
      CoversExactly(entries, stride, spare, base, length, k);
      assert regions[k] in regions;
    }
  }

  // ---- The ring: two 32-bit options words and the 64-bit buffer address.

  // The first word: who owns the descriptor, whether the ring ends with it, and the rest.
  datatype RingEntry = RingEntry(own: bool, endOfRing: bool, rest: nat, opts2: uint32, buffer: uint64)

  function RingBytes(d: RingEntry): seq<byte>
    requires d.rest < 0x4000_0000
  {
    Bytes32((if d.own then 0x8000_0000 else 0) + (if d.endOfRing then 0x4000_0000 else 0) + d.rest)
    + Bytes32(d.opts2) + Bytes64(d.buffer)
  }

  lemma RingWord(d: RingEntry, word: uint32)
    requires d.rest < 0x4000_0000
    requires word as int == (if d.own then 0x8000_0000 else 0) + (if d.endOfRing then 0x4000_0000 else 0) + d.rest
    ensures Bit(word, 0x4000_0000) <==> d.endOfRing
    ensures RtlLength(word, true) == d.rest % 0x4000 && RtlLength(word, false) == d.rest % 0x1_0000
  {
    var high := (if d.own then 2 else 0) + (if d.endOfRing then 1 else 0);
    assert word / 0x4000_0000 == high;
    var q14, q16 := d.rest / 0x4000, d.rest / 0x1_0000;
    assert word as int == 0x4000 * (0x1_0000 * high + q14) + d.rest % 0x4000;
    assert word as int == 0x1_0000 * (0x4000 * high + q16) + d.rest % 0x1_0000;
  }

  // The end of the ring and the payload are read from where they are: 14 bits of length for
  // reception, 16 for transmission.
  lemma RingReadBack(d: RingEntry, regions: seq<Region>, rx: bool)
    requires d.rest < 0x4000_0000
    ensures
      var b := RingBytes(d);
      var length := if rx then d.rest % 0x4000 else d.rest % 0x1_0000;
      && |b| == 16
      && (EndOfRing(Copies(b, b)) <==> d.endOfRing)
      && PayloadOf(regions, b, rx) ==
         if d.buffer == 0 || length == 0 || d.buffer as int + length >= 0x1_0000_0000_0000_0000 then NoRange
         else Range(d.buffer, d.buffer as int + length, Eligible(regions, d.buffer, length))
  {
    var b := RingBytes(d);
    var word: uint32 := (if d.own then 0x8000_0000 else 0) + (if d.endOfRing then 0x4000_0000 else 0) + d.rest;
    HoldsBehind([], Bytes32(word));
    assert [] + Bytes32(word) == Bytes32(word);
    HoldsBefore(Bytes32(word), Bytes32(d.opts2), 0, Bytes32(word));
    HoldsBefore(Bytes32(word) + Bytes32(d.opts2), Bytes64(d.buffer), 0, Bytes32(word));
    HoldsBehind(Bytes32(word) + Bytes32(d.opts2), Bytes64(d.buffer));
    Word32(b, 0, word);
    Word64(b, 8, d.buffer);
    RingWord(d, word);
  }

  // ---- The capability list.

  // A list that begins with the power management capability: the device may be accessed
  // exactly if the two low bits of the control word, its fifth byte, say D0.
  lemma PowerReadBack(read: Config, status: byte, cap: nat, next: byte, state: nat, more: nat, high: byte)
    requires status / 16 % 2 == 1 && 0x40 <= cap <= 0xf8 && cap % 4 == 0
    requires state < 4 && more < 64
    requires read(cap) == Some((1, next)) && read(cap + 4) == Some(((4 * more + state) as byte, high))
    ensures Powered(status, cap, read) <==> state == 0
  {
    Decided(read, cap, [], cap);
    assert (4 * more + state) % 4 == state;
  }
}

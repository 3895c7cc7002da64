// NicDmaScan.c: the capability chain walk that decides on the power state, and the ring
// snapshot that reads memory a device may be changing.
module NicDmaScan {
  import opened Bytes
  import opened Decode
  import opened Sequences

  // ---- PowerD0

  // A successful two-byte read of configuration space, or a failure.
  type Config = nat -> Option<(byte, byte)>

  const CAP_PM: byte := 1

  predicate Slot(cap: nat) {
    0x40 <= cap <= 0xfc && cap % 4 == 0
  }

  // A capability that can be read and is not the power management one.
  predicate Passes(read: Config, cap: nat) {
    Slot(cap) && read(cap).Some? && read(cap).value.0 != CAP_PM
  }

  // The capabilities from `start` on, each pointing to the next, all but the last passed over.
  predicate Chain(read: Config, start: nat, path: seq<nat>) {
    && path != [] && path[0] == start
    && (forall i :: 0 <= i < |path| ==> Slot(path[i]) && read(path[i]).Some?)
    && (forall i :: 0 <= i < |path| - 1 ==> Passes(read, path[i]) && read(path[i]).value.1 == path[i + 1])
  }

  // The capability reports D0.
  predicate InD0(read: Config, cap: nat) {
    && Slot(cap) && read(cap).Some? && read(cap).value.0 == CAP_PM
    && cap <= 0xf8 && read(cap + 4).Some? && read(cap + 4).value.0 % 4 == 0
  }

  // The list ends behind this capability.
  predicate Ends(read: Config, cap: nat) {
    Passes(read, cap) && read(cap).value.1 == 0
  }

  predicate Terminal(read: Config, cap: nat) {
    InD0(read, cap) || Ends(read, cap)
  }

  predicate Terminates(read: Config, start: nat, path: seq<nat>) {
    Chain(read, start, path) && Terminal(read, path[|path| - 1])
  }

  // The device may be accessed: it has no capability list, the list has no power
  // management capability, or that capability says D0.
  ghost predicate Powered(status: byte, start: nat, read: Config) {
    || !Bit(status, 0x10)
    || start == 0
    || exists path :: Terminates(read, start, path)
  }

  predicate Distinct(s: seq<nat>) {
    forall i, j :: 0 <= i < j < |s| ==> s[i] != s[j]
  }

  // Two chains from one start agree as far as both go.
  lemma {:induction false} ChainsAgree(read: Config, start: nat, p: seq<nat>, q: seq<nat>, k: nat)
    requires Chain(read, start, p) && Chain(read, start, q) && k < |p| && k < |q|
    ensures p[k] == q[k]
  {
    if k > 0 {
      ChainsAgree(read, start, p, q, k - 1);
      assert read(p[k - 1]).value.1 == p[k] && read(q[k - 1]).value.1 == q[k];
    }
  }

  // Once a chain repeats, it repeats for ever.
  lemma {:induction false} ChainRepeats(read: Config, start: nat, p: seq<nat>, i: nat, j: nat, k: nat)
    requires Chain(read, start, p) && i < j && j + k < |p| && p[i] == p[j]
    ensures p[i + k] == p[j + k]
  {
    if k > 0 {
      ChainRepeats(read, start, p, i, j, k - 1);
      assert read(p[i + k - 1]).value.1 == p[i + k] && read(p[j + k - 1]).value.1 == p[j + k];
    }
  }

  // Before its end a chain is not at an end.
  lemma OnlyLastIsTerminal(read: Config, start: nat, p: seq<nat>, i: nat)
    requires Chain(read, start, p) && i < |p| - 1
    ensures !Terminal(read, p[i])
  {
    assert Passes(read, p[i]) && read(p[i]).value.1 == p[i + 1] && Slot(p[i + 1]);
  }

  // So a chain that ends never repeats.
  lemma TerminatingIsDistinct(read: Config, start: nat, p: seq<nat>)
    requires Terminates(read, start, p)
    ensures Distinct(p)
  {
    forall i, j | 0 <= i < j < |p|
      ensures p[i] != p[j]
    {
      if p[i] == p[j] {
        var k := |p| - 1 - j;
        OnlyLastIsTerminal(read, start, p, i + k);
        ChainRepeats(read, start, p, i, j, k);
      }
    }
  }

  // Pigeonhole: n numbers below n at most, if they are all different.
  lemma {:induction false} Pigeonhole(s: seq<nat>, n: nat)
    requires Distinct(s) && forall i :: 0 <= i < |s| ==> s[i] < n
    ensures |s| <= n
    decreases |s|
  {
    if s != [] {
      var last := s[|s| - 1];
      var t := s[..|s| - 1];
      // Move the largest into the place of the last.
      var u := seq(|t|, i requires 0 <= i < |t| => if t[i] == n - 1 then last else t[i]);
      forall i, j | 0 <= i < j < |u|
        ensures u[i] != u[j]
      {
        assert s[i] != s[j] && s[i] != last && s[j] != last;
      }
      Pigeonhole(u, n - 1);
    }
  }

  // There are 48 aligned slots.
  lemma SlotsAreFew(s: seq<nat>)
    requires Distinct(s) && forall i :: 0 <= i < |s| ==> Slot(s[i])
    ensures |s| <= 48
  {
    var t := seq(|s|, i requires 0 <= i < |s| => ((s[i] - 0x40) / 4) as nat);
    forall i, j | 0 <= i < j < |t|
      ensures t[i] != t[j]
    {
      assert s[i] != s[j];
    }
    Pigeonhole(t, 48);
  }

  // What the walk has passed over so far, and where it stands.
  predicate Walked(read: Config, start: nat, passed: seq<nat>, cap: nat) {
    && (forall i :: 0 <= i < |passed| ==> Passes(read, passed[i]))
    && (forall i :: 0 <= i < |passed| - 1 ==> read(passed[i]).value.1 == passed[i + 1])
    && (if passed == [] then cap == start
        else passed[0] == start && read(passed[|passed| - 1]).value.1 == cap)
  }

  // Any terminating chain goes through the capability the walk stands at, without repeats.
  lemma ChainGoesOn(read: Config, start: nat, passed: seq<nat>, cap: nat, path: seq<nat>)
    requires Walked(read, start, passed, cap) && cap != 0 && Terminates(read, start, path)
    ensures |passed| < |path| && path[|passed|] == cap && cap !in passed && Distinct(path)
  {
    TerminatingIsDistinct(read, start, path);
    if passed != [] {
      var n := |passed|;
      assert Chain(read, start, passed);
      forall k | 0 <= k < n && k < |path|
        ensures path[k] == passed[k] && !Terminal(read, passed[k])
      {
        ChainsAgree(read, start, path, passed, k);
        if k < n - 1 {
          OnlyLastIsTerminal(read, start, passed, k);
        }
      }
      assert n < |path|;
      assert read(path[n - 1]).value.1 == path[n];
    }
  }

  class Device {
    const config: Config

    constructor (config: Config)
      ensures this.config == config
    {
      this.config := config;
    }

    // PciIo->Pci.Read of two bytes, inside the 256 bytes of configuration space.
    method ReadConfig(offset: nat) returns (r: Option<(byte, byte)>)
      requires offset + 2 <= 0x100
      ensures r == config(offset)
    {
      r := config(offset);
    }
  }

  method PowerD0(pci: Device, status: byte, capPointer: byte) returns (d0: bool)
    ensures d0 <==> Powered(status, capPointer, pci.config)
  {
    if !Bit(status, 0x10) {
      return true;
    }
    var seen := new bool[256](_ => false);
    var cap: nat := capPointer;
    ghost var passed: seq<nat> := [];
    var i := 0;
    while cap != 0 && i < 48
      invariant 0 <= i <= 48 && |passed| == i && 0 <= cap < 256
      invariant Walked(pci.config, capPointer, passed, cap) && Distinct(passed)
      invariant forall c :: 0 <= c < 256 ==> (seen[c] <==> c in passed)
      decreases 48 - i
    {
      if cap < 0x40 || cap > 0xfc || cap % 4 != 0 || seen[cap] {
        break;
      }
      seen[cap] := true;
      var header := pci.ReadConfig(cap);
      if header.None? {
        break;
      }
      if header.value.0 == CAP_PM {
        if cap > 0xf8 {
          break;
        }
        var pm := pci.ReadConfig(cap + 4);
        if pm.None? {
          break;
        }
        d0 := pm.value.0 % 4 == 0;
        Decided(pci.config, capPointer, passed, cap);
        return;
      }
      passed := passed + [cap];
      cap := header.value.1;
      i := i + 1;
    }
    if cap == 0 {
      assert passed != [] ==> Terminates(pci.config, capPointer, passed);
      return true;
    }
    forall path | Terminates(pci.config, capPointer, path)
      ensures false
    {
      ChainGoesOn(pci.config, capPointer, passed, cap, path);
      assert path[|passed|] == cap && Slot(path[|passed|]);
      if i == 48 {
        SlotsAreFew(path);
      }
    }
    return false;
  }

  // At a power management capability the walk knows the answer.
  lemma Decided(read: Config, start: nat, passed: seq<nat>, cap: nat)
    requires Walked(read, start, passed, cap) && Slot(cap)
    requires read(cap).Some? && read(cap).value.0 == CAP_PM
    ensures InD0(read, cap) <==> exists path :: Terminates(read, start, path)
  {
    var path := passed + [cap];
    assert Chain(read, start, path);
    if InD0(read, cap) {
      assert Terminates(read, start, path);
    }
    forall q | Terminates(read, start, q)
      ensures InD0(read, cap)
    {
      ChainGoesOn(read, start, passed, cap, q);
      if |q| > |passed| + 1 {
        assert Passes(read, q[|passed|]);
      }
    }
  }

  // ---- GetMap

  const MEMORY_DESCRIPTOR_SIZE: nat := 40
  const MAP_ATTEMPTS: nat := 3

  datatype MapStatus = MapSuccess | MapTooSmall | MapError

  // A buffer of so many bytes, with a map of that size and stride in it.
  datatype MapBuffer = MapBuffer(bytes: seq<byte>, size: uint64, stride: uint64)

  // gBS->GetMemoryMap and AllocatePool: any answers, but a map it hands out fits.
  class MapService {
    ghost var calls: nat
    ghost var status: MapStatus
    ghost var handed: MapBuffer

    constructor ()
      ensures calls == 0
    {
      calls, status, handed := 0, MapError, MapBuffer([], 0, 0);
    }

    method GetMemoryMap(capacity: uint64) returns (s: MapStatus, buffer: MapBuffer)
      modifies this
      ensures calls == old(calls) + 1 && status == s && handed == buffer
      ensures |buffer.bytes| == capacity && (s == MapSuccess ==> buffer.size <= capacity)
    {
      s := *;
      var bytes: seq<byte> := *;
      var size: uint64 := *;
      var stride: uint64 := *;
      if |bytes| != capacity {
        bytes := seq(capacity, _ => 0);
      }
      if s == MapSuccess && size > capacity {
        s := MapError;
      }
      buffer := MapBuffer(bytes, size, stride);
      calls, status, handed := calls + 1, s, buffer;
    }

    method AllocatePool(size: uint64) returns (ok: bool) {
      ok := *;
    }
  }

  // Whole descriptors, none shorter than the one this program knows, all in the buffer.
  predicate WholeDescriptors(b: MapBuffer) {
    b.stride >= MEMORY_DESCRIPTOR_SIZE && b.size % b.stride == 0 && b.size <= |b.bytes|
  }

  // The last of these calls was one with a buffer, succeeded, and left whole descriptors.
  ghost predicate Handed(service: MapService, calls: nat)
    reads service
  {
    service.calls > calls + 1 && service.status == MapSuccess && WholeDescriptors(service.handed)
  }

  method GetMap(service: MapService) returns (r: Option<MapBuffer>)
    modifies service
    ensures service.calls <= old(service.calls) + MAP_ATTEMPTS + 1
    ensures r.Some? <==> Handed(service, old(service.calls))
    ensures r.Some? ==> r.value == service.handed
  {
    var s, buffer := service.GetMemoryMap(0);
    if s != MapTooSmall {
      return None;
    }
    for attempt := 0 to MAP_ATTEMPTS
      invariant service.calls == old(service.calls) + attempt + 1 && service.status == MapTooSmall
    {
      var size, stride := buffer.size, buffer.stride;
      if stride < MEMORY_DESCRIPTOR_SIZE || stride > MAX_UINT64 / 16 || size > MAX_UINT64 - 16 * stride {
        return None;
      }
      var capacity: uint64 := size + 16 * stride;
      var ok := service.AllocatePool(capacity);
      if !ok {
        return None;
      }
      s, buffer := service.GetMemoryMap(capacity);
      if s == MapSuccess {
        if buffer.stride < MEMORY_DESCRIPTOR_SIZE || buffer.size % buffer.stride != 0 {
          return None;
        }
        return Some(buffer);
      }
      if s != MapTooSmall {
        return None;
      }
    }
    return None;
  }

  // The descriptors ReadableRam looks at, stride by stride, lie in the buffer, and stepping
  // past the last one does not wrap around.
  lemma DescriptorsInside(b: MapBuffer, k: nat)
    requires WholeDescriptors(b) && k * b.stride < b.size
    ensures k * b.stride + MEMORY_DESCRIPTOR_SIZE <= (k + 1) * b.stride <= b.size <= |b.bytes|
  {
    StepsFit(b.size / b.stride, k, b.stride);
  }

  // Whole strides below the size are whole strides of it.
  lemma StrideOf(b: MapBuffer, k: nat)
    requires WholeDescriptors(b)
    ensures k * b.stride < b.size <==> k < b.size / b.stride
    ensures k <= b.size / b.stride ==> k * b.stride <= b.size
  {
    var n := b.size / b.stride;
    assert n * b.stride == b.size;
    if k < n {
      MoreSteps(k + 1, n, b.stride);
    } else {
      MoreSteps(n, k, b.stride);
    }
  }

  lemma StepsFit(n: nat, k: nat, stride: nat)
    requires k * stride < n * stride
    ensures (k + 1) * stride == k * stride + stride <= n * stride
  {
    if k >= n {
      MoreSteps(n, k, stride);
    }
    MoreSteps(k + 1, n, stride);
  }

  lemma MoreSteps(m: nat, n: nat, stride: nat)
    requires m <= n
    ensures m * stride <= n * stride
  {
    assert n * stride == m * stride + (n - m) * stride;
  }

  // One entry of the firmware's memory map.
  datatype Region = Region(kind: uint32, attributes: uint64, start: uint64, pages: uint64)

  // EFI_MEMORY_DESCRIPTOR, section 7.2 of the UEFI specification: Type, PhysicalStart,
  // VirtualStart, NumberOfPages and Attribute, each on a multiple of eight bytes.
  function RegionAt(b: MapBuffer, offset: nat): Region
    requires offset + MEMORY_DESCRIPTOR_SIZE <= |b.bytes|
  {
    Region(Le32(b.bytes, offset), Le64(b.bytes, offset + 32), Le64(b.bytes, offset + 8), Le64(b.bytes, offset + 24))
  }

  // The map in the buffer.
  function Regions(b: MapBuffer): (regions: seq<Region>)
    requires WholeDescriptors(b)
    ensures |regions| == b.size / b.stride
  {
    seq(b.size / b.stride, k requires 0 <= k < b.size / b.stride =>
      StrideOf(b, k);
      DescriptorsInside(b, k);
      RegionAt(b, k * b.stride))
  }

  // ---- Snapshot

  const SNAPSHOT_DESCRIPTORS: nat := 256
  const DESCRIPTOR_SIZE: nat := 16

  predicate Covers(r: Region, base: uint64, length: uint64) {
    SafeRamType(r.kind, r.attributes) && RamContains(r.start, r.pages, base, length)
  }

  predicate Eligible(regions: seq<Region>, base: uint64, length: uint64) {
    exists r :: r in regions && Covers(r, base, length)
  }

  // The loop steps over the bytes of the buffer: the descriptors it looks at are the map,
  // and its position never wraps around.
  method ReadableRam(b: MapBuffer, base: uint64, length: uint64) returns (readable: bool)
    requires WholeDescriptors(b)
    ensures readable <==> Eligible(Regions(b), base, length)
  {
    var end := DmaEnd(base, length);
    if end.None? {
      return false;
    }
    var i: uint64 := 0;
    ghost var k: nat := 0;
    while i < b.size
      invariant i == k * b.stride <= b.size && k <= |Regions(b)|
      invariant forall j :: 0 <= j < k ==> !Covers(Regions(b)[j], base, length)
      decreases b.size - i
    {
      StrideOf(b, k);
      DescriptorsInside(b, k);
      var d := RegionAt(b, i);
      assert d == Regions(b)[k];
      if SafeRamType(d.kind, d.attributes) && RamContains(d.start, d.pages, base, length) {
        assert Covers(d, base, length) && d in Regions(b);
        return true;
      }
      i := i + b.stride;
      k := k + 1;
    }
    StrideOf(b, k);
    return false;
  }

  // One byte read from memory: where, and what came back.
  datatype Access = Access(address: int, value: byte)

  // Memory a device may write at any moment: what a read returns is anybody's choice.
  class Memory {
    ghost var accesses: seq<Access>

    constructor ()
      ensures accesses == []
    {
      accesses := [];
    }

    method ReadByte(address: uint64) returns (b: byte)
      modifies this
      ensures accesses == old(accesses) + [Access(address, b)]
    {
      b :| 0 <= b < 0x100;
      accesses := accesses + [Access(address, b)];
    }
  }

  function Accesses(from: int, bytes: seq<byte>): (a: seq<Access>)
    ensures |a| == |bytes| && forall i :: 0 <= i < |a| ==> a[i] == Access(from + i, bytes[i])
  {
    seq(|bytes|, i requires 0 <= i < |bytes| => Access(from + i, bytes[i]))
  }

  // The bytes handed out are those memory answered with.
  method ReadDescriptor(memory: Memory, address: uint64) returns (bytes: seq<byte>)
    requires address as int + DESCRIPTOR_SIZE <= MAX_UINT64
    modifies memory
    ensures |bytes| == DESCRIPTOR_SIZE
    ensures memory.accesses == old(memory.accesses) + Accesses(address, bytes)
  {
    bytes := [];
    for j := 0 to DESCRIPTOR_SIZE
      invariant |bytes| == j
      invariant memory.accesses == old(memory.accesses) + Accesses(address, bytes)
    {
      var b := memory.ReadByte(address as int + j);
      bytes := bytes + [b];
    }
  }

  // The two copies read of one descriptor.
  datatype Copies = Copies(first: seq<byte>, second: seq<byte>)

  predicate Stable(c: Copies) {
    |c.first| == DESCRIPTOR_SIZE && c.first == c.second
  }

  predicate EndOfRing(c: Copies)
    requires |c.first| == DESCRIPTOR_SIZE
  {
    Bit(Le32(c.first, 0), 0x4000_0000)
  }

  predicate Whole(c: Copies) {
    |c.first| == |c.second| == DESCRIPTOR_SIZE
  }

  predicate AllWhole(observed: seq<Copies>) {
    forall i :: 0 <= i < |observed| ==> Whole(observed[i])
  }

  // One descriptor, read twice.
  function TwiceAt(address: int, c: Copies): seq<Access> {
    Accesses(address, c.first) + Accesses(address, c.second)
  }

  // The reads that saw these copies of the descriptors of the ring at base.
  function ReadsOf(base: int, observed: seq<Copies>): seq<Access> {
    if observed == [] then []
    else
      var n := |observed| - 1;
      ReadsOf(base, observed[..n]) + TwiceAt(base + DESCRIPTOR_SIZE * n, observed[n])
  }

  // The ring up to and including descriptor i lies in one safe region.
  predicate PrefixSafe(regions: seq<Region>, base: uint64, i: nat) {
    base as int + DESCRIPTOR_SIZE * (i + 1) <= MAX_UINT64 && Eligible(regions, base, DESCRIPTOR_SIZE * (i + 1))
  }

  datatype Report = Refused | RingEnd(end: uint64, count: nat) | Incomplete(count: nat)

  // Every descriptor before n was stable and not the end.
  predicate Inner(observed: seq<Copies>, n: nat)
    requires n <= |observed|
  {
    forall i :: 0 <= i < n ==> Stable(observed[i]) && !EndOfRing(observed[i])
  }

  // What the observed descriptors make the report.
  predicate Justified(regions: seq<Region>, base: uint64, observed: seq<Copies>, report: Report) {
    var n := |observed|;
    match report
    case Refused => n == 0
    case RingEnd(end, count) =>
      && 0 < n == count <= 256
      && Inner(observed, n - 1) && Stable(observed[n - 1]) && EndOfRing(observed[n - 1])
      && end as int == base as int + DESCRIPTOR_SIZE * count
    case Incomplete(count) =>
      && n <= 256 && count <= n && Inner(observed, count)
      && Stopped(regions, base, observed, count)
  }

  // Why an incomplete walk stopped: at the cap, before a descriptor that is not safe to
  // read, or at one that changed between the two reads.
  predicate Stopped(regions: seq<Region>, base: uint64, observed: seq<Copies>, count: nat)
    requires count <= |observed|
  {
    if |observed| == count then count == 256 || !PrefixSafe(regions, base, count)
    else |observed| == count + 1 && !Stable(observed[count])
  }

  // One turn of the loop in Snapshot: descriptor i, read twice if it is safe to read.
  method ReadTwice(memory: Memory, base: uint64, b: MapBuffer, i: nat) returns (c: Option<Copies>)
    requires WholeDescriptors(b) && i < SNAPSHOT_DESCRIPTORS
    modifies memory
    ensures c.Some? <==> PrefixSafe(Regions(b), base, i)
    ensures c.None? ==> memory.accesses == old(memory.accesses)
    ensures c.Some? ==>
      && Whole(c.value)
      && memory.accesses == old(memory.accesses) + TwiceAt(base as int + DESCRIPTOR_SIZE * i, c.value)
  {
    var end := DmaEnd(base, (i + 1) * DESCRIPTOR_SIZE);
    if end.None? {
      return None;
    }
    var address := end.value - DESCRIPTOR_SIZE;
    // The whole prefix observed so far lies in one safe region.
    var readable := ReadableRam(b, base, (i + 1) * DESCRIPTOR_SIZE);
    if !readable {
      return None;
    }
    var first := ReadDescriptor(memory, address);
    var second := ReadDescriptor(memory, address);
    Assoc(old(memory.accesses), Accesses(address, first), Accesses(address, second));
    return Some(Copies(first, second));
  }

  // The buffer a descriptor points to, as it is reported; it is never read.
  datatype Payload = NoRange | Range(start: uint64, end: uint64, inRam: bool)

  function PayloadOf(regions: seq<Region>, descriptor: seq<byte>, rx: bool): (p: Payload)
    requires |descriptor| == DESCRIPTOR_SIZE
    ensures p.NoRange? <==>
      var start, length := Le64(descriptor, 8), RtlLength(Le32(descriptor, 0), rx);
      start == 0 || length == 0 || start as int + length as int > MAX_UINT64
    ensures p.Range? ==> 0 < p.start < p.end && (p.inRam <==> Eligible(regions, p.start, p.end - p.start))
  {
    var start, length := Le64(descriptor, 8), RtlLength(Le32(descriptor, 0), rx);
    if start == 0 || DmaEnd(start, length).None? then NoRange
    else Range(start, start as int + length, Eligible(regions, start, length))
  }

  method ReportPayload(b: MapBuffer, descriptor: seq<byte>, rx: bool) returns (p: Payload)
    requires WholeDescriptors(b) && |descriptor| == DESCRIPTOR_SIZE
    ensures p == PayloadOf(Regions(b), descriptor, rx)
  {
    var opts1 := Le32(descriptor, 0);
    var buffer := Le64(descriptor, 8);
    var length := RtlLength(opts1, rx);
    var end := DmaEnd(buffer, length);
    if buffer == 0 || end.None? {
      return NoRange;
    }
    var inRam := ReadableRam(b, buffer, length);
    return Range(buffer, end.value, inRam);
  }

  lemma ReadsOfMore(base: int, start: seq<Access>, observed: seq<Copies>, c: Copies)
    ensures start + ReadsOf(base, observed + [c]) ==
            start + ReadsOf(base, observed) + TwiceAt(base + DESCRIPTOR_SIZE * |observed|, c)
  {
    assert (observed + [c])[..|observed|] == observed;
    Assoc(start, ReadsOf(base, observed), TwiceAt(base + DESCRIPTOR_SIZE * |observed|, c));
  }

  // The copies are those read since `start`, at addresses that were safe to read.
  ghost predicate ReadSafely(
    regions: seq<Region>, base: uint64, start: seq<Access>, now: seq<Access>, observed: seq<Copies>)
  {
    && AllWhole(observed) && now == start + ReadsOf(base, observed)
    && forall i :: 0 <= i < |observed| ==> PrefixSafe(regions, base, i)
  }

  // The payloads reported are those of the observed descriptors.
  ghost predicate Reported(regions: seq<Region>, rx: bool, observed: seq<Copies>, payloads: seq<Payload>)
    requires AllWhole(observed)
  {
    && |payloads| <= |observed|
    && forall i :: 0 <= i < |payloads| ==> payloads[i] == PayloadOf(regions, observed[i].first, rx)
  }

  lemma ReadOneMore(
    regions: seq<Region>, base: uint64, start: seq<Access>, now: seq<Access>, observed: seq<Copies>, c: Copies)
    requires ReadSafely(regions, base, start, now, observed) && Whole(c) && PrefixSafe(regions, base, |observed|)
    ensures
      ReadSafely(regions, base, start, now + TwiceAt(base as int + DESCRIPTOR_SIZE * |observed|, c), observed + [c])
  {
    ReadsOfMore(base, start, observed, c);
  }

  lemma ReportOneMore(regions: seq<Region>, rx: bool, observed: seq<Copies>, payloads: seq<Payload>, c: Copies)
    requires AllWhole(observed) && Whole(c) && Reported(regions, rx, observed, payloads)
    ensures AllWhole(observed + [c]) && Reported(regions, rx, observed + [c], payloads)
    ensures |payloads| == |observed| ==>
      Reported(regions, rx, observed + [c], payloads + [PayloadOf(regions, c.first, rx)])
  {
  }

  // One turn of that loop, up to the comparison of the two copies.
  method Observe(memory: Memory, base: uint64, b: MapBuffer, i: nat,
                 ghost start: seq<Access>, ghost observed: seq<Copies>)
    returns (c: Option<Copies>)
    requires WholeDescriptors(b) && i == |observed| < SNAPSHOT_DESCRIPTORS
    requires ReadSafely(Regions(b), base, start, memory.accesses, observed)
    modifies memory
    ensures c.None? ==> !PrefixSafe(Regions(b), base, i)
    ensures c.None? ==> ReadSafely(Regions(b), base, start, memory.accesses, observed)
    ensures c.Some? ==> Whole(c.value) && ReadSafely(Regions(b), base, start, memory.accesses, observed + [c.value])
  {
    ghost var now := memory.accesses;
    c := ReadTwice(memory, base, b, i);
    if c.Some? {
      ReadOneMore(Regions(b), base, start, now, observed, c.value);
    }
  }

  // The loop of Snapshot: one descriptor after the other until something ends it.
  method WalkRing(memory: Memory, base: uint64, b: MapBuffer, rx: bool)
    returns (complete: bool, count: nat, payloads: seq<Payload>, ghost observed: seq<Copies>)
    requires WholeDescriptors(b)
    modifies memory
    ensures count <= |observed| <= SNAPSHOT_DESCRIPTORS
    ensures complete ==>
      && 0 < count == |observed| && Inner(observed, count - 1)
      && Stable(observed[count - 1]) && EndOfRing(observed[count - 1])
    ensures !complete ==> Inner(observed, count) && Stopped(Regions(b), base, observed, count)
    ensures ReadSafely(Regions(b), base, old(memory.accesses), memory.accesses, observed)
    ensures |payloads| == count && Reported(Regions(b), rx, observed, payloads)
  {
    observed, payloads := [], [];
    ghost var start := memory.accesses;
    complete := false;
    count := 0;
    for i := 0 to SNAPSHOT_DESCRIPTORS
      invariant i == count == |observed| == |payloads| && !complete && Inner(observed, i)
      invariant ReadSafely(Regions(b), base, start, memory.accesses, observed)
      invariant Reported(Regions(b), rx, observed, payloads)
    {
      var copies := Observe(memory, base, b, i, start, observed);
      if copies.None? {
        break;
      }
      ReportOneMore(Regions(b), rx, observed, payloads, copies.value);
      observed := observed + [copies.value];
      if copies.value.first != copies.value.second {
        break;
      }
      count := count + 1;
      var payload := ReportPayload(b, copies.value.first, rx);
      payloads := payloads + [payload];
      if EndOfRing(copies.value) {
        complete := true;
        break;
      }
    }
  }

  // The regions are those of the map GetMap handed out.
  method Snapshot(memory: Memory, service: MapService, base: uint64, rx: bool)
    returns (report: Report, payloads: seq<Payload>, ghost observed: seq<Copies>, ghost regions: seq<Region>)
    modifies memory, service
    ensures report == Refused <==> base == 0 || base % 256 != 0 || !Handed(service, old(service.calls))
    ensures report != Refused ==> WholeDescriptors(service.handed) && regions == Regions(service.handed)
    ensures Justified(regions, base, observed, report)
    ensures ReadSafely(regions, base, old(memory.accesses), memory.accesses, observed)
    ensures |payloads| == if report.Refused? then 0 else report.count
    ensures Reported(regions, rx, observed, payloads)
  {
    observed, payloads, regions := [], [], [];
    if base == 0 || base % 256 != 0 {
      return Refused, payloads, observed, regions;
    }
    var handed := GetMap(service);
    if handed.None? {
      return Refused, payloads, observed, regions;
    }
    regions := Regions(handed.value);
    var complete, count;
    complete, count, payloads, observed := WalkRing(memory, base, handed.value, rx);
    var ringEnd := DmaEnd(base, count * DESCRIPTOR_SIZE);
    if complete && ringEnd.Some? {
      return RingEnd(ringEnd.value, count), payloads, observed, regions;
    }
    if complete {
      assert PrefixSafe(regions, base, count - 1);
    }
    return Incomplete(count), payloads, observed, regions;
  }

  // The address belongs to descriptor i of the ring, and one region of the map that is safe
  // to read holds the ring up to and including that descriptor.
  predicate CoveredRead(regions: seq<Region>, base: uint64, i: nat, address: int) {
    && base as int + DESCRIPTOR_SIZE * i <= address < base as int + DESCRIPTOR_SIZE * (i + 1)
    && exists r :: r in regions
         && SafeRamType(r.kind, r.attributes)
         && r.start as int <= base as int
         && base as int + DESCRIPTOR_SIZE * (i + 1) <= r.start as int + PAGE_SIZE * r.pages <= MAX_UINT64
  }

  lemma SafePrefixCovers(regions: seq<Region>, base: uint64, i: nat, address: int)
    requires PrefixSafe(regions, base, i)
    requires base as int + DESCRIPTOR_SIZE * i <= address < base as int + DESCRIPTOR_SIZE * (i + 1)
    ensures CoveredRead(regions, base, i, address)
  {
    var r :| r in regions && Covers(r, base, DESCRIPTOR_SIZE * (i + 1));
  }

  // Whatever the device does to memory meanwhile: every byte the snapshot dereferences is
  // such a byte, so no address wraps around.
  lemma {:induction false} EveryReadIsCovered(regions: seq<Region>, base: uint64, observed: seq<Copies>, k: nat)
    requires AllWhole(observed) && k < |ReadsOf(base, observed)|
    requires forall i :: 0 <= i < |observed| ==> PrefixSafe(regions, base, i)
    ensures exists i :: 0 <= i < |observed| && CoveredRead(regions, base, i, ReadsOf(base, observed)[k].address)
    decreases |observed|
  {
    var n := |observed| - 1;
    if k < |ReadsOf(base, observed[..n])| {
      EveryReadIsCovered(regions, base, observed[..n], k);
      assert ReadsOf(base, observed)[k] == ReadsOf(base, observed[..n])[k];
    } else {
      assert PrefixSafe(regions, base, n) && Whole(observed[n]);
      SafePrefixCovers(regions, base, n, ReadsOf(base, observed)[k].address);
    }
  }

  lemma SameAccesses(from: int, a: seq<byte>, b: seq<byte>)
    requires |a| == |b| && Accesses(from, a) == Accesses(from, b)
    ensures a == b
  {
    forall i | 0 <= i < |a|
      ensures a[i] == b[i]
    {
      assert Accesses(from, a)[i] == Accesses(from, b)[i];
    }
  }

  lemma SameTwice(from: int, c: Copies, d: Copies)
    requires Whole(c) && Whole(d) && TwiceAt(from, c) == TwiceAt(from, d)
    ensures c == d
  {
    SumsSplit(Accesses(from, c.first), Accesses(from, c.second), Accesses(from, d.first), Accesses(from, d.second));
    SameAccesses(from, c.first, d.first);
    SameAccesses(from, c.second, d.second);
  }

  lemma {:induction false} ReadsLength(base: int, observed: seq<Copies>)
    requires AllWhole(observed)
    ensures |ReadsOf(base, observed)| == 2 * DESCRIPTOR_SIZE * |observed|
    decreases |observed|
  {
    if observed != [] {
      assert Whole(observed[|observed| - 1]);
      ReadsLength(base, observed[..|observed| - 1]);
    }
  }

  lemma SameButLast(base: int, a: seq<Copies>, b: seq<Copies>, n: nat)
    requires AllWhole(a) && AllWhole(b) && |a| == |b| == n + 1 && ReadsOf(base, a) == ReadsOf(base, b)
    ensures ReadsOf(base, a[..n]) == ReadsOf(base, b[..n]) && a[n] == b[n]
  {
    var x, y, from := ReadsOf(base, a[..n]), ReadsOf(base, b[..n]), base + DESCRIPTOR_SIZE * n;
    assert |x| == |y| by {
      ReadsLength(base, a[..n]);
      ReadsLength(base, b[..n]);
    }
    SumsSplit(x, TwiceAt(from, a[n]), y, TwiceAt(from, b[n]));
    SameTwice(from, a[n], b[n]);
  }

  lemma SameLength(base: int, a: seq<Copies>, b: seq<Copies>)
    requires AllWhole(a) && AllWhole(b) && ReadsOf(base, a) == ReadsOf(base, b)
    ensures |a| == |b|
  {
    var m, n := |ReadsOf(base, a)|, |ReadsOf(base, b)|;
    assert m == n;
    assert m == 2 * DESCRIPTOR_SIZE * |a| by {
      ReadsLength(base, a);
    }
    assert n == 2 * DESCRIPTOR_SIZE * |b| by {
      ReadsLength(base, b);
    }
  }

  lemma SameParts<T>(a: seq<T>, b: seq<T>, n: nat)
    requires |a| == |b| == n + 1 && a[..n] == b[..n] && a[n] == b[n]
    ensures a == b
  {
    assert a == a[..n] + [a[n]] && b == b[..n] + [b[n]];
  }

  ghost predicate SameReads(base: int, a: seq<Copies>, b: seq<Copies>) {
    ReadsOf(base, a) == ReadsOf(base, b)
  }

  // What was observed is what was read: the log of the reads leaves no choice.
  lemma {:induction false} ReadsDetermineObserved(base: int, a: seq<Copies>, b: seq<Copies>)
    requires AllWhole(a) && AllWhole(b) && SameReads(base, a, b)
    ensures a == b
    decreases |a|
  {
    SameLength(base, a, b);
    if a != [] {
      var n := |a| - 1;
      SameButLast(base, a, b, n);
      ReadsDetermineObserved(base, a[..n], b[..n]);
      SameParts(a, b, n);
    }
  }
}

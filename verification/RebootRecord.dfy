// The 24-byte packed record RebootTest.c keeps in \RebootTest.state, and what
// LoadState accepts.  The checksum is any function of the bytes.
module RebootRecord {
  import opened Bytes

  const SIGNATURE: uint32 := 0x3154_4252  // 'R', 'B', 'T', '1'
  const VERSION: uint16 := 1
  const DEFAULT_DELAY: uint32 := 3
  const MAX_DELAY: uint32 := 60
  const MAX_COUNT: uint32 := 1000000
  const RESET_COLD: byte := 0
  const RESET_WARM: byte := 1
  const SIZE: nat := 24

  type Crc = seq<byte> -> uint32

  datatype Record = Record(
    signature: uint32, version: uint16, active: byte, resetType: byte,
    target: uint32, completed: uint32, delay: uint32, crc: uint32)

  datatype Status =
    | Success | Warning
    | NotFound | Aborted | InvalidParameter | CompromisedData | CrcError | DeviceError
  {
    predicate IsError() { !Success? && !Warning? }
  }

  // What is on disk under the state path.  Only the first `synced` bytes are sure
  // to survive a power cut; the rest may be lost from the end.
  datatype Content = Absent | File(bytes: seq<byte>, synced: nat)

  function Encode(r: Record): (b: seq<byte>)
    ensures |b| == SIZE
  {
    Bytes32(r.signature) + Bytes16(r.version) + [r.active, r.resetType]
    + Bytes32(r.target) + Bytes32(r.completed) + Bytes32(r.delay) + Bytes32(r.crc)
  }

  function Decode(b: seq<byte>): Record
    requires |b| == SIZE
  {
    Record(Le32(b, 0), Le16(b, 4), b[6], b[7],
           Le32(b, 8), Le32(b, 12), Le32(b, 16), Le32(b, 20))
  }

  lemma DecodeEncode(r: Record)
    ensures Decode(Encode(r)) == r
    ensures
      var b := Encode(r);
      && b[0..4] == Bytes32(r.signature) && b[4..6] == Bytes16(r.version) && b[6] == r.active && b[7] == r.resetType
      && b[8..12] == Bytes32(r.target) && b[12..16] == Bytes32(r.completed) && b[16..20] == Bytes32(r.delay)
      && b[20..24] == Bytes32(r.crc)
  {
    var b := Encode(r);
    assert b[0..4] == Bytes32(r.signature);
    assert b[4..6] == Bytes16(r.version);
    assert b[8..12] == Bytes32(r.target);
    assert b[12..16] == Bytes32(r.completed);
    assert b[16..20] == Bytes32(r.delay);
    assert b[20..24] == Bytes32(r.crc);
    SliceAt(b, 0); SliceAt(b, 8); SliceAt(b, 12); SliceAt(b, 16); SliceAt(b, 20);
    assert Le16(b, 4) == Le16(b[4..6], 0);
  }

  lemma SliceAt(b: seq<byte>, at: nat)
    requires at + 4 <= |b|
    ensures Le32(b, at) == Le32(b[at..at + 4], 0)
  {
  }

  // The checksum of a record is taken with its checksum field zeroed.
  function Checksum(crc: Crc, r: Record): uint32 {
    crc(Encode(r.(crc := 0)))
  }

  function Sealed(crc: Crc, r: Record): Record {
    r.(crc := Checksum(crc, r))
  }

  predicate InRange(r: Record) {
    && 0 < r.target <= MAX_COUNT
    && r.completed <= r.target
    && (r.active != 0 ==> r.completed < r.target)
    && 0 < r.delay <= MAX_DELAY
    && (r.active == 0 || r.active == 1)
    && (r.resetType == RESET_WARM || r.resetType == RESET_COLD)
  }

  predicate Valid(r: Record) {
    r.signature == SIGNATURE && r.version == VERSION && InRange(r)
  }

  // What LoadState answers when no firmware call fails.
  function Verdict(crc: Crc, disk: Content): Status {
    if disk.Absent? then NotFound
    else if |disk.bytes| != SIZE then CompromisedData
    else
      var r := Decode(disk.bytes);
      if r.signature != SIGNATURE || r.version != VERSION then CompromisedData
      else if Checksum(crc, r) != r.crc then CrcError
      else if !InRange(r) then CompromisedData
      else Success
  }

  predicate Accepts(crc: Crc, disk: Content) {
    Verdict(crc, disk) == Success
  }

  function Loaded(crc: Crc, disk: Content): Record
    requires Accepts(crc, disk)
  {
    Decode(disk.bytes)
  }

  // A power cut may drop unsynced bytes from the end of the file.
  predicate Truncation(d: Content, d': Content) {
    || d' == d
    || (d.File? && d'.File? && d'.bytes <= d.bytes
        && d.synced <= |d'.bytes| && d'.synced == |d'.bytes|)
  }

  function Clean(r: Record): Record {
    r.(crc := 0)
  }

  // The record a disk holds, for LoadState's purposes.
  function Held(crc: Crc, disk: Content): (r: Option<Record>)
    ensures r.Some? <==> Verdict(crc, disk) == Success
    ensures r.Some? ==> Valid(r.value) && r.value == Clean(Loaded(crc, disk))
  {
    if Accepts(crc, disk) then Some(Clean(Loaded(crc, disk))) else None
  }

  lemma Bytes32Back(b: seq<byte>, at: nat)
    requires at + 4 <= |b|
    ensures Bytes32(Le32(b, at)) == b[at..at + 4]
  {
    var n, high := Le32(b, at), b[at + 1] as int + 0x100 * (b[at + 2] as int) + 0x1_0000 * (b[at + 3] as int);
    assert n as int == b[at] as int + 0x100 * high;
    assert n / 0x100 == high && n % 0x100 == b[at] as int;
    var higher := b[at + 2] as int + 0x100 * (b[at + 3] as int);
    assert high / 0x100 == higher && high % 0x100 == b[at + 1] as int;
    assert higher / 0x100 == b[at + 3] as int && higher % 0x100 == b[at + 2] as int;
  }

  lemma Bytes16Back(b: seq<byte>, at: nat)
    requires at + 2 <= |b|
    ensures Bytes16(Le16(b, at)) == b[at..at + 2]
  {
    assert Le16(b, at) as int == b[at] as int + 0x100 * (b[at + 1] as int);
  }

  // The checksum is taken over the bytes of the file with the last four zeroed.
  lemma ChecksumOfBytes(crc: Crc, b: seq<byte>)
    requires |b| == SIZE
    ensures Checksum(crc, Decode(b)) == crc(b[..20] + [0, 0, 0, 0])
  {
    Bytes32Back(b, 0);
    Bytes16Back(b, 4);
    Bytes32Back(b, 8);
    Bytes32Back(b, 12);
    Bytes32Back(b, 16);
    assert Bytes32(0) == [0, 0, 0, 0];
    assert Encode(Decode(b).(crc := 0)) == b[..20] + [0, 0, 0, 0];
  }

  // What a file must be to be accepted, byte by byte.
  lemma AcceptedBytes(crc: Crc, b: seq<byte>, synced: nat)
    ensures Held(crc, File(b, synced)).Some? <==>
      && |b| == 24
      && b[..6] == ['R' as byte, 'B' as byte, 'T' as byte, '1' as byte, 1, 0]
      && crc(b[..20] + [0, 0, 0, 0]) == Le32(b, 20)
      && b[6] <= 1 && b[7] <= 1
      && 1 <= Le32(b, 8) <= 1_000_000
      && Le32(b, 12) <= Le32(b, 8) && (b[6] == 1 ==> Le32(b, 12) < Le32(b, 8))
      && 1 <= Le32(b, 16) <= 60
  {
    if |b| == SIZE {
      ChecksumOfBytes(crc, b);
      Signed(b);
    }
  }

  // Which status a file gets: missing, a wrong checksum in a file that is otherwise signed,
  // and compromised for everything else that is not accepted.
  lemma VerdictIs(crc: Crc, disk: Content)
    ensures Verdict(crc, disk) == NotFound <==> disk.Absent?
    ensures Verdict(crc, disk) == CrcError <==>
      && disk.File? && |disk.bytes| == 24
      && disk.bytes[..6] == ['R' as byte, 'B' as byte, 'T' as byte, '1' as byte, 1, 0]
      && crc(disk.bytes[..20] + [0, 0, 0, 0]) != Le32(disk.bytes, 20)
    ensures Verdict(crc, disk) in {Success, NotFound, CrcError, CompromisedData}
  {
    if disk.File? && |disk.bytes| == SIZE {
      ChecksumOfBytes(crc, disk.bytes);
      Signed(disk.bytes);
    }
  }

  lemma Signed(b: seq<byte>)
    requires |b| == SIZE
    ensures b[..6] == ['R' as byte, 'B' as byte, 'T' as byte, '1' as byte, 1, 0] <==>
            Le32(b, 0) == SIGNATURE && Le16(b, 4) == VERSION
  {
    Bytes32Back(b, 0);
    Bytes16Back(b, 4);
    assert b[..6] == b[0..4] + b[4..6];
    assert Bytes32(SIGNATURE) == ['R' as byte, 'B' as byte, 'T' as byte, '1' as byte] && Bytes16(VERSION) == [1, 0];
  }

  // Of the prefixes of a sealed record, LoadState accepts the whole one or none, and
  // then reads back every field.
  lemma SealedPrefix(crc: Crc, r: Record, d: Content)
    requires d.File? && d.bytes <= Encode(Sealed(crc, r))
    ensures Held(crc, d) == if |d.bytes| == SIZE && Valid(r) then Some(Clean(r)) else None
    ensures Held(crc, d).None? && !(|d.bytes| == SIZE) ==> Verdict(crc, d) == CompromisedData
  {
    if |d.bytes| == SIZE {
      assert d.bytes == Encode(Sealed(crc, r));
      DecodeEncode(Sealed(crc, r));
      assert Sealed(crc, r).(crc := 0) == r.(crc := 0);
    }
  }

  // Longer files than a record must be durable, or a power cut could cut them to size.
  predicate Settled(d: Content) {
    d.File? ==> |d.bytes| <= SIZE || |d.bytes| <= d.synced
  }

  // A power cut leaves a record as it is, or nothing that loads.
  lemma TruncatedRecord(crc: Crc, d: Content, d': Content)
    requires Settled(d) && Truncation(d, d')
    ensures Settled(d')
    ensures
      || (Held(crc, d') == Held(crc, d) && Verdict(crc, d') == Verdict(crc, d))
      || (Held(crc, d').None? && Verdict(crc, d') == CompromisedData)
    ensures Held(crc, d').Some? ==> d' == d || (d'.bytes == d.bytes && d'.synced == |d.bytes|)
  {
    if d.File? && d'.File? && |d'.bytes| == |d.bytes| {
      assert d'.bytes == d.bytes;
    }
  }
}

// The state file of RebootTest.c: LoadState, SaveState and DeleteState over the trouble
// firmware, each with the step it may take, and what that means for the record on disk.
module RebootStore {
  import opened Bytes
  import opened RebootRecord
  import opened RebootFirmware

  // Where a save of `bytes` can leave the disk: the old file (perhaps truncated by a
  // power cut), no file, or a prefix of the new bytes.
  predicate Reached(w: World, w': World, bytes: seq<byte>, start: nat) {
    || Kept(w, w')
    || w'.disk.Absent?
    || (w'.disk.bytes <= bytes && w'.disk.synced <= |w'.disk.bytes| && w'.owner == start)
  }

  predicate Quiet(w: World, w': World) {
    && w'.targets == w.targets && w'.log == w.log
    && (w'.powered ==> w.powered)
    && (!w.powered ==> w' == w)
  }

  predicate DeleteStep(env: Env, w: World, w': World, s: Status) {
    && Quiet(w, w')
    && (Kept(w, w') || w'.disk.Absent?)
    && (w'.powered && !s.IsError() ==> w'.disk.Absent?)
    && (env.trouble.Smooth() && w.powered ==> w'.powered && s == Success)
  }

  predicate SaveStep(env: Env, w: World, w': World, record: Record, start: nat, s: Status) {
    var bytes := Encode(Sealed(env.crc, record));
    && Quiet(w, w')
    && Reached(w, w', bytes, start)
    && (w'.powered && !s.IsError() ==> w'.disk == File(bytes, SIZE) && w'.owner == start)
    && (env.trouble.Smooth() && w.powered ==> w'.powered && s == Success)
  }

  predicate LoadStep(env: Env, w: World, w': World, record: Record, s: Status) {
    && Glitch(w, w')
    && (s == Success || s.IsError())
    && (s == Success ==> Valid(record))
    && (w'.powered && s == Success ==> Accepts(env.crc, w.disk) && record == Loaded(env.crc, w.disk))
    && (w'.powered && s == NotFound ==> w.disk.Absent? || env.trouble.StrayNotFound?)
    && (env.trouble.Smooth() && w.powered ==> w'.powered && s == Verdict(env.crc, w.disk))
  }

  // CalculateStateCrc32 zeroes the field for the computation and restores it.
  method CalculateStateCrc32(fw: Firmware, record: Record) returns (s: Status, value: uint32)
    modifies fw`disk, fw`powered
    ensures Glitch(old(fw.State()), fw.State())
    ensures !s.IsError() ==> value == Checksum(fw.env.crc, record)
    ensures fw.env.trouble.Smooth() ==> fw.State() == old(fw.State()) && s == Success
    ensures s == NotFound ==> fw.env.trouble.StrayNotFound?
  {
    var state := record;
    var saved := state.crc;
    state := state.(crc := 0);
    s := fw.Do(CalculateCrc32);
    value := fw.env.crc(Encode(state));
    state := state.(crc := saved);
    assert state == record;
  }

  // The part of LoadState that talks to the file: the bytes of a file of at most SIZE bytes.
  method ReadStateFile(fw: Firmware) returns (s: Status, data: seq<byte>)
    modifies fw`disk, fw`powered, fw`position, fw`owner
    ensures Glitch(old(fw.State()), fw.State())
    ensures fw.powered && !s.IsError() ==> fw.disk.File? && |fw.disk.bytes| <= SIZE && data == fw.disk.bytes
    ensures |data| <= SIZE
    ensures fw.powered && s == NotFound ==> fw.disk.Absent? || fw.env.trouble.StrayNotFound?
    ensures fw.env.trouble.Smooth() && old(fw.powered) ==>
      && fw.powered
      && (fw.disk.Absent? ==> s == NotFound)
      && (fw.disk.File? ==> s == if |fw.disk.bytes| <= SIZE then Success else CompromisedData)
  {
    data := [];
    s := fw.Do(OpenVolume);
    if s.IsError() {
      return;
    }
    s := fw.Open(false, 0);
    if s.IsError() {
      var _ := fw.Do(CloseRoot);
      return;
    }
    s, data := fw.Read(SIZE);
    if !s.IsError() && |data| == SIZE {
      var extra;
      s, extra := fw.Read(1);
      if !s.IsError() && |extra| != 0 {
        s := CompromisedData;
      }
    }
    var _ := fw.Do(CloseFile);
    var _ := fw.Do(CloseRoot);
  }

  method LoadState(fw: Firmware) returns (s: Status, record: Record)
    modifies fw`disk, fw`powered, fw`position, fw`owner
    ensures LoadStep(fw.env, old(fw.State()), fw.State(), record, s)
  {
    record := Record(0, 0, 0, 0, 0, 0, 0, 0);
    var data;
    s, data := ReadStateFile(fw);
    if s.IsError() {
      return;
    }
    s, record := CheckRecord(fw, data);
  }

  // The last test of LoadState.
  method OutOfRange(record: Record) returns (outside: bool)
    ensures outside == !InRange(record)
  {
    outside :=
      || record.target == 0
      || record.target > MAX_COUNT
      || record.completed > record.target
      || (record.active != 0 && record.completed >= record.target)
      || record.delay == 0
      || record.delay > MAX_DELAY
      || (record.active != 0 && record.active != 1)
      || (record.resetType != RESET_WARM && record.resetType != RESET_COLD);
  }

  // The checks LoadState makes on the bytes it read.
  method CheckRecord(fw: Firmware, data: seq<byte>) returns (s: Status, record: Record)
    modifies fw`disk, fw`powered
    ensures Glitch(old(fw.State()), fw.State())
    ensures s == Success || s.IsError()
    ensures s == NotFound ==> fw.env.trouble.StrayNotFound?
    ensures s == Success ==>
      Verdict(fw.env.crc, File(data, 0)) == Success && record == Decode(data) && Valid(record)
    ensures fw.env.trouble.Smooth() ==> fw.State() == old(fw.State()) && s == Verdict(fw.env.crc, File(data, 0))
  {
    record := Record(0, 0, 0, 0, 0, 0, 0, 0);
    if |data| != SIZE {
      return CompromisedData, record;
    }
    record := Decode(data);
    if record.signature != SIGNATURE || record.version != VERSION {
      return CompromisedData, record;
    }
    var value;
    s, value := CalculateStateCrc32(fw, record);
    if s.IsError() {
      return;
    }
    if value != record.crc {
      return CrcError, record;
    }
    var outside := OutOfRange(record);
    return if outside then CompromisedData else Success, record;
  }

  method DeleteState(fw: Firmware) returns (s: Status)
    modifies fw`disk, fw`powered, fw`position, fw`owner
    ensures DeleteStep(fw.env, old(fw.State()), fw.State(), s)
    ensures s == Success || s.IsError()
  {
    s := fw.Do(OpenVolume);
    if s.IsError() {
      return;
    }
    s := fw.Open(false, 0);
    var closed: Status;
    if s == NotFound {
      closed := fw.Do(CloseRoot);
      return if closed.IsError() then closed else Success;
    }
    if s.IsError() {
      var _ := fw.Do(CloseRoot);
      return;
    }
    s := fw.Delete();
    if s != Success {
      var _ := fw.Do(CloseRoot);
      return if s.IsError() then s else DeviceError;
    }
    // Success counts only once the name is seen to be gone.
    s := fw.Open(false, 0);
    if s == NotFound {
      s := Success;
    } else if s == Success {
      var _ := fw.Do(CloseFile);
      s := DeviceError;
    } else if !s.IsError() {
      s := DeviceError;
    }
    closed := fw.Do(CloseRoot);
    if !s.IsError() && closed.IsError() {
      s := closed;
    }
  }

  // The part of SaveState after the new file is open: write, flush, close.
  method WriteStateFile(fw: Firmware, bytes: seq<byte>, ghost start: nat) returns (s: Status)
    requires fw.powered ==> fw.disk == File([], 0) && fw.position == 0 && fw.owner == start
    modifies fw`disk, fw`powered, fw`owner
    ensures Quiet(old(fw.State()), fw.State())
    ensures old(fw.powered) ==>
      fw.disk.File? && fw.disk.bytes <= bytes && fw.disk.synced <= |fw.disk.bytes| && fw.owner == start
    ensures fw.powered && !s.IsError() ==> fw.disk == File(bytes, |bytes|)
    ensures fw.env.trouble.Smooth() && old(fw.powered) ==> fw.powered && s == Success
  {
    s := fw.Do(SetPosition);
    if !s.IsError() {
      var n;
      ghost var landed;
      s, n, landed := fw.Write(bytes, start);
      OverlayOnEmpty(bytes[..landed]);
      if !s.IsError() && n != |bytes| {
        s := DeviceError;
      }
      assert bytes[..|bytes|] == bytes;
    }
    if !s.IsError() {
      s := fw.Flush();
    }
    var closed := fw.Do(CloseFile);
    if !s.IsError() && closed.IsError() {
      s := closed;
    }
    closed := fw.Do(CloseRoot);
    if !s.IsError() && closed.IsError() {
      s := closed;
    }
  }

  method SaveState(fw: Firmware, record: Record, ghost start: nat) returns (s: Status)
    modifies fw`disk, fw`powered, fw`position, fw`owner
    ensures SaveStep(fw.env, old(fw.State()), fw.State(), record, start, s)
  {
    var local := record.(crc := 0);
    s := fw.Do(CalculateCrc32);
    local := local.(crc := fw.env.crc(Encode(local)));
    assert local == Sealed(fw.env.crc, record);
    if s.IsError() {
      return;
    }
    // Opening with CREATE does not truncate, so the old file goes first.
    s := DeleteState(fw);
    if s.IsError() {
      return;
    }
    s := fw.Do(OpenVolume);
    if s.IsError() {
      return;
    }
    s := fw.Open(true, start);
    if s.IsError() {
      var _ := fw.Do(CloseRoot);
      return;
    }
    s := WriteStateFile(fw, Encode(local), start);
  }

  // What the rest of the application can tell of a world: the record it would load.
  datatype View = View(
    held: Option<Record>, owner: nat, powered: bool, targets: seq<uint32>, log: seq<Event>)

  function See(env: Env, w: World): View {
    View(Held(env.crc, w.disk), w.owner, w.powered, w.targets, w.log)
  }

  predicate Still(v: View, v': View) {
    && v'.targets == v.targets && v'.log == v.log
    && (v'.powered ==> v.powered)
    && (!v.powered ==> v' == v)
  }

  predicate ViewGlitch(v: View, v': View) {
    && Still(v, v') && v'.owner == v.owner
    && (v'.held == v.held || v'.held.None?)
    && (v'.powered ==> v' == v)
  }

  predicate ViewDelete(trouble: Trouble, v: View, v': View, s: Status) {
    && Still(v, v')
    && ((v'.owner == v.owner && v'.held == v.held) || v'.held.None?)
    && (v'.powered && !s.IsError() ==> v'.held.None?)
    && (trouble.Smooth() && v.powered ==> v'.powered && s == Success)
  }

  // A save leaves the old record, the new one or none; a successful save the new one.
  predicate ViewSave(trouble: Trouble, v: View, v': View, record: Record, start: nat, s: Status) {
    && Still(v, v')
    && (|| (v'.owner == v.owner && v'.held == v.held)
        || v'.held.None?
        || (v'.owner == start && v'.held == Some(Clean(record))))
    && (v'.powered && !s.IsError() ==> v'.owner == start && v'.held == Some(Clean(record)))
    && (trouble.Smooth() && v.powered ==> v'.powered && s == Success)
  }

  predicate ViewLoad(trouble: Trouble, v: View, v': View, record: Record, s: Status) {
    && ViewGlitch(v, v')
    && (s == Success || s.IsError())
    && (s == Success ==> Valid(record))
    && (v'.powered && s == Success ==> v.held == Some(Clean(record)))
    && (v'.powered && s == NotFound ==> v.held.None? || trouble.StrayNotFound?)
    && (trouble.Smooth() && v.powered ==> v' == v && (s == Success <==> v.held.Some?))
  }

  lemma GlitchSeen(env: Env, w: World, w': World)
    requires Settled(w.disk) && Glitch(w, w')
    ensures Settled(w'.disk) && ViewGlitch(See(env, w), See(env, w'))
  {
    TruncatedRecord(env.crc, w.disk, w'.disk);
  }

  lemma LoadSeen(env: Env, w: World, w': World, record: Record, s: Status)
    requires Settled(w.disk) && LoadStep(env, w, w', record, s)
    ensures Settled(w'.disk) && ViewLoad(env.trouble, See(env, w), See(env, w'), record, s)
  {
    GlitchSeen(env, w, w');
  }

  lemma DeleteSeen(env: Env, w: World, w': World, s: Status)
    requires Settled(w.disk) && DeleteStep(env, w, w', s)
    ensures Settled(w'.disk) && ViewDelete(env.trouble, See(env, w), See(env, w'), s)
  {
    if Kept(w, w') {
      TruncatedRecord(env.crc, w.disk, w'.disk);
    }
  }

  lemma ReachedHeld(env: Env, w: World, w': World, record: Record, start: nat)
    requires Settled(w.disk) && Valid(record)
    requires Reached(w, w', Encode(Sealed(env.crc, record)), start)
    ensures Settled(w'.disk)
    ensures
      || (w'.owner == w.owner && Held(env.crc, w'.disk) == Held(env.crc, w.disk))
      || (Held(env.crc, w'.disk).None? && Verdict(env.crc, w'.disk) in {NotFound, CompromisedData})
      || (w'.owner == start && Held(env.crc, w'.disk) == Some(Clean(record)))
  {
    if Kept(w, w') {
      TruncatedRecord(env.crc, w.disk, w'.disk);
    } else if w'.disk.File? {
      SealedPrefix(env.crc, record, w'.disk);
    }
  }

  lemma SaveSeen(env: Env, w: World, w': World, record: Record, start: nat, s: Status)
    requires Settled(w.disk) && Valid(record) && SaveStep(env, w, w', record, start, s)
    ensures Settled(w'.disk) && ViewSave(env.trouble, See(env, w), See(env, w'), record, start, s)
  {
    ReachedHeld(env, w, w', record, start);
    if w'.powered && !s.IsError() {
      SealedPrefix(env.crc, record, w'.disk);
    }
  }

  // Crash consistency of SaveState: any disk, any failures, power lost anywhere (also
  // later, with writes still unsynced).  The disk then loads as exactly the old record or
  // exactly the new one, or is refused as missing or damaged.
  lemma CrashConsistency(env: Env, w: World, w': World, record: Record, start: nat, s: Status, later: Content)
    requires Held(env.crc, w.disk).Some? && Valid(record)
    requires SaveStep(env, w, w', record, start, s) && Truncation(w'.disk, later)
    ensures
      || Held(env.crc, later) == Held(env.crc, w.disk)
      || Held(env.crc, later) == Some(Clean(record))
      || Verdict(env.crc, later) in {NotFound, CompromisedData}
  {
    ReachedHeld(env, w, w', record, start);
    TruncatedRecord(env.crc, w'.disk, later);
  }

  // After a success the disk loads as the new record, whatever happens later.
  lemma SavedIsDurable(env: Env, w: World, w': World, record: Record, start: nat, s: Status, later: Content)
    requires Valid(record) && SaveStep(env, w, w', record, start, s) && Truncation(w'.disk, later)
    requires w'.powered && !s.IsError()
    ensures later.File? && later.bytes == Encode(Sealed(env.crc, record))
    ensures Held(env.crc, later) == Some(Clean(record))
  {
    assert later.bytes == w'.disk.bytes;
    SealedPrefix(env.crc, record, later);
  }
}

// The firmware under RebootTest.c as a machine that may fail any call and lose
// power before any call.  Once power is lost no later call has an effect, so the
// application's code can run on unchanged without anything observable happening.
module RebootFirmware {
  import opened Bytes
  import opened RebootRecord

  // Instrumentation, not in the source: what happened, and for which start command.
  datatype Event =
    | Landed(start: nat)                         // a continue's incremented record is on disk
    | Saved(start: nat, record: Record)          // SaveState of an active record succeeded
    | KeyPressed(start: nat)                     // WaitForEvent answered with the key
    | ResetRequest(start: nat, record: Record)   // ResetSystem was called
    | Pass(start: nat, record: Record)           // PASS was printed

  // targets[e - 1] is the count start command e asked for; owner is the start whose
  // record the disk holds, 0 for a file that was there before any start.
  datatype World = World(
    disk: Content, owner: nat, powered: bool, targets: seq<uint32>, log: seq<Event>)

  // What may go wrong: nothing; nothing, but keys may be pressed; every call may fail and
  // power may go, but only Open ever answers NOT_FOUND; or any call may answer NOT_FOUND as
  // well.
  datatype Trouble = NoTrouble | OnlyKeys | Failures | StrayNotFound
  {
    // Every call succeeds and the power stays.
    predicate Smooth() { NoTrouble? || OnlyKeys? }
  }

  datatype Env = Env(crc: Crc, trouble: Trouble)

  datatype Call = OpenVolume | SetPosition | CloseFile | CloseRoot | CalculateCrc32 | CreateEvent | SetTimer

  datatype Wakeup = Key | Timer

  predicate Kept(w: World, w': World) {
    w'.owner == w.owner && Truncation(w.disk, w'.disk)
  }

  // A call that changes nothing, except that power may have been lost in it.
  predicate Glitch(w: World, w': World) {
    && w'.log == w.log && w'.targets == w.targets && Kept(w, w')
    && (w'.powered ==> w' == w)
    && (!w.powered ==> w' == w)
  }

  function Note(w: World, events: seq<Event>): World {
    if w.powered then w.(log := w.log + events) else w
  }

  class Firmware {
    const env: Env
    var disk: Content
    var position: nat
    var powered: bool
    ghost var owner: nat
    ghost var targets: seq<uint32>
    ghost var log: seq<Event>

    ghost function State(): World
      reads this
    {
      World(disk, owner, powered, targets, log)
    }

    constructor (env: Env, disk: Content)
      ensures this.env == env && State() == World(disk, 0, false, [], [])
    {
      this.env, this.disk, position, powered := env, disk, 0, false;
      owner, targets, log := 0, [], [];
    }

    method Boot()
      modifies this`powered
      ensures State() == old(State()).(powered := true)
    {
      powered := true;
    }

    // Power may be lost here.
    method Tick()
      modifies this`disk, this`powered
      ensures Glitch(old(State()), State())
      ensures env.trouble.Smooth() ==> State() == old(State())
    {
      var cut: bool := *;
      if powered && !env.trouble.Smooth() && cut {
        powered := false;
        if disk.File? {
          var k: nat := *;
          if disk.synced <= k <= |disk.bytes| {
            disk := File(disk.bytes[..k], k);
          }
        }
      }
    }

    // The status of a call other than Open.
    method Answer() returns (s: Status)
      ensures env.trouble.Smooth() ==> s == Success
      ensures s == NotFound ==> env.trouble.StrayNotFound?
    {
      s := *;
      if env.trouble.Smooth() {
        s := Success;
      } else if s == NotFound && env.trouble.Failures? {
        s := DeviceError;
      }
    }

    // A call without effect on the file, with any status.
    method Do(call: Call) returns (s: Status)
      modifies this`disk, this`powered
      ensures Glitch(old(State()), State())
      ensures env.trouble.Smooth() ==> State() == old(State()) && s == Success
      ensures s == NotFound ==> env.trouble.StrayNotFound?
    {
      Tick();
      s := Answer();
    }

    // Root->Open.  It may fail with any error, but NOT_FOUND and success are honest.
    method Open(create: bool, ghost start: nat) returns (s: Status)
      modifies this`disk, this`powered, this`position, this`owner
      ensures
        || Glitch(old(State()), State())
        || (old(powered) && create && old(disk).Absent?
            && State() == old(State()).(disk := File([], 0), owner := start))
      ensures powered && s == NotFound && !create ==> disk.Absent?
      ensures powered && !s.IsError() ==> disk.File? && position == 0
      ensures env.trouble.Smooth() && old(powered) ==>
        && powered
        && s == (if create || disk.File? then Success else NotFound)
        && (old(disk).File? || !create ==> State() == old(State()))
    {
      Tick();
      s := *;
      var spurious: bool := *;
      position := 0;
      if powered && create && disk.Absent? && (env.trouble.Smooth() || spurious || !s.IsError()) {
        disk := File([], 0);
        owner := start;
      }
      if env.trouble.Smooth() {
        s := if create || disk.File? then Success else NotFound;
      } else if disk.File? {
        s := if s == NotFound then DeviceError else s;
      } else {
        s := if s.IsError() then s else NotFound;
      }
    }

    // File->Read of n bytes: an error, or every byte up to n or the end of the file.
    method Read(n: nat) returns (s: Status, data: seq<byte>)
      requires powered ==> disk.File? && position <= |disk.bytes|
      modifies this`disk, this`powered, this`position
      ensures Glitch(old(State()), State())
      ensures position >= old(position)
      ensures powered && !s.IsError() ==>
        && disk.File?
        && position == (if old(position) + n <= |disk.bytes| then old(position) + n else |disk.bytes|)
        && data == disk.bytes[old(position)..position]
      ensures powered ==> disk.File? && position <= |disk.bytes|
      ensures |data| <= n
      ensures env.trouble.Smooth() && old(powered) ==> powered && s == Success
      ensures s == NotFound ==> env.trouble.StrayNotFound?
    {
      Tick();
      s := Answer();
      data := [];
      if powered && !s.IsError() {
        var end := if position + n <= |disk.bytes| then position + n else |disk.bytes|;
        data := disk.bytes[position..end];
        position := end;
      } else if !powered {
        data := *;
        data := if |data| <= n then data else data[..n];
      }
    }

    // File->Delete may claim success and leave the file, or warn or fail and remove it.
    method Delete() returns (s: Status)
      modifies this`disk, this`powered
      ensures Glitch(old(State()), State()) || (old(powered) && State() == old(State()).(disk := Absent))
      ensures env.trouble.Smooth() && old(powered) ==> State() == old(State()).(disk := Absent) && s == Success
    {
      Tick();
      s := Answer();
      var gone: bool := *;
      if env.trouble.Smooth() {
        gone := true;
      }
      if powered && gone {
        disk := Absent;
      }
    }

    // File->Write overlays the file at the position; any prefix of the data may land.
    // The number of bytes it reports with a status that is no error is what landed.
    method Write(data: seq<byte>, ghost start: nat) returns (s: Status, n: nat, ghost landed: nat)
      requires powered ==> disk.File? && position <= |disk.bytes|
      modifies this`disk, this`powered, this`owner
      ensures landed <= |data|
      ensures
        || Glitch(old(State()), State())
        || (old(powered)
            && State() == old(State()).(disk := Overlay(old(disk), old(position), data[..landed]), owner := start))
      ensures powered && !s.IsError() ==>
        && n == landed
        && State() == old(State()).(disk := Overlay(old(disk), old(position), data[..n]), owner := start)
      ensures env.trouble.Smooth() && old(powered) ==> powered && s == Success && n == |data|
    {
      Tick();
      s := Answer();
      landed := 0;
      n :| n <= |data|;
      if env.trouble.Smooth() {
        n := |data|;
      }
      if powered {
        landed := n;
        disk := Overlay(disk, position, data[..n]);
        owner := start;
      }
    }

    // File->Flush, the only call that makes written bytes durable.
    method Flush() returns (s: Status)
      modifies this`disk, this`powered
      ensures
        || Glitch(old(State()), State())
        || (old(powered) && old(disk).File?
            && State() == old(State()).(disk := File(old(disk).bytes, |old(disk).bytes|)))
      ensures powered && !s.IsError() && old(disk).File? ==> disk == File(old(disk).bytes, |old(disk).bytes|)
      ensures env.trouble.Smooth() && old(powered) ==> powered && s == Success
    {
      Tick();
      s := Answer();
      if powered && disk.File? && !s.IsError() {
        disk := File(disk.bytes, |disk.bytes|);
      }
    }

    // gBS->WaitForEvent for the key and the timer.  That the key was the answer is noted
    // here, by the machine and not by the program.
    method WaitForEvent(ghost start: nat) returns (s: Status, e: Wakeup)
      modifies this`disk, this`powered, this`log
      ensures
        if powered && !s.IsError() && e == Key then
          old(powered) && State() == old(State()).(log := old(log) + [KeyPressed(start)])
        else
          Glitch(old(State()), State())
      ensures env.trouble.Smooth() ==> powered == old(powered) && s == Success
      ensures env.trouble.NoTrouble? ==> e == Timer
    {
      Tick();
      s := Answer();
      e := *;
      if env.trouble.NoTrouble? {
        e := Timer;
      }
      if powered && !s.IsError() && e == Key {
        log := log + [KeyPressed(start)];
      }
    }

    // gRT->ResetSystem normally does not return: from the application's view the power goes.
    method ResetSystem(resetType: byte, ghost start: nat, ghost record: Record)
      requires resetType == record.resetType
      modifies this`disk, this`powered, this`log
      ensures
        || Glitch(old(State()), State())
        || (old(powered) && State() == old(State()).(log := old(log) + [ResetRequest(start, record)]))
        || (old(powered) && !powered && Kept(old(State()), State()) && targets == old(targets)
            && log == old(log) + [ResetRequest(start, record)])
      ensures powered ==> State() == old(State()).(log := old(log) + [ResetRequest(start, record)])
      ensures env.trouble.Smooth() && old(powered) ==>
        State() == old(State()).(powered := false, log := old(log) + [ResetRequest(start, record)])
    {
      Tick();
      if powered {
        log := log + [ResetRequest(start, record)];
        var returned: bool := *;
        if env.trouble.Smooth() {
          powered := false;
        } else if !returned {
          Tick();
          powered := false;
        }
      }
    }

    ghost method Record(events: seq<Event>)
      modifies this`log
      ensures State() == old(State()).(log := old(log) + events)
    {
      log := log + events;
    }

    ghost method RecordIfPowered(events: seq<Event>)
      modifies this`log
      ensures State() == Note(old(State()), events)
    {
      if powered {
        log := log + events;
      }
    }

    ghost method BeginStart(target: uint32)
      modifies this`targets
      ensures State() == old(State()).(targets := old(targets) + [target])
    {
      targets := targets + [target];
    }
  }

  lemma OverlayOnEmpty(data: seq<byte>)
    ensures Overlay(File([], 0), 0, data) == File(data, 0)
  {
    assert [] + data + [] == data;
  }

  function Overlay(d: Content, position: nat, data: seq<byte>): Content
    requires d.File? && position <= |d.bytes|
  {
    File(d.bytes[..position] + data + (if position + |data| <= |d.bytes| then d.bytes[position + |data|..] else []),
         if d.synced <= position then d.synced else position)
  }
}

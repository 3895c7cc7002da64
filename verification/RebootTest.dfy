// RebootTest.c: the commands, on top of the state file, each with the step it may take
// in the view of the world.
module RebootTest {
  import opened Bytes
  import opened RebootRecord
  import opened RebootFirmware
  import opened RebootStore
  import Parsers

  ghost function Now(fw: Firmware): View
    reads fw
  {
    See(fw.env, fw.State())
  }

  // ResetSystem: at most one request is noted.
  predicate RequestStep(trouble: Trouble, v: View, v': View, record: Record, start: nat) {
    var requested := v.(log := v.log + [ResetRequest(start, Clean(record))]);
    && (|| ViewGlitch(v, v')
        || (v.powered && (v' == requested || (!v'.powered && ViewGlitch(requested, v')))))
    && (v'.powered ==> v' == requested)
    && (trouble.Smooth() && v.powered ==> v' == requested.(powered := false))
  }

  function KeyNoted(v: View, start: nat): View {
    v.(log := v.log + [KeyPressed(start)])
  }

  // The wait: nothing happens, except that a key may be noted, and then the answer is
  // aborted.
  predicate WaitStep(trouble: Trouble, v: View, v': View, start: nat, s: Status) {
    && (s == Success || s.IsError())
    && (ViewGlitch(v, v') || (v.powered && v' == KeyNoted(v, start) && s == Aborted))
    && (trouble.Smooth() && v.powered ==> (v' == v && s == Success) || (v' == KeyNoted(v, start) && s == Aborted))
    && (trouble.NoTrouble? ==> v' == v)
  }

  // ResetSystemForTest: wait, then request the reset; if a key was pressed or the reset
  // returns, the test is made inactive.
  predicate ResetVia(trouble: Trouble, v: View, record: Record, start: nat, v1: View, s1: Status, v2: View, s2: Status,
      s: Status, v': View) {
    var stopped := record.(active := 0);
    && WaitStep(trouble, v, v1, start, s1)
    && if s1 == Aborted then
         ViewSave(trouble, v1, v', stopped, start, s2) && s == if s2.IsError() then s2 else Aborted
       else if s1.IsError() then
         v' == v1 && s == s1
       else
         && RequestStep(trouble, v1, v2, record, start) && ViewSave(trouble, v2, v', stopped, start, s2)
         && s == DeviceError
  }

  ghost predicate ResetStep(trouble: Trouble, v: View, v': View, record: Record, start: nat, s: Status) {
    exists v1, s1, v2, s2 :: ResetVia(trouble, v, record, start, v1, s1, v2, s2, s, v')
  }

  // In short: one event at most; the disk holds what it held, or the stopped record, or
  // nothing that loads; and a request that returns is an error.
  lemma ResetMeans(trouble: Trouble, v: View, v': View, record: Record, start: nat, s: Status)
    requires ResetStep(trouble, v, v', record, start, s)
    ensures
      var request := ResetRequest(start, Clean(record));
      && v'.targets == v.targets
      && (v'.powered ==> v.powered)
      && (!v.powered ==> v' == v)
      && (|| (v'.owner == v.owner && v'.held == v.held)
          || v'.held.None?
          || (v'.owner == start && v'.held == Some(Clean(record.(active := 0)))))
      && (v'.log == v.log || v'.log == v.log + [request] || v'.log == v.log + [KeyPressed(start)])
      && s.IsError()
      && (trouble.NoTrouble? && v.powered ==> v' == v.(powered := false, log := v.log + [request]))
  {
    var v1, s1, v2, s2 :| ResetVia(trouble, v, record, start, v1, s1, v2, s2, s, v');
  }

  method WaitForResetOrKey(fw: Firmware, delaySeconds: uint32, ghost start: nat) returns (s: Status)
    requires Settled(fw.disk)
    modifies fw`disk, fw`powered, fw`log
    ensures Settled(fw.disk) && WaitStep(fw.env.trouble, old(Now(fw)), Now(fw), start, s)
    ensures fw.log != old(fw.log) ==> s == Aborted && fw.log == old(fw.log) + [KeyPressed(start)]
  {
    ghost var w := fw.State();
    var event;
    s, event := AwaitEvent(fw, delaySeconds, start);
    if fw.log == w.log {
      GlitchSeen(fw.env, w, fw.State());
    }
    if s.IsError() {
      return;
    }
    if event == Key {
      return Aborted;
    }
    return Success;
  }

  // The timer and the wait proper.
  method AwaitEvent(fw: Firmware, delaySeconds: uint32, ghost start: nat) returns (s: Status, event: Wakeup)
    modifies fw`disk, fw`powered, fw`log
    ensures
      if fw.powered && !s.IsError() && event == Key then
        old(fw.powered) && fw.State() == old(fw.State()).(log := old(fw.log) + [KeyPressed(start)])
      else
        Glitch(old(fw.State()), fw.State())
    ensures fw.env.trouble.Smooth() ==> fw.powered == old(fw.powered) && s == Success
    ensures fw.env.trouble.NoTrouble? ==> event == Timer
  {
    event := Timer;
    s := fw.Do(CreateEvent);
    if s.IsError() {
      return;
    }
    s := fw.Do(SetTimer);
    if s.IsError() {
      return;
    }
    s, event := fw.WaitForEvent(start);
  }

  // SaveState and LoadState, with their steps seen as views.
  method Save(fw: Firmware, record: Record, ghost start: nat) returns (s: Status)
    requires Settled(fw.disk) && Valid(record)
    modifies fw`disk, fw`powered, fw`position, fw`owner
    ensures Settled(fw.disk) && ViewSave(fw.env.trouble, old(Now(fw)), Now(fw), record, start, s)
  {
    s := SaveState(fw, record, start);
    SaveSeen(fw.env, old(fw.State()), fw.State(), record, start, s);
  }

  method Load(fw: Firmware) returns (s: Status, record: Record)
    requires Settled(fw.disk)
    modifies fw`disk, fw`powered, fw`position, fw`owner
    ensures Settled(fw.disk) && ViewLoad(fw.env.trouble, old(Now(fw)), Now(fw), record, s)
    ensures fw.powered && s == NotFound ==> fw.disk.Absent? || fw.env.trouble.StrayNotFound?
  {
    s, record := LoadState(fw);
    LoadSeen(fw.env, old(fw.State()), fw.State(), record, s);
  }

  method RequestReset(fw: Firmware, record: Record, ghost start: nat)
    requires Settled(fw.disk)
    modifies fw`disk, fw`powered, fw`log
    ensures Settled(fw.disk) && RequestStep(fw.env.trouble, old(Now(fw)), Now(fw), record, start)
  {
    fw.ResetSystem(record.resetType, start, Clean(record));
    TruncatedRecord(fw.env.crc, old(fw.disk), fw.disk);
  }

  method ResetSystemForTest(fw: Firmware, record: Record, ghost start: nat) returns (s: Status)
    requires Settled(fw.disk) && Valid(record)
    modifies fw`disk, fw`powered, fw`position, fw`owner, fw`log
    ensures Settled(fw.disk) && ResetStep(fw.env.trouble, old(Now(fw)), Now(fw), record, start, s)
  {
    var state := record;
    ghost var v := Now(fw);
    s := WaitForResetOrKey(fw, state.delay, start);
    ghost var v1, s1 := Now(fw), s;
    if s == Aborted {
      state := state.(active := 0);
      s := Save(fw, state, start);
      ghost var s2 := s;
      s := if s.IsError() then s else Aborted;
      assert ResetVia(fw.env.trouble, v, record, start, v1, s1, v1, s2, s, Now(fw));
      return;
    }
    if s.IsError() {
      assert ResetVia(fw.env.trouble, v, record, start, v1, s1, v1, s1, s, Now(fw));
      return;
    }
    RequestReset(fw, state, start);
    ghost var v2 := Now(fw);
    state := state.(active := 0);
    s := Save(fw, state, start);
    assert ResetVia(fw.env.trouble, v, record, start, v1, s1, v2, s, DeviceError, Now(fw));
    return DeviceError;
  }

  // The landing of a continue's record, observed on the disk itself: the save may
  // have failed after the bytes were written.
  function Landing(before: View, v: View, record: Record, start: nat): seq<Event> {
    if before.powered && v.owner == start && v.held == Some(Clean(record)) then [Landed(start)] else []
  }

  function Noted(v: View, events: seq<Event>): View {
    if v.powered then v.(log := v.log + events) else v
  }

  function LowerCase(s: string): string {
    seq(|s|, i requires 0 <= i < |s| => if 'A' <= s[i] <= 'Z' then s[i] - 'A' + 'a' else s[i])
  }

  method StrEqualsIgnoreCase(first: string, second: string) returns (equal: bool)
    ensures equal == (LowerCase(first) == LowerCase(second))
  {
    var i := 0;
    while i < |first| && i < |second|
      invariant 0 <= i <= |first| && i <= |second|
      invariant forall j :: 0 <= j < i ==> LowerCase(first)[j] == LowerCase(second)[j]
    {
      var a, b := first[i], second[i];
      if 'A' <= a <= 'Z' {
        a := a - 'A' + 'a';
      }
      if 'A' <= b <= 'Z' {
        b := b - 'A' + 'a';
      }
      if a != b {
        assert LowerCase(first)[i] != LowerCase(second)[i];
        return false;
      }
      i := i + 1;
    }
    equal := i == |first| && i == |second|;
  }

  predicate IsNumber(s: string, max: nat) {
    s != [] && Parsers.IsNumeral(10, s) && 0 < Parsers.Value(10, s) <= max
  }

  // The record a command line start <count> [warm|cold] [delay] asks for, if it is well formed.
  function Asked(argv: seq<string>): Option<Record> {
    if || !(3 <= |argv| <= 5)
       || !IsNumber(argv[2], MAX_COUNT)
       || (|argv| >= 4 && LowerCase(argv[3]) != "warm" && LowerCase(argv[3]) != "cold")
       || (|argv| == 5 && !IsNumber(argv[4], MAX_DELAY))
    then None
    else Some(Record(
      SIGNATURE, VERSION, 1,
      if |argv| >= 4 && LowerCase(argv[3]) == "cold" then RESET_COLD else RESET_WARM,
      Parsers.Value(10, argv[2]), 0,
      if |argv| == 5 then Parsers.Value(10, argv[4]) else DEFAULT_DELAY, 0))
  }

  ghost predicate StartVia(trouble: Trouble, v: View, record: Record, v1: View, s1: Status, s: Status, v': View) {
    var v0 := v.(targets := v.targets + [record.target]);
    var start := |v0.targets|;
    && ViewSave(trouble, v0, v1, record, start, s1)
    && if s1.IsError() then v' == v1 && s == s1
       else ResetStep(trouble, Noted(v1, [Saved(start, Clean(record))]), v', record, start, s)
  }

  // The last argument of this and the following steps is the exit status.
  ghost predicate StartStep(trouble: Trouble, v: View, argv: seq<string>, v': View, s: Status) {
    match Asked(argv)
    case None => v' == v && s == InvalidParameter
    case Some(record) => exists v1, s1 :: StartVia(trouble, v, record, v1, s1, s, v')
  }

  // The argument checks StartTest begins with.
  method ParseStart(argv: seq<string>) returns (r: Option<Record>)
    ensures r == Asked(argv)
  {
    if |argv| < 3 || |argv| > 5 {
      return None;
    }
    var count := Parsers.ParseUint32(argv[2]);
    if count.None? || count.value == 0 || count.value > MAX_COUNT {
      return None;
    }
    var state := Record(SIGNATURE, VERSION, 1, RESET_WARM, count.value, 0, DEFAULT_DELAY, 0);
    if |argv| >= 4 {
      var warm := StrEqualsIgnoreCase(argv[3], "warm");
      var cold := StrEqualsIgnoreCase(argv[3], "cold");
      assert LowerCase("warm") == "warm" && LowerCase("cold") == "cold" && "warm"[0] != "cold"[0];
      if warm {
        state := state.(resetType := RESET_WARM);
      } else if cold {
        state := state.(resetType := RESET_COLD);
      } else {
        return None;
      }
    }
    if |argv| == 5 {
      var delay := Parsers.ParseUint32(argv[4]);
      if delay.None? || delay.value == 0 || delay.value > MAX_DELAY {
        return None;
      }
      state := state.(delay := delay.value);
    }
    return Some(state);
  }

  method StartTest(fw: Firmware, argv: seq<string>) returns (s: Status)
    requires Settled(fw.disk)
    modifies fw
    ensures Settled(fw.disk) && StartStep(fw.env.trouble, old(Now(fw)), argv, Now(fw), s)
  {
    var asked := ParseStart(argv);
    if asked.None? {
      return InvalidParameter;
    }
    var state := asked.value;
    fw.BeginStart(state.target);
    ghost var start := |fw.targets|;
    s := Save(fw, state, start);
    ghost var v1, s1 := Now(fw), s;
    if !s.IsError() {
      fw.RecordIfPowered([Saved(start, Clean(state))]);
      s := ResetSystemForTest(fw, state, start);
    }
    assert StartVia(fw.env.trouble, old(Now(fw)), state, v1, s1, s, Now(fw));
  }

  // The record an active record becomes when the machine has come back once more.
  function Advanced(record: Record): Record
    requires record.completed < MAX_COUNT
  {
    var next := record.(completed := record.completed + 1);
    if next.completed >= next.target then next.(active := 0) else next
  }

  // What continue does with an active record: persist the advance, then pass or reset.
  ghost predicate AdvanceVia(trouble: Trouble, v0: View, loaded: Record, v1: View, s1: Status, s: Status, v': View)
    requires loaded.completed < MAX_COUNT
  {
    var start := v0.owner;
    var next := Advanced(loaded);
    var v2 := v1.(log := v1.log + Landing(v0, v1, next, start));
    && ViewSave(trouble, v0, v1, next, start, s1)
    && if s1.IsError() then v' == v2 && s == s1
       else if next.active == 0 then v' == Noted(v2, [Pass(start, Clean(next))]) && s == Success
       else ResetStep(trouble, Noted(v2, [Saved(start, Clean(next))]), v', next, start, s)
  }

  // There is no state file, or an inactive record in it.
  ghost predicate AtRest(fw: Firmware)
    reads fw
  {
    fw.disk.Absent? || (Now(fw).held.Some? && Now(fw).held.value.active == 0)
  }

  // A missing state file is no error.
  function Tolerated(s: Status): Status {
    if s == NotFound then Success else s
  }

  ghost predicate ContinueVia(trouble: Trouble, v: View, v0: View, loaded: Record, s0: Status, v1: View, s1: Status,
      s: Status, v': View) {
    && ViewLoad(trouble, v, v0, loaded, s0)
    && if s0 != Success || loaded.active == 0 then v' == v0 && s == Tolerated(s0)
       else AdvanceVia(trouble, v0, loaded, v1, s1, s, v')
  }

  ghost predicate ContinueStep(trouble: Trouble, v: View, v': View, s: Status) {
    exists v0, loaded, s0, v1, s1 :: ContinueVia(trouble, v, v0, loaded, s0, v1, s1, s, v')
  }

  // SaveState of the advanced record, with the note whether it landed.
  method SaveProgress(fw: Firmware, next: Record) returns (s: Status, ghost v1: View)
    requires Settled(fw.disk) && Valid(next)
    modifies fw
    ensures Settled(fw.disk) && ViewSave(fw.env.trouble, old(Now(fw)), v1, next, old(fw.owner), s)
    ensures Now(fw) == v1.(log := v1.log + Landing(old(Now(fw)), v1, next, old(fw.owner)))
  {
    ghost var start := fw.owner;
    s := Save(fw, next, start);
    v1 := Now(fw);
    fw.Record(Landing(old(Now(fw)), v1, next, start));
  }

  // The part of ContinueTest that runs for an active record.
  method AdvanceTest(fw: Firmware, loaded: Record) returns (s: Status, ghost v1: View, ghost s1: Status)
    requires Settled(fw.disk) && Valid(loaded) && loaded.active != 0
    modifies fw
    ensures Settled(fw.disk) && AdvanceVia(fw.env.trouble, old(Now(fw)), loaded, v1, s1, s, Now(fw))
  {
    ghost var start := fw.owner;
    var state := loaded.(completed := loaded.completed + 1);
    var finished := state.completed >= state.target;
    if finished {
      state := state.(active := 0);
    }
    assert state == Advanced(loaded);
    s, v1 := SaveProgress(fw, state);
    s1 := s;
    ghost var v2 := Now(fw);
    if !s.IsError() {
      if finished {
        fw.RecordIfPowered([Pass(start, Clean(state))]);
        assert Now(fw) == Noted(v2, [Pass(start, Clean(state))]);
        s := Success;
      } else {
        fw.RecordIfPowered([Saved(start, Clean(state))]);
        ghost var v3 := Now(fw);
        assert v3 == Noted(v2, [Saved(start, Clean(state))]);
        s := ResetSystemForTest(fw, state, start);
        assert ResetStep(fw.env.trouble, v3, Now(fw), state, start, s);
      }
    }
  }

  method ContinueTest(fw: Firmware) returns (s: Status)
    requires Settled(fw.disk)
    modifies fw
    ensures Settled(fw.disk) && ContinueStep(fw.env.trouble, old(Now(fw)), Now(fw), s)
    ensures fw.powered && s == Success ==> AtRest(fw) || fw.env.trouble.StrayNotFound?
  {
    ghost var v := Now(fw);
    var state;
    s, state := Load(fw);
    ghost var v0, s0 := Now(fw), s;
    if s.IsError() || state.active == 0 {
      if s == NotFound {
        s := Success;
      }
      assert ContinueVia(fw.env.trouble, v, v0, state, s0, v0, s0, s, Now(fw));
      return;
    }
    ghost var v1, s1;
    s, v1, s1 := AdvanceTest(fw, state);
    assert ContinueVia(fw.env.trouble, v, v0, state, s0, v1, s1, s, Now(fw));
  }

  predicate StopVia(trouble: Trouble, v: View, v0: View, loaded: Record, s0: Status, s1: Status, v': View, s: Status) {
    && ViewLoad(trouble, v, v0, loaded, s0)
    && if s0 != Success then v' == v0 && s == Tolerated(s0)
       else ViewSave(trouble, v0, v', loaded.(active := 0), v0.owner, s1) && s == if s1.IsError() then s1 else Success
  }

  ghost predicate StopStep(trouble: Trouble, v: View, v': View, s: Status) {
    exists v0, loaded, s0, s1 :: StopVia(trouble, v, v0, loaded, s0, s1, v', s)
  }

  method StopTest(fw: Firmware) returns (s: Status)
    requires Settled(fw.disk)
    modifies fw
    ensures Settled(fw.disk) && StopStep(fw.env.trouble, old(Now(fw)), Now(fw), s)
    ensures fw.powered && s == Success ==> AtRest(fw) || fw.env.trouble.StrayNotFound?
  {
    ghost var v := Now(fw);
    var state;
    s, state := Load(fw);
    ghost var v0, s0 := Now(fw), s;
    if s.IsError() {
      if s == NotFound {
        s := Success;
      }
      assert StopVia(fw.env.trouble, v, v0, state, s0, s0, Now(fw), s);
      return;
    }
    s := Save(fw, state.(active := 0), fw.owner);
    ghost var s1 := s;
    if !s.IsError() {
      s := Success;
    }
    assert StopVia(fw.env.trouble, v, v0, state, s0, s1, Now(fw), s);
  }

  // LoadState answers s0: a record is shown, or it is said that there is none.
  predicate ShowVia(trouble: Trouble, v: View, loaded: Record, s0: Status, v': View, s: Status) {
    ViewLoad(trouble, v, v', loaded, s0) && s == Tolerated(s0)
  }

  ghost predicate ShowStep(trouble: Trouble, v: View, v': View, s: Status) {
    exists loaded, s0 :: ShowVia(trouble, v, loaded, s0, v', s)
  }

  // ShowStatus only reads.
  method ShowStatus(fw: Firmware) returns (s: Status)
    requires Settled(fw.disk)
    modifies fw
    ensures Settled(fw.disk) && ShowStep(fw.env.trouble, old(Now(fw)), Now(fw), s)
    ensures fw.powered && s == Success ==>
      fw.disk.Absent? || Accepts(fw.env.crc, fw.disk) || fw.env.trouble.StrayNotFound?
  {
    ghost var v := Now(fw);
    var state;
    s, state := Load(fw);
    ghost var s0 := s;
    if s == NotFound {
      s := Success;
    }
    assert ShowVia(fw.env.trouble, v, state, s0, Now(fw), s);
  }

  datatype Command = Start(argv: seq<string>) | Continue | Show | Stop | Clear

  // One invocation, on a machine that is switched on again if it was off.
  ghost predicate Exits(trouble: Trouble, v: View, command: Command, v': View, s: Status) {
    var b := v.(powered := true);
    match command
    case Start(argv) => StartStep(trouble, b, argv, v', s)
    case Continue => ContinueStep(trouble, b, v', s)
    case Show => ShowStep(trouble, b, v', s)
    case Stop => StopStep(trouble, b, v', s)
    case Clear => ViewDelete(trouble, b, v', s)
  }

  ghost predicate Step(trouble: Trouble, v: View, command: Command, v': View) {
    exists s :: Exits(trouble, v, command, v', s)
  }

  // One command, on a machine that is switched on if it was off.
  method Invoke(fw: Firmware, command: Command) returns (s: Status)
    requires Settled(fw.disk)
    modifies fw
    ensures Settled(fw.disk) && Exits(fw.env.trouble, old(Now(fw)), command, Now(fw), s)
    ensures command == Clear && s == Success && fw.powered ==> fw.disk.Absent?
  {
    fw.Boot();
    ghost var w := fw.State();
    match command {
      case Start(argv) => s := StartTest(fw, argv);
      case Continue => s := ContinueTest(fw);
      case Show => s := ShowStatus(fw);
      case Stop => s := StopTest(fw);
      case Clear =>
        s := DeleteState(fw);
        DeleteSeen(fw.env, w, fw.State(), s);
    }
  }

  // The command a line names, in any case; None for a usage error.
  function CommandOf(argv: seq<string>): Option<Command> {
    if |argv| < 2 then None
    else
      var name := LowerCase(argv[1]);
      if name == "start" then Some(Start(argv))
      else if name == "continue" then Some(Continue)
      else if name == "status" then Some(Show)
      else if name == "stop" then Some(Stop)
      else if name == "clear" then Some(Clear)
      else None
  }

  lemma NamesAreLower()
    ensures LowerCase("start") == "start" && LowerCase("continue") == "continue" && LowerCase("status") == "status"
    ensures LowerCase("stop") == "stop" && LowerCase("clear") == "clear"
  {
  }

  method ParseCommand(argv: seq<string>) returns (c: Option<Command>)
    ensures c == CommandOf(argv)
  {
    if |argv| < 2 {
      return None;
    }
    NamesAreLower();
    var named := StrEqualsIgnoreCase(argv[1], "start");
    if named {
      return Some(Start(argv));
    }
    named := StrEqualsIgnoreCase(argv[1], "continue");
    if named {
      return Some(Continue);
    }
    named := StrEqualsIgnoreCase(argv[1], "status");
    if named {
      return Some(Show);
    }
    named := StrEqualsIgnoreCase(argv[1], "stop");
    if named {
      return Some(Stop);
    }
    named := StrEqualsIgnoreCase(argv[1], "clear");
    return if named then Some(Clear) else None;
  }

  // The same letter, in either case.
  predicate SameLetter(x: char, y: char) {
    || x == y
    || ('a' <= x <= 'z' && y as int + 32 == x as int)
    || ('a' <= y <= 'z' && x as int + 32 == y as int)
  }

  predicate SameLetters(a: string, b: string) {
    |a| == |b| && forall i :: 0 <= i < |a| ==> SameLetter(a[i], b[i])
  }

  // Lowering the letters forgets their case, and nothing else.
  lemma CaseIgnored(a: string, b: string)
    ensures LowerCase(a) == LowerCase(b) <==> SameLetters(a, b)
  {
    var x, y := LowerCase(a), LowerCase(b);
    forall i | 0 <= i < |a| && i < |b|
      ensures x[i] == y[i] <==> SameLetter(a[i], b[i])
    {
    }
    if x == y {
      forall i | 0 <= i < |a|
        ensures SameLetter(a[i], b[i])
      {
        assert x[i] == y[i];
      }
    }
  }

  // The step each name stands for, on a machine switched on.
  ghost predicate NamedStep(trouble: Trouble, v: View, argv: seq<string>, v': View, s: Status) {
    var b := v.(powered := true);
    if |argv| < 2 then v' == v && s == InvalidParameter
    else
      var name := argv[1];
      && (SameLetters(name, "start") ==> StartStep(trouble, b, argv, v', s))
      && (SameLetters(name, "continue") ==> ContinueStep(trouble, b, v', s))
      && (SameLetters(name, "status") ==> ShowStep(trouble, b, v', s))
      && (SameLetters(name, "stop") ==> StopStep(trouble, b, v', s))
      && (SameLetters(name, "clear") ==> ViewDelete(trouble, b, v', s))
      && (|| SameLetters(name, "start") || SameLetters(name, "continue") || SameLetters(name, "status")
          || SameLetters(name, "stop") || SameLetters(name, "clear") || (v' == v && s == InvalidParameter))
  }

  lemma CommandMeans(trouble: Trouble, v: View, argv: seq<string>, v': View, s: Status)
    requires CommandOf(argv).None? ==> v' == v && s == InvalidParameter
    requires CommandOf(argv).Some? ==> Exits(trouble, v, CommandOf(argv).value, v', s)
    ensures NamedStep(trouble, v, argv, v', s)
  {
    if |argv| >= 2 {
      NamesAreLower();
      CaseIgnored(argv[1], "start");
      CaseIgnored(argv[1], "continue");
      CaseIgnored(argv[1], "status");
      CaseIgnored(argv[1], "stop");
      CaseIgnored(argv[1], "clear");
    }
  }

  method ShellAppMain(fw: Firmware, argv: seq<string>) returns (s: Status)
    requires Settled(fw.disk)
    modifies fw
    ensures Settled(fw.disk)
    ensures CommandOf(argv).None? ==> s == InvalidParameter && fw.State() == old(fw.State())
    ensures CommandOf(argv).Some? ==> Exits(fw.env.trouble, old(Now(fw)), CommandOf(argv).value, Now(fw), s)
    ensures NamedStep(fw.env.trouble, old(Now(fw)), argv, Now(fw), s)
  {
    var command := ParseCommand(argv);
    if command.None? {
      s := InvalidParameter;
    } else {
      s := Invoke(fw, command.value);
    }
    CommandMeans(fw.env.trouble, old(Now(fw)), argv, Now(fw), s);
  }
}

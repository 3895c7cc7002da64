// RebootTest.c over whole runs: any sequence of commands, each with any failures, key
// presses, power cuts and returning resets.
module RebootRuns {
  import opened Bytes
  import opened RebootRecord
  import opened RebootFirmware
  import opened RebootStore
  import opened RebootTest

  predicate Initial(v: View) {
    v.owner == 0 && v.targets == [] && v.log == [] && (v.held.Some? ==> Valid(v.held.value))
  }

  // Any number of invocations, one after the other.
  ghost predicate Steps(trouble: Trouble, vs: seq<View>, commands: seq<Command>) {
    && |vs| == |commands| + 1
    && forall i :: 0 <= i < |commands| ==> Step(trouble, vs[i], commands[i], vs[i + 1])
  }

  // A whole run, from a disk no start command of the run has touched.
  ghost predicate Run(trouble: Trouble, vs: seq<View>, commands: seq<Command>) {
    Steps(trouble, vs, commands) && Initial(vs[0])
  }

  function CountLanded(log: seq<Event>, start: nat): nat {
    if log == [] then 0
    else CountLanded(log[..|log| - 1], start) + if log[|log| - 1] == Landed(start) then 1 else 0
  }

  function CountRequests(log: seq<Event>, start: nat): nat {
    if log == [] then 0
    else
      var e := log[|log| - 1];
      CountRequests(log[..|log| - 1], start) + if e.ResetRequest? && e.start == start then 1 else 0
  }

  predicate IsRequest(e: Event, start: nat) {
    e.ResetRequest? && e.start == start
  }

  // A request follows the successful save of the very record it is made for.
  predicate RequestOk(targets: seq<uint32>, log: seq<Event>, i: nat)
    requires i < |log| && log[i].ResetRequest?
  {
    var r := log[i].record;
    && i > 0 && log[i - 1] == Saved(log[i].start, r)
    && Valid(r) && r.active == 1
    && (1 <= log[i].start <= |targets| ==> r.target == targets[log[i].start - 1])
  }

  predicate RequestsOk(targets: seq<uint32>, log: seq<Event>) {
    forall i :: 0 <= i < |log| && log[i].ResetRequest? ==> RequestOk(targets, log, i)
  }

  // The requests made for one start are for ever more completed cycles.
  predicate Increasing(log: seq<Event>) {
    forall i, j :: 0 <= i < j < |log| && log[i].ResetRequest? && IsRequest(log[j], log[i].start)
      ==> log[i].record.completed < log[j].record.completed
  }

  // PASS means as many landed continues as the start asked for resets.
  predicate PassesOk(targets: seq<uint32>, log: seq<Event>) {
    forall i :: 0 <= i < |log| && log[i].Pass? && 1 <= log[i].start <= |targets|
      ==> CountLanded(log[..i], log[i].start) == targets[log[i].start - 1]
  }

  // A key comes in the wait that the save of an active record leads to.
  predicate KeyOk(log: seq<Event>, i: nat)
    requires i < |log| && log[i].KeyPressed?
  {
    i > 0 && log[i - 1].Saved? && log[i - 1].start == log[i].start && log[i - 1].record.active == 1
  }

  predicate KeysOk(log: seq<Event>) {
    forall i :: 0 <= i < |log| && log[i].KeyPressed? ==> KeyOk(log, i)
  }

  predicate Known(targets: seq<uint32>, log: seq<Event>) {
    forall i :: 0 <= i < |log| ==> log[i].start <= |targets|
  }

  predicate LogOk(targets: seq<uint32>, log: seq<Event>) {
    Known(targets, log) && RequestsOk(targets, log) && Increasing(log) && PassesOk(targets, log) && KeysOk(log)
  }

  // What an accepted disk says about the log of the start it belongs to.
  predicate Owns(targets: seq<uint32>, log: seq<Event>, start: nat, r: Record) {
    && (1 <= start <= |targets| ==> r.target == targets[start - 1] && CountLanded(log, start) == r.completed)
    && (forall i :: 0 <= i < |log| && IsRequest(log[i], start) ==> log[i].record.completed <= r.completed)
  }

  lemma CountAppend(log: seq<Event>, e: Event, start: nat)
    ensures CountLanded(log + [e], start) == CountLanded(log, start) + if e == Landed(start) then 1 else 0
    ensures CountRequests(log + [e], start) == CountRequests(log, start) + if IsRequest(e, start) then 1 else 0
  {
    assert (log + [e])[..|log|] == log;
  }

  lemma {:induction false} NothingOfStart(log: seq<Event>, start: nat)
    requires forall i :: 0 <= i < |log| ==> log[i].start != start
    ensures CountLanded(log, start) == 0 && CountRequests(log, start) == 0
  {
    if log != [] {
      NothingOfStart(log[..|log| - 1], start);
    }
  }

  predicate Below(log: seq<Event>, start: nat, completed: nat) {
    forall i :: 0 <= i < |log| && IsRequest(log[i], start) ==> log[i].record.completed < completed
  }

  lemma PassesAppend(targets: seq<uint32>, log: seq<Event>, e: Event)
    requires PassesOk(targets, log)
    requires e.Pass? && 1 <= e.start <= |targets| ==> CountLanded(log, e.start) == targets[e.start - 1]
    ensures PassesOk(targets, log + [e])
  {
    forall i | 0 <= i <= |log|
      ensures (log + [e])[..i] == log[..i]
    {
    }
    assert log[..|log|] == log;
  }

  lemma RequestsAppend(targets: seq<uint32>, log: seq<Event>, e: Event)
    requires RequestsOk(targets, log)
    requires e.ResetRequest? ==> RequestOk(targets, log + [e], |log|)
    ensures RequestsOk(targets, log + [e])
  {
    forall i | 0 <= i < |log| && log[i].ResetRequest?
      ensures RequestOk(targets, log + [e], i)
    {
      assert RequestOk(targets, log, i);
    }
  }

  lemma LogAppend(targets: seq<uint32>, log: seq<Event>, e: Event)
    requires LogOk(targets, log) && e.start <= |targets|
    requires e.ResetRequest? ==> RequestOk(targets, log + [e], |log|) && Below(log, e.start, e.record.completed)
    requires e.Pass? && e.start >= 1 ==> CountLanded(log, e.start) == targets[e.start - 1]
    requires e.KeyPressed? ==> KeyOk(log + [e], |log|)
    ensures LogOk(targets, log + [e])
  {
    PassesAppend(targets, log, e);
    RequestsAppend(targets, log, e);
    forall i | 0 <= i < |log| && log[i].KeyPressed?
      ensures KeyOk(log + [e], i)
    {
      assert KeyOk(log, i);
    }
  }

  lemma OwnsAppend(targets: seq<uint32>, log: seq<Event>, e: Event, start: nat, r: Record)
    requires Owns(targets, log, start, r)
    requires e.Landed? ==> e.start != start
    requires IsRequest(e, start) ==> e.record.completed <= r.completed
    ensures Owns(targets, log + [e], start, r)
  {
    CountAppend(log, e, start);
  }

  predicate Inv(v: View) {
    && LogOk(v.targets, v.log)
    && (v.held.Some? ==> v.owner <= |v.targets| && Valid(v.held.value) && Owns(v.targets, v.log, v.owner, v.held.value))
  }

  // An event that says nothing by itself keeps the invariant.
  lemma NoteKeeps(v: View, e: Event)
    requires Inv(v) && e.Saved? && e.start <= |v.targets|
    ensures Inv(Noted(v, [e]))
  {
    LogAppend(v.targets, v.log, e);
    if v.held.Some? {
      OwnsAppend(v.targets, v.log, e, v.owner, v.held.value);
    }
  }

  lemma ResetKeeps(trouble: Trouble, v: View, v': View, record: Record, start: nat, s: Status)
    requires Inv(v) && ResetStep(trouble, v, v', record, start, s)
    requires v.powered ==>
      && Valid(record) && record.active == 1
      && v.held == Some(Clean(record)) && v.owner == start
      && v.log != [] && v.log[|v.log| - 1] == Saved(start, Clean(record))
      && Below(v.log, start, record.completed)
    ensures Inv(v')
  {
    ResetMeans(trouble, v, v', record, start, s);
    if v.powered && v'.log != v.log {
      var e := v'.log[|v.log|];
      if e.ResetRequest? {
        assert RequestOk(v.targets, v.log + [e], |v.log|);
      } else {
        assert KeyOk(v.log + [e], |v.log|);
      }
      LogAppend(v.targets, v.log, e);
      OwnsAppend(v.targets, v.log, e, start, Clean(record));
    }
    if v.powered {
      assert Owns(v.targets, v'.log, start, Clean(record.(active := 0)));
    }
  }

  // From a record just saved: the note, then the reset.
  lemma SavedKeeps(trouble: Trouble, v: View, v': View, record: Record, start: nat, s: Status)
    requires Inv(v) && ResetStep(trouble, Noted(v, [Saved(start, Clean(record))]), v', record, start, s)
    requires start <= |v.targets|
    requires v.powered ==>
      && Valid(record) && record.active == 1
      && v.held == Some(Clean(record)) && v.owner == start && Below(v.log, start, record.completed)
    ensures Inv(v')
  {
    NoteKeeps(v, Saved(start, Clean(record)));
    ResetKeeps(trouble, Noted(v, [Saved(start, Clean(record))]), v', record, start, s);
  }

  lemma PassKeeps(v: View, record: Record)
    requires Inv(v) && v.held == Some(record) && record.completed == record.target
    ensures Inv(Noted(v, [Pass(v.owner, record)]))
  {
    LogAppend(v.targets, v.log, Pass(v.owner, record));
    OwnsAppend(v.targets, v.log, Pass(v.owner, record), v.owner, record);
  }

  lemma StartKeeps(trouble: Trouble, v: View, record: Record, v1: View, s1: Status, s: Status, v': View)
    requires Inv(v) && Valid(record) && record.active == 1 && record.completed == 0
    requires StartVia(trouble, v, record, v1, s1, s, v')
    ensures Inv(v')
  {
    var targets := v.targets + [record.target];
    var start := |targets|;
    forall i | 0 <= i < |v.log| && v.log[i].ResetRequest?
      ensures RequestOk(targets, v.log, i)
    {
      assert RequestOk(v.targets, v.log, i);
    }
    assert LogOk(targets, v.log);
    NothingOfStart(v.log, start);
    assert Owns(targets, v.log, start, Clean(record));
    assert Inv(v1);
    if !s1.IsError() {
      SavedKeeps(trouble, v1, v', record, start, s);
    }
  }

  // The increment and its landing on disk.
  lemma LandingKeeps(trouble: Trouble, v0: View, v1: View, loaded: Record, s1: Status)
    requires Inv(v0) && Valid(loaded) && loaded.active == 1
    requires v0.powered ==> v0.held == Some(Clean(loaded))
    requires ViewSave(trouble, v0, v1, Advanced(loaded), v0.owner, s1)
    ensures Inv(v1.(log := v1.log + Landing(v0, v1, Advanced(loaded), v0.owner)))
    ensures v1.powered && !s1.IsError() ==> Landing(v0, v1, Advanced(loaded), v0.owner) == [Landed(v0.owner)]
  {
    var next := Advanced(loaded);
    var start := v0.owner;
    if Landing(v0, v1, next, start) == [] {
      assert v1.log + [] == v1.log;
    } else {
      LogAppend(v1.targets, v1.log, Landed(start));
      CountAppend(v1.log, Landed(start), start);
      assert Owns(v1.targets, v1.log + [Landed(start)], start, Clean(next));
    }
  }

  // Without power nothing more happens.
  lemma StaysOff(trouble: Trouble, v: View, next: Record, start: nat, s: Status, v': View)
    requires !v.powered
    requires
      if next.active == 0 then v' == Noted(v, [Pass(start, Clean(next))])
      else ResetStep(trouble, Noted(v, [Saved(start, Clean(next))]), v', next, start, s)
    ensures v' == v
  {
    if next.active != 0 {
      ResetMeans(trouble, v, v', next, start, s);
    }
  }

  lemma AdvanceKeeps(trouble: Trouble, v0: View, loaded: Record, v1: View, s1: Status, s: Status, v': View)
    requires Inv(v0) && Valid(loaded) && loaded.active == 1
    requires v0.powered ==> v0.held == Some(Clean(loaded))
    requires AdvanceVia(trouble, v0, loaded, v1, s1, s, v')
    ensures Inv(v')
  {
    var next := Advanced(loaded);
    var start := v0.owner;
    var v2 := v1.(log := v1.log + Landing(v0, v1, next, start));
    LandingKeeps(trouble, v0, v1, loaded, s1);
    if !s1.IsError() {
      if !v2.powered {
        StaysOff(trouble, v2, next, start, s, v');
      } else if next.active == 0 {
        PassKeeps(v2, Clean(next));
      } else {
        assert Below(v0.log, start, next.completed);
        SavedKeeps(trouble, v2, v', next, start, s);
      }
    }
  }

  lemma ContinueKeeps(trouble: Trouble, v: View, v': View, s: Status)
    requires Inv(v) && ContinueStep(trouble, v, v', s)
    ensures Inv(v')
  {
    var v0, loaded, s0, v1, s1 :| ContinueVia(trouble, v, v0, loaded, s0, v1, s1, s, v');
    assert Inv(v0);
    if s0 == Success && loaded.active != 0 {
      AdvanceKeeps(trouble, v0, loaded, v1, s1, s, v');
    }
  }

  lemma StopKeeps(trouble: Trouble, v: View, v': View, s: Status)
    requires Inv(v) && StopStep(trouble, v, v', s)
    ensures Inv(v')
  {
    var v0, loaded, s0, s1 :| StopVia(trouble, v, v0, loaded, s0, s1, v', s);
    if s0 == Success && v0.powered {
      assert Owns(v.targets, v.log, v0.owner, Clean(loaded.(active := 0)));
    }
  }

  lemma StepKeeps(trouble: Trouble, v: View, command: Command, v': View)
    requires Inv(v) && Step(trouble, v, command, v')
    ensures Inv(v')
  {
    var b := v.(powered := true);
    var s :| Exits(trouble, v, command, v', s);
    assert Inv(b);
    match command {
      case Start(argv) =>
        if Asked(argv).Some? {
          var v1, s1 :| StartVia(trouble, b, Asked(argv).value, v1, s1, s, v');
          StartKeeps(trouble, b, Asked(argv).value, v1, s1, s, v');
        }
      case Continue =>
        ContinueKeeps(trouble, b, v', s);
      case Stop =>
        StopKeeps(trouble, b, v', s);
      case _ =>
    }
  }

  lemma {:induction false} RunKeeps(trouble: Trouble, vs: seq<View>, commands: seq<Command>, n: nat)
    requires Run(trouble, vs, commands) && n < |vs|
    ensures Inv(vs[n])
  {
    if n > 0 {
      RunKeeps(trouble, vs, commands, n - 1);
      StepKeeps(trouble, vs[n - 1], commands[n - 1], vs[n]);
    }
  }

  lemma {:induction false} CountBounded(log: seq<Event>, start: nat, bound: nat)
    requires Increasing(log) && Below(log, start, bound)
    ensures CountRequests(log, start) <= bound
  {
    if log != [] {
      var e := log[|log| - 1];
      CountBounded(log[..|log| - 1], start, if IsRequest(e, start) then e.record.completed else bound);
    }
  }

  // What the invariant says of the log.
  ghost predicate Bounded(targets: seq<uint32>, log: seq<Event>) {
    && (forall start :: 1 <= start <= |targets| ==> CountRequests(log, start) <= targets[start - 1])
    && RequestsOk(targets, log) && Increasing(log) && PassesOk(targets, log) && KeysOk(log)
  }

  lemma InvBounds(v: View)
    requires Inv(v)
    ensures Bounded(v.targets, v.log)
  {
    forall start | 1 <= start <= |v.targets|
      ensures CountRequests(v.log, start) <= v.targets[start - 1]
    {
      forall i | 0 <= i < |v.log| && IsRequest(v.log[i], start)
        ensures RequestOk(v.targets, v.log, i)
      {
      }
      CountBounded(v.log, start, v.targets[start - 1]);
    }
  }

  // Safety over whole runs: the resets requested for one start never exceed the count it
  // asked for; each is for the record whose save just succeeded, active and acceptable,
  // with more completed cycles than any request before it.
  lemma FiniteResets(trouble: Trouble, vs: seq<View>, commands: seq<Command>, n: nat, start: nat)
    requires Run(trouble, vs, commands) && n < |vs|
    requires 1 <= start <= |vs[n].targets|
    ensures CountRequests(vs[n].log, start) <= vs[n].targets[start - 1]
    ensures forall i :: 0 <= i < |vs[n].log| && IsRequest(vs[n].log[i], start) ==>
      var r := vs[n].log[i].record;
      && i > 0 && vs[n].log[i - 1] == Saved(start, r)
      && Valid(r) && r.active == 1 && r.target == vs[n].targets[start - 1]
      && Below(vs[n].log[..i], start, r.completed)
  {
    RunKeeps(trouble, vs, commands, n);
    InvBounds(vs[n]);
    var log := vs[n].log;
    forall i | 0 <= i < |log| && IsRequest(log[i], start)
      ensures RequestOk(vs[n].targets, log, i)
    {
    }
  }

  // PASS is printed for a start only after exactly as many continues of that start have
  // had their incremented record on disk as resets were asked for.
  lemma ExactProgress(trouble: Trouble, vs: seq<View>, commands: seq<Command>, n: nat, i: nat)
    requires Run(trouble, vs, commands) && n < |vs|
    requires i < |vs[n].log| && vs[n].log[i].Pass? && vs[n].log[i].start >= 1
    ensures vs[n].log[i].start <= |vs[n].targets|
    ensures CountLanded(vs[n].log[..i], vs[n].log[i].start) == vs[n].targets[vs[n].log[i].start - 1]
  {
    RunKeeps(trouble, vs, commands, n);
  }

  // The command a line names; a usage error is none.
  function NamedBy(argv: seq<string>): seq<Command> {
    if CommandOf(argv).Some? then [CommandOf(argv).value] else []
  }

  function Named(lines: seq<seq<string>>): seq<Command> {
    if lines == [] then [] else Named(lines[..|lines| - 1]) + NamedBy(lines[|lines| - 1])
  }

  lemma StepsMore(trouble: Trouble, vs: seq<View>, commands: seq<Command>, command: Command, v': View)
    requires Steps(trouble, vs, commands) && Step(trouble, vs[|vs| - 1], command, v')
    ensures Steps(trouble, vs + [v'], commands + [command])
  {
  }

  // One command line.
  method Enter(fw: Firmware, argv: seq<string>, ghost vs: seq<View>, ghost commands: seq<Command>)
    returns (ghost more: seq<View>)
    requires Settled(fw.disk) && Steps(fw.env.trouble, vs, commands) && vs[|vs| - 1] == Now(fw)
    modifies fw
    ensures Settled(fw.disk) && Steps(fw.env.trouble, more, commands + NamedBy(argv))
    ensures more[0] == vs[0] && more[|more| - 1] == Now(fw)
  {
    var _ := ShellAppMain(fw, argv);
    if CommandOf(argv).Some? {
      StepsMore(fw.env.trouble, vs, commands, CommandOf(argv).value, Now(fw));
      more := vs + [Now(fw)];
    } else {
      assert commands + [] == commands;
      more := vs;
    }
  }

  // The program itself, command line after command line, on a machine with any disk: a run,
  // so that all that is said of runs is said of it; its log obeys the bounds, whatever fails.
  method Session(fw: Firmware, lines: seq<seq<string>>) returns (ghost vs: seq<View>)
    requires Settled(fw.disk) && fw.owner == 0 && fw.targets == [] && fw.log == []
    modifies fw
    ensures Run(fw.env.trouble, vs, Named(lines))
    ensures vs[0] == old(Now(fw)) && vs[|vs| - 1] == Now(fw)
    ensures Settled(fw.disk) && Bounded(fw.targets, fw.log)
  {
    vs := [Now(fw)];
    for i := 0 to |lines|
      invariant Settled(fw.disk) && Steps(fw.env.trouble, vs, Named(lines[..i]))
      invariant vs[0] == old(Now(fw)) && vs[|vs| - 1] == Now(fw)
    {
      vs := Enter(fw, lines[i], vs, Named(lines[..i]));
      assert lines[..i + 1][..i] == lines[..i];
    }
    assert lines[..|lines|] == lines;
    RunKeeps(fw.env.trouble, vs, Named(lines), |vs| - 1);
    InvBounds(Now(fw));
  }

  // ---- A record that was on the disk before the run: start 0.

  predicate PastBase(base: Option<Record>, r: Record) {
    base.Some? && r.target == base.value.target && r.completed > base.value.completed
  }

  predicate FromBase(base: Option<Record>, v: View) {
    && (v.held.Some? && v.owner == 0 ==>
          base.Some? && v.held.value.target == base.value.target && v.held.value.completed >= base.value.completed)
    && forall i :: 0 <= i < |v.log| && IsRequest(v.log[i], 0) ==> PastBase(base, v.log[i].record)
  }

  lemma BaseReset(
    base: Option<Record>, trouble: Trouble, v: View, v': View, record: Record, start: nat, s: Status)
    requires FromBase(base, v) && ResetStep(trouble, v, v', record, start, s)
    requires v.powered && start == 0 ==> PastBase(base, record)
    ensures FromBase(base, v')
  {
    ResetMeans(trouble, v, v', record, start, s);
  }

  lemma BaseSave(
    base: Option<Record>, trouble: Trouble, v: View, v': View, record: Record, start: nat, s: Status)
    requires FromBase(base, v) && ViewSave(trouble, v, v', record, start, s)
    requires v.powered && start == 0 ==>
      base.Some? && record.target == base.value.target && record.completed >= base.value.completed
    ensures FromBase(base, v')
  {
  }

  // An event that is no request.
  lemma BaseNote(base: Option<Record>, v: View, events: seq<Event>)
    requires FromBase(base, v) && forall i :: 0 <= i < |events| ==> !events[i].ResetRequest?
    ensures FromBase(base, v.(log := v.log + events))
  {
  }

  lemma BaseAdvance(
    base: Option<Record>, trouble: Trouble, v0: View, loaded: Record, v1: View, s1: Status, s: Status, v': View)
    requires FromBase(base, v0) && loaded.completed < MAX_COUNT
    requires v0.powered ==> v0.held == Some(Clean(loaded))
    requires AdvanceVia(trouble, v0, loaded, v1, s1, s, v')
    ensures FromBase(base, v')
  {
    var next, start := Advanced(loaded), v0.owner;
    var v2 := v1.(log := v1.log + Landing(v0, v1, next, start));
    BaseSave(base, trouble, v0, v1, next, start, s1);
    BaseNote(base, v1, Landing(v0, v1, next, start));
    if !s1.IsError() {
      if next.active == 0 {
        BaseNote(base, v2, [Pass(start, Clean(next))]);
      } else {
        BaseNote(base, v2, [Saved(start, Clean(next))]);
        BaseReset(base, trouble, Noted(v2, [Saved(start, Clean(next))]), v', next, start, s);
      }
    }
  }

  lemma BaseContinue(base: Option<Record>, trouble: Trouble, v: View, v': View, s: Status)
    requires FromBase(base, v) && ContinueStep(trouble, v, v', s)
    ensures FromBase(base, v')
  {
    var v0, loaded, s0, v1, s1 :| ContinueVia(trouble, v, v0, loaded, s0, v1, s1, s, v');
    if s0 == Success && loaded.active != 0 {
      BaseAdvance(base, trouble, v0, loaded, v1, s1, s, v');
    }
  }

  lemma BaseStart(
    base: Option<Record>, trouble: Trouble, v: View, record: Record, v1: View, s1: Status, s: Status, v': View)
    requires FromBase(base, v) && StartVia(trouble, v, record, v1, s1, s, v')
    ensures FromBase(base, v')
  {
    var v0, start := v.(targets := v.targets + [record.target]), |v.targets| + 1;
    BaseSave(base, trouble, v0, v1, record, start, s1);
    if !s1.IsError() {
      BaseNote(base, v1, [Saved(start, Clean(record))]);
      BaseReset(base, trouble, Noted(v1, [Saved(start, Clean(record))]), v', record, start, s);
    }
  }

  lemma BaseStop(base: Option<Record>, trouble: Trouble, v: View, v': View, s: Status)
    requires FromBase(base, v) && StopStep(trouble, v, v', s)
    ensures FromBase(base, v')
  {
    var v0, loaded, s0, s1 :| StopVia(trouble, v, v0, loaded, s0, s1, v', s);
    if s0 == Success {
      BaseSave(base, trouble, v0, v', loaded.(active := 0), v0.owner, s1);
    }
  }

  lemma BaseStep(base: Option<Record>, trouble: Trouble, v: View, command: Command, v': View)
    requires FromBase(base, v) && Step(trouble, v, command, v')
    ensures FromBase(base, v')
  {
    var b := v.(powered := true);
    var s :| Exits(trouble, v, command, v', s);
    match command {
      case Start(argv) =>
        if Asked(argv).Some? {
          var v1, s1 :| StartVia(trouble, b, Asked(argv).value, v1, s1, s, v');
          BaseStart(base, trouble, b, Asked(argv).value, v1, s1, s, v');
        }
      case Continue =>
        BaseContinue(base, trouble, b, v', s);
      case Stop =>
        BaseStop(base, trouble, b, v', s);
      case _ =>
    }
  }

  lemma {:induction false} BaseRun(trouble: Trouble, vs: seq<View>, commands: seq<Command>, n: nat)
    requires Run(trouble, vs, commands) && n < |vs|
    ensures FromBase(vs[0].held, vs[n])
  {
    if n > 0 {
      BaseRun(trouble, vs, commands, n - 1);
      BaseStep(vs[0].held, trouble, vs[n - 1], commands[n - 1], vs[n]);
    }
  }

  lemma {:induction false} CountBetween(log: seq<Event>, start: nat, floor: nat, bound: nat)
    requires Increasing(log) && Below(log, start, bound)
    requires forall i :: 0 <= i < |log| && IsRequest(log[i], start) ==> log[i].record.completed > floor
    ensures CountRequests(log, start) == 0 || floor + CountRequests(log, start) < bound
  {
    if log != [] {
      var e := log[|log| - 1];
      CountBetween(log[..|log| - 1], start, floor, if IsRequest(e, start) then e.record.completed else bound);
    }
  }

  // A leftover record is good for no more requests than it has cycles left: its completed
  // cycles and the requests made for it stay below its target.
  lemma LeftoverResets(trouble: Trouble, vs: seq<View>, commands: seq<Command>, n: nat)
    requires Run(trouble, vs, commands) && n < |vs|
    ensures CountRequests(vs[n].log, 0) == 0
         || (vs[0].held.Some?
             && vs[0].held.value.completed + CountRequests(vs[n].log, 0) < vs[0].held.value.target)
  {
    RunKeeps(trouble, vs, commands, n);
    BaseRun(trouble, vs, commands, n);
    var base, log := vs[0].held, vs[n].log;
    forall i | 0 <= i < |log| && IsRequest(log[i], 0)
      ensures RequestOk(vs[n].targets, log, i) && PastBase(base, log[i].record)
    {
    }
    if base.Some? {
      CountBetween(log, 0, base.value.completed, base.value.target);
    } else {
      CountBounded(log, 0, 0);
    }
  }

  predicate Idle(v: View) {
    v.held.Some? ==> v.held.value.active == 0
  }

  lemma IdleContinue(trouble: Trouble, v: View, v': View, s: Status)
    requires Idle(v) && ContinueStep(trouble, v, v', s)
    ensures Idle(v') && v'.log == v.log
  {
    var v0, loaded, s0, v1, s1 :| ContinueVia(trouble, v, v0, loaded, s0, v1, s1, s, v');
    if s0 == Success && loaded.active != 0 {
      assert !v0.powered;
      var next := Advanced(loaded);
      assert v1 == v0 && Landing(v0, v1, next, v0.owner) == [] && v1.log + [] == v1.log;
      if !s1.IsError() {
        StaysOff(trouble, v0, next, v0.owner, s, v');
      }
    }
  }

  lemma IdleStep(trouble: Trouble, v: View, command: Command, v': View)
    requires Idle(v) && !command.Start? && Step(trouble, v, command, v')
    ensures Idle(v') && v'.log == v.log
  {
    var b := v.(powered := true);
    var s :| Exits(trouble, v, command, v', s);
    if command == Continue {
      IdleContinue(trouble, b, v', s);
    } else if command == Stop {
      var v0, loaded, s0, s1 :| StopVia(trouble, b, v0, loaded, s0, s1, v', s);
    }
  }

  // An inactive, absent or refused state file stays so, and nothing is requested or
  // passed, until the next start, whatever fails.
  lemma {:induction false} IdleUntilStart(trouble: Trouble, vs: seq<View>, commands: seq<Command>, n: nat)
    requires Steps(trouble, vs, commands) && n < |vs|
    requires Idle(vs[0]) && forall i :: 0 <= i < n ==> !commands[i].Start?
    ensures Idle(vs[n]) && vs[n].log == vs[0].log
  {
    if n > 0 {
      IdleUntilStart(trouble, vs, commands, n - 1);
      IdleStep(trouble, vs[n - 1], commands[n - 1], vs[n]);
    }
  }

  // What success of stop or continue is worth.
  ghost predicate StopIsSure(trouble: Trouble) {
    forall v, v', s :: StopStep(trouble, v, v', s) && s == Success && v'.powered ==> Idle(v')
  }

  ghost predicate ContinueIsSure(trouble: Trouble) {
    forall v, v', s :: ContinueStep(trouble, v, v', s) && s == Success && v'.powered ==> Idle(v')
  }

  // A successful status shows the record that is held, and says there is none only then.
  ghost predicate ShowIsSure(trouble: Trouble) {
    forall v, v', loaded, s0, s ::
      ShowVia(trouble, v, loaded, s0, v', s) && s == Success && v'.powered ==>
        v.held == if s0 == Success then Some(Clean(loaded)) else None
  }

  // LoadState's callers take NOT_FOUND from whatever call for a missing file.  So stop, and
  // continue, are sure to leave no active record behind a success, and status to tell what
  // is held, if and only if no call but Open ever answers NOT_FOUND.
  lemma AnswersExact(trouble: Trouble)
    ensures StopIsSure(trouble) <==> !trouble.StrayNotFound?
    ensures ContinueIsSure(trouble) <==> !trouble.StrayNotFound?
    ensures ShowIsSure(trouble) <==> !trouble.StrayNotFound?
  {
    if trouble.StrayNotFound? {
      var r := Record(SIGNATURE, VERSION, 1, RESET_WARM, 2, 0, DEFAULT_DELAY, 0);
      var v := View(Some(r), 0, true, [], []);
      assert StopVia(trouble, v, v, r, NotFound, NotFound, v, Success) && !Idle(v);
      assert ContinueVia(trouble, v, v, r, NotFound, v, NotFound, Success, v);
      assert StopStep(trouble, v, v, Success) && ContinueStep(trouble, v, v, Success);
      assert ShowVia(trouble, v, r, NotFound, v, Success);
    } else {
      forall v, v', s | StopStep(trouble, v, v', s) && s == Success && v'.powered
        ensures Idle(v')
      {
        var v0, loaded, s0, s1 :| StopVia(trouble, v, v0, loaded, s0, s1, v', s);
      }
      forall v, v', s | ContinueStep(trouble, v, v', s) && s == Success && v'.powered
        ensures Idle(v')
      {
        ContinueSuccess(trouble, v, v', s);
      }
    }
  }

  lemma ContinueSuccess(trouble: Trouble, v: View, v': View, s: Status)
    requires !trouble.StrayNotFound? && ContinueStep(trouble, v, v', s) && s == Success && v'.powered
    ensures Idle(v')
  {
    var v0, loaded, s0, v1, s1 :| ContinueVia(trouble, v, v0, loaded, s0, v1, s1, s, v');
    if s0 == Success && loaded.active != 0 && !s1.IsError() && Advanced(loaded).active != 0 {
      ResetMeans(trouble, Noted(v1.(log := v1.log + Landing(v0, v1, Advanced(loaded), v0.owner)),
                                [Saved(v0.owner, Clean(Advanced(loaded)))]), v', Advanced(loaded), v0.owner, s);
    }
  }

  // A key in the wait is the end of it: over all runs, the key comes right after the save of
  // the active record, and never between such a save and a request.
  lemma KeyPreventsReset(trouble: Trouble, vs: seq<View>, commands: seq<Command>, n: nat, i: nat)
    requires Run(trouble, vs, commands) && n < |vs| && i < |vs[n].log| && vs[n].log[i].KeyPressed?
    ensures i > 0 && vs[n].log[i - 1].Saved? && vs[n].log[i - 1].start == vs[n].log[i].start
    ensures forall j :: i < j < |vs[n].log| && vs[n].log[j].ResetRequest? ==>
      j > i + 1 && vs[n].log[j - 1] == Saved(vs[n].log[j].start, vs[n].log[j].record)
  {
    RunKeeps(trouble, vs, commands, n);
    assert KeyOk(vs[n].log, i);
    forall j | i < j < |vs[n].log| && vs[n].log[j].ResetRequest?
      ensures j > i + 1 && vs[n].log[j - 1] == Saved(vs[n].log[j].start, vs[n].log[j].record)
    {
      assert RequestOk(vs[n].targets, vs[n].log, j);
    }
  }

  // The last thing a command did is to have a key pressed, or a reset requested.
  predicate Interrupted(v: View, v': View) {
    && |v'.log| > |v.log|
    && var e := v'.log[|v'.log| - 1]; e.KeyPressed? || e.ResetRequest?
  }

  // The program then saved the stopped record, with status s2.
  ghost predicate StopSaved(trouble: Trouble, v': View, s2: Status) {
    && v'.log != []
    && exists v1, record ::
         && ViewSave(trouble, v1, v', record, v'.log[|v'.log| - 1].start, s2) && v1.log == v'.log
         && record.active == 0 && (trouble.Smooth() && v'.log[|v'.log| - 1].KeyPressed? ==> v1.powered)
  }

  // Of what a command did, only the last may be a request.
  predicate NoneRequested(from: nat, log: seq<Event>) {
    forall i :: from <= i < |log| - 1 ==> !log[i].ResetRequest?
  }

  // The exit status goes with the event and with the save.
  predicate StopStatus(e: Event, s2: Status, s: Status) {
    s == if e.ResetRequest? then DeviceError else if s2.IsError() then s2 else Aborted
  }

  lemma ResetInterrupted(trouble: Trouble, v: View, record: Record, start: nat, s: Status, v': View)
    returns (s2: Status)
    requires ResetStep(trouble, v, v', record, start, s) && v'.log != v.log
    ensures |v'.log| == |v.log| + 1 && v'.log == v.log + [v'.log[|v.log|]]
    ensures StopSaved(trouble, v', s2) && StopStatus(v'.log[|v.log|], s2, s)
  {
    var v1, s1, v2, s2' :| ResetVia(trouble, v, record, start, v1, s1, v2, s2', s, v');
    s2 := s2';
    assert record.(active := 0).active == 0;
  }

  lemma StartInterrupted(
    trouble: Trouble, b: View, record: Record, v1: View, s1: Status, s: Status, v': View) returns (s2: Status)
    requires StartVia(trouble, b, record, v1, s1, s, v') && Interrupted(b, v')
    ensures StopSaved(trouble, v', s2) && StopStatus(v'.log[|v'.log| - 1], s2, s) && NoneRequested(|b.log|, v'.log)
  {
    var start := |b.targets| + 1;
    s2 := ResetInterrupted(trouble, Noted(v1, [Saved(start, Clean(record))]), record, start, s, v');
  }

  lemma AdvanceInterrupted(
    trouble: Trouble, v0: View, loaded: Record, v1: View, s1: Status, s: Status, v': View) returns (s2: Status)
    requires loaded.completed < MAX_COUNT && AdvanceVia(trouble, v0, loaded, v1, s1, s, v') && Interrupted(v0, v')
    ensures StopSaved(trouble, v', s2) && StopStatus(v'.log[|v'.log| - 1], s2, s) && NoneRequested(|v0.log|, v'.log)
  {
    var next, start := Advanced(loaded), v0.owner;
    var v2 := v1.(log := v1.log + Landing(v0, v1, next, start));
    s2 := ResetInterrupted(trouble, Noted(v2, [Saved(start, Clean(next))]), next, start, s, v');
  }

  // A key in time, or a reset that returns: nothing was requested before in this command,
  // and the program saved the stopped record.
  lemma StepInterrupted(trouble: Trouble, v: View, command: Command, v': View, s: Status) returns (s2: Status)
    requires Exits(trouble, v, command, v', s) && Interrupted(v, v')
    ensures StopSaved(trouble, v', s2) && StopStatus(v'.log[|v'.log| - 1], s2, s) && NoneRequested(|v.log|, v'.log)
  {
    var b := v.(powered := true);
    match command {
      case Start(argv) =>
        var v1, s1 :| StartVia(trouble, b, Asked(argv).value, v1, s1, s, v');
        s2 := StartInterrupted(trouble, b, Asked(argv).value, v1, s1, s, v');
      case Continue =>
        var v0, loaded, s0, v1, s1 :| ContinueVia(trouble, b, v0, loaded, s0, v1, s1, s, v');
        s2 := AdvanceInterrupted(trouble, v0, loaded, v1, s1, s, v');
    }
  }

  // After the save of the stopped record nothing active is left.
  lemma SavedIsIdle(trouble: Trouble, v': View, s2: Status)
    requires StopSaved(trouble, v', s2)
    ensures v'.powered && !s2.IsError() ==> Idle(v')
    ensures trouble.Smooth() && v'.log[|v'.log| - 1].KeyPressed? ==> v'.powered && s2 == Success
  {
  }

  // So a key pressed during the wait stops the test, and so does a reset that returns, if the
  // stopped record can be saved: nothing more is requested until the next start.  Where
  // nothing fails it can, and the command exits with aborted.
  lemma StoppedStaysStopped(
    trouble: Trouble, v: View, s2: Status, s: Status, vs: seq<View>, commands: seq<Command>, n: nat)
    requires Steps(trouble, vs, commands) && n < |vs|
    requires Interrupted(v, vs[0])
    requires StopSaved(trouble, vs[0], s2) && StopStatus(vs[0].log[|vs[0].log| - 1], s2, s)
    requires forall i :: 0 <= i < n ==> !commands[i].Start?
    ensures vs[0].powered && !s2.IsError() ==> Idle(vs[n]) && vs[n].log == vs[0].log
    ensures trouble.Smooth() && vs[0].log[|vs[0].log| - 1].KeyPressed? ==>
      s == Aborted && Idle(vs[n]) && vs[n].log == vs[0].log
  {
    SavedIsIdle(trouble, vs[0], s2);
    if Idle(vs[0]) {
      IdleUntilStart(trouble, vs, commands, n);
    }
  }

  // The file removed by a successful clear in particular.
  lemma NoResetAfterClear(trouble: Trouble, v: View, s: Status, vs: seq<View>, commands: seq<Command>, n: nat)
    requires Steps(trouble, vs, commands) && n < |vs|
    requires ViewDelete(trouble, v, vs[0], s) && !s.IsError() && vs[0].powered
    requires forall i :: 0 <= i < n ==> !commands[i].Start?
    ensures vs[n].log == v.log && vs[n].held.None?
  {
    IdleUntilStart(trouble, vs, commands, n);
    AbsentUntilStart(trouble, vs, commands, n);
  }

  lemma AbsentContinue(trouble: Trouble, v: View, v': View, s: Status)
    requires v.held.None? && ContinueStep(trouble, v, v', s)
    ensures v'.held.None?
  {
    var v0, loaded, s0, v1, s1 :| ContinueVia(trouble, v, v0, loaded, s0, v1, s1, s, v');
    if s0 == Success && loaded.active != 0 {
      assert !v0.powered;
      var next := Advanced(loaded);
      assert v1 == v0 && Landing(v0, v1, next, v0.owner) == [] && v1.log + [] == v1.log;
      if !s1.IsError() {
        StaysOff(trouble, v0, next, v0.owner, s, v');
      }
    }
  }

  lemma AbsentStep(trouble: Trouble, v: View, command: Command, v': View)
    requires v.held.None? && !command.Start? && Step(trouble, v, command, v')
    ensures v'.held.None?
  {
    var b := v.(powered := true);
    var s :| Exits(trouble, v, command, v', s);
    match command {
      case Continue =>
        AbsentContinue(trouble, b, v', s);
      case Stop =>
        var v0, loaded, s0, s1 :| StopVia(trouble, b, v0, loaded, s0, s1, v', s);
      case _ =>
    }
  }

  lemma {:induction false} AbsentUntilStart(trouble: Trouble, vs: seq<View>, commands: seq<Command>, n: nat)
    requires Steps(trouble, vs, commands) && n < |vs|
    requires vs[0].held.None? && forall i :: 0 <= i < n ==> !commands[i].Start?
    ensures vs[n].held.None?
  {
    if n > 0 {
      AbsentUntilStart(trouble, vs, commands, n - 1);
      AbsentStep(trouble, vs[n - 1], commands[n - 1], vs[n]);
    }
  }

  // The run nothing disturbs: start, then one continue each time the shell comes up.

  function Cycle(record: Record, k: nat): Record
    requires k <= MAX_COUNT
  {
    record.(completed := k)
  }

  // What invocation k adds to the log: 0 is the start, the others are continues.
  function CycleEvents(record: Record, start: nat, k: nat): seq<Event>
    requires record.target <= MAX_COUNT
  {
    if k == 0 then [Saved(start, record), ResetRequest(start, record)]
    else if k < record.target then
      [Landed(start), Saved(start, Cycle(record, k)), ResetRequest(start, Cycle(record, k))]
    else if k == record.target then
      [Landed(start), Pass(start, Cycle(record, k).(active := 0))]
    else []
  }

  function CyclesLog(record: Record, start: nat, k: nat): seq<Event>
    requires record.target <= MAX_COUNT
  {
    (if k == 0 then [] else CyclesLog(record, start, k - 1)) + CycleEvents(record, start, k)
  }

  // The view after a start and k continues without any failure or key press.
  function Undisturbed(v: View, record: Record, k: nat): View
    requires Valid(record)
  {
    var start := |v.targets| + 1;
    View(
      Some(if k < record.target then Cycle(record, k) else Cycle(record, record.target).(active := 0)),
      start, k >= record.target, v.targets + [record.target], v.log + CyclesLog(record, start, k))
  }

  lemma UndisturbedStart(v: View, argv: seq<string>, v': View)
    requires Asked(argv).Some? && Step(NoTrouble, v, Start(argv), v')
    ensures v' == Undisturbed(v, Asked(argv).value, 0)
  {
    var record := Asked(argv).value;
    var s :| Exits(NoTrouble, v, Start(argv), v', s);
    var v1, s1 :| StartVia(NoTrouble, v.(powered := true), record, v1, s1, s, v');
    ResetMeans(NoTrouble, Noted(v1, [Saved(|v.targets| + 1, Clean(record))]), v', record, |v.targets| + 1, s);
    assert Clean(record) == record == Cycle(record, 0);
    var start := |v.targets| + 1;
    assert v.log + [Saved(start, record)] + [ResetRequest(start, record)]
        == v.log + ([] + CycleEvents(record, start, 0));
  }

  // A continue in a view that holds an active record.
  lemma UndisturbedAdvance(u: View, record: Record, k: nat, v': View, s: Status)
    requires Valid(record) && record.active == 1 && k < record.target
    requires u.held == Some(Clean(Cycle(record, k)))
    requires ContinueStep(NoTrouble, u.(powered := true), v', s)
    ensures
      var next := Clean(if k + 1 < record.target then Cycle(record, k + 1) else Cycle(record, k + 1).(active := 0));
      v' == u.(held := Some(next), powered := next.active == 0,
               log := u.log + if next.active == 0 then [Landed(u.owner), Pass(u.owner, next)]
                              else [Landed(u.owner), Saved(u.owner, next), ResetRequest(u.owner, next)])
  {
    var b, start := u.(powered := true), u.owner;
    var v0, loaded, s0, v1, s1 :| ContinueVia(NoTrouble, b, v0, loaded, s0, v1, s1, s, v');
    assert v0 == b && s0 == Success && Clean(loaded) == Clean(Cycle(record, k));
    var next := Clean(Advanced(loaded));
    assert v1 == b.(held := Some(next));
    if next.active == 0 {
      assert u.log + [Landed(start)] + [Pass(start, next)] == u.log + [Landed(start), Pass(start, next)];
    } else {
      ResetMeans(NoTrouble, v1.(log := u.log + [Landed(start)] + [Saved(start, next)]), v', Advanced(loaded), start, s);
      assert u.log + [Landed(start)] + [Saved(start, next)] + [ResetRequest(start, next)]
          == u.log + [Landed(start), Saved(start, next), ResetRequest(start, next)];
    }
  }

  lemma UndisturbedContinue(v: View, record: Record, k: nat, v': View)
    requires Valid(record) && record.active == 1 && record.crc == 0
    requires Step(NoTrouble, Undisturbed(v, record, k), Continue, v')
    ensures v' == Undisturbed(v, record, k + 1)
  {
    var u := Undisturbed(v, record, k);
    assert v.log + CyclesLog(record, u.owner, k + 1) == u.log + CycleEvents(record, u.owner, k + 1);
    var s :| Exits(NoTrouble, u, Continue, v', s);
    if k < record.target {
      UndisturbedAdvance(u, record, k, v', s);
    } else {
      var v0, loaded, s0, v1, s1 :| ContinueVia(NoTrouble, u.(powered := true), v0, loaded, s0, v1, s1, s, v');
    }
  }

  // Without failures and key presses, a start and its continues do exactly this: one reset
  // request by each of the first `target` invocations, PASS by the next, then nothing.
  lemma {:induction false} UndisturbedRun(vs: seq<View>, commands: seq<Command>, n: nat)
    requires Steps(NoTrouble, vs, commands) && 1 <= n < |vs|
    requires commands[0].Start? && Asked(commands[0].argv).Some?
    requires forall i :: 1 <= i < n ==> commands[i] == Continue
    ensures vs[n] == Undisturbed(vs[0], Asked(commands[0].argv).value, n - 1)
  {
    if n == 1 {
      UndisturbedStart(vs[0], commands[0].argv, vs[1]);
    } else {
      UndisturbedRun(vs, commands, n - 1);
      UndisturbedContinue(vs[0], Asked(commands[0].argv).value, n - 2, vs[n]);
    }
  }

  lemma CountConcat(a: seq<Event>, b: seq<Event>, start: nat)
    ensures CountRequests(a + b, start) == CountRequests(a, start) + CountRequests(b, start)
  {
    if b == [] {
      assert a + b == a;
    } else {
      var c := b[..|b| - 1];
      assert (a + b)[..|a + b| - 1] == a + c;
      CountConcat(a, c, start);
    }
  }

  lemma {:induction false} CyclesCount(record: Record, start: nat, k: nat)
    requires Valid(record) && record.active == 1
    ensures CountRequests(CyclesLog(record, start, k), start) == if k < record.target then k + 1 else record.target
  {
    var before := if k == 0 then [] else CyclesLog(record, start, k - 1);
    var events := CycleEvents(record, start, k);
    if k > 0 {
      CyclesCount(record, start, k - 1);
    }
    CountConcat(before, events, start);
    assert |events| <= 3 && events[..|events|] == events;
    assert |events| >= 1 ==> events[..1][..0] == [] && events[..1][0] == events[0];
    assert |events| >= 2 ==> events[..2][..1] == events[..1];
    assert |events| >= 1 ==> CountRequests(events[..1], start) == if IsRequest(events[0], start) then 1 else 0;
  }

  lemma CyclesCountAfter(log: seq<Event>, record: Record, start: nat, k: nat)
    requires Valid(record) && record.active == 1
    requires forall i :: 0 <= i < |log| ==> log[i].start != start
    ensures CountRequests(log + CyclesLog(record, start, k), start) ==
            if k < record.target then k + 1 else record.target
  {
    CountConcat(log, CyclesLog(record, start, k), start);
    CyclesCount(record, start, k);
    NothingOfStart(log, start);
  }

  // So once PASS has been printed, exactly `target` resets have been requested.
  lemma UndisturbedResets(vs: seq<View>, commands: seq<Command>, n: nat)
    requires Steps(NoTrouble, vs, commands) && 1 <= n < |vs| && Inv(vs[0])
    requires commands[0].Start? && Asked(commands[0].argv).Some?
    requires forall i :: 1 <= i < n ==> commands[i] == Continue
    ensures
      var target := Asked(commands[0].argv).value.target;
      CountRequests(vs[n].log, |vs[0].targets| + 1) == if n <= target then n else target
  {
    var record := Asked(commands[0].argv).value;
    var start := |vs[0].targets| + 1;
    UndisturbedRun(vs, commands, n);
    CyclesCountAfter(vs[0].log, record, start, n - 1);
  }
}

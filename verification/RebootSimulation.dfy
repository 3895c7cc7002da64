// The two reboot tests side by side: undisturbed, the shell protocol armed with n and the
// application started with n ask for the same resets, boot by boot.
module RebootSimulation {
  import opened Bytes
  import opened RebootRecord
  import opened RebootFirmware
  import opened RebootStore
  import App = RebootTest
  import Runs = RebootRuns
  import opened RebootShell
  import ShellRuns = RebootShellRuns

  // The kinds of the resets an application log asks for.
  function Kinds(log: seq<Event>): seq<Kind> {
    if log == [] then []
    else
      var e := log[|log| - 1];
      Kinds(log[..|log| - 1]) + if e.ResetRequest? then [KindOfRecord(e.record)] else []
  }

  function Repeated(kind: Kind, n: nat): (r: seq<Kind>)
    ensures |r| == n && forall i :: 0 <= i < n ==> r[i] == kind
  {
    if n == 0 then [] else Repeated(kind, n - 1) + [kind]
  }

  lemma KindsConcat(a: seq<Event>, b: seq<Event>)
    ensures Kinds(a + b) == Kinds(a) + Kinds(b)
  {
    if b == [] {
      assert a + b == a;
    } else {
      assert (a + b)[..|a + b| - 1] == a + b[..|b| - 1];
      KindsConcat(a, b[..|b| - 1]);
    }
  }

  function KindOfRecord(record: Record): Kind {
    if record.resetType == RESET_WARM then Warm else Cold
  }

  // One cycle asks for at most one reset.
  lemma KindsOfCycle(record: Record, start: nat, k: nat)
    requires Valid(record)
    ensures Kinds(Runs.CycleEvents(record, start, k)) == if k < record.target then [KindOfRecord(record)] else []
  {
    var events := Runs.CycleEvents(record, start, k);
    assert |events| <= 3 && events[..|events|] == events;
    assert |events| >= 1 ==> events[..1][..0] == [] && events[..1][0] == events[0];
    assert |events| >= 2 ==> events[..2][..1] == events[..1];
    assert |events| >= 1 ==> Kinds(events[..1]) == [];
  }

  lemma KindsOfNextCycle(record: Record, start: nat, k: nat)
    requires Valid(record) && k > 0
    ensures Kinds(Runs.CyclesLog(record, start, k)) ==
            Kinds(Runs.CyclesLog(record, start, k - 1)) + if k < record.target then [KindOfRecord(record)] else []
  {
    KindsConcat(Runs.CyclesLog(record, start, k - 1), Runs.CycleEvents(record, start, k));
    KindsOfCycle(record, start, k);
  }

  lemma {:induction false} KindsOfCycles(record: Record, start: nat, k: nat)
    requires Valid(record)
    ensures Kinds(Runs.CyclesLog(record, start, k)) ==
            Repeated(KindOfRecord(record), if k < record.target then k + 1 else record.target)
  {
    if k == 0 {
      KindsOfCycle(record, start, 0);
      assert [] + Runs.CycleEvents(record, start, 0) == Runs.CycleEvents(record, start, 0);
    } else {
      var kind, so := KindOfRecord(record), Kinds(Runs.CyclesLog(record, start, k - 1));
      KindsOfCycles(record, start, k - 1);
      KindsOfNextCycle(record, start, k);
      if k < record.target {
        assert Repeated(kind, k + 1) == Repeated(kind, k) + [kind];
      } else {
        assert so + [] == so;
      }
    }
  }

  // The application's half: what a start and k continues ask for and leave behind.
  lemma UndisturbedKinds(vs: seq<View>, commands: seq<App.Command>, k: nat)
    requires Runs.Steps(NoTrouble, vs, commands) && k + 1 < |vs|
    requires commands[0].Start? && App.Asked(commands[0].argv).Some?
    requires forall i :: 1 <= i <= k ==> commands[i] == App.Continue
    ensures
      var record := App.Asked(commands[0].argv).value;
      var v := vs[k + 1];
      && Kinds(v.log) ==
         Kinds(vs[0].log) + Repeated(KindOfRecord(record), if k < record.target then k + 1 else record.target)
      && v.held.Some? && (v.powered <==> k >= record.target)
      && v.held.value.active == (if k < record.target then 1 else 0)
      && v.held.value.completed == (if k < record.target then k else record.target)
  {
    var record := App.Asked(commands[0].argv).value;
    var start := |vs[0].targets| + 1;
    Runs.UndisturbedRun(vs, commands, k + 1);
    KindsConcat(vs[0].log, Runs.CyclesLog(record, start, k));
    KindsOfCycles(record, start, k);
  }

  // ---- The shell protocol, undisturbed.

  const CALM := Faults(false, false, false, false)

  // The shell after arm.nsh and k boots with startup.nsh.
  function UndisturbedShell(s: Shell, n: int, kind: Value, k: nat): Shell
    requires 1 <= n <= 20
  {
    if k < n then
      Shell(Num(1), Num(n), Num(k + 1), kind,
            if k == 0 then kind else Unset, if k == 0 then s.next else Num(k + 1),
            false, Some((n, kind)), k + 1, s.log + Repeated(KindOf(kind), k + 1))
    else
      Shell(Unset, Unset, Unset, Unset, Unset, Unset, true, Some((n, kind)), n, s.log + Repeated(KindOf(kind), n))
  }

  ghost predicate ShellBoots(ss: seq<Shell>) {
    forall i :: 1 <= i < |ss| - 1 ==> StartupStep(CALM, ShellRuns.Booted(ss[i]), ss[i + 1])
  }

  lemma {:induction false} UndisturbedShellRun(ss: seq<Shell>, n: int, kind: Value, k: nat)
    requires 1 <= n <= 20 && IsType(kind) && k + 1 < |ss|
    requires ss[0].powered && ArmStep(CALM, ss[0], Num(n), kind, Unset, ss[1])
    requires ShellBoots(ss)
    ensures ss[k + 1] == UndisturbedShell(ss[0], n, kind, k)
  {
    if k == 0 {
      assert Repeated(KindOf(kind), 1) == [KindOf(kind)];
    } else {
      UndisturbedShellRun(ss, n, kind, k - 1);
      var b := ShellRuns.Booted(ss[k]);
      assert StartupStep(CALM, b, ss[k + 1]);
      assert k <= n ==> Runnable(b) && b.count == Num(k);
      if k < n {
        assert Repeated(KindOf(kind), k) + [KindOf(kind)] == Repeated(KindOf(kind), k + 1);
        assert ss[0].log + Repeated(KindOf(kind), k) + [KindOf(kind)] == ss[0].log + Repeated(KindOf(kind), k + 1);
      }
    }
  }

  function TypeWord(record: Record): Value {
    Word(if record.resetType == RESET_WARM then "warm" else "cold")
  }

  // vs: the application's views, vs[1] after start, then one continue per boot.
  // ss: the shell's states, ss[1] after arm.nsh, then one startup.nsh per boot.
  // After k boots both have asked for the same resets; before the last boot the shell's
  // Count is one ahead of the application's completed cycles; and they go idle together.
  lemma Simulation(vs: seq<View>, commands: seq<App.Command>, ss: seq<Shell>, k: nat)
    requires Runs.Steps(NoTrouble, vs, commands) && k + 1 < |vs| && k + 1 < |ss|
    requires commands[0].Start? && App.Asked(commands[0].argv).Some?
    requires forall i :: 1 <= i <= k ==> commands[i] == App.Continue
    requires
      var record := App.Asked(commands[0].argv).value;
      && record.target <= 20
      && ss[0].powered && ArmStep(CALM, ss[0], Num(record.target), TypeWord(record), Unset, ss[1])
      && ShellBoots(ss)
    ensures
      var record := App.Asked(commands[0].argv).value;
      var v, s := vs[k + 1], ss[k + 1];
      && ss[0].log <= s.log
      && Kinds(v.log) == Kinds(vs[0].log) + s.log[|ss[0].log|..]
      && |s.log| - |ss[0].log| == s.requests
      && v.held.Some?
      && (k < record.target ==>
            v.held.value.active == 1 && s.active == Num(1) && s.count == Num(v.held.value.completed + 1))
      && (k >= record.target ==> v.held.value.active == 0 && s.active == Unset)
      && (v.powered <==> s.powered)
  {
    var record := App.Asked(commands[0].argv).value;
    UndisturbedKinds(vs, commands, k);
    UndisturbedShellRun(ss, record.target, TypeWord(record), k);
  }
}

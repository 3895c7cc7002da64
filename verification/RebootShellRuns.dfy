// The shell-only reboot test over whole runs of its scripts.
module RebootShellRuns {
  import opened Bytes
  import opened RebootShell

  datatype Command = Boot | Cut | Arm(a1: Value, a2: Value, a3: Value) | Startup | Stop

  // Switching on, if the machine is off; the volatile variables are then gone.
  function Booted(s: Shell): Shell {
    if s.powered then s else s.(powered := true, newType := Unset, next := Unset)
  }

  predicate Step(f: Faults, s: Shell, c: Command, s': Shell) {
    match c
    case Boot => s' == Booted(s)
    case Cut => s' == s.(powered := false)
    case Arm(a1, a2, a3) => ArmStep(f, s, a1, a2, a3, s')
    case Startup => StartupStep(f, s, s')
    case Stop => StopStep(f, s, s')
  }

  predicate Steps(f: Faults, ss: seq<Shell>, cs: seq<Command>) {
    && |ss| == |cs| + 1
    && forall i :: 0 <= i < |cs| ==> Step(f, ss[i], cs[i], ss[i + 1])
  }

  predicate Initial(s: Shell) {
    s.active != Num(1) && s.armed == None && s.requests == 0 && s.log == [] && s.newType == Unset && s.next == Unset
  }

  // While Active is 1, the numbers are those of one arming, and the count is between the
  // requests made since then and the target.
  predicate Safe(s: Shell) {
    s.active == Num(1) ==>
      && s.armed.Some? && s.target == Num(s.armed.value.0) && IsType(s.resetType)
      && s.count.Num?
      && s.requests <= s.count.n && 1 <= s.count.n <= s.armed.value.0 <= 20
  }

  predicate Inv(s: Shell) {
    Safe(s) && (s.newType == Unset || IsType(s.newType))
  }

  // startup.nsh is about to make another cycle.
  predicate GoesOn(s: Shell) {
    s.powered && Runnable(s) && s.count.n < s.target.n
  }

  // What an earlier script of this boot left in Next cannot break the bound: nothing, or a
  // number above the requests made and within the target.
  predicate HarmlessNext(s: Shell)
    requires s.target.Num?
  {
    s.next == Unset || (s.next.Num? && s.requests < s.next.n <= s.target.n)
  }

  // Only a failing `set -v` can make use of what is left in Next.
  predicate Dependable(f: Faults, s: Shell, c: Command) {
    c == Startup && f.volatileFails && GoesOn(s) ==> HarmlessNext(s)
  }

  lemma StepKeeps(f: Faults, s: Shell, c: Command, s': Shell)
    requires Inv(s) && Step(f, s, c, s') && Dependable(f, s, c)
    ensures Inv(s')
  {
  }

  // Safety of the shell protocol: with `set` and `set -d` failing silently, power cut at
  // any line and resets returning, in every reachable state.
  lemma {:induction false} ShellSafety(f: Faults, ss: seq<Shell>, cs: seq<Command>, n: nat)
    requires Steps(f, ss, cs) && Initial(ss[0]) && n < |ss|
    requires forall i :: 0 <= i < n ==> Dependable(f, ss[i], cs[i])
    ensures Inv(ss[n])
  {
    if n > 0 {
      ShellSafety(f, ss, cs, n - 1);
      StepKeeps(f, ss[n - 1], cs[n - 1], ss[n]);
    }
  }

  const ANY_FAULTS := Faults(true, true, true, true)

  // The condition on Next is exact: whatever fails, the next cycle keeps the bound if and
  // only if it holds.
  lemma BoundExact(s: Shell)
    requires Inv(s) && GoesOn(s)
    ensures (forall s' :: StartupStep(ANY_FAULTS, s, s') ==> Safe(s')) <==> HarmlessNext(s)
  {
    if !HarmlessNext(s) {
      var s' := Requested(s, KindOf(s.resetType)).(count := s.next, powered := false);
      assert StartupStep(ANY_FAULTS, s, s') && !Safe(s');
    }
  }

  // As deployed, startup.nsh runs once, first thing after power-on.  Then no condition on
  // the faults is left.
  predicate OncePerBoot(ss: seq<Shell>, cs: seq<Command>)
    requires |ss| == |cs| + 1
  {
    forall i :: 0 <= i < |cs| && cs[i] == Startup ==> i > 0 && cs[i - 1] == Boot && !ss[i - 1].powered
  }

  lemma AutomaticSafety(f: Faults, ss: seq<Shell>, cs: seq<Command>, n: nat)
    requires Steps(f, ss, cs) && Initial(ss[0]) && OncePerBoot(ss, cs) && n < |ss|
    ensures Inv(ss[n])
  {
    forall i | 0 <= i < n
      ensures Dependable(f, ss[i], cs[i])
    {
      if cs[i] == Startup {
        assert Step(f, ss[i - 1], cs[i - 1], ss[i]);
      }
    }
    ShellSafety(f, ss, cs, n);
  }

  // ---- The type asked for.

  predicate AllOf(log: seq<Kind>, from: nat, kind: Kind) {
    forall i :: from <= i < |log| ==> log[i] == kind
  }

  // Every reset since the arming is of the type it asked for, and the next ones will be.
  predicate Typed(s: Shell) {
    if s.armed.None? then s.active != Num(1)
    else
      && IsType(s.armed.value.1) && s.requests <= |s.log|
      && AllOf(s.log, |s.log| - s.requests, KindOf(s.armed.value.1))
      && (s.active == Num(1) ==> s.resetType == s.armed.value.1)
  }

  // arm.nsh, too, works with a volatile variable: nothing is left in it, or just what is
  // asked for.
  predicate HarmlessType(s: Shell, a2: Value) {
    s.newType == Unset || s.newType == AskedType(a2)
  }

  predicate TypeDependable(f: Faults, s: Shell, c: Command) {
    c.Arm? && ArmUsage(c.a1, c.a2, c.a3) && f.volatileFails ==> HarmlessType(s, c.a2)
  }

  lemma TypeStepKeeps(f: Faults, s: Shell, c: Command, s': Shell)
    requires Typed(s) && Step(f, s, c, s') && TypeDependable(f, s, c)
    ensures Typed(s')
  {
  }

  // In every reachable state of a run, all resets since the last arming had its type.
  lemma {:induction false} TypeSafety(f: Faults, ss: seq<Shell>, cs: seq<Command>, n: nat)
    requires Steps(f, ss, cs) && Initial(ss[0]) && n < |ss|
    requires forall i :: 0 <= i < n ==> TypeDependable(f, ss[i], cs[i])
    ensures Typed(ss[n])
  {
    if n > 0 {
      TypeSafety(f, ss, cs, n - 1);
      TypeStepKeeps(f, ss[n - 1], cs[n - 1], ss[n]);
    }
  }

  // That condition is exact as well: an arming is sure to keep to the type asked for if
  // and only if it holds.
  lemma TypeExact(s: Shell, a1: Value, a2: Value, a3: Value)
    requires Typed(s) && s.powered && ArmUsage(a1, a2, a3)
    ensures (forall s' :: ArmStep(ANY_FAULTS, s, a1, a2, a3, s') ==> Typed(s')) <==> HarmlessType(s, a2)
  {
    if !HarmlessType(s, a2) {
      var s' := s.(active := Num(1), target := a1, count := Num(1), resetType := s.newType,
                   armed := Some((a1.n, AskedType(a2))), requests := 0, powered := false);
      assert ArmStep(ANY_FAULTS, s, a1, a2, a3, s') && !Typed(s');
    }
  }

  // Without faults an arming requests one reset: a cold one for the word cold, a warm one for
  // the word warm and for no word; and it records the count asked for.
  lemma ArmingMeans(f: Faults, s: Shell, n: int, a2: Value, s': Shell)
    requires f.Calm() && s.powered && 1 <= n <= 20 && ArmStep(f, s, Num(n), a2, Unset, s')
    ensures a2 == Word("cold") ==> s'.log == s.log + [Cold] && s'.resetType == Word("cold")
    ensures a2 == Word("warm") || a2 == Unset ==> s'.log == s.log + [Warm] && s'.resetType == Word("warm")
    ensures a2 in {Unset, Word("warm"), Word("cold")} ==>
      s'.active == Num(1) && s'.target == Num(n) && s'.count == Num(1) && !s'.powered
    ensures a2 !in {Unset, Word("warm"), Word("cold")} ==> s' == s.(powered := s'.powered)
  {
    assert "warm"[0] != "cold"[0];
  }

  // A run in which it goes wrong within one boot: an arming for cold resets fails after
  // setting NewType, and the next one, for warm resets, requests a cold one.
  lemma StaleTypeArmsOther()
    returns (ss: seq<Shell>, cs: seq<Command>)
    ensures Steps(ANY_FAULTS, ss, cs) && Initial(ss[0]) && |cs| == 3
    ensures cs == [Boot, Arm(Num(3), Word("cold"), Unset), Arm(Num(5), Word("warm"), Unset)]
    ensures ss[3].active == Num(1) && ss[3].resetType == Word("cold") && ss[3].log == [Cold]
  {
    var cold, warm := Word("cold"), Word("warm");
    var off := Shell(Unset, Unset, Unset, Unset, Unset, Unset, false, None, 0, []);
    var on := Booted(off);
    var failed := on.(newType := cold);
    var armed := Shell(Num(1), Num(5), Num(1), cold, cold, Unset, false, Some((5, warm)), 1, [Cold]);
    ss := [off, on, failed, armed];
    cs := [Boot, Arm(Num(3), cold, Unset), Arm(Num(5), warm, Unset)];
    assert "cold"[0] != "warm"[0];
    assert [] + [Cold] == [Cold];
    assert Step(ANY_FAULTS, on, cs[1], failed);
    assert Step(ANY_FAULTS, failed, cs[2], armed);
  }

  // The branch "count has no next state" is dead, in reachable states and all others.
  lemma SuccessorExists(s: Shell)
    requires Runnable(s) && s.count.n < s.target.n
    ensures NextState(s.count.n) == Some(s.count.n + 1) && s.count.n + 1 <= s.target.n
  {
  }

  // A successor variable left over from an earlier script of the same boot.
  predicate Stale(s: Shell) {
    s.next != Unset && s.count.Num? && s.next != Num(s.count.n + 1)
  }

  // startup.nsh reads Count back against Next, not against the number it meant, so a
  // failed volatile set is caught exactly when no other number is left in Next.
  lemma StaleNextExact(s: Shell)
    requires s.powered && Runnable(s) && s.count.n < s.target.n
    ensures
      (forall s' :: StartupStep(ANY_FAULTS, s, s') && s'.requests != s.requests ==> s'.count == Num(s.count.n + 1))
      <==> !Stale(s)
  {
    if Stale(s) {
      var s' := Requested(s, KindOf(s.resetType)).(count := s.next, powered := false);
      assert StartupStep(ANY_FAULTS, s, s');
    }
  }

  // A run in which it goes wrong: the second startup of one boot requests a third reset
  // with Count still 2.
  lemma StaleNextBreaksBound()
    returns (ss: seq<Shell>, cs: seq<Command>)
    ensures Steps(ANY_FAULTS, ss, cs) && Initial(ss[0])
    ensures var last := ss[|ss| - 1]; last.active == Num(1) && last.requests == 3 && last.count == Num(2)
  {
    var off := Shell(Unset, Unset, Unset, Unset, Unset, Unset, false, None, 0, []);
    var on := Booted(off);
    var warm := Word("warm");
    var armed := Shell(Num(1), Num(3), Num(1), warm, warm, Unset, false, Some((3, warm)), 1, [Warm]);
    var back := Booted(armed);
    var returned := back.(count := Num(2), next := Num(2), requests := 2, log := [Warm, Warm]);
    var again := returned.(requests := 3, log := [Warm, Warm, Warm], powered := false);
    ss := [off, on, armed, back, returned, again];
    cs := [Boot, Arm(Num(3), Unset, Unset), Boot, Startup, Startup];
    assert [] + [Warm] == [Warm];
    assert Step(ANY_FAULTS, on, cs[1], armed);
    assert back.log + [Warm] == returned.log;
    assert Step(ANY_FAULTS, back, Startup, returned);
    assert returned.log + [Warm] == again.log;
    assert Step(ANY_FAULTS, returned, Startup, again);
  }

  // Nothing is requested from a state that is not armed, until the next arming.
  lemma {:induction false} IdleUntilArm(f: Faults, ss: seq<Shell>, cs: seq<Command>, n: nat)
    requires Steps(f, ss, cs) && n < |ss| && ss[0].active != Num(1)
    requires forall i :: 0 <= i < n ==> !cs[i].Arm?
    ensures ss[n].active != Num(1) && ss[n].log == ss[0].log
  {
    if n > 0 {
      IdleUntilArm(f, ss, cs, n - 1);
      assert Step(f, ss[n - 1], cs[n - 1], ss[n]);
    }
  }

  // After a stop whose `set -d` calls work all four variables are gone, and nothing is
  // requested until the next arming, whatever fails then.
  lemma StopMeans(f: Faults, s: Shell, g: Faults, ss: seq<Shell>, cs: seq<Command>, n: nat)
    requires Steps(g, ss, cs) && n < |ss|
    requires StopStep(f, s, ss[0]) && !f.setFails && ss[0].powered
    requires forall i :: 0 <= i < n ==> !cs[i].Arm?
    ensures ss[0].active == ss[0].target == ss[0].count == ss[0].resetType == Unset
    ensures ss[0].log == s.log && ss[n].log == s.log
  {
    IdleUntilArm(g, ss, cs, n);
  }

  // ---- The scripts themselves, run on a machine.

  method Execute(m: Machine, c: Command)
    modifies m
    ensures Step(m.faults, old(m.State()), c, m.State())
  {
    match c {
      case Boot => m.Boot();
      case Cut => m.Off();
      case Arm(a1, a2, a3) => m.Arm(a1, a2, a3);
      case Startup => m.Startup();
      case Stop => m.Stop();
    }
  }

  // The bound holds always, the type if `set -v` can be relied on.
  ghost predicate Sound(m: Machine)
    reads m
  {
    Inv(m.State()) && (!m.faults.volatileFails ==> Typed(m.State()))
  }

  // The machine went through these states, one command after the other.
  ghost predicate Went(m: Machine, from: Shell, ss: seq<Shell>, cs: seq<Command>)
    reads m
  {
    Steps(m.faults, ss, cs) && ss[0] == from && ss[|ss| - 1] == m.State()
  }

  lemma StepsMore(f: Faults, ss: seq<Shell>, cs: seq<Command>, c: Command, s': Shell)
    requires Steps(f, ss, cs) && Step(f, ss[|ss| - 1], c, s')
    ensures Steps(f, ss + [s'], cs + [c])
  {
  }

  // One more command.
  method Go(m: Machine, c: Command, ghost from: Shell, ghost ss: seq<Shell>, ghost cs: seq<Command>)
    returns (ghost more: seq<Shell>)
    requires Went(m, from, ss, cs)
    modifies m
    ensures Went(m, from, more, cs + [c]) && Step(m.faults, old(m.State()), c, m.State())
  {
    Execute(m, c);
    StepsMore(m.faults, ss, cs, c, m.State());
    more := ss + [m.State()];
  }

  // Power-on and the startup hook, once.
  method PowerUp(m: Machine, ghost from: Shell, ghost ss: seq<Shell>, ghost cs: seq<Command>)
    returns (ghost more: seq<Shell>)
    requires Sound(m) && Went(m, from, ss, cs)
    modifies m
    ensures Sound(m) && Went(m, from, more, cs + [Cut, Boot, Startup])
  {
    more := Go(m, Cut, from, ss, cs);
    more := Go(m, Boot, from, more, cs + [Cut]);
    ghost var booted := m.State();
    more := Go(m, Startup, from, more, cs + [Cut] + [Boot]);
    StepKeeps(m.faults, booted, Startup, m.State());
    assert cs + [Cut] + [Boot] + [Startup] == cs + [Cut, Boot, Startup];
  }

  // arm.nsh and stop.nsh, as the user types them.
  method TypeIn(m: Machine, typed: seq<Command>, ghost from: Shell, ghost ss: seq<Shell>, ghost cs: seq<Command>)
    returns (ghost more: seq<Shell>)
    requires Sound(m) && Went(m, from, ss, cs)
    requires forall i :: 0 <= i < |typed| ==> typed[i].Arm? || typed[i].Stop?
    modifies m
    ensures Sound(m) && Went(m, from, more, cs + typed)
  {
    more := ss;
    assert cs + typed[..0] == cs;
    for i := 0 to |typed|
      invariant Sound(m) && Went(m, from, more, cs + typed[..i])
    {
      ghost var before := m.State();
      more := Go(m, typed[i], from, more, cs + typed[..i]);
      StepKeeps(m.faults, before, typed[i], m.State());
      if !m.faults.volatileFails {
        TypeStepKeeps(m.faults, before, typed[i], m.State());
      }
      assert cs + typed[..i] + [typed[i]] == cs + typed[..i + 1];
    }
    assert typed[..|typed|] == typed;
  }

  // Every boot begins with the power-on and the startup hook.
  function Script(boots: seq<seq<Command>>): seq<Command> {
    if boots == [] then []
    else Script(boots[..|boots| - 1]) + [Cut, Boot, Startup] + boots[|boots| - 1]
  }

  // The machine is switched on again and again; each time startup.nsh runs, then what the
  // user types.  The real variables of the machine go through a run of the protocol, and
  // keep its bounds, whatever fails.
  method RunBoots(m: Machine, boots: seq<seq<Command>>) returns (ghost ss: seq<Shell>)
    requires Initial(m.State())
    requires forall i, j :: 0 <= i < |boots| && 0 <= j < |boots[i]| ==> boots[i][j].Arm? || boots[i][j].Stop?
    modifies m
    ensures Went(m, old(m.State()), ss, Script(boots))
    ensures m.active == Num(1) ==>
      && m.armed.Some? && m.target == Num(m.armed.value.0) && m.count.Num?
      && m.requests <= m.count.n <= m.armed.value.0 <= 20
    ensures Sound(m)
  {
    ghost var from := m.State();
    ss := [from];
    for i := 0 to |boots|
      invariant Sound(m) && Went(m, from, ss, Script(boots[..i]))
    {
      ghost var cs := Script(boots[..i]);
      ss := PowerUp(m, from, ss, cs);
      ss := TypeIn(m, boots[i], from, ss, cs + [Cut, Boot, Startup]);
      assert boots[..i + 1][..i] == boots[..i];
    }
    assert boots[..|boots|] == boots;
  }
}

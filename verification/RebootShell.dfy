// Scripts/RebootTestShell: the reboot test as three shell scripts over four
// non-volatile variables.  Every `set` may fail silently, power may be lost at any line,
// and a reset may return.  Variables are already-typed values: no text substitution.
module RebootShell {
  import opened Bytes

  datatype Value = Unset | Num(n: int) | Word(w: string)

  datatype Kind = Warm | Cold

  // What may go wrong: power, silently failing `set` and `set -d`, a reset that returns,
  // and a failing `set -v`, which the scripts cannot detect.
  datatype Faults = Faults(cuts: bool, setFails: bool, resetReturns: bool, volatileFails: bool)
  {
    predicate Calm() { !cuts && !setFails && !resetReturns && !volatileFails }
  }

  // The variables, and instrumentation: what the last arming asked for, the reset
  // requests since then, and the kinds of all requests.
  datatype Shell = Shell(
    active: Value, target: Value, count: Value, resetType: Value,
    newType: Value, next: Value,
    powered: bool, armed: Option<(int, Value)>, requests: nat, log: seq<Kind>)

  predicate IsType(v: Value) {
    v == Word("warm") || v == Word("cold")
  }

  function KindOf(v: Value): Kind {
    if v == Word("warm") then Warm else Cold
  }

  // `if %a% ne %b%`; a comparison with a missing side never lets the script go on.
  predicate Differs(a: Value, b: Value) {
    a != b || a == Unset
  }

  function Requested(s: Shell, kind: Kind): Shell {
    s.(requests := s.requests + 1, log := s.log + [kind])
  }

  // ---- What each script may do.

  // The checks startup.nsh makes before it looks at the progress.
  predicate Runnable(s: Shell) {
    && s.active == Num(1)
    && s.target.Num? && 1 <= s.target.n <= 20
    && s.count.Num? && 1 <= s.count.n <= 20
    && IsType(s.resetType)
  }

  predicate Cleared(v: Value, v': Value) {
    v' == v || v' == Unset
  }

  // Normal completion: Active goes first, the rest only after it is gone.
  predicate CompleteStep(f: Faults, s: Shell, s': Shell) {
    && s' == s.(active := s'.active, target := s'.target, count := s'.count, resetType := s'.resetType,
                powered := s'.powered)
    && Cleared(s.active, s'.active) && Cleared(s.count, s'.count)
    && Cleared(s.target, s'.target) && Cleared(s.resetType, s'.resetType)
    && (s'.active != Unset ==> s' == s.(powered := s'.powered))
    && (!f.setFails && s'.powered ==>
          s' == s.(active := Unset, target := Unset, count := Unset, resetType := Unset))
    && (!f.cuts ==> s'.powered == s.powered)
  }

  // One more cycle: count takes the value of next, which is the successor of count unless
  // the volatile set failed; only then may one reset be requested.
  predicate CycleStep(f: Faults, s: Shell, s': Shell)
    requires s.count.Num?
  {
    var requested := s'.requests != s.requests;
    && s'.target == s.target && s'.resetType == s.resetType && s'.newType == s.newType && s'.armed == s.armed
    && (s'.next == Num(s.count.n + 1) || (s'.next == s.next && (f.volatileFails || !s'.powered)))
    && (|| s'.count == s.count
        || (s'.count == s'.next && s'.next != Unset && (s'.next == Num(s.count.n + 1) || f.volatileFails)))
    && (requested ==>
          && s'.requests == s.requests + 1 && s'.log == s.log + [KindOf(s.resetType)]
          && s'.count == s'.next && s'.next != Unset
          && (s'.next == Num(s.count.n + 1) || f.volatileFails))
    && (!requested ==> s'.log == s.log && s'.active == s.active)
    && Cleared(s.active, s'.active)
    && (requested && s'.powered && !f.setFails ==> s'.active == Unset)
    && (f.Calm() && s.powered ==>
          s' == Requested(s, KindOf(s.resetType))
                .(count := Num(s.count.n + 1), next := Num(s.count.n + 1), powered := false))
  }

  predicate StartupStep(f: Faults, s: Shell, s': Shell) {
    && (s'.powered ==> s.powered)
    && if !s.powered then s' == s
       else if !Runnable(s) then s' == s
       else if s.count.n >= s.target.n then CompleteStep(f, s, s')
       else CycleStep(f, s, s')
  }

  predicate StopStep(f: Faults, s: Shell, s': Shell) {
    && (s'.powered ==> s.powered)
    && (!s.powered ==> s' == s)
    && s' == s.(active := s'.active, target := s'.target, count := s'.count, resetType := s'.resetType,
                powered := s'.powered)
    && Cleared(s.active, s'.active) && Cleared(s.count, s'.count)
    && Cleared(s.target, s'.target) && Cleared(s.resetType, s'.resetType)
    && (s'.active != Unset ==> s' == s.(powered := s'.powered))
    && (!f.setFails && s'.powered ==>
          s'.active == Unset && s'.target == Unset && s'.count == Unset && s'.resetType == Unset)
    && (!f.cuts ==> s'.powered == s.powered)
  }

  // arm.nsh <1-20> [warm|cold]
  predicate ArmUsage(a1: Value, a2: Value, a3: Value) {
    a1.Num? && 1 <= a1.n <= 20 && a3 == Unset && (a2 == Unset || IsType(a2))
  }

  function AskedType(a2: Value): Value {
    if a2 == Unset then Word("warm") else a2
  }

  // Arming: the old test is disarmed first, Active comes last, and nothing is armed
  // unless every parameter read back as written.
  predicate ArmStep(f: Faults, s: Shell, a1: Value, a2: Value, a3: Value, s': Shell) {
    && (s'.powered ==> s.powered)
    && (!s.powered ==> s' == s)
    && (!ArmUsage(a1, a2, a3) ==> s' == s.(powered := s'.powered))
    && s'.next == s.next
    && (|| s'.newType == AskedType(a2)
        || (s'.newType == s.newType && (f.volatileFails || !s'.powered || !ArmUsage(a1, a2, a3))))
    && (|| (s'.armed == s.armed && s'.requests == s.requests && s'.log == s.log
            && (|| (s'.target == s.target && s'.count == s.count && s'.resetType == s.resetType
                    && Cleared(s.active, s'.active))
                || s'.active == Unset))
        || (ArmUsage(a1, a2, a3)
            && s'.newType != Unset && (s'.newType == AskedType(a2) || f.volatileFails)
            && s'.armed == Some((a1.n, AskedType(a2)))
            && (s'.active == Unset || s'.active == Num(1))
            && s'.target == a1 && s'.resetType == s'.newType && s'.count == Num(1)
            && (|| (s'.requests == 0 && s'.log == s.log)
                || (s'.requests == 1 && s'.log == s.log + [KindOf(s'.newType)]))))
    && (!f.setFails && s'.powered && ArmUsage(a1, a2, a3) ==> s'.active == Unset)
    && (f.Calm() && s.powered && ArmUsage(a1, a2, a3) ==>
          && s'.active == Num(1) && s'.target == a1 && s'.resetType == AskedType(a2) && s'.count == Num(1)
          && s'.requests == 1 && s'.log == s.log + [KindOf(AskedType(a2))] && !s'.powered)
  }

  // ---- The scripts.

  // The finite state table; the shell has no arithmetic.
  function NextState(count: int): (next: Option<int>)
    ensures next == if 1 <= count <= 19 then Some(count + 1) else None
  {
    match count
    case 1 => Some(2) case 2 => Some(3) case 3 => Some(4) case 4 => Some(5)
    case 5 => Some(6) case 6 => Some(7) case 7 => Some(8) case 8 => Some(9)
    case 9 => Some(10) case 10 => Some(11) case 11 => Some(12) case 12 => Some(13)
    case 13 => Some(14) case 14 => Some(15) case 15 => Some(16) case 16 => Some(17)
    case 17 => Some(18) case 18 => Some(19) case 19 => Some(20)
    case _ => None
  }

  class Machine {
    const faults: Faults
    var active: Value
    var target: Value
    var count: Value
    var resetType: Value
    var newType: Value
    var next: Value
    var powered: bool
    ghost var armed: Option<(int, Value)>
    ghost var requests: nat
    ghost var log: seq<Kind>

    ghost function State(): Shell
      reads this
    {
      Shell(active, target, count, resetType, newType, next, powered, armed, requests, log)
    }

    constructor (faults: Faults)
      ensures this.faults == faults
      ensures State() == Shell(Unset, Unset, Unset, Unset, Unset, Unset, false, None, 0, [])
    {
      this.faults := faults;
      active, target, count, resetType, newType, next := Unset, Unset, Unset, Unset, Unset, Unset;
      powered, armed, requests, log := false, None, 0, [];
    }

    // Power on; volatile variables are gone.
    method Boot()
      modifies this
      ensures State() ==
        if old(powered) then old(State()) else old(State()).(powered := true, newType := Unset, next := Unset)
    {
      if !powered {
        powered, newType, next := true, Unset, Unset;
      }
    }

    method Tick()
      modifies this`powered
      ensures powered ==> old(powered)
      ensures !faults.cuts ==> powered == old(powered)
    {
      var cut: bool := *;
      if faults.cuts && cut {
        powered := false;
      }
    }

    // `set NAME value`: the new value of a variable.  It may silently stay the old one;
    // with no value the command only displays the variable.
    method Set(was: Value, value: Value) returns (v: Value)
      modifies this`powered
      ensures powered ==> old(powered)
      ensures v == was || (old(powered) && value != Unset && v == value)
      ensures !faults.cuts ==> powered == old(powered)
      ensures !faults.setFails && powered && value != Unset ==> v == value
    {
      Tick();
      var fails: bool := *;
      v := if powered && value != Unset && !(faults.setFails && fails) then value else was;
    }

    // `set NAME value`, then `if %NAME% ne value`.
    method SetAndCheck(was: Value, value: Value) returns (v: Value, ok: bool)
      modifies this`powered
      ensures powered ==> old(powered)
      ensures v == was || (old(powered) && value != Unset && v == value)
      ensures ok <==> v == value != Unset
      ensures !faults.cuts ==> powered == old(powered)
      ensures !faults.setFails && powered && value != Unset ==> ok
    {
      v := Set(was, value);
      ok := !Differs(v, value);
    }

    // `set -d NAME`
    method Delete(was: Value) returns (v: Value)
      modifies this`powered
      ensures powered ==> old(powered)
      ensures v == was || (old(powered) && v == Unset)
      ensures !faults.cuts ==> powered == old(powered)
      ensures !faults.setFails && powered ==> v == Unset
    {
      Tick();
      var fails: bool := *;
      v := if powered && !(faults.setFails && fails) then Unset else was;
    }

    // `set -d NAME`, if NAME is set.
    method DeleteIfSet(was: Value) returns (v: Value)
      modifies this`powered
      ensures powered ==> old(powered)
      ensures v == was || (old(powered) && v == Unset)
      ensures !faults.cuts ==> powered == old(powered)
      ensures !faults.setFails && powered ==> v == Unset
    {
      v := was;
      if was != Unset {
        v := Delete(was);
      }
    }

    // `set -v NAME value`
    method SetVolatile(was: Value, value: Value) returns (v: Value)
      requires value != Unset
      modifies this`powered
      ensures powered ==> old(powered)
      ensures v == value || (v == was && (faults.volatileFails || !powered))
      ensures !old(powered) ==> v == was
      ensures !faults.cuts ==> powered == old(powered)
    {
      Tick();
      var fails: bool := *;
      v := if powered && !(faults.volatileFails && fails) then value else was;
    }

    // The power switch.
    method Off()
      modifies this`powered
      ensures !powered
    {
      powered := false;
    }

    // `reset -w` or `reset -c`, which normally does not return.
    method Reset(kind: Kind)
      modifies this`powered, this`requests, this`log
      ensures powered ==> old(powered)
      ensures
        || (requests == old(requests) && log == old(log))
        || (old(powered) && requests == old(requests) + 1 && log == old(log) + [kind])
      ensures powered ==> requests == old(requests) + 1
      ensures !faults.cuts && old(powered) ==> requests == old(requests) + 1
      ensures !faults.resetReturns ==> !powered
    {
      Tick();
      if powered {
        requests, log := requests + 1, log + [kind];
        var returned: bool := *;
        if !(faults.resetReturns && returned) {
          powered := false;
        }
      }
    }

    method Startup()
      modifies this
      ensures StartupStep(faults, old(State()), State())
    {
      if active == Unset {
        return;
      }
      if active != Num(1) {
        return;
      }
      if target == Unset || !target.Num? || target.n < 1 || target.n > 20 {
        return;
      }
      if count == Unset || !count.Num? || count.n < 1 || count.n > 20 {
        return;
      }
      if !IsType(resetType) {
        return;
      }
      if count.n >= target.n {
        Complete();
      } else {
        Cycle();
      }
    }

    method Complete()
      modifies this
      ensures CompleteStep(faults, old(State()), State())
      ensures powered ==> old(powered)
      ensures !old(powered) ==> State() == old(State())
    {
      active := Delete(active);
      if active != Unset {
        return;
      }
      count := Delete(count);
      target := Delete(target);
      resetType := Delete(resetType);
    }

    method Cycle()
      requires Runnable(State()) && count.n < target.n
      modifies this
      ensures CycleStep(faults, old(State()), State())
      ensures powered ==> old(powered)
      ensures !old(powered) ==> State() == old(State())
    {
      var successor := NextState(count.n);
      if successor.None? {
        // "count has no next state"
        assert false;
      }
      next := SetVolatile(next, Num(successor.value));
      count := Set(count, next);
      if Differs(count, next) {
        return;
      }
      Reset(KindOf(resetType));
      // Reached only when the reset returned.
      active := Delete(active);
    }

    method Stop()
      modifies this
      ensures StopStep(faults, old(State()), State())
    {
      if active != Unset {
        active := Delete(active);
        if active != Unset {
          return;
        }
      }
      count := DeleteIfSet(count);
      target := DeleteIfSet(target);
      resetType := DeleteIfSet(resetType);
    }

    method Arm(a1: Value, a2: Value, a3: Value)
      modifies this
      ensures ArmStep(faults, old(State()), a1, a2, a3, State())
    {
      if a1 == Unset || !a1.Num? || a1.n < 1 || a1.n > 20 || a3 != Unset {
        return;
      }
      if a2 == Unset {
        newType := SetVolatile(newType, Word("warm"));
      } else if !IsType(a2) {
        return;
      } else {
        newType := SetVolatile(newType, a2);
      }
      var done := ArmParameters(a1, AskedType(a2));
      if !done {
        Failed();
        return;
      }
      Reset(KindOf(newType));
      Failed();
    }

    // From "disarm any previous test" to the readback of Active.
    method ArmParameters(a1: Value, ghost asked: Value) returns (done: bool)
      requires a1.Num?
      modifies this`active, this`target, this`count, this`resetType, this`powered, this`armed, this`requests
      ensures powered ==> old(powered)
      ensures !old(powered) ==> !done && State() == old(State())
      ensures done ==>
        && active == Num(1) && target == a1 && count == Num(1) && resetType == newType != Unset
        && armed == Some((a1.n, asked)) && requests == 0
      ensures !done ==>
        && armed == old(armed) && requests == old(requests)
        && (|| active == Unset
            || (active == old(active) && target == old(target) && count == old(count) && resetType == old(resetType)))
      ensures !faults.cuts ==> powered == old(powered)
      ensures !faults.setFails && powered && newType != Unset ==> done
    {
      if active != Unset {
        active := Delete(active);
        if active != Unset {
          return false;
        }
      }
      var ok;
      target, ok := SetAndCheck(target, a1);
      if !ok {
        return false;
      }
      resetType, ok := SetAndCheck(resetType, newType);
      if !ok {
        return false;
      }
      count, ok := SetAndCheck(count, Num(1));
      if !ok {
        return false;
      }
      active, ok := SetAndCheck(active, Num(1));
      if !ok {
        return false;
      }
      armed, requests := Some((a1.n, asked)), 0;
      return true;
    }

    method Failed()
      modifies this`active, this`powered
      ensures Cleared(old(active), active)
      ensures powered ==> old(powered)
      ensures !old(powered) ==> active == old(active)
      ensures !faults.setFails && powered ==> active == Unset
    {
      if active != Unset {
        active := Delete(active);
      }
    }
  }
}

// RuntimeVarEditor.c: loading the list of runtime variables from the firmware's store,
// through a name buffer and a list that both grow, then sorting it by name.
module RuntimeVariables {
  import opened Bytes
  import Sorting

  const MAX_VARIABLES: nat := 2048
  const INITIAL_CAPACITY: nat := 128
  const INITIAL_NAME_BYTES: nat := 256
  const MAX_NAME_CHARS: nat := 512
  const RUNTIME_ACCESS: nat := 4

  datatype Status = Success | NotFound | BufferTooSmall | InvalidParameter | BadBufferSize | OutOfResources | ReadError
  {
    predicate IsError() { !Success? }
  }

  datatype Variable = Variable(name: string, guid: nat, attributes: nat, size: nat)

  // One entry of the store; an unreadable one makes GetVariable fail.
  datatype Entry = Entry(variable: Variable, readable: bool)

  predicate IsRuntime(attributes: nat) {
    attributes / RUNTIME_ACCESS % 2 == 1
  }

  // ---- The order of names: StrCmp.

  predicate NameBelow(a: string, b: string) {
    b != [] && (a == [] || a[0] < b[0] || (a[0] == b[0] && NameBelow(a[1..], b[1..])))
  }

  const VariableLess: (Variable, Variable) -> bool := (l: Variable, r: Variable) => NameBelow(l.name, r.name)

  lemma {:induction false} NameBelowTransitive(a: string, b: string, c: string)
    ensures NameBelow(a, b) && NameBelow(b, c) ==> NameBelow(a, c)
    ensures NameBelow(a, c) ==> NameBelow(a, b) || NameBelow(b, c)
  {
    if a != [] && b != [] && c != [] {
      NameBelowTransitive(a[1..], b[1..], c[1..]);
    }
  }

  lemma {:induction false} NameNotBelowItself(a: string)
    ensures !NameBelow(a, a)
  {
    if a != [] {
      NameNotBelowItself(a[1..]);
    }
  }

  // At the first difference the smaller character decides; a beginning comes first.
  predicate DiffersAt(a: string, b: string, k: nat) {
    && k <= |a| && k <= |b| && a[..k] == b[..k]
    && (k == |a| || (k < |b| && a[k] < b[k]))
  }

  // The same name, or one that comes before it.
  ghost predicate NameUpTo(a: string, b: string) {
    exists k: nat :: DiffersAt(a, b, k)
  }

  lemma {:induction false} NameUpToHolds(a: string, b: string) returns (k: nat)
    requires !NameBelow(b, a)
    ensures DiffersAt(a, b, k)
  {
    if a == [] || (b != [] && a[0] < b[0]) {
      k := 0;
    } else {
      var n := NameUpToHolds(a[1..], b[1..]);
      k := n + 1;
      assert a[..k] == [a[0]] + a[1..][..n] && b[..k] == [b[0]] + b[1..][..n];
    }
  }

  lemma {:induction false} NamesEqual(a: string, b: string)
    ensures !NameBelow(a, b) && !NameBelow(b, a) <==> a == b
  {
    if a != [] && b != [] && a[0] == b[0] {
      NamesEqual(a[1..], b[1..]);
      assert a == [a[0]] + a[1..] && b == [b[0]] + b[1..];
    }
  }

  lemma VariableOrder()
    ensures Sorting.StrictWeakOrder(VariableLess)
  {
    forall a: Variable
      ensures !VariableLess(a, a)
    {
      NameNotBelowItself(a.name);
    }
    forall a: Variable, b: Variable, c: Variable
      ensures VariableLess(a, b) && VariableLess(b, c) ==> VariableLess(a, c)
      ensures VariableLess(a, c) ==> VariableLess(a, b) || VariableLess(b, c)
    {
      NameBelowTransitive(a.name, b.name, c.name);
    }
  }

  // ---- What the list should be.

  predicate Wanted(e: Entry) {
    e.readable && IsRuntime(e.variable.attributes)
  }

  function WantedOf(entries: seq<Entry>): (vs: seq<Variable>)
    ensures |vs| <= |entries|
  {
    if entries == [] then []
    else
      var e := entries[|entries| - 1];
      WantedOf(entries[..|entries| - 1]) + if Wanted(e) then [e.variable] else []
  }

  predicate TooLong(e: Entry) {
    |e.variable.name| > MAX_NAME_CHARS
  }

  // The scan from entry i with `got` accepted so far; None for a name beyond the limit.
  function Scan(entries: seq<Entry>, i: nat, got: seq<Variable>): Option<seq<Variable>>
    requires i <= |entries|
    decreases |entries| - i
  {
    if i == |entries| then Some(got)
    else if TooLong(entries[i]) then None
    else if |got| >= MAX_VARIABLES then Some(got)
    else Scan(entries, i + 1, got + if Wanted(entries[i]) then [entries[i].variable] else [])
  }

  lemma WantedOfNext(entries: seq<Entry>, i: nat)
    requires i < |entries|
    ensures WantedOf(entries[..i + 1]) ==
            WantedOf(entries[..i]) + if Wanted(entries[i]) then [entries[i].variable] else []
  {
    assert entries[..i + 1][..i] == entries[..i];
  }

  lemma {:induction false} WantedOfGrows(entries: seq<Entry>, i: nat)
    requires i <= |entries|
    ensures WantedOf(entries[..i]) <= WantedOf(entries)
    decreases |entries| - i
  {
    if i == |entries| {
      assert entries[..i] == entries;
    } else {
      WantedOfNext(entries, i);
      WantedOfGrows(entries, i + 1);
    }
  }

  // A scan that ends well has the first (at most 2048) wanted entries, in store order; it
  // ends badly only over a name that is too long.
  lemma {:induction false} ScanIsFirstWanted(entries: seq<Entry>, i: nat)
    requires i <= |entries| && |WantedOf(entries[..i])| <= MAX_VARIABLES
    ensures
      var r, all := Scan(entries, i, WantedOf(entries[..i])), WantedOf(entries);
      && (r.Some? ==> r.value == if |all| <= MAX_VARIABLES then all else all[..MAX_VARIABLES])
      && (r.None? ==> exists j :: i <= j < |entries| && TooLong(entries[j]))
    decreases |entries| - i
  {
    if i == |entries| {
      assert entries[..i] == entries;
    } else {
      WantedOfGrows(entries, i);
      if !TooLong(entries[i]) && |WantedOf(entries[..i])| < MAX_VARIABLES {
        WantedOfNext(entries, i);
        ScanIsFirstWanted(entries, i + 1);
      }
    }
  }

  // ---- The store.

  predicate ValidStore(entries: seq<Entry>) {
    && (forall i :: 0 <= i < |entries| ==> entries[i].variable.name != [])
    && (forall i, j :: 0 <= i < j < |entries| ==>
          entries[i].variable.name != entries[j].variable.name || entries[i].variable.guid != entries[j].variable.guid)
  }

  // The entry that follows the one with this name and GUID; the empty name starts over.
  predicate IsNextOf(entries: seq<Entry>, name: string, guid: nat, i: nat) {
    if name == [] then i == 0
    else 1 <= i <= |entries| && entries[i - 1].variable.name == name && entries[i - 1].variable.guid == guid
  }

  function NameBytes(name: string): nat {
    2 * (|name| + 1)
  }

  class Store {
    const entries: seq<Entry>

    constructor (entries: seq<Entry>)
      ensures this.entries == entries
    {
      this.entries := entries;
    }

    // The entry that follows the named one, if that exists.
    method FindNext(name: string, guid: nat) returns (next: Option<nat>)
      requires ValidStore(entries)
      ensures next.None? ==> forall k: nat :: !IsNextOf(entries, name, guid, k)
      ensures next.Some? ==>
        next.value <= |entries| && forall k: nat :: IsNextOf(entries, name, guid, k) ==> k == next.value
    {
      if name == [] {
        return Some(0);
      }
      for i := 0 to |entries|
        invariant forall j :: 0 <= j < i ==> entries[j].variable.name != name || entries[j].variable.guid != guid
      {
        if entries[i].variable.name == name && entries[i].variable.guid == guid {
          return Some(i + 1);
        }
      }
      return None;
    }

    // GetNextVariableName: section 8.2 of the UEFI Specification; or the firmware fails.
    method GetNextVariableName(nameSize: nat, name: string, guid: nat, mayFail: bool)
      returns (s: Status, nameSize': nat, name': string, guid': nat)
      requires ValidStore(entries)
      ensures s == ReadError ==> mayFail
      ensures s != ReadError ==> forall i: nat :: IsNextOf(entries, name, guid, i) ==>
        && (i == |entries| ==> s == NotFound)
        && (i < |entries| ==>
              var needed := NameBytes(entries[i].variable.name);
              if nameSize < needed then s == BufferTooSmall && nameSize' == needed && name' == name && guid' == guid
              else s == Success && name' == entries[i].variable.name && guid' == entries[i].variable.guid
                   && IsNextOf(entries, name', guid', i + 1))
    {
      var fails: bool := *;
      if mayFail && fails {
        return ReadError, nameSize, name, guid;
      }
      var next := FindNext(name, guid);
      if next.None? {
        return InvalidParameter, nameSize, name, guid;
      }
      if next.value == |entries| {
        return NotFound, nameSize, name, guid;
      }
      var e := entries[next.value].variable;
      if nameSize < NameBytes(e.name) {
        return BufferTooSmall, NameBytes(e.name), name, guid;
      }
      return Success, NameBytes(e.name), e.name, e.guid;
    }

    // GetVariable without a buffer, as RveReadVariableInfo uses it.
    method ReadVariableInfo(name: string, guid: nat) returns (s: Status, v: Variable)
      requires ValidStore(entries)
      ensures forall i :: 0 <= i < |entries| && entries[i].variable.name == name && entries[i].variable.guid == guid ==>
        (s == Success <==> entries[i].readable) && (s == Success ==> v == entries[i].variable)
    {
      for i := 0 to |entries|
        invariant forall j :: 0 <= j < i ==> entries[j].variable.name != name || entries[j].variable.guid != guid
      {
        if entries[i].variable.name == name && entries[i].variable.guid == guid {
          return if entries[i].readable then Success else ReadError, entries[i].variable;
        }
      }
      return NotFound, Variable(name, guid, 0, 0);
    }

    // AllocatePool and its kin: they may fail at any time, if failures are allowed.
    method Allocate(mayFail: bool) returns (ok: bool)
      ensures !mayFail ==> ok
    {
      ok := *;
      if !mayFail {
        ok := true;
      }
    }
  }

  predicate IsCapacity(n: nat) {
    n == 128 || n == 256 || n == 512 || n == 1024 || n == 2048
  }

  // ReallocatePool of the list: the entries so far, then zeroes.
  method Grow(variables: array<Variable>, count: nat) returns (grown: array<Variable>)
    requires count == variables.Length
    ensures fresh(grown) && grown.Length == 2 * variables.Length
    ensures grown[..count] == variables[..count]
  {
    grown := new Variable[2 * variables.Length](_ => Variable("", 0, 0, 0));
    for i := 0 to count
      invariant forall j :: 0 <= j < i ==> grown[j] == variables[j]
    {
      grown[i] := variables[i];
    }
  }

  // The next name, growing the name buffer when the firmware asks for more.
  method NextName(store: Store, nameCapacity: nat, name: string, guid: nat, ghost i: nat, mayFail: bool)
    returns (s: Status, nameCapacity': nat, name': string, guid': nat)
    requires ValidStore(store.entries) && i <= |store.entries| && IsNextOf(store.entries, name, guid, i)
    requires nameCapacity <= 2 * (MAX_NAME_CHARS + 1)
    ensures nameCapacity' <= 2 * (MAX_NAME_CHARS + 1)
    ensures s == NotFound ==> i == |store.entries|
    ensures s == BadBufferSize ==> i < |store.entries| && TooLong(store.entries[i])
    ensures s == OutOfResources || s == ReadError ==> mayFail
    ensures s in {NotFound, BadBufferSize, OutOfResources, ReadError, Success}
    ensures s == Success ==>
      && i < |store.entries| && !TooLong(store.entries[i])
      && name' == store.entries[i].variable.name && guid' == store.entries[i].variable.guid
      && IsNextOf(store.entries, name', guid', i + 1)
  {
    var nameSize;
    nameCapacity' := nameCapacity;
    s, nameSize, name', guid' := store.GetNextVariableName(nameCapacity, name, guid, mayFail);
    if s == BufferTooSmall {
      if nameSize > 2 * (MAX_NAME_CHARS + 1) || nameSize % 2 != 0 {
        return BadBufferSize, nameCapacity', name', guid';
      }
      var ok := store.Allocate(mayFail);
      if !ok {
        return OutOfResources, nameCapacity', name', guid';
      }
      nameCapacity' := nameSize;
      s, nameSize, name', guid' := store.GetNextVariableName(nameSize, name', guid', mayFail);
    }
  }

  // The first wanted variables of the store in order of name, and nothing on an error.
  method RveLoadVariables(store: Store, mayFail: bool) returns (s: Status, variables: array?<Variable>, count: nat)
    requires ValidStore(store.entries)
    ensures s == Success ==>
      && Scan(store.entries, 0, []).Some?
      && variables != null && fresh(variables) && IsCapacity(variables.Length) && count <= variables.Length
      && variables[..count] == Sorting.Sort(Scan(store.entries, 0, []).value, VariableLess)
    ensures s.IsError() ==> variables == null && count == 0
    ensures s == BadBufferSize ==> Scan(store.entries, 0, []).None?
    ensures s in {Success, BadBufferSize, OutOfResources, ReadError}
    ensures s == OutOfResources || s == ReadError ==> mayFail
  {
    variables, count := null, 0;
    var ok := store.Allocate(mayFail);
    if !ok {
      return OutOfResources, null, 0;
    }
    var list := new Variable[INITIAL_CAPACITY](_ => Variable("", 0, 0, 0));
    ok := store.Allocate(mayFail);
    if !ok {
      return OutOfResources, null, 0;
    }
    var nameCapacity: nat := INITIAL_NAME_BYTES;
    var name, guid := "", 0;
    ghost var i := 0;
    var n := 0;
    while true
      invariant i <= |store.entries| && IsNextOf(store.entries, name, guid, i)
      invariant fresh(list) && IsCapacity(list.Length) && n <= list.Length
      invariant nameCapacity <= 2 * (MAX_NAME_CHARS + 1)
      invariant Scan(store.entries, i, list[..n]) == Scan(store.entries, 0, [])
      decreases |store.entries| - i
    {
      s, nameCapacity, name, guid := NextName(store, nameCapacity, name, guid, i, mayFail);
      if s == NotFound {
        s := Success;
        break;
      }
      if s.IsError() {
        break;
      }
      if n >= MAX_VARIABLES {
        break;
      }
      // No name is longer than MAX_NAME_CHARS here: NextName refused it.
      ok := store.Allocate(mayFail);
      if !ok {
        s := OutOfResources;
        break;
      }
      if n == list.Length {
        ok := store.Allocate(mayFail);
        if !ok {
          s := OutOfResources;
          break;
        }
        list := Grow(list, n);
      }
      var status, v;
      status, v := store.ReadVariableInfo(name, guid);
      ghost var got := list[..n];
      if !status.IsError() && IsRuntime(v.attributes) {
        list[n] := v;
        n := n + 1;
        assert list[..n] == got + [v];
      } else {
        assert got + [] == got;
      }
      i := i + 1;
    }
    if s.IsError() {
      return s, null, 0;
    }
    if n > 1 {
      Sorting.InsertionSort(list, n, VariableLess);
    } else {
      SortOfOne(list[..n]);
    }
    return Success, list, n;
  }

  lemma SortOfOne(s: seq<Variable>)
    requires |s| <= 1
    ensures Sorting.Sort(s, VariableLess) == s
  {
    if |s| == 1 {
      assert s[..0] == [];
    }
  }

  // What a successful load shows: the first (at most 2048) readable runtime variables of
  // the store, sorted by name, with variables of one name in store order.
  lemma LoadedList(entries: seq<Entry>)
    requires Scan(entries, 0, []).Some?
    ensures
      var all := WantedOf(entries);
      var kept := if |all| <= 2048 then all else all[..2048];
      var list := Sorting.Sort(Scan(entries, 0, []).value, VariableLess);
      && multiset(list) == multiset(kept)
      && (forall i, j :: 0 <= i < j < |list| ==> NameUpTo(list[i].name, list[j].name))
      && (forall name :: Called(list, name) == Called(kept, name))
  {
    assert entries[..0] == [];
    ScanIsFirstWanted(entries, 0);
    var kept := Scan(entries, 0, []).value;
    VariableOrder();
    Sorting.SortSorts(kept, VariableLess);
    var list := Sorting.Sort(kept, VariableLess);
    forall i, j | 0 <= i < j < |list|
      ensures NameUpTo(list[i].name, list[j].name)
    {
      assert !VariableLess(list[j], list[i]);
      var k := NameUpToHolds(list[i].name, list[j].name);
    }
    forall name
      ensures Called(list, name) == Called(kept, name)
    {
      var v := Variable(name, 0, 0, 0);
      Sorting.SortStable(kept, v, VariableLess);
      CalledIsPeers(kept, v);
      CalledIsPeers(list, v);
    }
  }

  // The variables of this name, in their order.
  function Called(vs: seq<Variable>, name: string): seq<Variable> {
    if vs == [] then []
    else
      var v := vs[|vs| - 1];
      Called(vs[..|vs| - 1], name) + if v.name == name then [v] else []
  }

  lemma {:induction false} CalledIsPeers(vs: seq<Variable>, v: Variable)
    ensures Called(vs, v.name) == Sorting.Peers(vs, v, VariableLess)
  {
    if vs != [] {
      CalledIsPeers(vs[..|vs| - 1], v);
      NamesEqual(vs[|vs| - 1].name, v.name);
    }
  }

  // Which variables are runtime variables: bit 2 of the attributes, whatever the others.
  lemma RuntimeBit(nonVolatile: bool, bootService: bool, runtime: bool, others: nat)
    ensures
      var attributes := (if nonVolatile then 1 else 0) + (if bootService then 2 else 0) + (if runtime then 4 else 0)
                        + 8 * others;
      IsRuntime(attributes) <==> runtime
  {
  }

  // What is wanted of the store: the readable variables with that bit, in the store's order.
  lemma {:induction false} WantedAre(entries: seq<Entry>, v: Variable)
    ensures v in WantedOf(entries) <==> Entry(v, true) in entries && v.attributes / 4 % 2 == 1
  {
    if entries != [] {
      WantedAre(entries[..|entries| - 1], v);
      assert entries == entries[..|entries| - 1] + [entries[|entries| - 1]];
    }
  }

  // Without names beyond the limit every load has such a result.
  lemma ShortNamesLoad(entries: seq<Entry>)
    requires forall i :: 0 <= i < |entries| ==> !TooLong(entries[i])
    ensures Scan(entries, 0, []).Some?
  {
    assert entries[..0] == [];
    ScanIsFirstWanted(entries, 0);
  }
}

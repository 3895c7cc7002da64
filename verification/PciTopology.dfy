// PciTopology.c: sorting the devices, assigning parents by bus range, and drawing the
// forest with a recursive printer and an orphan pass.
module PciTopology {
  import opened Bytes
  import opened Sequences
  import Sorting

  const MAX_UINTN: nat := 0xFFFF_FFFF_FFFF_FFFF
  const MAX_DEPTH: nat := 32

  // `handle` stands for the fields that are only printed.
  datatype Device = Device(
    handle: nat, segment: nat, bus: nat, device: nat, fn: nat,
    isBridge: bool, secondary: byte, subordinate: byte,
    parent: Option<nat>, printed: bool)

  // ---- SortDevices

  function CompareDevice(left: Device, right: Device): int {
    if left.segment != right.segment then (if left.segment < right.segment then -1 else 1)
    else if left.bus != right.bus then (if left.bus < right.bus then -1 else 1)
    else if left.device != right.device then (if left.device < right.device then -1 else 1)
    else if left.fn != right.fn then (if left.fn < right.fn then -1 else 1)
    else 0
  }

  const DeviceLess: (Device, Device) -> bool := (l, r) => CompareDevice(l, r) < 0

  // A strict weak order, decided by the first of segment, bus, device and function to differ.
  lemma DeviceOrder()
    ensures Sorting.StrictWeakOrder(DeviceLess)
    ensures forall l, r :: DeviceLess(l, r) <==>
      || l.segment < r.segment
      || (l.segment == r.segment && l.bus < r.bus)
      || (l.segment == r.segment && l.bus == r.bus && l.device < r.device)
      || (l.segment == r.segment && l.bus == r.bus && l.device == r.device && l.fn < r.fn)
  {
  }

  // By segment, within a segment by bus, within a bus by device, within a device by function.
  predicate InLocationOrder(ds: seq<Device>) {
    forall i, j :: 0 <= i < j < |ds| ==>
      && ds[i].segment <= ds[j].segment
      && (ds[i].segment == ds[j].segment ==> ds[i].bus <= ds[j].bus)
      && (ds[i].segment == ds[j].segment && ds[i].bus == ds[j].bus ==> ds[i].device <= ds[j].device)
      && (ds[i].segment == ds[j].segment && ds[i].bus == ds[j].bus && ds[i].device == ds[j].device ==>
            ds[i].fn <= ds[j].fn)
  }

  // What sorting and assigning parents leave as it is.
  function Fixed(d: Device): Device {
    d.(parent := None, printed := false)
  }

  // The devices at one location, in their order.
  function At(ds: seq<Device>, segment: nat, bus: nat, device: nat, fn: nat): seq<Device> {
    if ds == [] then []
    else
      var d := ds[|ds| - 1];
      At(ds[..|ds| - 1], segment, bus, device, fn)
      + if d.segment == segment && d.bus == bus && d.device == device && d.fn == fn then [Fixed(d)] else []
  }

  // No device is lost, made up or changed, and those of one location keep their order.
  ghost predicate SameAtEachLocation(ds: seq<Device>, es: seq<Device>) {
    forall segment, bus, device, fn :: At(ds, segment, bus, device, fn) == At(es, segment, bus, device, fn)
  }

  function AllFixed(ds: seq<Device>): seq<Device> {
    seq(|ds|, i requires 0 <= i < |ds| => Fixed(ds[i]))
  }

  lemma {:induction false} AtIsPeers(ds: seq<Device>, d: Device)
    ensures At(ds, d.segment, d.bus, d.device, d.fn) == AllFixed(Sorting.Peers(ds, d, DeviceLess))
  {
    if ds != [] {
      AtIsPeers(ds[..|ds| - 1], d);
    }
  }

  // The order of the listing: by location, devices of one location in handle order, none
  // lost or made up.
  lemma SortedListing(ds: seq<Device>)
    ensures
      var r := Sorting.Sort(ds, DeviceLess);
      multiset(r) == multiset(ds) && InLocationOrder(r) && SameAtEachLocation(ds, r)
  {
    DeviceOrder();
    Sorting.SortSorts(ds, DeviceLess);
    var r := Sorting.Sort(ds, DeviceLess);
    forall i, j | 0 <= i < j < |r|
      ensures CompareDevice(r[i], r[j]) <= 0
    {
      assert !DeviceLess(r[j], r[i]);
    }
    forall segment, bus, device, fn
      ensures At(ds, segment, bus, device, fn) == At(r, segment, bus, device, fn)
    {
      var d := Device(0, segment, bus, device, fn, false, 0, 0, None, false);
      Sorting.SortStable(ds, d, DeviceLess);
      AtIsPeers(ds, d);
      AtIsPeers(r, d);
    }
  }

  method SortDevices(devices: array<Device>)
    modifies devices
    ensures devices[..] == Sorting.Sort(old(devices[..]), DeviceLess)
    ensures InLocationOrder(devices[..]) && SameAtEachLocation(old(devices[..]), devices[..])
  {
    assert devices[..devices.Length] == devices[..];
    SortedListing(devices[..]);
    Sorting.InsertionSort(devices, devices.Length, DeviceLess);
    assert devices[..devices.Length] == devices[..];
  }

  // ---- AssignParents

  predicate Covers(ds: seq<Device>, bridge: nat, child: nat)
    requires child < |ds|
  {
    && bridge < |ds| && bridge != child && ds[bridge].isBridge
    && ds[bridge].segment == ds[child].segment
    && ds[bridge].secondary <= ds[child].bus <= ds[bridge].subordinate
  }

  function Span(d: Device): int {
    d.subordinate as int - d.secondary as int
  }

  // The first bridge with the narrowest range over the child's bus, looking at the first n.
  predicate Nearest(ds: seq<Device>, child: nat, n: nat, best: Option<nat>)
    requires child < |ds|
  {
    match best
    case None => forall b :: 0 <= b < n ==> !Covers(ds, b, child)
    case Some(p) =>
      && p < n && Covers(ds, p, child)
      && forall b :: 0 <= b < n && Covers(ds, b, child) ==>
           Span(ds[p]) < Span(ds[b]) || (Span(ds[p]) == Span(ds[b]) && p <= b)
  }

  // Two listings that agree on everything but parents and printed marks.
  predicate SamePlaces(ds: seq<Device>, es: seq<Device>) {
    && |ds| == |es|
    && forall i :: 0 <= i < |ds| ==> es[i] == ds[i].(parent := es[i].parent, printed := es[i].printed)
  }

  predicate SameMarks(ds: seq<Device>, es: seq<Device>) {
    |ds| == |es| && forall i :: 0 <= i < |ds| ==> es[i].printed == ds[i].printed
  }

  predicate ParentsAssigned(ds: seq<Device>) {
    forall i :: 0 <= i < |ds| ==> Nearest(ds, i, |ds|, ds[i].parent)
  }

  method FindParent(devices: array<Device>, child: nat) returns (best: Option<nat>)
    requires child < devices.Length
    ensures Nearest(devices[..], child, devices.Length, best)
  {
    best := None;
    var bestSpan := MAX_UINTN as int;
    var bridge := 0;
    ghost var ds := devices[..];
    while bridge < devices.Length
      invariant 0 <= bridge <= devices.Length
      invariant Nearest(ds, child, bridge, best)
      invariant bestSpan == if best.Some? then Span(ds[best.value]) else MAX_UINTN as int
    {
      var d := devices[bridge];
      if bridge == child || !d.isBridge {
        bridge := bridge + 1;
        continue;
      }
      if d.segment != devices[child].segment {
        bridge := bridge + 1;
        continue;
      }
      if d.secondary > d.subordinate {
        bridge := bridge + 1;
        continue;
      }
      if devices[child].bus < d.secondary || devices[child].bus > d.subordinate {
        bridge := bridge + 1;
        continue;
      }
      var span := d.subordinate as int - d.secondary as int;
      if span < bestSpan {
        best, bestSpan := Some(bridge), span;
      }
      bridge := bridge + 1;
    }
  }

  lemma NearestSamePlaces(ds: seq<Device>, es: seq<Device>, child: nat, n: nat, best: Option<nat>)
    requires child < |ds| && n <= |ds| && SamePlaces(ds, es) && Nearest(ds, child, n, best)
    ensures Nearest(es, child, n, best)
  {
    forall b | 0 <= b < n
      ensures Covers(es, b, child) == Covers(ds, b, child) && Span(es[b]) == Span(ds[b])
    {
    }
  }

  method AssignParents(devices: array<Device>)
    modifies devices
    ensures SamePlaces(old(devices[..]), devices[..]) && SameMarks(old(devices[..]), devices[..])
    ensures ParentsAssigned(devices[..])
  {
    ghost var was := devices[..];
    var child := 0;
    while child < devices.Length
      invariant 0 <= child <= devices.Length
      invariant SamePlaces(was, devices[..]) && SameMarks(was, devices[..])
      invariant forall i :: 0 <= i < child ==> Nearest(was, i, |was|, devices[i].parent)
    {
      var best := FindParent(devices, child);
      NearestSamePlaces(devices[..], was, child, |was|, best);
      devices[child] := devices[child].(parent := best);
      child := child + 1;
    }
    ghost var now := devices[..];
    forall i | 0 <= i < |now|
      ensures Nearest(now, i, |now|, now[i].parent)
    {
      NearestSamePlaces(was, now, i, |was|, now[i].parent);
    }
  }

  // ---- The forest the parents make.

  function Parents(ds: seq<Device>): (p: seq<Option<nat>>)
    ensures |p| == |ds| && forall i :: 0 <= i < |ds| ==> p[i] == ds[i].parent
  {
    seq(|ds|, i requires 0 <= i < |ds| => ds[i].parent)
  }

  // Parents are positions in the listing.
  predicate Linked(p: seq<Option<nat>>) {
    forall i :: 0 <= i < |p| && p[i].Some? ==> p[i].value < |p|
  }

  predicate HasChildFrom(p: seq<Option<nat>>, parent: nat, from: nat)
    requires from <= |p|
  {
    exists c :: from <= c < |p| && p[c] == Some(parent)
  }

  // The last position before n whose parent is the given one.
  predicate IsLastChild(p: seq<Option<nat>>, parent: nat, n: nat, last: Option<nat>)
    requires n <= |p|
  {
    match last
    case None => forall c :: 0 <= c < n ==> p[c] != Some(parent)
    case Some(l) => l < n && p[l] == Some(parent) && forall c :: l < c < n ==> p[c] != Some(parent)
  }

  predicate IsLastRoot(ds: seq<Device>, segment: nat, n: nat, last: Option<nat>)
    requires n <= |ds|
  {
    match last
    case None => forall c :: 0 <= c < n ==> ds[c].parent.Some? || ds[c].segment != segment
    case Some(l) =>
      && l < n && ds[l].parent.None? && ds[l].segment == segment
      && forall c :: l < c < n ==> ds[c].parent.Some? || ds[c].segment != segment
  }

  method HasChild(devices: array<Device>, parent: nat) returns (found: bool)
    ensures found == HasChildFrom(Parents(devices[..]), parent, 0)
  {
    for index := 0 to devices.Length
      invariant forall c :: 0 <= c < index ==> Parents(devices[..])[c] != Some(parent)
    {
      if devices[index].parent == Some(parent) {
        assert Parents(devices[..])[index] == Some(parent);
        return true;
      }
    }
    return false;
  }

  method LastChildIndex(devices: array<Device>, parent: nat) returns (last: Option<nat>)
    ensures IsLastChild(Parents(devices[..]), parent, devices.Length, last)
  {
    last := None;
    for index := 0 to devices.Length
      invariant IsLastChild(Parents(devices[..]), parent, index, last)
    {
      if devices[index].parent == Some(parent) {
        last := Some(index);
      }
    }
  }

  method LastRootInSegment(devices: array<Device>, segment: nat) returns (last: Option<nat>)
    ensures IsLastRoot(devices[..], segment, devices.Length, last)
  {
    last := None;
    for index := 0 to devices.Length
      invariant IsLastRoot(devices[..], segment, index, last)
    {
      if devices[index].segment == segment && devices[index].parent.None? {
        last := Some(index);
      }
    }
  }

  // ---- The drawing, line by line.

  datatype Column = Blank | Bar     // "   " and "|  "
  datatype Mark = Corner | Tee      // "`- " and "+- "

  datatype Line =
    | Domain(segment: nat)
    | Branch(columns: seq<Column>, mark: Mark, index: nat)
    | DepthReached
    | Orphan(index: nat)

  function Columns(lastAtDepth: seq<bool>): (c: seq<Column>)
    ensures |c| == |lastAtDepth|
    ensures forall i :: 0 <= i < |c| ==> (c[i] == Blank <==> lastAtDepth[i])
  {
    seq(|lastAtDepth|, i requires 0 <= i < |lastAtDepth| => if lastAtDepth[i] then Blank else Bar)
  }

  function MarkOf(isLast: bool): Mark {
    if isLast then Corner else Tee
  }

  // The subtree at index, drawn under the columns of its ancestors.
  function Subtree(p: seq<Option<nat>>, index: nat, above: seq<bool>, isLast: bool): seq<Line>
    requires |above| < MAX_DEPTH
    decreases MAX_DEPTH - |above|, 0
  {
    [Branch(Columns(above), MarkOf(isLast), index)] +
    if !HasChildFrom(p, index, 0) then []
    else if |above| + 1 >= MAX_DEPTH then [DepthReached]
    else Children(p, index, above + [isLast], 0)
  }

  // The subtrees of the children of index from position `from` on.
  function Children(p: seq<Option<nat>>, index: nat, above: seq<bool>, from: nat): seq<Line>
    requires |above| < MAX_DEPTH && from <= |p|
    decreases MAX_DEPTH - |above|, |p| - from + 1
  {
    if from == |p| then []
    else
      (if p[from] == Some(index) then Subtree(p, from, above, !HasChildFrom(p, index, from + 1)) else [])
      + Children(p, index, above, from + 1)
  }

  // The last root the current header knows of.
  function RootMark(ds: seq<Device>, from: nat, current: nat, lastRoot: Option<nat>): Option<nat>
    requires from < |ds|
  {
    if ds[from].segment != current then LastRoot(ds, ds[from].segment) else lastRoot
  }

  // A header when the segment changes, and the tree below a root.
  function Entry(ds: seq<Device>, from: nat, current: nat, lastRoot: Option<nat>): seq<Line>
    requires from < |ds|
  {
    (if ds[from].segment != current then [Domain(ds[from].segment)] else [])
    + (if ds[from].parent.None?
       then Subtree(Parents(ds), from, [], RootMark(ds, from, current, lastRoot) == Some(from)) else [])
  }

  // The tree pass from position `from`, under the header of `current`.
  function Tree(ds: seq<Device>, from: nat, current: nat, lastRoot: Option<nat>): seq<Line>
    requires from <= |ds|
    decreases |ds| - from
  {
    if from == |ds| then []
    else Entry(ds, from, current, lastRoot)
         + Tree(ds, from + 1, ds[from].segment, RootMark(ds, from, current, lastRoot))
  }

  function LastRootBefore(ds: seq<Device>, segment: nat, n: nat): (last: Option<nat>)
    requires n <= |ds|
    ensures IsLastRoot(ds, segment, n, last)
  {
    if n == 0 then None
    else if ds[n - 1].parent.None? && ds[n - 1].segment == segment then Some(n - 1)
    else LastRootBefore(ds, segment, n - 1)
  }

  function LastRoot(ds: seq<Device>, segment: nat): Option<nat> {
    LastRootBefore(ds, segment, |ds|)
  }

  predicate Draws(line: Line, index: nat) {
    line.Branch? && line.index == index
  }

  predicate Drawn(lines: seq<Line>, index: nat) {
    exists k :: 0 <= k < |lines| && Draws(lines[k], index)
  }

  function Orphans(ds: seq<Device>, from: nat): seq<Line>
    requires from <= |ds|
    decreases |ds| - from
  {
    if from == |ds| then []
    else (if ds[from].printed then [] else [Orphan(from)]) + Orphans(ds, from + 1)
  }

  // ---- The printer.

  class Console {
    var lines: seq<Line>

    constructor ()
      ensures lines == []
    {
      lines := [];
    }

    method Print(line: Line)
      modifies this
      ensures lines == old(lines) + [line]
    {
      lines := lines + [line];
    }
  }

  method PrintPrefix(depth: nat, lastAtDepth: array<bool>) returns (columns: seq<Column>)
    requires depth <= lastAtDepth.Length
    ensures columns == Columns(lastAtDepth[..depth])
  {
    columns := [];
    for index := 0 to depth
      invariant |columns| == index
      invariant forall i :: 0 <= i < index ==> (columns[i] == Blank <==> lastAtDepth[i])
    {
      columns := columns + [if lastAtDepth[index] then Blank else Bar];
    }
  }

  // The printed marks after the given lines have been printed.
  predicate MarkedBy(ds: seq<Device>, es: seq<Device>, lines: seq<Line>) {
    && |ds| == |es|
    && forall i :: 0 <= i < |ds| ==> es[i] == ds[i].(printed := ds[i].printed || Drawn(lines, i))
  }

  lemma MarkedByMore(ds: seq<Device>, es: seq<Device>, fs: seq<Device>, a: seq<Line>, b: seq<Line>)
    requires MarkedBy(ds, es, a) && MarkedBy(es, fs, b)
    ensures MarkedBy(ds, fs, a + b)
  {
    forall i | 0 <= i < |ds|
      ensures Drawn(a + b, i) == (Drawn(a, i) || Drawn(b, i))
    {
      if Drawn(a, i) {
        var k :| 0 <= k < |a| && Draws(a[k], i);
        assert Draws((a + b)[k], i);
      }
      if Drawn(b, i) {
        var k :| 0 <= k < |b| && Draws(b[k], i);
        assert Draws((a + b)[|a| + k], i);
      }
    }
  }

  lemma SameParents(ds: seq<Device>, es: seq<Device>, lines: seq<Line>)
    requires MarkedBy(ds, es, lines)
    ensures Parents(es) == Parents(ds)
  {
  }

  // The first part of PrintSubtree: the device's own line, and its mark.
  method PrintDeviceAt(con: Console, devices: array<Device>, index: nat, depth: nat, lastAtDepth: array<bool>,
                       isLast: bool)
    requires index < devices.Length && depth <= lastAtDepth.Length
    modifies con, devices
    ensures con.lines == old(con.lines) + [Branch(Columns(lastAtDepth[..depth]), MarkOf(isLast), index)]
    ensures MarkedBy(old(devices[..]), devices[..], [Branch(Columns(lastAtDepth[..depth]), MarkOf(isLast), index)])
    ensures Parents(devices[..]) == Parents(old(devices[..]))
  {
    ghost var first := [Branch(Columns(lastAtDepth[..depth]), MarkOf(isLast), index)];
    var columns := PrintPrefix(depth, lastAtDepth);
    con.Print(Branch(columns, MarkOf(isLast), index));
    devices[index] := devices[index].(printed := true);
    assert Draws(first[0], index);
    SameParents(old(devices[..]), devices[..], first);
  }

  method PrintSubtree(con: Console, devices: array<Device>, index: nat, depth: nat, lastAtDepth: array<bool>,
                      isLast: bool)
    requires index < devices.Length && depth < MAX_DEPTH && lastAtDepth.Length == MAX_DEPTH
    modifies con, devices, lastAtDepth
    ensures con.lines == old(con.lines) + Subtree(old(Parents(devices[..])), index, old(lastAtDepth[..depth]), isLast)
    ensures MarkedBy(old(devices[..]), devices[..],
                     Subtree(old(Parents(devices[..])), index, old(lastAtDepth[..depth]), isLast))
    ensures lastAtDepth[..depth] == old(lastAtDepth[..depth])
    decreases MAX_DEPTH - depth, 0
  {
    ghost var start, was, p, above := con.lines, devices[..], Parents(devices[..]), lastAtDepth[..depth];
    ghost var first := [Branch(Columns(above), MarkOf(isLast), index)];
    PrintDeviceAt(con, devices, index, depth, lastAtDepth, isLast);
    ghost var marked := devices[..];
    var hasChild := HasChild(devices, index);
    if !hasChild {
      assert Subtree(p, index, above, isLast) == first;
      return;
    }
    if depth + 1 >= MAX_DEPTH {
      con.Print(DepthReached);
      Assoc(start, first, [DepthReached]);
      MarkedByMore(was, marked, marked, first, [DepthReached]);
      return;
    }
    lastAtDepth[depth] := isLast;
    ghost var below := Children(p, index, above + [isLast], 0);
    assert lastAtDepth[..depth + 1] == above + [isLast];
    PrintChildren(con, devices, index, depth + 1, lastAtDepth);
    Assoc(start, first, below);
    MarkedByMore(was, marked, devices[..], first, below);
    assert lastAtDepth[..depth] == lastAtDepth[..depth + 1][..depth];
  }

  // The loop PrintSubtree ends with.
  method PrintChildren(con: Console, devices: array<Device>, index: nat, depth: nat, lastAtDepth: array<bool>)
    requires depth < MAX_DEPTH && lastAtDepth.Length == MAX_DEPTH
    modifies con, devices, lastAtDepth
    ensures con.lines == old(con.lines) + Children(old(Parents(devices[..])), index, old(lastAtDepth[..depth]), 0)
    ensures MarkedBy(old(devices[..]), devices[..],
                     Children(old(Parents(devices[..])), index, old(lastAtDepth[..depth]), 0))
    ensures lastAtDepth[..depth] == old(lastAtDepth[..depth])
    decreases MAX_DEPTH - depth, 2
  {
    ghost var was, p, above := devices[..], Parents(devices[..]), lastAtDepth[..depth];
    ghost var start := con.lines;
    var lastChild := LastChildIndex(devices, index);
    ghost var done: seq<Line> := [];
    for child := 0 to devices.Length
      invariant MarkedBy(was, devices[..], done)
      invariant con.lines == start + done
      invariant done + Children(p, index, above, child) == Children(p, index, above, 0)
      invariant lastAtDepth[..depth] == above
    {
      SameParents(was, devices[..], done);
      ghost var more;
      more := PrintChild(con, devices, index, child, depth, lastAtDepth, lastChild, was, done);
      Assoc(start, done, more);
      Assoc(done, more, Children(p, index, above, child + 1));
      done := done + more;
    }
    assert done + [] == done;
  }

  // One turn of that loop.
  method PrintChild(con: Console, devices: array<Device>, index: nat, child: nat, depth: nat, lastAtDepth: array<bool>,
                    lastChild: Option<nat>, ghost was: seq<Device>, ghost done: seq<Line>)
    returns (ghost more: seq<Line>)
    requires child < devices.Length && depth < MAX_DEPTH && lastAtDepth.Length == MAX_DEPTH
    requires MarkedBy(was, devices[..], done) && Parents(was) == Parents(devices[..])
    requires IsLastChild(Parents(was), index, |was|, lastChild)
    modifies con, devices, lastAtDepth
    ensures Children(Parents(was), index, old(lastAtDepth[..depth]), child) ==
            more + Children(Parents(was), index, old(lastAtDepth[..depth]), child + 1)
    ensures con.lines == old(con.lines) + more
    ensures MarkedBy(was, devices[..], done + more)
    ensures lastAtDepth[..depth] == old(lastAtDepth[..depth])
    decreases MAX_DEPTH - depth, 1
  {
    ghost var before, p := devices[..], Parents(was);
    more := [];
    assert p[child] == devices[child].parent;
    if devices[child].parent == Some(index) {
      assert (Some(child) == lastChild) == !HasChildFrom(p, index, child + 1);
      more := Subtree(p, child, lastAtDepth[..depth], Some(child) == lastChild);
      PrintSubtree(con, devices, child, depth, lastAtDepth, Some(child) == lastChild);
      MarkedByMore(was, before, devices[..], done, more);
    } else {
      assert done + [] == done;
    }
  }

  method PrintTopology(con: Console, devices: array<Device>)
    requires forall i :: 0 <= i < devices.Length ==> !devices[i].printed
    modifies con, devices
    ensures
      var tree := Tree(old(devices[..]), 0, MAX_UINTN, None);
      && MarkedBy(old(devices[..]), devices[..], tree)
      && con.lines == old(con.lines) + tree + Orphans(devices[..], 0)
  {
    ghost var was, start := devices[..], con.lines;
    ghost var tree := Tree(was, 0, MAX_UINTN, None);
    var lastAtDepth := new bool[MAX_DEPTH](_ => false);
    var currentSegment := MAX_UINTN;
    var lastRoot: Option<nat> := None;
    ghost var done: seq<Line> := [];
    for index := 0 to devices.Length
      invariant MarkedBy(was, devices[..], done)
      invariant con.lines == start + done
      invariant done + Tree(was, index, currentSegment, lastRoot) == tree
    {
      ghost var more := Entry(was, index, currentSegment, lastRoot);
      currentSegment, lastRoot := PrintEntry(con, devices, index, currentSegment, lastRoot, lastAtDepth, was, done);
      Assoc(done, more, Tree(was, index + 1, currentSegment, lastRoot));
      Assoc(start, done, more);
      done := done + more;
    }
    assert done + [] == done;
    PrintOrphans(con, devices);
  }

  // One turn of PrintTopology's first loop.
  method PrintEntry(con: Console, devices: array<Device>, index: nat, current: nat, lastRoot: Option<nat>,
                    lastAtDepth: array<bool>, ghost was: seq<Device>, ghost done: seq<Line>)
    returns (current': nat, lastRoot': Option<nat>)
    requires index < devices.Length && lastAtDepth.Length == MAX_DEPTH
    requires MarkedBy(was, devices[..], done)
    modifies con, devices, lastAtDepth
    ensures current' == was[index].segment && lastRoot' == RootMark(was, index, current, lastRoot)
    ensures con.lines == old(con.lines) + Entry(was, index, current, lastRoot)
    ensures MarkedBy(was, devices[..], done + Entry(was, index, current, lastRoot))
  {
    ghost var before, start := devices[..], con.lines;
    SameParents(was, before, done);
    current', lastRoot' := current, lastRoot;
    ghost var header: seq<Line>, branch: seq<Line> := [], [];
    if devices[index].segment != current {
      current' := devices[index].segment;
      lastRoot' := LastRootInSegment(devices, current');
      LastRootAgrees(was, before, done, current', lastRoot');
      con.Print(Domain(current'));
      header := [Domain(current')];
    }
    assert con.lines == start + header;
    assert Parents(was)[index] == devices[index].parent;
    if devices[index].parent.None? {
      branch := Subtree(Parents(was), index, [], lastRoot' == Some(index));
      assert lastAtDepth[..0] == [];
      PrintSubtree(con, devices, index, 0, lastAtDepth, lastRoot' == Some(index));
    }
    ghost var more := header + branch;
    assert con.lines == start + header + branch;
    Assoc(start, header, branch);
    assert MarkedBy(before, devices[..], branch);
    MarkedByMore(before, before, devices[..], header, branch);
    MarkedByMore(was, before, devices[..], done, more);
  }

  lemma LastRootAgrees(was: seq<Device>, now: seq<Device>, lines: seq<Line>, segment: nat, last: Option<nat>)
    requires MarkedBy(was, now, lines) && IsLastRoot(now, segment, |now|, last)
    ensures last == LastRoot(was, segment)
  {
    assert IsLastRoot(was, segment, |was|, LastRoot(was, segment));
    assert IsLastRoot(was, segment, |was|, last);
  }

  // PrintTopology's second loop.
  method PrintOrphans(con: Console, devices: array<Device>)
    modifies con
    ensures con.lines == old(con.lines) + Orphans(devices[..], 0)
  {
    ghost var start, ds := con.lines, devices[..];
    ghost var done: seq<Line> := [];
    for index := 0 to devices.Length
      invariant con.lines == start + done
      invariant done + Orphans(ds, index) == Orphans(ds, 0)
    {
      if !devices[index].printed {
        con.Print(Orphan(index));
        assert done + ([Orphan(index)] + Orphans(ds, index + 1)) == done + [Orphan(index)] + Orphans(ds, index + 1);
        done := done + [Orphan(index)];
      } else {
        assert [] + Orphans(ds, index + 1) == Orphans(ds, index + 1);
      }
    }
  }
}

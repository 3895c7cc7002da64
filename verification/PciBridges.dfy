// When the bus ranges make sense: AssignParents then finds the bridge a device is really
// behind, and no cycle is possible.  And what happens when they do not.
module PciBridges {
  import opened Bytes
  import opened PciTopology
  import opened Sequences
  import opened PciForest
  import opened PciDrawing
  import Sorting

  // A bridge whose range is not ignored.
  predicate Forwards(d: Device) {
    d.isBridge && d.secondary <= d.subordinate
  }

  predicate Disjoint(a: Device, b: Device) {
    a.subordinate < b.secondary || b.subordinate < a.secondary
  }

  predicate Inside(a: Device, b: Device) {
    b.secondary <= a.secondary && a.subordinate <= b.subordinate
  }

  predicate Compatible(a: Device, b: Device) {
    a.secondary != b.secondary && (Disjoint(a, b) || Inside(a, b) || Inside(b, a))
  }

  // Bus numbers as enumeration leaves them: below its own bus each bridge forwards a range
  // that starts with its own secondary bus, and ranges nest.
  predicate WellFormed(ds: seq<Device>) {
    && (forall i :: 0 <= i < |ds| && ds[i].isBridge ==> ds[i].bus < ds[i].secondary <= ds[i].subordinate)
    && (forall i, j :: 0 <= i < j < |ds| && ds[i].isBridge && ds[j].isBridge && ds[i].segment == ds[j].segment
          ==> Compatible(ds[i], ds[j]) && Compatible(ds[j], ds[i]))
  }

  // The bridge a device sits directly behind.
  predicate Behind(ds: seq<Device>, child: nat, bridge: nat)
    requires child < |ds|
  {
    bridge < |ds| && ds[bridge].isBridge && ds[bridge].segment == ds[child].segment
    && ds[bridge].secondary == ds[child].bus
  }

  // With well-formed bridges the parent is the one bridge whose secondary bus is the
  // device's bus, whenever there is one.
  lemma ParentIsBridgeBehind(ds: seq<Device>, child: nat, bridge: nat)
    requires WellFormed(ds) && ParentsAssigned(ds) && child < |ds| && Behind(ds, child, bridge)
    ensures ds[child].parent == Some(bridge)
    ensures forall b :: Behind(ds, child, b) ==> b == bridge
  {
    assert Nearest(ds, child, |ds|, ds[child].parent);
    assert Covers(ds, bridge, child);
    forall b: nat | Covers(ds, b, child) && b != bridge
      ensures Span(ds[bridge]) < Span(ds[b])
    {
      assert Compatible(ds[bridge], ds[b]) && !Disjoint(ds[bridge], ds[b]);
    }
  }

  // Bridges that only forward buses above their own.
  predicate Downward(ds: seq<Device>) {
    forall i :: 0 <= i < |ds| && Forwards(ds[i]) ==> ds[i].bus < ds[i].secondary
  }

  lemma AssignedIsLinked(ds: seq<Device>)
    requires ParentsAssigned(ds)
    ensures Linked(Parents(ds))
    ensures forall i :: 0 <= i < |ds| && ds[i].parent.Some? ==>
      ds[i].parent.value < |ds| && ds[ds[i].parent.value].segment == ds[i].segment
  {
    forall i | 0 <= i < |ds| && ds[i].parent.Some?
      ensures ds[i].parent.value < |ds| && Covers(ds, ds[i].parent.value, i)
    {
      assert Nearest(ds, i, |ds|, ds[i].parent);
    }
  }

  // Then every parent is on a lower bus: no cycles, every chain ends at a root within as
  // many steps as the bus number.
  lemma {:induction false} DownwardIsAcyclic(ds: seq<Device>, j: nat, bound: nat)
    requires Downward(ds) && ParentsAssigned(ds) && j < |ds| && ds[j].bus <= bound
    ensures Linked(Parents(ds))
    ensures RootDepth(Parents(ds), j, bound).Some?
    ensures ds[j].parent.Some? ==> ds[j].parent.value < |ds| && ds[ds[j].parent.value].bus < ds[j].bus
    decreases bound
  {
    AssignedIsLinked(ds);
    var p := Parents(ds);
    if p[j].Some? {
      var q := p[j].value;
      assert Nearest(ds, j, |ds|, ds[j].parent);
      assert Covers(ds, q, j) && Forwards(ds[q]);
      DownwardIsAcyclic(ds, q, bound - 1);
    }
  }

  // A device on a bus below 32 is then always in the tree.
  lemma ShallowBusIsDrawn(ds: seq<Device>, j: nat)
    requires Downward(ds) && ParentsAssigned(ds) && j < |ds| && ds[j].bus < MAX_DEPTH
    ensures Linked(Parents(ds)) && Depth(Parents(ds), j).Some?
  {
    DownwardIsAcyclic(ds, j, MAX_DEPTH - 1);
  }

  // Two bridges that were never given bus numbers claim bus 0 for each other: neither has
  // a root above it, so both end up in the orphan list.
  lemma UnconfiguredBridgesCycle(ds: seq<Device>)
    requires |ds| == 2 && ParentsAssigned(ds) && ds[0].segment == ds[1].segment
    requires forall i :: 0 <= i < 2 ==>
      ds[i].isBridge && ds[i].bus == 0 && ds[i].secondary == 0 && ds[i].subordinate == 0
    ensures ds[0].parent == Some(1) && ds[1].parent == Some(0)
    ensures Linked(Parents(ds)) && Depth(Parents(ds), 0).None? && Depth(Parents(ds), 1).None?
  {
    assert Nearest(ds, 0, 2, ds[0].parent) && Nearest(ds, 1, 2, ds[1].parent);
    assert Covers(ds, 1, 0) && Covers(ds, 0, 1);
    NoRoot(Parents(ds), 0, MAX_DEPTH - 1);
    NoRoot(Parents(ds), 1, MAX_DEPTH - 1);
  }

  // A chain that never meets a parentless device has no depth.
  lemma {:induction false} NoRoot(p: seq<Option<nat>>, j: nat, bound: nat)
    requires Linked(p) && j < |p| && forall i :: 0 <= i < |p| ==> p[i].Some?
    ensures RootDepth(p, j, bound).None?
    decreases bound
  {
    if bound > 0 {
      NoRoot(p, p[j].value, bound - 1);
    }
  }

  lemma SortKeepsUnprinted(ds: seq<Device>)
    requires forall i :: 0 <= i < |ds| ==> !ds[i].printed
    ensures forall i :: 0 <= i < |ds| ==> !Sorting.Sort(ds, DeviceLess)[i].printed
  {
    var sorted := Sorting.Sort(ds, DeviceLess);
    SortedListing(ds);
    forall i | 0 <= i < |ds|
      ensures sorted[i] in ds
    {
      assert sorted[i] in multiset(sorted);
    }
  }

  // The drawing does not depend on the printed marks.
  predicate SameShape(ds: seq<Device>, es: seq<Device>) {
    |ds| == |es| && forall i :: 0 <= i < |ds| ==> ds[i].parent == es[i].parent && ds[i].segment == es[i].segment
  }

  lemma {:induction false} SameLastRoot(ds: seq<Device>, es: seq<Device>, segment: nat, n: nat)
    requires SameShape(ds, es) && n <= |ds|
    ensures LastRootBefore(ds, segment, n) == LastRootBefore(es, segment, n)
  {
    if n > 0 {
      SameLastRoot(ds, es, segment, n - 1);
    }
  }

  lemma SameEntry(ds: seq<Device>, es: seq<Device>, from: nat, current: nat, lastRoot: Option<nat>)
    requires SameShape(ds, es) && from < |ds|
    ensures Entry(ds, from, current, lastRoot) == Entry(es, from, current, lastRoot)
    ensures RootMark(ds, from, current, lastRoot) == RootMark(es, from, current, lastRoot)
  {
    assert Parents(ds) == Parents(es);
    SameLastRoot(ds, es, ds[from].segment, |ds|);
  }

  lemma TreeUnfolds(ds: seq<Device>, from: nat, current: nat, lastRoot: Option<nat>)
    requires from < |ds|
    ensures Tree(ds, from, current, lastRoot) ==
            Entry(ds, from, current, lastRoot)
            + Tree(ds, from + 1, ds[from].segment, RootMark(ds, from, current, lastRoot))
  {
  }

  ghost predicate SameFrom(ds: seq<Device>, es: seq<Device>, from: nat, current: nat, lastRoot: Option<nat>)
    requires from <= |ds| == |es|
  {
    Tree(ds, from, current, lastRoot) == Tree(es, from, current, lastRoot)
  }

  lemma SameEntryTree(ds: seq<Device>, es: seq<Device>, from: nat, current: nat, lastRoot: Option<nat>)
    requires SameShape(ds, es) && from < |ds|
    requires SameFrom(ds, es, from + 1, ds[from].segment, RootMark(ds, from, current, lastRoot))
    ensures SameFrom(ds, es, from, current, lastRoot)
  {
    SameEntry(ds, es, from, current, lastRoot);
    TreeUnfolds(ds, from, current, lastRoot);
    TreeUnfolds(es, from, current, lastRoot);
  }

  lemma {:induction false} SameTree(ds: seq<Device>, es: seq<Device>, from: nat, current: nat, lastRoot: Option<nat>)
    requires SameShape(ds, es) && from <= |ds|
    ensures SameFrom(ds, es, from, current, lastRoot)
    decreases |ds| - from
  {
    if from < |ds| {
      SameTree(ds, es, from + 1, ds[from].segment, RootMark(ds, from, current, lastRoot));
      SameEntryTree(ds, es, from, current, lastRoot);
    }
  }

  lemma {:induction false} AtSamePlaces(
    ds: seq<Device>, es: seq<Device>, segment: nat, bus: nat, device: nat, fn: nat)
    requires SamePlaces(ds, es)
    ensures At(ds, segment, bus, device, fn) == At(es, segment, bus, device, fn)
  {
    if ds != [] {
      AtSamePlaces(ds[..|ds| - 1], es[..|es| - 1], segment, bus, device, fn);
    }
  }

  // Sorting and assigning parents lists the devices by location, those of one location in
  // the order they came in.
  lemma ListedInOrder(before: seq<Device>, ds: seq<Device>)
    requires SamePlaces(Sorting.Sort(before, DeviceLess), ds)
    ensures InLocationOrder(ds) && SameAtEachLocation(before, ds)
  {
    SortedListing(before);
    forall segment, bus, device, fn
      ensures At(before, segment, bus, device, fn) == At(ds, segment, bus, device, fn)
    {
      AtSamePlaces(Sorting.Sort(before, DeviceLess), ds, segment, bus, device, fn);
    }
  }

  // Sorted devices with assigned parents meet everything the drawing's properties ask for.
  lemma ReadyToDraw(before: seq<Device>, ds: seq<Device>)
    requires SamePlaces(Sorting.Sort(before, DeviceLess), ds) && ParentsAssigned(ds)
    ensures Linked(Parents(ds)) && ParentsInSegment(ds) && SortedBySegment(ds)
    ensures InLocationOrder(ds) && SameAtEachLocation(before, ds)
  {
    AssignedIsLinked(ds);
    ListedInOrder(before, ds);
  }

  lemma EveryDeviceOnce(ds: seq<Device>, es: seq<Device>)
    requires ParentsAssigned(ds) && forall i :: 0 <= i < |ds| ==> !ds[i].printed
    requires MarkedBy(ds, es, Tree(ds, 0, MAX_UINTN, None))
    ensures ParentsAssigned(es)
    ensures forall j :: 0 <= j < |ds| ==> CountOf(Tree(ds, 0, MAX_UINTN, None) + Orphans(es, 0), j) == 1
  {
    AssignedIsLinked(ds);
    forall j | 0 <= j < |ds|
      ensures CountOf(Tree(ds, 0, MAX_UINTN, None) + Orphans(es, 0), j) == 1
    {
      EachDeviceOnce(ds, es, j);
    }
    forall i | 0 <= i < |es|
      ensures Nearest(es, i, |es|, es[i].parent)
    {
      NearestSamePlaces(ds, es, i, |ds|, ds[i].parent);
    }
  }

  // What UefiMain does with the collected devices: sort, assign parents, print.
  method ShowTopology(con: Console, devices: array<Device>)
    requires forall i :: 0 <= i < devices.Length ==> !devices[i].printed
    modifies con, devices
    ensures SamePlaces(Sorting.Sort(old(devices[..]), DeviceLess), devices[..])
    ensures InLocationOrder(devices[..]) && SameAtEachLocation(old(devices[..]), devices[..])
    ensures ParentsAssigned(devices[..])
    ensures Linked(Parents(devices[..])) && ParentsInSegment(devices[..]) && SortedBySegment(devices[..])
    ensures con.lines == old(con.lines) + Tree(devices[..], 0, MAX_UINTN, None) + Orphans(devices[..], 0)
    ensures forall j :: 0 <= j < devices.Length ==> CountOf(con.lines[|old(con.lines)|..], j) == 1
  {
    ghost var start := con.lines;
    SortKeepsUnprinted(devices[..]);
    SortDevices(devices);
    ghost var sorted := devices[..];
    AssignParents(devices);
    ghost var ds := devices[..];
    PrintTopology(con, devices);
    ghost var tree, orphans := Tree(ds, 0, MAX_UINTN, None), Orphans(devices[..], 0);
    EveryDeviceOnce(ds, devices[..]);
    SameTree(ds, devices[..], 0, MAX_UINTN, None);
    ReadyToDraw(old(devices[..]), devices[..]);
    Assoc(start, tree, orphans);
    assert con.lines[|start|..] == tree + orphans;
  }
}

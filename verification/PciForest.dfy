// What PciTopology draws: every device once, the tree pass exactly those whose chain of
// parents ends at a root within the depth limit, whatever cycles the bus numbers make.
module PciForest {
  import opened Bytes
  import opened PciTopology

  // ---- Chains of parents.

  function Ancestor(p: seq<Option<nat>>, j: nat, d: nat): (a: Option<nat>)
    requires Linked(p) && j < |p|
    ensures a.Some? ==> a.value < |p|
    decreases d
  {
    if d == 0 then Some(j)
    else if p[j].None? then None
    else Ancestor(p, p[j].value, d - 1)
  }

  // The number of steps from j up to a root, if at most `bound` are enough.
  function RootDepth(p: seq<Option<nat>>, j: nat, bound: nat): (d: Option<nat>)
    requires Linked(p) && j < |p|
    ensures d.Some? ==> d.value <= bound
    decreases bound
  {
    if p[j].None? then Some(0)
    else if bound == 0 then None
    else
      match RootDepth(p, p[j].value, bound - 1)
      case None => None
      case Some(d) => Some(d + 1)
  }

  // Depth in the drawing; None on a cycle, hanging off one, or too deep.
  function Depth(p: seq<Option<nat>>, j: nat): (d: Option<nat>)
    requires Linked(p) && j < |p|
    ensures d.Some? ==> d.value < MAX_DEPTH
  {
    RootDepth(p, j, MAX_DEPTH - 1)
  }

  lemma {:induction false} MoreBound(p: seq<Option<nat>>, j: nat, bound: nat, more: nat)
    requires Linked(p) && j < |p| && RootDepth(p, j, bound).Some? && RootDepth(p, j, bound).value <= more
    ensures RootDepth(p, j, more) == RootDepth(p, j, bound)
    decreases bound
  {
    if p[j].Some? {
      MoreBound(p, p[j].value, bound - 1, more - 1);
    }
  }

  // RootDepth is what it says: the first d with a parentless d-th ancestor.
  lemma {:induction false} RootDepthExact(p: seq<Option<nat>>, j: nat, bound: nat, d: nat)
    requires Linked(p) && j < |p| && d <= bound
    ensures RootDepth(p, j, bound) == Some(d) <==> Ancestor(p, j, d).Some? && Ancestor(p, j, d + 1).None?
    decreases d
  {
    if p[j].Some? && d > 0 {
      RootDepthExact(p, p[j].value, bound - 1, d - 1);
    }
  }

  lemma {:induction false} AncestorStep(p: seq<Option<nat>>, j: nat, d: nat)
    requires Linked(p) && j < |p|
    ensures Ancestor(p, j, d + 1) == if Ancestor(p, j, d).None? then None else p[Ancestor(p, j, d).value]
    decreases d
  {
    if d > 0 && p[j].Some? {
      AncestorStep(p, p[j].value, d - 1);
    }
  }

  lemma {:induction false} DepthOfAncestor(p: seq<Option<nat>>, j: nat, d: nat)
    requires Linked(p) && j < |p| && Depth(p, j).Some? && d <= Depth(p, j).value
    ensures Ancestor(p, j, d).Some? && Depth(p, Ancestor(p, j, d).value) == Some(Depth(p, j).value - d)
    decreases d
  {
    if d > 0 {
      var q := p[j].value;
      MoreBound(p, q, MAX_DEPTH - 2, MAX_DEPTH - 1);
      DepthOfAncestor(p, q, d - 1);
    }
  }

  // ---- Every device once.

  function CountOf(lines: seq<Line>, j: nat): nat {
    if lines == [] then 0
    else (if Draws(lines[0], j) || lines[0] == Orphan(j) then 1 else 0) + CountOf(lines[1..], j)
  }

  lemma {:induction false} CountOfSum(a: seq<Line>, b: seq<Line>, j: nat)
    ensures CountOf(a + b, j) == CountOf(a, j) + CountOf(b, j)
  {
    if a == [] {
      assert a + b == b;
    } else {
      assert (a + b)[1..] == a[1..] + b;
      CountOfSum(a[1..], b, j);
    }
  }

  // j lies in the subtree of i, drawn at the given depth.
  predicate Under(p: seq<Option<nat>>, j: nat, i: nat, depth: nat)
    requires Linked(p) && j < |p|
  {
    Depth(p, j).Some? && depth <= Depth(p, j).value && Ancestor(p, j, Depth(p, j).value - depth) == Some(i)
  }

  // j lies in the subtree of a child of i at position `from` or later.
  predicate UnderChild(p: seq<Option<nat>>, j: nat, i: nat, depth: nat, from: nat)
    requires Linked(p) && j < |p|
  {
    && Depth(p, j).Some? && depth <= Depth(p, j).value
    && var c := Ancestor(p, j, Depth(p, j).value - depth);
       c.Some? && c.value >= from && p[c.value] == Some(i)
  }

  lemma UnderSplits(p: seq<Option<nat>>, j: nat, i: nat, depth: nat)
    requires Linked(p) && i < |p| && j < |p| && Depth(p, i) == Some(depth)
    ensures Under(p, j, i, depth) <==> j == i || UnderChild(p, j, i, depth + 1, 0)
    ensures UnderChild(p, j, i, depth + 1, 0) ==> j != i && HasChildFrom(p, i, 0)
  {
    if Depth(p, j).Some? && depth + 1 <= Depth(p, j).value {
      AncestorStep(p, j, Depth(p, j).value - depth - 1);
    }
  }

  lemma DepthOfChild(p: seq<Option<nat>>, c: nat, i: nat)
    requires Linked(p) && c < |p| && i < |p| && p[c] == Some(i)
    requires Depth(p, i).Some? && Depth(p, i).value + 1 < MAX_DEPTH
    ensures Depth(p, c) == Some(Depth(p, i).value + 1)
  {
    MoreBound(p, i, MAX_DEPTH - 1, MAX_DEPTH - 2);
  }

  lemma {:induction false} CountInSubtree(p: seq<Option<nat>>, i: nat, above: seq<bool>, isLast: bool, j: nat)
    requires Linked(p) && i < |p| && j < |p| && Depth(p, i) == Some(|above|)
    ensures CountOf(Subtree(p, i, above, isLast), j) == if Under(p, j, i, |above|) then 1 else 0
    decreases MAX_DEPTH - |above|, 0
  {
    UnderSplits(p, j, i, |above|);
    var first := [Branch(Columns(above), MarkOf(isLast), i)];
    if HasChildFrom(p, i, 0) {
      if |above| + 1 < MAX_DEPTH {
        CountInChildren(p, i, above + [isLast], 0, j);
        CountOfSum(first, Children(p, i, above + [isLast], 0), j);
      } else {
        CountOfSum(first, [DepthReached], j);
      }
    } else {
      assert Subtree(p, i, above, isLast) == first;
    }
  }

  lemma {:induction false} CountInChildren(p: seq<Option<nat>>, i: nat, above: seq<bool>, from: nat, j: nat)
    requires Linked(p) && i < |p| && j < |p| && from <= |p|
    requires 0 < |above| < MAX_DEPTH && Depth(p, i) == Some(|above| - 1)
    ensures CountOf(Children(p, i, above, from), j) == if UnderChild(p, j, i, |above|, from) then 1 else 0
    decreases MAX_DEPTH - |above|, |p| - from + 1
  {
    if from < |p| {
      var rest := Children(p, i, above, from + 1);
      CountInChildren(p, i, above, from + 1, j);
      if p[from] == Some(i) {
        var isLast := !HasChildFrom(p, i, from + 1);
        DepthOfChild(p, from, i);
        CountInSubtree(p, from, above, isLast, j);
        CountOfSum(Subtree(p, from, above, isLast), rest, j);
      } else {
        assert [] + rest == rest;
      }
    }
  }

  // The position of the root above j.
  function RootOf(p: seq<Option<nat>>, j: nat): (r: nat)
    requires Linked(p) && j < |p| && Depth(p, j).Some?
    ensures r < |p| && p[r].None?
  {
    DepthOfAncestor(p, j, Depth(p, j).value);
    Ancestor(p, j, Depth(p, j).value).value
  }

  lemma RootIsFrom(p: seq<Option<nat>>, j: nat, r: nat)
    requires Linked(p) && j < |p| && r < |p|
    ensures Under(p, j, r, 0) <==> Depth(p, j).Some? && RootOf(p, j) == r
  {
    if Depth(p, j).Some? {
      DepthOfAncestor(p, j, Depth(p, j).value);
    }
  }

  lemma CountInEntry(ds: seq<Device>, from: nat, current: nat, lastRoot: Option<nat>, j: nat)
    requires Linked(Parents(ds)) && from < |ds| && j < |ds|
    ensures
      var p := Parents(ds);
      CountOf(Entry(ds, from, current, lastRoot), j) == if Depth(p, j).Some? && RootOf(p, j) == from then 1 else 0
  {
    var p, d := Parents(ds), ds[from];
    var header := if d.segment != current then [Domain(d.segment)] else [];
    var last := RootMark(ds, from, current, lastRoot);
    var branch := if d.parent.None? then Subtree(p, from, [], last == Some(from)) else [];
    CountOfSum(header, branch, j);
    if d.parent.None? {
      CountInSubtree(p, from, [], last == Some(from), j);
      RootIsFrom(p, j, from);
    }
  }

  lemma {:induction false} CountInTree(ds: seq<Device>, from: nat, current: nat, lastRoot: Option<nat>, j: nat)
    requires Linked(Parents(ds)) && from <= |ds| && j < |ds|
    ensures
      var p := Parents(ds);
      CountOf(Tree(ds, from, current, lastRoot), j) == if Depth(p, j).Some? && RootOf(p, j) >= from then 1 else 0
    decreases |ds| - from
  {
    if from < |ds| {
      var last := RootMark(ds, from, current, lastRoot);
      CountInTree(ds, from + 1, ds[from].segment, last, j);
      CountInEntry(ds, from, current, lastRoot, j);
      CountOfSum(Entry(ds, from, current, lastRoot), Tree(ds, from + 1, ds[from].segment, last), j);
    }
  }

  lemma {:induction false} CountInOrphans(ds: seq<Device>, from: nat, j: nat)
    requires from <= |ds| && j < |ds|
    ensures CountOf(Orphans(ds, from), j) == if from <= j && !ds[j].printed then 1 else 0
    decreases |ds| - from
  {
    if from < |ds| {
      CountInOrphans(ds, from + 1, j);
      CountOfSum(if ds[from].printed then [] else [Orphan(from)], Orphans(ds, from + 1), j);
    }
  }

  lemma {:induction false} DrawnMeansCounted(lines: seq<Line>, j: nat)
    requires forall k :: 0 <= k < |lines| ==> !lines[k].Orphan?
    ensures Drawn(lines, j) <==> CountOf(lines, j) > 0
  {
    if lines != [] {
      DrawnMeansCounted(lines[1..], j);
      if Drawn(lines[1..], j) {
        var k :| 0 <= k < |lines[1..]| && Draws(lines[1..][k], j);
        assert Draws(lines[k + 1], j);
      }
      if Drawn(lines, j) && !Draws(lines[0], j) {
        var k :| 0 <= k < |lines| && Draws(lines[k], j);
        assert Draws(lines[1..][k - 1], j);
      }
    }
  }

  predicate NoOrphans(lines: seq<Line>) {
    forall k :: 0 <= k < |lines| ==> !lines[k].Orphan?
  }

  lemma {:induction false} SubtreeHasNoOrphans(p: seq<Option<nat>>, i: nat, above: seq<bool>, isLast: bool)
    requires |above| < MAX_DEPTH
    ensures NoOrphans(Subtree(p, i, above, isLast))
    decreases MAX_DEPTH - |above|, 0
  {
    if HasChildFrom(p, i, 0) && |above| + 1 < MAX_DEPTH {
      ChildrenHaveNoOrphans(p, i, above + [isLast], 0);
    }
  }

  lemma {:induction false} ChildrenHaveNoOrphans(p: seq<Option<nat>>, i: nat, above: seq<bool>, from: nat)
    requires |above| < MAX_DEPTH && from <= |p|
    ensures NoOrphans(Children(p, i, above, from))
    decreases MAX_DEPTH - |above|, |p| - from + 1
  {
    if from < |p| {
      ChildrenHaveNoOrphans(p, i, above, from + 1);
      if p[from] == Some(i) {
        SubtreeHasNoOrphans(p, from, above, !HasChildFrom(p, i, from + 1));
      }
    }
  }

  lemma {:induction false} TreeHasNoOrphans(ds: seq<Device>, from: nat, current: nat, lastRoot: Option<nat>)
    requires from <= |ds|
    ensures NoOrphans(Tree(ds, from, current, lastRoot))
    decreases |ds| - from
  {
    if from < |ds| {
      var d := ds[from];
      var last := RootMark(ds, from, current, lastRoot);
      TreeHasNoOrphans(ds, from + 1, d.segment, last);
      if d.parent.None? {
        SubtreeHasNoOrphans(Parents(ds), from, [], last == Some(from));
      }
    }
  }

  // For every configuration, cyclic ones included: each device has exactly one line, in
  // the tree exactly when a root is at most 31 steps up, in the orphan list otherwise.
  lemma EachDeviceOnce(ds: seq<Device>, es: seq<Device>, j: nat)
    requires Linked(Parents(ds)) && j < |ds|
    requires forall i :: 0 <= i < |ds| ==> !ds[i].printed
    requires MarkedBy(ds, es, Tree(ds, 0, MAX_UINTN, None))
    ensures
      var tree, orphans := Tree(ds, 0, MAX_UINTN, None), Orphans(es, 0);
      && CountOf(tree + orphans, j) == 1
      && (CountOf(tree, j) == 1 <==> Depth(Parents(ds), j).Some?)
      && (CountOf(orphans, j) == 1 <==> Depth(Parents(ds), j).None?)
  {
    var tree := Tree(ds, 0, MAX_UINTN, None);
    CountInTree(ds, 0, MAX_UINTN, None, j);
    TreeHasNoOrphans(ds, 0, MAX_UINTN, None);
    DrawnMeansCounted(tree, j);
    CountInOrphans(es, 0, j);
    CountOfSum(tree, Orphans(es, 0), j);
  }
}

// The drawing of PciTopology lists siblings in order, so the corner marks the final line of
// each group of siblings.
module PciSiblings {
  import opened Bytes
  import opened PciTopology
  import opened PciForest
  import opened PciDrawing

  // A line of x comes before a line of y.
  predicate Precedes(lines: seq<Line>, x: nat, y: nat) {
    && lines != []
    && ((Draws(lines[0], x) && CountOf(lines[1..], y) > 0) || Precedes(lines[1..], x, y))
  }

  lemma {:induction false} PrecedesInSum(a: seq<Line>, b: seq<Line>, x: nat, y: nat)
    ensures
      Precedes(a + b, x, y) ==> Precedes(a, x, y) || Precedes(b, x, y) || (CountOf(a, x) > 0 && CountOf(b, y) > 0)
  {
    if a == [] {
      assert a + b == b;
    } else {
      assert (a + b)[1..] == a[1..] + b;
      PrecedesInSum(a[1..], b, x, y);
      CountOfSum(a[1..], b, y);
    }
  }

  lemma {:induction false} DrawnIsCounted(lines: seq<Line>, k: nat)
    requires k < |lines| && lines[k].Branch?
    ensures CountOf(lines, lines[k].index) > 0
  {
    if k > 0 {
      DrawnIsCounted(lines[1..], k - 1);
    }
  }

  lemma {:induction false} EarlierPrecedes(lines: seq<Line>, k: nat, m: nat)
    requires k < m < |lines| && lines[k].Branch? && lines[m].Branch?
    ensures Precedes(lines, lines[k].index, lines[m].index)
  {
    if k > 0 {
      EarlierPrecedes(lines[1..], k - 1, m - 1);
    } else {
      DrawnIsCounted(lines[1..], m - 1);
    }
  }

  // ---- Where devices with one parent can be.

  lemma SameDepth(p: seq<Option<nat>>, x: nat, y: nat)
    requires Linked(p) && x < |p| && y < |p| && p[x] == p[y]
    ensures Depth(p, x) == Depth(p, y)
    ensures forall d: nat :: d > 0 ==> Ancestor(p, x, d) == Ancestor(p, y, d)
  {
  }

  // In the subtrees of different children of one device, only those children themselves.
  lemma AcrossChildren(p: seq<Option<nat>>, x: nat, y: nat, i: nat, depth: nat, from: nat)
    requires Linked(p) && y <= x < |p| && p[x] == p[y]
    ensures !(Under(p, x, from, depth) && UnderChild(p, y, i, depth, from + 1))
  {
    if Under(p, x, from, depth) {
      SameDepth(p, x, y);
    }
  }

  // In the trees of different roots, only those roots.
  lemma AcrossRoots(p: seq<Option<nat>>, x: nat, y: nat, from: nat)
    requires Linked(p) && y <= x < |p| && p[x] == p[y]
    ensures !(Depth(p, x).Some? && RootOf(p, x) == from && Depth(p, y).Some? && RootOf(p, y) > from)
  {
    if Depth(p, x).Some? {
      SameDepth(p, x, y);
    }
  }

  // A device and those below it never.
  lemma NotBelowItself(p: seq<Option<nat>>, i: nat, y: nat, depth: nat)
    requires Linked(p) && i < |p| && y < |p| && Depth(p, i) == Some(depth) && p[y] == p[i]
    ensures !UnderChild(p, y, i, depth + 1, 0)
  {
    SameDepth(p, i, y);
  }

  // ---- Of two devices with one parent, the later in the listing is never drawn first.

  lemma {:induction false} SubtreeOrder(p: seq<Option<nat>>, i: nat, above: seq<bool>, isLast: bool, x: nat, y: nat)
    requires Linked(p) && i < |p| && Depth(p, i) == Some(|above|)
    requires y <= x < |p| && p[x] == p[y]
    ensures !Precedes(Subtree(p, i, above, isLast), x, y)
    decreases MAX_DEPTH - |above|, 0
  {
    var first := [Branch(Columns(above), MarkOf(isLast), i)];
    if HasChildFrom(p, i, 0) {
      if |above| + 1 < MAX_DEPTH {
        var rest := Children(p, i, above + [isLast], 0);
        ChildrenOrder(p, i, above + [isLast], 0, x, y);
        CountInChildren(p, i, above + [isLast], 0, y);
        if x == i {
          NotBelowItself(p, i, y, |above|);
        }
        PrecedesInSum(first, rest, x, y);
      } else {
        assert CountOf([DepthReached], y) == CountOf([], y) == 0;
        PrecedesInSum(first, [DepthReached], x, y);
      }
    } else {
      assert Subtree(p, i, above, isLast) == first;
    }
  }

  lemma {:induction false} ChildrenOrder(p: seq<Option<nat>>, i: nat, above: seq<bool>, from: nat, x: nat, y: nat)
    requires Linked(p) && i < |p| && from <= |p|
    requires 0 < |above| < MAX_DEPTH && Depth(p, i) == Some(|above| - 1)
    requires y <= x < |p| && p[x] == p[y]
    ensures !Precedes(Children(p, i, above, from), x, y)
    decreases MAX_DEPTH - |above|, |p| - from + 1
  {
    if from < |p| {
      var rest := Children(p, i, above, from + 1);
      ChildrenOrder(p, i, above, from + 1, x, y);
      if p[from] == Some(i) {
        var isLast := !HasChildFrom(p, i, from + 1);
        DepthOfChild(p, from, i);
        SubtreeOrder(p, from, above, isLast, x, y);
        CountInSubtree(p, from, above, isLast, x);
        CountInChildren(p, i, above, from + 1, y);
        AcrossChildren(p, x, y, i, |above|, from);
        PrecedesInSum(Subtree(p, from, above, isLast), rest, x, y);
      } else {
        assert [] + rest == rest;
      }
    }
  }

  lemma EntryOrder(ds: seq<Device>, from: nat, current: nat, lastRoot: Option<nat>, x: nat, y: nat)
    requires Linked(Parents(ds)) && from < |ds|
    requires y <= x < |ds| && Parents(ds)[x] == Parents(ds)[y]
    ensures !Precedes(Entry(ds, from, current, lastRoot), x, y)
  {
    var p, d := Parents(ds), ds[from];
    var isLast := RootMark(ds, from, current, lastRoot) == Some(from);
    var header := if d.segment != current then [Domain(d.segment)] else [];
    PrecedesInSum(header, if d.parent.None? then Subtree(p, from, [], isLast) else [], x, y);
    if d.parent.None? {
      SubtreeOrder(p, from, [], isLast, x, y);
    }
  }

  lemma EntryApart(
      ds: seq<Device>, from: nat, current: nat, lastRoot: Option<nat>, next: Option<nat>, x: nat, y: nat)
    requires Linked(Parents(ds)) && from < |ds|
    requires y <= x < |ds| && Parents(ds)[x] == Parents(ds)[y]
    ensures
      || CountOf(Entry(ds, from, current, lastRoot), x) == 0
      || CountOf(Tree(ds, from + 1, ds[from].segment, next), y) == 0
  {
    CountInEntry(ds, from, current, lastRoot, x);
    CountInTree(ds, from + 1, ds[from].segment, next, y);
    AcrossRoots(Parents(ds), x, y, from);
  }

  lemma {:induction false} TreeOrder(ds: seq<Device>, from: nat, current: nat, lastRoot: Option<nat>, x: nat, y: nat)
    requires Linked(Parents(ds)) && from <= |ds|
    requires y <= x < |ds| && Parents(ds)[x] == Parents(ds)[y]
    ensures !Precedes(Tree(ds, from, current, lastRoot), x, y)
    decreases |ds| - from
  {
    if from < |ds| {
      var last := RootMark(ds, from, current, lastRoot);
      var entry, rest := Entry(ds, from, current, lastRoot), Tree(ds, from + 1, ds[from].segment, last);
      EntryOrder(ds, from, current, lastRoot, x, y);
      TreeOrder(ds, from + 1, ds[from].segment, last, x, y);
      EntryApart(ds, from, current, lastRoot, last, x, y);
      PrecedesInSum(entry, rest, x, y);
    }
  }

  // Of two siblings in the drawing, the one on the earlier line is earlier in the listing.
  lemma SiblingsInOrder(ds: seq<Device>, k: nat, m: nat)
    requires Linked(Parents(ds)) && RealSegments(ds)
    requires k < m < |Tree(ds, 0, MAX_UINTN, None)|
    requires Tree(ds, 0, MAX_UINTN, None)[k].Branch? && Tree(ds, 0, MAX_UINTN, None)[m].Branch?
    ensures
      var a, b := Tree(ds, 0, MAX_UINTN, None)[k].index, Tree(ds, 0, MAX_UINTN, None)[m].index;
      && a < |ds| && b < |ds|
      && (Siblings(ds, a, b) ==> a < b)
  {
    ColumnsReadBack(ds, k, 0);
    ColumnsReadBack(ds, m, 0);
    var lines := Tree(ds, 0, MAX_UINTN, None);
    EarlierPrecedes(lines, k, m);
    if Siblings(ds, lines[k].index, lines[m].index) && lines[m].index <= lines[k].index {
      TreeOrder(ds, 0, MAX_UINTN, None, lines[k].index, lines[m].index);
    }
  }

  // A later line of the drawing that has a sibling of the device on line k.
  predicate SiblingBelow(ds: seq<Device>, lines: seq<Line>, k: nat, m: nat)
    requires k < |lines| && lines[k].Branch? && lines[k].index < |ds|
  {
    k < m < |lines| && lines[m].Branch? && lines[m].index < |ds| && Siblings(ds, lines[k].index, lines[m].index)
  }

  // The corner is on exactly the final line of each group of siblings.
  lemma CornerReadsBack(ds: seq<Device>, k: nat)
    requires Linked(Parents(ds)) && RealSegments(ds)
    requires k < |Tree(ds, 0, MAX_UINTN, None)| && Tree(ds, 0, MAX_UINTN, None)[k].Branch?
    ensures
      var lines := Tree(ds, 0, MAX_UINTN, None);
      && lines[k].index < |ds|
      && (lines[k].mark == Corner <==> !exists m: nat :: SiblingBelow(ds, lines, k, m))
  {
    var lines := Tree(ds, 0, MAX_UINTN, None);
    var j := lines[k].index;
    ColumnsReadBack(ds, k, 0);
    forall m: nat | SiblingBelow(ds, lines, k, m)
      ensures !LastSibling(ds, j)
    {
      SiblingsInOrder(ds, k, m);
    }
    if !LastSibling(ds, j) {
      var c :| j < c < |ds| && Siblings(ds, j, c);
      var m := LineOf(ds, j, c);
      if m < k {
        SiblingsInOrder(ds, m, k);
      }
      assert SiblingBelow(ds, lines, k, m);
    }
  }

  // A sibling of a drawn device is drawn.
  lemma LineOf(ds: seq<Device>, j: nat, c: nat) returns (m: nat)
    requires Linked(Parents(ds)) && j < |ds| && c < |ds| && Siblings(ds, j, c) && Depth(Parents(ds), j).Some?
    ensures m < |Tree(ds, 0, MAX_UINTN, None)| && Draws(Tree(ds, 0, MAX_UINTN, None)[m], c)
  {
    var lines := Tree(ds, 0, MAX_UINTN, None);
    SameDepth(Parents(ds), j, c);
    CountInTree(ds, 0, MAX_UINTN, None, c);
    TreeHasNoOrphans(ds, 0, MAX_UINTN, None);
    DrawnMeansCounted(lines, c);
    m :| 0 <= m < |lines| && Draws(lines[m], c);
  }
}

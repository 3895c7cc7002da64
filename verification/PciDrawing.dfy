// The drawing PciTopology prints can be read back: depth, parent and place among the
// siblings of every device, and the segment it belongs to.
module PciDrawing {
  import opened Bytes
  import opened PciTopology
  import opened Sequences
  import opened PciForest

  // ---- Parents.

  // The device on the nearest line before line k that is drawn at the given depth.
  function NearestAbove(lines: seq<Line>, k: nat, depth: nat): Option<nat>
    requires k <= |lines|
  {
    if k == 0 then None
    else if lines[k - 1].Branch? && |lines[k - 1].columns| == depth then Some(lines[k - 1].index)
    else NearestAbove(lines, k - 1, depth)
  }

  // Reading the parent off the drawing.
  function ReadParent(lines: seq<Line>, k: nat): Option<nat>
    requires k < |lines| && lines[k].Branch?
  {
    if lines[k].columns == [] then None else NearestAbove(lines, k, |lines[k].columns| - 1)
  }

  // Lines at depth `base` hang off `owner`; the parents of deeper ones are among the lines.
  predicate Nested(p: seq<Option<nat>>, lines: seq<Line>, base: nat, owner: Option<nat>) {
    forall k {:trigger NestedAt(p, lines, base, owner, k)} ::
      0 <= k < |lines| && lines[k].Branch? ==> NestedAt(p, lines, base, owner, k)
  }

  predicate NestedAt(p: seq<Option<nat>>, lines: seq<Line>, base: nat, owner: Option<nat>, k: nat)
    requires k < |lines| && lines[k].Branch?
  {
    var l := lines[k];
    && l.index < |p| && |l.columns| >= base
    && (|l.columns| == base ==> p[l.index] == owner)
    && (|l.columns| > base ==> NearestAbove(lines, k, |l.columns| - 1) == p[l.index] && p[l.index].Some?)
  }

  lemma {:induction false} NearestInFront(a: seq<Line>, b: seq<Line>, k: nat, depth: nat)
    requires k <= |a|
    ensures NearestAbove(a + b, k, depth) == NearestAbove(a, k, depth)
  {
    if k > 0 {
      NearestInFront(a, b, k - 1, depth);
    }
  }

  lemma {:induction false} NearestBehind(a: seq<Line>, b: seq<Line>, k: nat, depth: nat)
    requires k <= |b|
    ensures NearestAbove(a + b, |a| + k, depth) ==
            if NearestAbove(b, k, depth).Some? then NearestAbove(b, k, depth) else NearestAbove(a, |a|, depth)
  {
    if k == 0 {
      NearestInFront(a, b, |a|, depth);
    } else {
      assert (a + b)[|a| + k - 1] == b[k - 1];
      NearestBehind(a, b, k - 1, depth);
    }
  }

  lemma NestedSum(p: seq<Option<nat>>, a: seq<Line>, b: seq<Line>, base: nat, owner: Option<nat>)
    requires Nested(p, a, base, owner) && Nested(p, b, base, owner)
    ensures Nested(p, a + b, base, owner)
  {
    var c := a + b;
    forall k | 0 <= k < |c| && c[k].Branch?
      ensures NestedAt(p, c, base, owner, k)
    {
      if k < |a| {
        assert NestedAt(p, a, base, owner, k);
        if |c[k].columns| > base {
          NearestInFront(a, b, k, |c[k].columns| - 1);
        }
      } else {
        assert NestedAt(p, b, base, owner, k - |a|);
        if |c[k].columns| > base {
          NearestBehind(a, b, k - |a|, |c[k].columns| - 1);
        }
      }
    }
  }

  lemma {:induction false} NoneAbove(p: seq<Option<nat>>, lines: seq<Line>, base: nat, owner: Option<nat>, k: nat,
      depth: nat)
    requires Nested(p, lines, base, owner) && depth < base && k <= |lines|
    ensures NearestAbove(lines, k, depth).None?
  {
    if k > 0 {
      assert lines[k - 1].Branch? ==> NestedAt(p, lines, base, owner, k - 1);
      NoneAbove(p, lines, base, owner, k - 1, depth);
    }
  }

  // A device line, then the lines of its children.
  lemma NestedBelow(p: seq<Option<nat>>, first: Line, lines: seq<Line>)
    requires first.Branch? && first.index < |p|
    requires Nested(p, lines, |first.columns| + 1, Some(first.index))
    ensures Nested(p, [first] + lines, |first.columns|, p[first.index])
  {
    var base, owner := |first.columns|, p[first.index];
    var c := [first] + lines;
    forall k | 0 <= k < |c| && c[k].Branch?
      ensures NestedAt(p, c, base, owner, k)
    {
      if k > 0 {
        var m := |c[k].columns|;
        assert c[k] == lines[k - 1];
        assert NestedAt(p, lines, base + 1, Some(first.index), k - 1);
        NearestBehind([first], lines, k - 1, m - 1);
        if m == base + 1 {
          NoneAbove(p, lines, base + 1, Some(first.index), k - 1, base);
          assert NearestAbove([first], 1, base) == Some(first.index);
        }
      }
    }
  }

  lemma {:induction false} SubtreeNested(p: seq<Option<nat>>, i: nat, above: seq<bool>, isLast: bool)
    requires i < |p| && |above| < MAX_DEPTH
    ensures Nested(p, Subtree(p, i, above, isLast), |above|, p[i])
    decreases MAX_DEPTH - |above|, 0
  {
    var first := Branch(Columns(above), MarkOf(isLast), i);
    if HasChildFrom(p, i, 0) {
      if |above| + 1 < MAX_DEPTH {
        ChildrenNested(p, i, above + [isLast], 0);
        NestedBelow(p, first, Children(p, i, above + [isLast], 0));
      } else {
        NestedBelow(p, first, [DepthReached]);
      }
    } else {
      NestedBelow(p, first, []);
      assert Subtree(p, i, above, isLast) == [first] + [];
    }
  }

  lemma {:induction false} ChildrenNested(p: seq<Option<nat>>, i: nat, above: seq<bool>, from: nat)
    requires 0 < |above| < MAX_DEPTH && from <= |p|
    ensures Nested(p, Children(p, i, above, from), |above|, Some(i))
    decreases MAX_DEPTH - |above|, |p| - from + 1
  {
    if from < |p| {
      var rest := Children(p, i, above, from + 1);
      ChildrenNested(p, i, above, from + 1);
      if p[from] == Some(i) {
        var isLast := !HasChildFrom(p, i, from + 1);
        SubtreeNested(p, from, above, isLast);
        NestedSum(p, Subtree(p, from, above, isLast), rest, |above|, Some(i));
      } else {
        assert [] + rest == rest;
      }
    }
  }

  lemma EntryNested(ds: seq<Device>, from: nat, current: nat, lastRoot: Option<nat>)
    requires from < |ds|
    ensures Nested(Parents(ds), Entry(ds, from, current, lastRoot), 0, None)
  {
    var p, d := Parents(ds), ds[from];
    var isLast := RootMark(ds, from, current, lastRoot) == Some(from);
    var header := if d.segment != current then [Domain(d.segment)] else [];
    if d.parent.None? {
      SubtreeNested(p, from, [], isLast);
      NestedSum(p, header, Subtree(p, from, [], isLast), 0, None);
    } else {
      assert header + [] == header;
    }
  }

  lemma {:induction false} TreeNested(ds: seq<Device>, from: nat, current: nat, lastRoot: Option<nat>)
    requires from <= |ds|
    ensures Nested(Parents(ds), Tree(ds, from, current, lastRoot), 0, None)
    decreases |ds| - from
  {
    if from < |ds| {
      var last := RootMark(ds, from, current, lastRoot);
      var entry, rest := Entry(ds, from, current, lastRoot), Tree(ds, from + 1, ds[from].segment, last);
      assert Tree(ds, from, current, lastRoot) == entry + rest;
      EntryNested(ds, from, current, lastRoot);
      TreeNested(ds, from + 1, ds[from].segment, last);
      NestedSum(Parents(ds), entry, rest, 0, None);
    }
  }

  // The drawing is invertible: the parent of every drawn device is the device on the
  // nearest line above that is one level up.
  lemma ParentsReadBack(ds: seq<Device>, k: nat)
    requires k < |Tree(ds, 0, MAX_UINTN, None)| && Tree(ds, 0, MAX_UINTN, None)[k].Branch?
    ensures
      var lines := Tree(ds, 0, MAX_UINTN, None);
      lines[k].index < |ds| && ds[lines[k].index].parent == ReadParent(lines, k)
  {
    TreeNested(ds, 0, MAX_UINTN, None);
    assert NestedAt(Parents(ds), Tree(ds, 0, MAX_UINTN, None), 0, None, k);
  }

  // ---- Columns and corners.

  predicate Siblings(ds: seq<Device>, a: nat, b: nat)
    requires a < |ds| && b < |ds|
  {
    ds[a].parent == ds[b].parent && (ds[a].parent.None? ==> ds[a].segment == ds[b].segment)
  }

  predicate LastSibling(ds: seq<Device>, j: nat)
    requires j < |ds|
  {
    forall c :: j < c < |ds| ==> !Siblings(ds, j, c)
  }

  // For j at depth d: is each of its ancestors, from the root down, a last sibling?
  function Path(ds: seq<Device>, j: nat, d: nat): (path: seq<bool>)
    requires Linked(Parents(ds)) && j < |ds|
    ensures |path| <= d
    decreases d
  {
    if d == 0 || ds[j].parent.None? then []
    else
      assert Parents(ds)[j] == ds[j].parent;
      Path(ds, ds[j].parent.value, d - 1) + [LastSibling(ds, ds[j].parent.value)]
  }

  lemma {:induction false} PathAt(ds: seq<Device>, j: nat, d: nat, i: nat)
    requires Linked(Parents(ds)) && j < |ds| && Depth(Parents(ds), j) == Some(d) && i < d
    ensures |Path(ds, j, d)| == d
    ensures Ancestor(Parents(ds), j, d - i).Some?
    ensures Path(ds, j, d)[i] == LastSibling(ds, Ancestor(Parents(ds), j, d - i).value)
    decreases d
  {
    var p := Parents(ds);
    var q := p[j].value;
    MoreBound(p, q, MAX_DEPTH - 2, MAX_DEPTH - 1);
    if i < d - 1 {
      PathAt(ds, q, d - 1, i);
    } else if d > 1 {
      PathAt(ds, q, d - 1, 0);
    }
    assert Ancestor(p, q, 0) == Some(q);
  }

  // A line whose columns and mark tell the truth about its device.
  predicate Truthful(ds: seq<Device>, l: Line)
    requires Linked(Parents(ds)) && l.Branch?
  {
    && l.index < |ds| && Depth(Parents(ds), l.index) == Some(|l.columns|)
    && l.columns == Columns(Path(ds, l.index, |l.columns|))
    && l.mark == MarkOf(LastSibling(ds, l.index))
  }

  predicate AllTruthful(ds: seq<Device>, lines: seq<Line>)
    requires Linked(Parents(ds))
  {
    forall k :: 0 <= k < |lines| && lines[k].Branch? ==> Truthful(ds, lines[k])
  }

  lemma LastChildIsLastSibling(ds: seq<Device>, c: nat, i: nat)
    requires c < |ds| && ds[c].parent == Some(i)
    ensures LastSibling(ds, c) == !HasChildFrom(Parents(ds), i, c + 1)
  {
    if HasChildFrom(Parents(ds), i, c + 1) {
      var e :| c < e < |ds| && Parents(ds)[e] == Some(i);
      assert Siblings(ds, c, e);
    }
    if !LastSibling(ds, c) {
      var e :| c < e < |ds| && Siblings(ds, c, e);
      assert Parents(ds)[e] == Some(i);
    }
  }

  lemma LastRootIsLastSibling(ds: seq<Device>, r: nat)
    requires r < |ds| && ds[r].parent.None?
    ensures LastSibling(ds, r) == (LastRoot(ds, ds[r].segment) == Some(r))
  {
    var last := LastRoot(ds, ds[r].segment);
    assert IsLastRoot(ds, ds[r].segment, |ds|, last);
    assert last.Some? && last.value > r ==> Siblings(ds, r, last.value);
  }

  lemma {:induction false} SubtreeTruthful(ds: seq<Device>, i: nat, above: seq<bool>, isLast: bool)
    requires Linked(Parents(ds)) && i < |ds| && Depth(Parents(ds), i) == Some(|above|)
    requires above == Path(ds, i, |above|) && isLast == LastSibling(ds, i)
    ensures AllTruthful(ds, Subtree(Parents(ds), i, above, isLast))
    decreases MAX_DEPTH - |above|, 0
  {
    var p := Parents(ds);
    if HasChildFrom(p, i, 0) && |above| + 1 < MAX_DEPTH {
      ChildrenTruthful(ds, i, above, 0);
    }
  }

  lemma {:induction false} ChildrenTruthful(ds: seq<Device>, i: nat, above: seq<bool>, from: nat)
    requires Linked(Parents(ds)) && i < |ds| && from <= |ds|
    requires Depth(Parents(ds), i) == Some(|above|) && |above| + 1 < MAX_DEPTH
    requires above == Path(ds, i, |above|)
    ensures AllTruthful(ds, Children(Parents(ds), i, above + [LastSibling(ds, i)], from))
    decreases MAX_DEPTH - |above| - 1, |ds| - from + 1
  {
    var p := Parents(ds);
    if from < |ds| {
      ChildrenTruthful(ds, i, above, from + 1);
      if p[from] == Some(i) {
        DepthOfChild(p, from, i);
        LastChildIsLastSibling(ds, from, i);
        SubtreeTruthful(ds, from, above + [LastSibling(ds, i)], !HasChildFrom(p, i, from + 1));
      }
    }
  }

  predicate RealSegments(ds: seq<Device>) {
    forall i :: 0 <= i < |ds| ==> ds[i].segment < MAX_UINTN
  }

  lemma TruthfulSum(ds: seq<Device>, a: seq<Line>, b: seq<Line>)
    requires Linked(Parents(ds)) && AllTruthful(ds, a) && AllTruthful(ds, b)
    ensures AllTruthful(ds, a + b)
  {
  }

  lemma EntryTruthful(ds: seq<Device>, from: nat, current: nat, lastRoot: Option<nat>)
    requires Linked(Parents(ds)) && RealSegments(ds) && from < |ds|
    requires current == MAX_UINTN || lastRoot == LastRoot(ds, current)
    ensures AllTruthful(ds, Entry(ds, from, current, lastRoot))
    ensures RootMark(ds, from, current, lastRoot) == LastRoot(ds, ds[from].segment)
  {
    var isLast := RootMark(ds, from, current, lastRoot) == Some(from);
    var header := if ds[from].segment != current then [Domain(ds[from].segment)] else [];
    if ds[from].parent.None? {
      LastRootIsLastSibling(ds, from);
      SubtreeTruthful(ds, from, [], isLast);
      TruthfulSum(ds, header, Subtree(Parents(ds), from, [], isLast));
    }
  }

  lemma {:induction false} TreeTruthful(ds: seq<Device>, from: nat, current: nat, lastRoot: Option<nat>)
    requires Linked(Parents(ds)) && RealSegments(ds) && from <= |ds|
    requires current == MAX_UINTN || lastRoot == LastRoot(ds, current)
    ensures AllTruthful(ds, Tree(ds, from, current, lastRoot))
    decreases |ds| - from
  {
    if from < |ds| {
      var last := RootMark(ds, from, current, lastRoot);
      EntryTruthful(ds, from, current, lastRoot);
      TreeTruthful(ds, from + 1, ds[from].segment, last);
      TruthfulSum(ds, Entry(ds, from, current, lastRoot), Tree(ds, from + 1, ds[from].segment, last));
    }
  }

  // Depth, columns and corners of the drawing, in plain terms.
  lemma ColumnsReadBack(ds: seq<Device>, k: nat, i: nat)
    requires Linked(Parents(ds)) && RealSegments(ds)
    requires k < |Tree(ds, 0, MAX_UINTN, None)| && Tree(ds, 0, MAX_UINTN, None)[k].Branch?
    ensures
      var p, l := Parents(ds), Tree(ds, 0, MAX_UINTN, None)[k];
      var d := |l.columns|;
      && l.index < |ds| && Depth(p, l.index) == Some(d)
      && (l.mark == Corner <==> LastSibling(ds, l.index))
      && (i < d ==>
            && Ancestor(p, l.index, d - i).Some?
            && (l.columns[i] == Blank <==> LastSibling(ds, Ancestor(p, l.index, d - i).value)))
  {
    TreeTruthful(ds, 0, MAX_UINTN, None);
    var l := Tree(ds, 0, MAX_UINTN, None)[k];
    assert Truthful(ds, l);
    if i < |l.columns| {
      PathAt(ds, l.index, |l.columns|, i);
    }
  }

  // ---- Headers.

  predicate SortedBySegment(ds: seq<Device>) {
    forall i, j :: 0 <= i < j < |ds| ==> ds[i].segment <= ds[j].segment
  }

  predicate ParentsInSegment(ds: seq<Device>) {
    forall i :: 0 <= i < |ds| && ds[i].parent.Some? ==>
      ds[i].parent.value < |ds| && ds[ds[i].parent.value].segment == ds[i].segment
  }

  // The segment of the last header, or the one we came from.
  function HeaderAfter(lines: seq<Line>, current: nat): nat {
    if lines == [] then current
    else HeaderAfter(lines[1..], if lines[0].Domain? then lines[0].segment else current)
  }

  // Every device line stands under the header of its own segment.
  predicate Filed(ds: seq<Device>, lines: seq<Line>, current: nat) {
    lines == [] ||
    (&& (lines[0].Branch? ==> lines[0].index < |ds| && ds[lines[0].index].segment == current)
     && Filed(ds, lines[1..], if lines[0].Domain? then lines[0].segment else current))
  }

  function Headers(lines: seq<Line>): seq<nat> {
    if lines == [] then []
    else (if lines[0].Domain? then [lines[0].segment] else []) + Headers(lines[1..])
  }

  lemma {:induction false} FiledSum(ds: seq<Device>, a: seq<Line>, b: seq<Line>, current: nat)
    requires Filed(ds, a, current) && Filed(ds, b, HeaderAfter(a, current))
    ensures Filed(ds, a + b, current) && Headers(a + b) == Headers(a) + Headers(b)
    ensures HeaderAfter(a + b, current) == HeaderAfter(b, HeaderAfter(a, current))
  {
    if a == [] {
      assert a + b == b;
    } else {
      var rest := a[1..];
      var segment := if a[0].Domain? then a[0].segment else current;
      assert (a + b)[1..] == rest + b;
      FiledSum(ds, rest, b, segment);
      Assoc(if a[0].Domain? then [segment] else [], Headers(rest), Headers(b));
    }
  }

  lemma {:induction false} SubtreeFiled(ds: seq<Device>, i: nat, above: seq<bool>, isLast: bool)
    requires ParentsInSegment(ds) && i < |ds| && |above| < MAX_DEPTH
    ensures
      var lines := Subtree(Parents(ds), i, above, isLast);
      Filed(ds, lines, ds[i].segment) && Headers(lines) == [] && HeaderAfter(lines, ds[i].segment) == ds[i].segment
    decreases MAX_DEPTH - |above|, 0
  {
    var first := [Branch(Columns(above), MarkOf(isLast), i)];
    assert Filed(ds, first[1..], ds[i].segment) && first[1..] == [];
    if HasChildFrom(Parents(ds), i, 0) {
      if |above| + 1 < MAX_DEPTH {
        ChildrenFiled(ds, i, above + [isLast], 0);
        FiledSum(ds, first, Children(Parents(ds), i, above + [isLast], 0), ds[i].segment);
      } else {
        assert [DepthReached][1..] == [];
        FiledSum(ds, first, [DepthReached], ds[i].segment);
      }
    } else {
      assert Subtree(Parents(ds), i, above, isLast) == first;
    }
  }

  lemma {:induction false} ChildrenFiled(ds: seq<Device>, i: nat, above: seq<bool>, from: nat)
    requires ParentsInSegment(ds) && i < |ds| && |above| < MAX_DEPTH && from <= |ds|
    ensures
      var lines := Children(Parents(ds), i, above, from);
      Filed(ds, lines, ds[i].segment) && Headers(lines) == [] && HeaderAfter(lines, ds[i].segment) == ds[i].segment
    decreases MAX_DEPTH - |above|, |ds| - from + 1
  {
    var p := Parents(ds);
    if from < |ds| {
      ChildrenFiled(ds, i, above, from + 1);
      if p[from] == Some(i) {
        SubtreeFiled(ds, from, above, !HasChildFrom(p, i, from + 1));
        FiledSum(ds, Subtree(p, from, above, !HasChildFrom(p, i, from + 1)), Children(p, i, above, from + 1),
                 ds[i].segment);
      } else {
        assert [] + Children(p, i, above, from + 1) == Children(p, i, above, from + 1);
      }
    }
  }

  predicate Occurs(ds: seq<Device>, from: nat, segment: nat) {
    exists i :: from <= i < |ds| && ds[i].segment == segment
  }

  predicate Ascending(headers: seq<nat>, above: nat) {
    && (forall i :: 0 <= i < |headers| ==> headers[i] > above)
    && (forall i, j :: 0 <= i < j < |headers| ==> headers[i] < headers[j])
  }

  lemma EntryFiled(ds: seq<Device>, from: nat, current: nat, lastRoot: Option<nat>)
    requires ParentsInSegment(ds) && from < |ds|
    ensures
      var lines, s := Entry(ds, from, current, lastRoot), ds[from].segment;
      && Filed(ds, lines, current) && HeaderAfter(lines, current) == s
      && Headers(lines) == if s != current then [s] else []
  {
    var s := ds[from].segment;
    var header := if s != current then [Domain(s)] else [];
    assert header != [] ==> header[1..] == [];
    var isLast := RootMark(ds, from, current, lastRoot) == Some(from);
    if ds[from].parent.None? {
      SubtreeFiled(ds, from, [], isLast);
      FiledSum(ds, header, Subtree(Parents(ds), from, [], isLast), current);
    } else {
      assert header + [] == header;
    }
  }

  lemma HeadersGrow(ds: seq<Device>, from: nat, current: nat, rest: seq<nat>)
    requires SortedBySegment(ds) && from < |ds| && current <= ds[from].segment
    requires Ascending(rest, ds[from].segment)
    requires forall t :: t in rest <==> t != ds[from].segment && Occurs(ds, from + 1, t)
    ensures
      var all := (if ds[from].segment != current then [ds[from].segment] else []) + rest;
      Ascending(all, current) && forall t :: t in all <==> t != current && Occurs(ds, from, t)
  {
    var s := ds[from].segment;
    forall t
      ensures Occurs(ds, from, t) <==> t == s || Occurs(ds, from + 1, t)
    {
    }
    assert Occurs(ds, from + 1, current) ==> current == s;
  }

  lemma {:induction false} TreeFiled(ds: seq<Device>, from: nat, current: nat, lastRoot: Option<nat>)
    requires ParentsInSegment(ds) && SortedBySegment(ds) && from <= |ds|
    requires from < |ds| ==> current <= ds[from].segment
    ensures
      var lines := Tree(ds, from, current, lastRoot);
      && Filed(ds, lines, current) && Ascending(Headers(lines), current)
      && forall s :: s in Headers(lines) <==> s != current && Occurs(ds, from, s)
    decreases |ds| - from
  {
    if from < |ds| {
      var s := ds[from].segment;
      var last := RootMark(ds, from, current, lastRoot);
      var rest := Tree(ds, from + 1, s, last);
      EntryFiled(ds, from, current, lastRoot);
      TreeFiled(ds, from + 1, s, last);
      FiledSum(ds, Entry(ds, from, current, lastRoot), rest, current);
      HeadersGrow(ds, from, current, Headers(rest));
    }
  }

  lemma FirstHeader(ds: seq<Device>, rest: seq<nat>)
    requires SortedBySegment(ds) && |ds| > 0
    requires Ascending(rest, ds[0].segment)
    requires forall t :: t in rest <==> t != ds[0].segment && Occurs(ds, 1, t)
    ensures
      var all := [ds[0].segment] + rest;
      (forall i, j :: 0 <= i < j < |all| ==> all[i] < all[j]) && forall t :: t in all <==> Occurs(ds, 0, t)
  {
    forall t
      ensures Occurs(ds, 0, t) <==> t == ds[0].segment || Occurs(ds, 1, t)
    {
    }
  }

  // One header per segment, in ascending order, and every tree line under its own.
  lemma HeadersReadBack(ds: seq<Device>)
    requires ParentsInSegment(ds) && SortedBySegment(ds) && RealSegments(ds)
    ensures
      var lines := Tree(ds, 0, MAX_UINTN, None);
      && Filed(ds, lines, MAX_UINTN)
      && (forall i, j :: 0 <= i < j < |Headers(lines)| ==> Headers(lines)[i] < Headers(lines)[j])
      && forall s :: s in Headers(lines) <==> Occurs(ds, 0, s)
  {
    if |ds| > 0 {
      var s := ds[0].segment;
      var last := RootMark(ds, 0, MAX_UINTN, None);
      var rest := Tree(ds, 1, s, last);
      EntryFiled(ds, 0, MAX_UINTN, None);
      TreeFiled(ds, 1, s, last);
      FiledSum(ds, Entry(ds, 0, MAX_UINTN, None), rest, MAX_UINTN);
      FirstHeader(ds, Headers(rest));
      assert Headers(Tree(ds, 0, MAX_UINTN, None)) == [s] + Headers(rest);
    }
  }
}

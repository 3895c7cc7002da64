// The insertion sort SortDevices and RveSortVariables share: shift right while the new
// element is strictly smaller, so equal elements keep their order.
module Sorting {

  ghost predicate StrictWeakOrder<T(!new)>(less: (T, T) -> bool) {
    && (forall a :: !less(a, a))
    && (forall a, b, c :: less(a, b) && less(b, c) ==> less(a, c))
    && (forall a, b, c :: less(a, c) ==> less(a, b) || less(b, c))
  }

  predicate Sorted<T>(s: seq<T>, less: (T, T) -> bool) {
    forall i, j :: 0 <= i < j < |s| ==> !less(s[j], s[i])
  }

  function Insert<T>(s: seq<T>, x: T, less: (T, T) -> bool): (r: seq<T>)
    ensures |r| == |s| + 1
  {
    if s == [] || !less(x, s[|s| - 1]) then s + [x]
    else Insert(s[..|s| - 1], x, less) + [s[|s| - 1]]
  }

  function Sort<T>(s: seq<T>, less: (T, T) -> bool): (r: seq<T>)
    ensures |r| == |s|
  {
    if s == [] then [] else Insert(Sort(s[..|s| - 1], less), s[|s| - 1], less)
  }

  // The elements of s neither below nor above x, in their order.
  function Peers<T>(s: seq<T>, x: T, less: (T, T) -> bool): seq<T> {
    if s == [] then []
    else
      var e := s[|s| - 1];
      Peers(s[..|s| - 1], x, less) + if less(e, x) || less(x, e) then [] else [e]
  }

  lemma {:induction false} InsertAt<T>(s: seq<T>, x: T, less: (T, T) -> bool, k: nat)
    requires k <= |s|
    requires k == 0 || !less(x, s[k - 1])
    requires forall j :: k <= j < |s| ==> less(x, s[j])
    ensures Insert(s, x, less) == s[..k] + [x] + s[k..]
  {
    if k == |s| {
      assert s[..k] == s && s[k..] == [];
    } else {
      var t := s[..|s| - 1];
      InsertAt(t, x, less, k);
      assert t[..k] == s[..k] && t[k..] + [s[|s| - 1]] == s[k..];
    }
  }

  lemma NotBelow<T(!new)>(t: seq<T>, x: T, l: T, e: T, less: (T, T) -> bool)
    requires StrictWeakOrder(less) && Sorted(t + [l], less) && less(x, l)
    requires e in multiset(t) + multiset{x}
    ensures !less(l, e)
  {
    if e != x {
      var i :| 0 <= i < |t| && t[i] == e;
      assert (t + [l])[i] == e && (t + [l])[|t|] == l;
    }
  }

  lemma SortedEnd<T>(r: seq<T>, l: T, less: (T, T) -> bool)
    requires Sorted(r, less) && forall i :: 0 <= i < |r| ==> !less(l, r[i])
    ensures Sorted(r + [l], less)
  {
  }

  lemma {:induction false} InsertKeeps<T(!new)>(s: seq<T>, x: T, less: (T, T) -> bool)
    requires StrictWeakOrder(less) && Sorted(s, less)
    ensures Sorted(Insert(s, x, less), less)
    ensures multiset(Insert(s, x, less)) == multiset(s) + multiset{x}
  {
    if s != [] && less(x, s[|s| - 1]) {
      var t, l := s[..|s| - 1], s[|s| - 1];
      assert s == t + [l];
      InsertKeeps(t, x, less);
      var r := Insert(t, x, less);
      forall i | 0 <= i < |r|
        ensures !less(l, r[i])
      {
        assert r[i] in multiset(r);
        NotBelow(t, x, l, r[i], less);
      }
      SortedEnd(r, l, less);
      assert Insert(s, x, less) == r + [l];
    }
  }

  lemma {:induction false} SortSorts<T(!new)>(s: seq<T>, less: (T, T) -> bool)
    requires StrictWeakOrder(less)
    ensures Sorted(Sort(s, less), less)
    ensures multiset(Sort(s, less)) == multiset(s)
  {
    if s != [] {
      var t := s[..|s| - 1];
      assert s == t + [s[|s| - 1]];
      SortSorts(t, less);
      InsertKeeps(Sort(t, less), s[|s| - 1], less);
    }
  }

  lemma {:induction false} PeersOfInsert<T(!new)>(s: seq<T>, y: T, x: T, less: (T, T) -> bool)
    requires StrictWeakOrder(less)
    ensures Peers(Insert(s, y, less), x, less) == Peers(s, x, less) + if less(y, x) || less(x, y) then [] else [y]
  {
    if s == [] || !less(y, s[|s| - 1]) {
      assert (s + [y])[..|s|] == s;
    } else {
      var t, l := s[..|s| - 1], s[|s| - 1];
      PeersOfInsert(t, y, x, less);
      var r := Insert(t, y, less);
      assert (r + [l])[..|r|] == r;
    }
  }

  // Stability: among equals, the order is the order of the input.
  lemma {:induction false} SortStable<T(!new)>(s: seq<T>, x: T, less: (T, T) -> bool)
    requires StrictWeakOrder(less)
    ensures Peers(Sort(s, less), x, less) == Peers(s, x, less)
  {
    if s != [] {
      var t := s[..|s| - 1];
      SortStable(t, x, less);
      PeersOfInsert(Sort(t, less), s[|s| - 1], x, less);
    }
  }

  // The elements from `insert` on have moved up by one to make room for x.
  ghost predicate RoomMade<T>(was: seq<T>, now: seq<T>, insert: nat, index: nat) {
    && insert <= index < |was| == |now|
    && now[..insert] == was[..insert]
    && now[insert + 1..index + 1] == was[insert..index]
    && now[index + 1..] == was[index + 1..]
  }

  lemma OneRoomMore<T>(was: seq<T>, now: seq<T>, insert: nat, index: nat)
    requires RoomMade(was, now, insert, index) && insert > 0
    ensures now[insert - 1] == was[insert - 1]
    ensures RoomMade(was, now[insert := now[insert - 1]], insert - 1, index)
  {
    assert now[insert - 1] == now[..insert][insert - 1] == was[..insert][insert - 1];
    var shifted := now[insert := now[insert - 1]];
    assert shifted[..insert - 1] == now[..insert][..insert - 1] == was[..insert][..insert - 1];
    assert shifted[insert..index + 1] == [was[insert - 1]] + now[insert + 1..index + 1];
  }

  lemma InsertInRoom<T>(was: seq<T>, now: seq<T>, insert: nat, index: nat, less: (T, T) -> bool)
    requires RoomMade(was, now, insert, index)
    requires insert == 0 || !less(was[index], was[insert - 1])
    requires forall j :: insert <= j < index ==> less(was[index], was[j])
    ensures now[insert := was[index]][..index + 1] == Insert(was[..index], was[index], less)
    ensures now[insert := was[index]][index + 1..] == was[index + 1..]
  {
    var s := was[..index];
    InsertAt(s, was[index], less, insert);
    assert s[..insert] == was[..insert] && s[insert..] == was[insert..index];
    var placed := now[insert := was[index]];
    assert placed[..index + 1] == now[..insert] + [was[index]] + now[insert + 1..index + 1];
  }

  // The inner loop: element `index` moves left past the strictly larger ones.
  method InsertInPlace<T>(a: array<T>, index: nat, less: (T, T) -> bool)
    requires index < a.Length
    modifies a
    ensures a[..index + 1] == Insert(old(a[..index]), old(a[index]), less)
    ensures a[index + 1..] == old(a[index + 1..])
  {
    ghost var was := a[..];
    var current := a[index];
    var insert := index;
    while insert > 0 && less(current, a[insert - 1])
      invariant 0 <= insert <= index
      invariant RoomMade(was, a[..], insert, index)
      invariant forall j :: insert <= j < index ==> less(current, was[j])
    {
      OneRoomMore(was, a[..], insert, index);
      ghost var next := a[..][insert := a[insert - 1]];
      a[insert] := a[insert - 1];
      assert a[..] == next;
      insert := insert - 1;
    }
    assert insert > 0 ==> a[insert - 1] == a[..][..insert][insert - 1] == was[..insert][insert - 1];
    InsertInRoom(was, a[..], insert, index, less);
    ghost var last := a[..][insert := current];
    a[insert] := current;
    assert a[..] == last;
    assert was[..index] == old(a[..index]) && was[index + 1..] == old(a[index + 1..]);
    assert a[..index + 1] == last[..index + 1] && a[index + 1..] == last[index + 1..];
  }

  lemma SortNext<T>(s: seq<T>, index: nat, less: (T, T) -> bool)
    requires index < |s|
    ensures Sort(s[..index + 1], less) == Insert(Sort(s[..index], less), s[index], less)
  {
    assert s[..index + 1][..index] == s[..index];
  }

  // In place, on the first `count` elements.
  method InsertionSort<T>(a: array<T>, count: nat, less: (T, T) -> bool)
    requires count <= a.Length
    modifies a
    ensures a[..count] == Sort(old(a[..count]), less)
    ensures a[count..] == old(a[count..])
  {
    if count == 0 {
      return;
    }
    ghost var was := a[..];
    assert was[..count] == a[..count] && was[count..] == a[count..];
    SortNext(was, 0, less);
    var index := 1;
    while index < count
      invariant 1 <= index <= count
      invariant a[..index] == Sort(was[..index], less)
      invariant a[index..] == was[index..]
    {
      SortNext(was, index, less);
      assert a[index] == was[index] && was[index + 1..] == was[index..][1..] == a[index..][1..] == a[index + 1..];
      InsertInPlace(a, index, less);
      index := index + 1;
    }
  }
}

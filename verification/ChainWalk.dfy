// Walking a buffer of chained items: what a walk finds in a buffer, in a buffer that
// follows another one, and in a buffer built from known items.  What one item says is a
// parameter; only the bytes from the item on are shown to it.
module ChainWalk {
  import opened Bytes
  import opened Sequences

  // One item: what is printed for it, and whether another one follows after `size` bytes.
  datatype Step<+L> = Halt(lines: seq<L>) | Go(lines: seq<L>, size: nat)

  datatype Entry<+L> = Entry(index: nat, offset: nat, lines: seq<L>)

  predicate Goes<L>(s: Step<L>, view: seq<byte>) {
    s.Go? && 0 < s.size <= |view|
  }

  // The walk of the bytes in view; the item they start with has this index and offset.
  function Walk<L>(turn: seq<byte> -> Step<L>, view: seq<byte>, offset: nat, index: nat): seq<Entry<L>>
    decreases |view|
  {
    if view == [] then []
    else
      var s := turn(view);
      [Entry(index, offset, s.lines)]
      + if Goes(s, view) then Walk(turn, view[s.size..], offset + s.size, index + 1) else []
  }

  function Shifted<L>(es: seq<Entry<L>>, offset: nat, index: nat): seq<Entry<L>> {
    if es == [] then []
    else [Entry(es[0].index + index, es[0].offset + offset, es[0].lines)] + Shifted(es[1..], offset, index)
  }

  lemma ShiftedCons<L>(e: Entry<L>, es: seq<Entry<L>>, offset: nat, index: nat)
    ensures Shifted([e] + es, offset, index) ==
            [Entry(e.index + index, e.offset + offset, e.lines)] + Shifted(es, offset, index)
  {
    assert ([e] + es)[1..] == es;
  }

  // The walk of some bytes is the same wherever they stand.
  lemma {:induction false} WalkMoved<L>(turn: seq<byte> -> Step<L>, view: seq<byte>, offset: nat, index: nat,
      more: nat, count: nat)
    ensures Walk(turn, view, offset + more, index + count) == Shifted(Walk(turn, view, offset, index), more, count)
    decreases |view|
  {
    if view != [] {
      var s := turn(view);
      if Goes(s, view) {
        WalkMoved(turn, view[s.size..], offset + s.size, index + 1, more, count);
        ShiftedCons(Entry(index, offset, s.lines), Walk(turn, view[s.size..], offset + s.size, index + 1), more, count);
      } else {
        ShiftedCons(Entry(index, offset, s.lines), [], more, count);
      }
    }
  }

  // Every item goes on to the next, and nothing is left over.
  predicate Complete<L>(turn: seq<byte> -> Step<L>, view: seq<byte>)
    decreases |view|
  {
    view == [] || (Goes(turn(view), view) && Complete(turn, view[turn(view).size..]))
  }

  function ItemsIn<L>(turn: seq<byte> -> Step<L>, view: seq<byte>): nat
    requires Complete(turn, view)
    decreases |view|
  {
    if view == [] then 0 else 1 + ItemsIn(turn, view[turn(view).size..])
  }

  // An item that goes on says the same whatever follows it.
  ghost predicate Local<L(!new)>(turn: seq<byte> -> Step<L>) {
    forall view, more {:trigger turn(view + more)} :: Goes(turn(view), view) ==> turn(view + more) == turn(view)
  }

  lemma WalkUnfolds<L>(turn: seq<byte> -> Step<L>, view: seq<byte>, offset: nat, index: nat)
    requires Goes(turn(view), view)
    ensures Walk(turn, view, offset, index) ==
            [Entry(index, offset, turn(view).lines)]
            + Walk(turn, view[turn(view).size..], offset + turn(view).size, index + 1)
  {
  }

  // A loop at this offset has listed `entries` of the whole.
  ghost predicate SoFar<L>(turn: seq<byte> -> Step<L>, rom: seq<byte>, offset: nat, index: nat,
      entries: seq<Entry<L>>, whole: seq<Entry<L>>)
    requires offset <= |rom|
  {
    entries + Walk(turn, rom[offset..], offset, index) == whole
  }

  // The loop has also listed the item at this offset.
  ghost predicate Advanced<L>(turn: seq<byte> -> Step<L>, rom: seq<byte>, offset: nat, index: nat,
      listed: seq<Entry<L>>, s: Step<L>, whole: seq<Entry<L>>)
    requires offset <= |rom|
  {
    if s.Go? then 0 < s.size <= |rom| - offset && SoFar(turn, rom, offset + s.size, index + 1, listed, whole)
    else listed == whole
  }

  lemma LoopTurn<L>(turn: seq<byte> -> Step<L>, rom: seq<byte>, offset: nat, index: nat, entries: seq<Entry<L>>,
      s: Step<L>, whole: seq<Entry<L>>)
    requires offset < |rom| && s == turn(rom[offset..]) && SoFar(turn, rom, offset, index, entries, whole)
    requires s.Go? ==> Goes(s, rom[offset..])
    ensures Advanced(turn, rom, offset, index, entries + [Entry(index, offset, s.lines)], s, whole)
  {
    var view, e := rom[offset..], [Entry(index, offset, s.lines)];
    if s.Go? {
      var rest := view[s.size..];
      assert rest == rom[offset + s.size..];
      WalkUnfolds(turn, view, offset, index);
      Assoc(entries, e, Walk(turn, rest, offset + s.size, index + 1));
    } else {
      assert Walk(turn, view, offset, index) == e;
    }
  }

  lemma LoopStarts<L>(turn: seq<byte> -> Step<L>, rom: seq<byte>)
    ensures SoFar(turn, rom, 0, 0, [], Walk(turn, rom, 0, 0))
  {
    assert rom[0..] == rom;
  }

  lemma LoopEnds<L>(turn: seq<byte> -> Step<L>, rom: seq<byte>, index: nat, entries: seq<Entry<L>>,
      whole: seq<Entry<L>>)
    requires SoFar(turn, rom, |rom|, index, entries, whole)
    ensures entries == whole
  {
  }

  // The items of a say the same before b as they say alone.
  ghost predicate Undisturbed<L>(turn: seq<byte> -> Step<L>, a: seq<byte>, b: seq<byte>)
    requires Complete(turn, a)
    decreases |a|
  {
    a == [] || (turn(a + b) == turn(a) && Undisturbed(turn, a[turn(a).size..], b))
  }

  lemma {:induction false} LocalIsUndisturbed<L(!new)>(turn: seq<byte> -> Step<L>, a: seq<byte>, b: seq<byte>)
    requires Local(turn) && Complete(turn, a)
    ensures Undisturbed(turn, a, b)
    decreases |a|
  {
    if a != [] {
      LocalIsUndisturbed(turn, a[turn(a).size..], b);
    }
  }

  lemma UndisturbedTurn<L>(turn: seq<byte> -> Step<L>, a: seq<byte>, b: seq<byte>, offset: nat, index: nat)
    requires a != [] && Goes(turn(a), a) && turn(a + b) == turn(a)
    ensures
      var s := turn(a);
      var e := [Entry(index, offset, s.lines)];
      && Walk(turn, a, offset, index) == e + Walk(turn, a[s.size..], offset + s.size, index + 1)
      && Walk(turn, a + b, offset, index) == e + Walk(turn, a[s.size..] + b, offset + s.size, index + 1)
  {
    var s := turn(a);
    assert (a + b)[s.size..] == a[s.size..] + b;
    WalkUnfolds(turn, a, offset, index);
    WalkUnfolds(turn, a + b, offset, index);
  }

  // The walk of a followed by b is the walk of a, then that of b from there on.
  ghost predicate WalksOn<L>(turn: seq<byte> -> Step<L>, a: seq<byte>, b: seq<byte>, offset: nat, index: nat)
    requires Complete(turn, a)
  {
    Walk(turn, a + b, offset, index) ==
    Walk(turn, a, offset, index) + Walk(turn, b, offset + |a|, index + ItemsIn(turn, a))
  }

  lemma NothingWalksOn<L>(turn: seq<byte> -> Step<L>, b: seq<byte>, offset: nat, index: nat)
    ensures WalksOn(turn, [], b, offset, index)
  {
    var y := Walk(turn, b, offset, index);
    assert [] + b == b && [] + y == y;
  }

  lemma Glue<T>(e: seq<T>, x: seq<T>, y: seq<T>, whole: seq<T>, both: seq<T>, rest: seq<T>)
    requires whole == e + x && both == e + rest && rest == x + y
    ensures both == whole + y
  {
    Assoc(e, x, y);
  }

  lemma OneMoreWalksOn<L>(turn: seq<byte> -> Step<L>, a: seq<byte>, b: seq<byte>, offset: nat, index: nat)
    requires a != [] && Complete(turn, a) && turn(a + b) == turn(a)
    requires WalksOn(turn, a[turn(a).size..], b, offset + turn(a).size, index + 1)
    ensures WalksOn(turn, a, b, offset, index)
  {
    var s := turn(a);
    var rest, e := a[s.size..], [Entry(index, offset, s.lines)];
    var x := Walk(turn, rest, offset + s.size, index + 1);
    var y := Walk(turn, b, offset + s.size + |rest|, index + 1 + ItemsIn(turn, rest));
    assert Walk(turn, rest + b, offset + s.size, index + 1) == x + y;
    assert y == Walk(turn, b, offset + |a|, index + ItemsIn(turn, a));
    UndisturbedTurn(turn, a, b, offset, index);
    Glue(e, x, y, Walk(turn, a, offset, index), Walk(turn, a + b, offset, index), x + y);
  }

  lemma {:induction false} UndisturbedWalk<L>(turn: seq<byte> -> Step<L>, a: seq<byte>, b: seq<byte>, offset: nat,
      index: nat)
    requires Complete(turn, a) && Undisturbed(turn, a, b)
    ensures WalksOn(turn, a, b, offset, index)
    decreases |a|
  {
    if a == [] {
      NothingWalksOn(turn, b, offset, index);
    } else {
      UndisturbedWalk(turn, a[turn(a).size..], b, offset + turn(a).size, index + 1);
      OneMoreWalksOn(turn, a, b, offset, index);
    }
  }

  // A complete buffer followed by any bytes: the walk lists its items and then goes on as
  // it would in those bytes alone, only further on.
  lemma WalkComposes<L(!new)>(turn: seq<byte> -> Step<L>, a: seq<byte>, b: seq<byte>)
    requires Local(turn) && Complete(turn, a)
    ensures Walk(turn, a + b, 0, 0) == Walk(turn, a, 0, 0) + Shifted(Walk(turn, b, 0, 0), |a|, ItemsIn(turn, a))
  {
    LocalIsUndisturbed(turn, a, b);
    UndisturbedWalk(turn, a, b, 0, 0);
    WalkMoved(turn, b, 0, 0, |a|, ItemsIn(turn, a));
  }

  // A piece of a built buffer, and what it should be listed as.
  datatype Piece<+L> = Piece(bytes: seq<byte>, lines: seq<L>)

  // The bytes of the pieces, then the bytes after them.
  function Joined<L>(pieces: seq<Piece<L>>, after: seq<byte>): seq<byte> {
    if pieces == [] then after else pieces[0].bytes + Joined(pieces[1..], after)
  }

  function Listing<L>(pieces: seq<Piece<L>>, offset: nat, index: nat): seq<Entry<L>> {
    if pieces == [] then []
    else [Entry(index, offset, pieces[0].lines)] + Listing(pieces[1..], offset + |pieces[0].bytes|, index + 1)
  }

  // Each piece is recognized for what it is before the bytes that follow it, and only the
  // final one stops the walk.
  ghost predicate Recognized<L>(turn: seq<byte> -> Step<L>, pieces: seq<Piece<L>>, after: seq<byte>) {
    pieces == [] ||
    (var p, rest := pieces[0], pieces[1..];
     && p.bytes != []
     && turn(p.bytes + Joined(rest, after)) == (if rest == [] then Halt(p.lines) else Go(p.lines, |p.bytes|))
     && Recognized(turn, rest, after))
  }

  // The first of the pieces, as a walk with `rest` behind that piece lists it.
  lemma WalkOfPiece<L>(turn: seq<byte> -> Step<L>, piece: Piece<L>, more: seq<byte>, offset: nat, index: nat)
    requires piece.bytes != []
    requires turn(piece.bytes + more) == Go(piece.lines, |piece.bytes|) || turn(piece.bytes + more) == Halt(piece.lines)
    ensures Walk(turn, piece.bytes + more, offset, index) ==
            [Entry(index, offset, piece.lines)]
            + if turn(piece.bytes + more).Halt? then [] else Walk(turn, more, offset + |piece.bytes|, index + 1)
  {
    var view := piece.bytes + more;
    if turn(view).Go? {
      assert view[|piece.bytes|..] == more;
      WalkUnfolds(turn, view, offset, index);
    }
  }

  ghost predicate Lists<L>(
    turn: seq<byte> -> Step<L>, pieces: seq<Piece<L>>, after: seq<byte>, offset: nat, index: nat)
  {
    Walk(turn, Joined(pieces, after), offset, index) == Listing(pieces, offset, index)
  }

  lemma PieceLists<L>(
    turn: seq<byte> -> Step<L>, pieces: seq<Piece<L>>, after: seq<byte>, offset: nat, index: nat)
    requires Recognized(turn, pieces, after) && pieces != []
    requires |pieces| > 1 ==> Lists(turn, pieces[1..], after, offset + |pieces[0].bytes|, index + 1)
    ensures Lists(turn, pieces, after, offset, index)
  {
    WalkOfPiece(turn, pieces[0], Joined(pieces[1..], after), offset, index);
  }

  // The walk of a built buffer is the listing of its pieces, whatever comes after it.
  lemma {:induction false} WalkInvertsJoin<L>(
    turn: seq<byte> -> Step<L>, pieces: seq<Piece<L>>, after: seq<byte>, offset: nat, index: nat)
    requires Recognized(turn, pieces, after) && pieces != []
    ensures Lists(turn, pieces, after, offset, index)
    decreases |pieces|
  {
    if |pieces| > 1 {
      WalkInvertsJoin(turn, pieces[1..], after, offset + |pieces[0].bytes|, index + 1);
    }
    PieceLists(turn, pieces, after, offset, index);
  }

  // Each piece is recognized before the bytes that follow it, and none stops the walk.
  ghost predicate Passed<L>(turn: seq<byte> -> Step<L>, pieces: seq<Piece<L>>, after: seq<byte>) {
    pieces == [] ||
    (var p, rest := pieces[0], pieces[1..];
     && p.bytes != []
     && turn(p.bytes + Joined(rest, after)) == Go(p.lines, |p.bytes|)
     && Passed(turn, rest, after))
  }

  function Total<L>(pieces: seq<Piece<L>>): nat {
    if pieces == [] then 0 else |pieces[0].bytes| + Total(pieces[1..])
  }

  function ListingThen<L>(pieces: seq<Piece<L>>, offset: nat, index: nat, tail: seq<Entry<L>>): seq<Entry<L>> {
    if pieces == [] then tail
    else
      [Entry(index, offset, pieces[0].lines)] + ListingThen(pieces[1..], offset + |pieces[0].bytes|, index + 1, tail)
  }

  lemma {:induction false} ThenIsSum<L>(pieces: seq<Piece<L>>, offset: nat, index: nat, tail: seq<Entry<L>>)
    ensures ListingThen(pieces, offset, index, tail) == Listing(pieces, offset, index) + tail
  {
    if pieces != [] {
      var next := offset + |pieces[0].bytes|;
      ThenIsSum(pieces[1..], next, index + 1, tail);
      Assoc([Entry(index, offset, pieces[0].lines)], Listing(pieces[1..], next, index + 1), tail);
    }
  }

  ghost predicate ListsThen<L>(
    turn: seq<byte> -> Step<L>, pieces: seq<Piece<L>>, after: seq<byte>, offset: nat, index: nat,
    tail: seq<Entry<L>>)
  {
    Walk(turn, Joined(pieces, after), offset, index) == ListingThen(pieces, offset, index, tail)
  }

  lemma PieceListsThen<L>(
    turn: seq<byte> -> Step<L>, pieces: seq<Piece<L>>, after: seq<byte>, offset: nat, index: nat,
    tail: seq<Entry<L>>)
    requires Passed(turn, pieces, after) && pieces != []
    requires ListsThen(turn, pieces[1..], after, offset + |pieces[0].bytes|, index + 1, tail)
    ensures ListsThen(turn, pieces, after, offset, index, tail)
  {
    WalkOfPiece(turn, pieces[0], Joined(pieces[1..], after), offset, index);
  }

  lemma {:induction false} WalkListsThen<L>(
    turn: seq<byte> -> Step<L>, pieces: seq<Piece<L>>, after: seq<byte>, offset: nat, index: nat,
    end: nat, count: nat)
    requires Passed(turn, pieces, after) && end == offset + Total(pieces) && count == index + |pieces|
    ensures ListsThen(turn, pieces, after, offset, index, Walk(turn, after, end, count))
    decreases |pieces|
  {
    if pieces != [] {
      WalkListsThen(turn, pieces[1..], after, offset + |pieces[0].bytes|, index + 1, end, count);
      PieceListsThen(turn, pieces, after, offset, index, Walk(turn, after, end, count));
    }
  }

  // Pieces none of which stops the walk: it lists them and goes on in what follows, with the
  // next number and offset.
  lemma WalkPasses<L>(turn: seq<byte> -> Step<L>, pieces: seq<Piece<L>>, after: seq<byte>)
    requires Passed(turn, pieces, after)
    ensures Walk(turn, Joined(pieces, after), 0, 0) ==
            Listing(pieces, 0, 0) + Walk(turn, after, Total(pieces), |pieces|)
  {
    var tail := Walk(turn, after, Total(pieces), |pieces|);
    WalkListsThen(turn, pieces, after, 0, 0, Total(pieces), |pieces|);
    ThenIsSum(pieces, 0, 0, tail);
  }
}

// Facts about sequences that the walks and the drawing share.
module Sequences {

  lemma Assoc<T>(a: seq<T>, b: seq<T>, c: seq<T>)
    ensures a + b + c == a + (b + c)
  {
  }

  lemma HeadsDiffer<T>(x: T, xs: seq<T>, y: T, ys: seq<T>)
    ensures [x] + xs == [y] + ys <==> x == y && xs == ys
  {
    if [x] + xs == [y] + ys {
      assert xs == ([x] + xs)[1..] && ys == ([y] + ys)[1..];
      assert x == ([x] + xs)[0] && y == ([y] + ys)[0];
    }
  }

  lemma SumsSplit<T>(a: seq<T>, b: seq<T>, c: seq<T>, d: seq<T>)
    requires a + b == c + d && |a| == |c|
    ensures a == c && b == d
  {
    assert a == (a + b)[..|a|] && c == (c + d)[..|a|];
    assert b == (a + b)[|a|..] && d == (c + d)[|a|..];
  }
}

/** Two orders of the same elements. */
module Permutations {
  lemma SameLength<T>(xs: seq<T>, ys: seq<T>)
    requires multiset(xs) == multiset(ys)
    ensures |xs| == |ys|
  {
    assert |multiset(xs)| == |multiset(ys)|;
  }

  lemma Parts<T>(l: seq<T>, x: T, r: seq<T>)
    ensures multiset(l + [x] + r) == multiset(l + r) + multiset{x}
  {
  }

  lemma Around<T>(ys: seq<T>, x: T) returns (l: seq<T>, r: seq<T>)
    requires x in ys
    ensures ys == l + [x] + r
  {
    var i :| 0 <= i < |ys| && ys[i] == x;
    l, r := ys[..i], ys[i + 1..];
  }

  /** The first element of one order, taken out of both. */
  lemma TakeOut<T>(xs: seq<T>, ys: seq<T>) returns (l: seq<T>, r: seq<T>)
    requires xs != [] && multiset(xs) == multiset(ys)
    ensures ys == l + [xs[0]] + r
    ensures multiset(xs[1..]) == multiset(l + r)
  {
    var x := xs[0];
    assert x in multiset(xs);
    l, r := Around(ys, x);
    Parts(l, x, r);
    Parts([], x, xs[1..]);
    assert [] + [x] + xs[1..] == xs && [] + xs[1..] == xs[1..];
    Cancel(multiset(xs[1..]), multiset(l + r), x);
  }

  lemma Cancel<T>(a: multiset<T>, b: multiset<T>, x: T)
    requires a + multiset{x} == b + multiset{x}
    ensures a == b
  {
    assert a == (a + multiset{x}) - multiset{x};
    assert b == (b + multiset{x}) - multiset{x};
  }
}

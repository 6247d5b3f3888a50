/** Mapping a function over a sequence, and why the result's elements, as a
    multiset, depend only on the argument's elements. SetOf's encoding rests
    on this: the element encodings of two arrangements of the same elements
    are two arrangements of the same encodings. */
module Mapping {

  function MapSeq<A, B>(f: A -> B, xs: seq<A>): (r: seq<B>)
    ensures |r| == |xs|
  {
    if xs == [] then [] else [f(xs[0])] + MapSeq(f, xs[1..])
  }

  /** Element i of the mapped sequence is f of element i. */
  lemma {:induction false} MapSeqAt<A, B>(f: A -> B, xs: seq<A>)
    ensures forall i :: 0 <= i < |xs| ==> MapSeq(f, xs)[i] == f(xs[i])
    decreases |xs|
  {
    if xs != [] {
      MapSeqAt(f, xs[1..]);
    }
  }

  /** The elements of ys but the one at j. */
  function RemoveAt<A>(ys: seq<A>, j: nat): (r: seq<A>)
    requires j < |ys|
    ensures multiset(r) == multiset(ys) - multiset{ys[j]}
  {
    assert ys == ys[..j] + [ys[j]] + ys[j + 1..];
    ys[..j] + ys[j + 1..]
  }

  lemma {:induction false} MapAppend<A, B>(f: A -> B, a: seq<A>, b: seq<A>)
    ensures MapSeq(f, a + b) == MapSeq(f, a) + MapSeq(f, b)
    decreases |a|
  {
    if a == [] {
      assert a + b == b;
    } else {
      assert (a + b)[0] == a[0] && (a + b)[1..] == a[1..] + b;
      MapAppend(f, a[1..], b);
    }
  }

  lemma MapSingleton<A, B>(f: A -> B, y: A)
    ensures MapSeq(f, [y]) == [f(y)]
  {
    assert [y][1..] == [];
  }

  lemma MapRemoveAt<A, B>(f: A -> B, ys: seq<A>, j: nat)
    requires j < |ys|
    ensures multiset(MapSeq(f, ys)) == multiset(MapSeq(f, RemoveAt(ys, j))) + multiset{f(ys[j])}
  {
    var pre, post := ys[..j], ys[j + 1..];
    assert ys == pre + ([ys[j]] + post);
    MapAppend(f, pre, [ys[j]] + post);
    MapAppend(f, [ys[j]], post);
    MapAppend(f, pre, post);
    MapSingleton(f, ys[j]);
    var mp, mq := MapSeq(f, pre), MapSeq(f, post);
    assert MapSeq(f, ys) == mp + ([f(ys[j])] + mq);
    assert MapSeq(f, RemoveAt(ys, j)) == mp + mq;
  }

  /** Mapping a function over two arrangements of the same elements gives two
      arrangements of the same results. */
  lemma {:induction false} MapPermutation<A, B>(f: A -> B, xs: seq<A>, ys: seq<A>)
    requires multiset(xs) == multiset(ys)
    ensures multiset(MapSeq(f, xs)) == multiset(MapSeq(f, ys))
    decreases |xs|
  {
    if xs == [] {
      assert |ys| == |multiset(ys)| == 0;
    } else {
      var x := xs[0];
      assert x in multiset(ys) by {
        assert x in multiset(xs);
      }
      var j :| 0 <= j < |ys| && ys[j] == x;
      assert xs[1..] == RemoveAt(xs, 0);
      MapPermutation(f, xs[1..], RemoveAt(ys, j));
      MapRemoveAt(f, xs, 0);
      MapRemoveAt(f, ys, j);
    }
  }
}

/** The order SetOf sorts its element encodings in: Python's byte-string
    comparison, which is lexicographic on octets with a proper prefix first
    (the DER order of X.690 section 11.6 for encodings of one type). */
module OctetOrder {
  import opened Integers

  /** a <= b as Python compares two byte strings. */
  predicate Le(a: Bytes, b: Bytes)
    decreases |a|
  {
    a == [] || (b != [] && (a[0] < b[0] || (a[0] == b[0] && Le(a[1..], b[1..]))))
  }

  lemma {:induction false} LeRefl(a: Bytes)
    ensures Le(a, a)
    decreases |a|
  {
    if a != [] {
      LeRefl(a[1..]);
    }
  }

  lemma {:induction false} LeTotal(a: Bytes, b: Bytes)
    ensures Le(a, b) || Le(b, a)
    decreases |a|
  {
    if a != [] && b != [] && a[0] == b[0] {
      LeTotal(a[1..], b[1..]);
    }
  }

  lemma {:induction false} LeAntisymmetric(a: Bytes, b: Bytes)
    requires Le(a, b) && Le(b, a)
    ensures a == b
    decreases |a|
  {
    if a != [] {
      LeAntisymmetric(a[1..], b[1..]);
      assert a == [a[0]] + a[1..] && b == [b[0]] + b[1..];
    }
  }

  lemma {:induction false} LeTransitive(a: Bytes, b: Bytes, c: Bytes)
    requires Le(a, b) && Le(b, c)
    ensures Le(a, c)
    decreases |a|
  {
    if a != [] && a[0] == b[0] && b[0] == c[0] {
      LeTransitive(a[1..], b[1..], c[1..]);
    }
  }

  predicate Sorted(s: seq<Bytes>) {
    forall i, j :: 0 <= i < j < |s| ==> Le(s[i], s[j])
  }

  /** x placed before the first element it does not exceed. */
  function Insert(x: Bytes, s: seq<Bytes>): (r: seq<Bytes>)
    requires Sorted(s)
    ensures multiset(r) == multiset(s) + multiset{x}
    ensures Sorted(r)
  {
    if s == [] then [x]
    else if Le(x, s[0]) then
      InsertFront(x, s);
      [x] + s
    else
      LeTotal(x, s[0]);
      var t := Insert(x, s[1..]);
      assert s == [s[0]] + s[1..];
      ConsSorted(s[0], t);
      [s[0]] + t
  }

  lemma InsertFront(x: Bytes, s: seq<Bytes>)
    requires s != [] && Sorted(s) && Le(x, s[0])
    ensures Sorted([x] + s)
  {
    var r := [x] + s;
    forall i, j | 0 <= i < j < |r|
      ensures Le(r[i], r[j])
    {
      if i > 0 {
        assert r[i] == s[i - 1] && r[j] == s[j - 1];
      } else if j > 1 {
        LeTransitive(x, s[0], r[j]);
      }
    }
  }

  /** Prepending y to a sorted t keeps it sorted when every element of t is at
      least y. */
  lemma ConsSorted(y: Bytes, t: seq<Bytes>)
    requires Sorted(t) && forall e | e in multiset(t) :: Le(y, e)
    ensures Sorted([y] + t)
  {
    forall j | 0 <= j < |t|
      ensures Le(y, t[j])
    {
      assert t[j] in multiset(t);
    }
  }

  /** list.sort() on the element encodings. */
  function SortOctets(s: seq<Bytes>): (r: seq<Bytes>)
    ensures Sorted(r)
    ensures multiset(r) == multiset(s)
  {
    if s == [] then []
    else
      assert s == [s[0]] + s[1..];
      Insert(s[0], SortOctets(s[1..]))
  }

  /** Two sorted lists holding the same encodings are the same list. */
  lemma {:induction false} SortedUnique(a: seq<Bytes>, b: seq<Bytes>)
    requires Sorted(a) && Sorted(b) && multiset(a) == multiset(b)
    ensures a == b
    decreases |a|
  {
    if a != [] {
      assert |b| == |a| by {
        assert |multiset(b)| == |multiset(a)|;
      }
      HeadsEqual(a, b);
      TailMultiset(a);
      TailMultiset(b);
      TailSorted(a);
      TailSorted(b);
      SortedUnique(a[1..], b[1..]);
      assert a == [a[0]] + a[1..] && b == [b[0]] + b[1..];
    }
  }

  /** The first element of a sorted list is its least element. */
  lemma HeadIsLeast(a: seq<Bytes>, x: Bytes)
    requires a != [] && Sorted(a) && x in multiset(a)
    ensures Le(a[0], x)
  {
    var k :| 0 <= k < |a| && a[k] == x;
    if k == 0 {
      LeRefl(x);
    }
  }

  lemma HeadsEqual(a: seq<Bytes>, b: seq<Bytes>)
    requires a != [] && b != [] && Sorted(a) && Sorted(b) && multiset(a) == multiset(b)
    ensures a[0] == b[0]
  {
    assert a[0] in multiset(a) && b[0] in multiset(b);
    HeadIsLeast(a, b[0]);
    HeadIsLeast(b, a[0]);
    LeAntisymmetric(a[0], b[0]);
  }

  lemma TailMultiset(a: seq<Bytes>)
    requires a != []
    ensures multiset(a[1..]) == multiset(a) - multiset{a[0]}
  {
    assert a == [a[0]] + a[1..];
  }

  lemma TailSorted(a: seq<Bytes>)
    requires a != [] && Sorted(a)
    ensures Sorted(a[1..])
  {
    forall i, j | 0 <= i < j < |a| - 1
      ensures Le(a[1..][i], a[1..][j])
    {
      assert a[1..][i] == a[i + 1] && a[1..][j] == a[j + 1];
    }
  }

  /** The sorted order does not depend on the order of the input: a SetOf's
      encoding is the same for any arrangement of its elements. */
  lemma SortPermutationInvariant(a: seq<Bytes>, b: seq<Bytes>)
    requires multiset(a) == multiset(b)
    ensures SortOctets(a) == SortOctets(b)
  {
    SortedUnique(SortOctets(a), SortOctets(b));
  }
}

/** Positions in sequences. */
module Sequences {

  /** The position of the first `x` in `s`, or `|s|` when there is none. */
  function IndexOf<T(==)>(s: seq<T>, x: T): (i: nat)
    ensures i <= |s|
    ensures i < |s| ==> s[i] == x
    ensures i == |s| <==> x !in s
    ensures forall j :: 0 <= j < i ==> s[j] != x
  {
    if s == [] then 0 else if s[0] == x then 0 else 1 + IndexOf(s[1..], x)
  }

  /** The first occurrence of `x` in `a + b`, when `a` has none, is its
      first occurrence in `b`, shifted by `|a|`. */
  lemma {:induction false} IndexOfAfter<T>(a: seq<T>, b: seq<T>, x: T)
    requires x !in a
    ensures IndexOf(a + b, x) == |a| + IndexOf(b, x)
  {
    if a == [] {
      assert a + b == b;
    } else {
      assert (a + b)[0] == a[0] != x;
      assert (a + b)[1..] == a[1..] + b;
      IndexOfAfter(a[1..], b, x);
    }
  }

  /** Appending leaves the first occurrence of an element already present
      where it was. */
  lemma IndexOfBefore<T>(a: seq<T>, b: seq<T>, x: T)
    requires x in a
    ensures IndexOf(a + b, x) == IndexOf(a, x)
  {
    var i, k := IndexOf(a + b, x), IndexOf(a, x);
    assert (a + b)[k] == x;
    if i < k {
      assert a[i] == (a + b)[i];
    }
  }
}

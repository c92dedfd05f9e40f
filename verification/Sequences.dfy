/** Finite sequences: their elements, the sizes of sets of these, and the in-place reversal used for
    paths and orders. */
module Sequences {

  ghost predicate Distinct<T(!new)>(s: seq<T>)
  {
    forall i, j :: 0 <= i < j < |s| ==> s[i] != s[j]
  }

  ghost function Elements<T(!new)>(s: seq<T>): set<T>
  {
    set x | x in s
  }

  lemma AppendDistinct<T(!new)>(s: seq<T>, x: T)
    requires Distinct(s) && x !in s
    ensures Distinct(s + [x])
  {
  }

  lemma {:induction false} DistinctMultiset<T(!new)>(s: seq<T>)
    ensures Distinct(s) <==> forall x :: multiset(s)[x] <= 1
  {
    if |s| > 0 {
      var t, x := s[..|s| - 1], s[|s| - 1];
      DistinctMultiset(t);
      assert s == t + [x];
      assert multiset(s) == multiset(t) + multiset{x};
      assert Distinct(s) <==> Distinct(t) && x !in t;
      assert x in t <==> multiset(t)[x] > 0;
      assert forall y :: multiset(s)[y] == multiset(t)[y] + if y == x then 1 else 0;
    }
  }

  lemma {:induction false} SubsetSize<T>(a: set<T>, b: set<T>)
    requires a <= b
    ensures |a| <= |b|
  {
    if a != {} {
      var x :| x in a;
      SubsetSize(a - {x}, b - {x});
    }
  }

  ghost function Reversed<T>(s: seq<T>): seq<T>
  {
    seq(|s|, i requires 0 <= i < |s| => s[|s| - 1 - i])
  }

  lemma ReversedTwice<T>(s: seq<T>)
    ensures Reversed(Reversed(s)) == s
  {
  }

  lemma ReversedElements<T(!new)>(s: seq<T>)
    ensures Elements(Reversed(s)) == Elements(s)
    ensures Distinct(s) ==> Distinct(Reversed(s))
  {
    forall x | x in s
      ensures x in Reversed(s)
    {
      var i :| 0 <= i < |s| && s[i] == x;
      assert Reversed(s)[|s| - 1 - i] == x;
    }
  }

  /** Reverses a slice by swapping from both ends towards the middle. */
  method Reverse<T>(s: seq<T>) returns (r: seq<T>)
    ensures r == Reversed(s)
  {
    r := s;
    var i, j := 0, |s| - 1;
    while i < j
      invariant 0 <= i <= j + 1 && j == |s| - 1 - i && |r| == |s|
      invariant forall k :: i <= k <= j ==> r[k] == s[k]
      invariant forall k :: 0 <= k < i || j < k < |s| ==> r[k] == s[|s| - 1 - k]
    {
      assert r[j] == s[|s| - 1 - i] && r[i] == s[|s| - 1 - j];
      r := r[i := r[j]][j := r[i]];
      i, j := i + 1, j - 1;
    }
  }
}

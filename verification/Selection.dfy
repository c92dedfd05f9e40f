/** The `k` items of smallest key, as the planners pick neighbours: everything is listed in map
    order, sorted, and cut. Items with equal keys may come in any order. */
module Selection {
  import opened Sequences

  ghost predicate SortedBy<T(!new)>(key: map<T, real>, s: seq<T>)
    requires forall x :: x in s ==> x in key
  {
    forall i, j :: 0 <= i <= j < |s| ==> key[s[i]] <= key[s[j]]
  }

  /** `s` holds `k` items, or all there are, smallest key first, and every other item has a key at
      least as large as each of theirs. */
  ghost predicate AreSmallest<T(!new)>(key: map<T, real>, k: nat, s: seq<T>)
  {
    && (forall i :: 0 <= i < |s| ==> s[i] in key)
    && Distinct(s)
    && |s| == (if k < |key| then k else |key|)
    && SortedBy(key, s)
    && forall x, i :: x in key && x !in s && 0 <= i < |s| ==> key[s[i]] <= key[x]
  }

  /** Inserts an item into a sorted list. */
  method Insert<T(!new)>(key: map<T, real>, s: seq<T>, x: T) returns (r: seq<T>)
    requires (forall y :: y in s ==> y in key) && x in key && x !in s
    requires SortedBy(key, s) && Distinct(s)
    ensures forall y :: y in r <==> y in s || y == x
    ensures |r| == |s| + 1
    ensures SortedBy(key, r) && Distinct(r)
  {
    var i := 0;
    while i < |s| && key[s[i]] < key[x]
      invariant 0 <= i <= |s|
      invariant forall j :: 0 <= j < i ==> key[s[j]] < key[x]
    {
      i := i + 1;
    }
    r := s[..i] + [x] + s[i..];
    InsertKeeps(key, s, i, x);
  }

  lemma InsertKeeps<T(!new)>(key: map<T, real>, s: seq<T>, i: nat, x: T)
    requires (forall y :: y in s ==> y in key) && x in key && x !in s
    requires SortedBy(key, s) && Distinct(s) && i <= |s|
    requires forall j :: 0 <= j < i ==> key[s[j]] <= key[x]
    requires i < |s| ==> key[x] <= key[s[i]]
    ensures var r := s[..i] + [x] + s[i..];
      (forall y :: y in r <==> y in s || y == x) && SortedBy(key, r) && Distinct(r)
  {
  }

  method Smallest<T(!new)>(key: map<T, real>, k: nat) returns (s: seq<T>)
    ensures AreSmallest(key, k, s)
  {
    hide SortedBy, Distinct;
    var all: seq<T> := [];
    NothingSorted(key);
    var xs := key.Keys;
    while xs != {}
      invariant xs <= key.Keys && |all| + |xs| == |key.Keys|
      invariant forall y :: y in all <==> y in key && y !in xs
      invariant SortedBy(key, all) && Distinct(all)
    {
      var x :| x in xs;
      all := Insert(key, all, x);
      xs := xs - {x};
    }
    s := all[..if k < |all| then k else |all|];
    CutIsSmallest(key, all, k);
  }

  lemma NothingSorted<T(!new)>(key: map<T, real>)
    ensures SortedBy(key, []) && Distinct<T>([])
  {
  }

  lemma CutIsSmallest<T(!new)>(key: map<T, real>, all: seq<T>, k: nat)
    requires (forall y :: y in all <==> y in key) && SortedBy(key, all) && Distinct(all) && |all| == |key.Keys|
    ensures AreSmallest(key, k, all[..if k < |all| then k else |all|])
  {
    hide SortedBy, Distinct;
    assert |key.Keys| == |key|;
    var n := if k < |all| then k else |all|;
    CutSorted(key, all, n);
    CutKeeps(key, all, n);
  }

  lemma CutSorted<T(!new)>(key: map<T, real>, all: seq<T>, n: nat)
    requires (forall y :: y in all ==> y in key) && SortedBy(key, all) && Distinct(all) && n <= |all|
    ensures (forall i :: 0 <= i < n ==> all[..n][i] in key) && SortedBy(key, all[..n]) && Distinct(all[..n])
  {
    assert forall i :: 0 <= i < n ==> all[..n][i] == all[i] && all[i] in all;
  }

  lemma CutKeeps<T(!new)>(key: map<T, real>, all: seq<T>, k: nat)
    requires (forall y :: y in all <==> y in key) && SortedBy(key, all) && Distinct(all) && k <= |all|
    ensures forall x, i :: x in key && x !in all[..k] && 0 <= i < k ==> key[all[i]] <= key[x]
  {
  }
}

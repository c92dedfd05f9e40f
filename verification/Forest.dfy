/** Forests kept as a map from each node to its parent, and walks from a node up to its root.

The planners and the frame system all store trees this way and change them in place. A rank that
falls from child to parent is what makes following parents terminate; the lemmas here say how the
changes made by those programs keep such a rank in existence.
*/
module Forest {
  import opened Options

  ghost predicate Ranked<T(!new)>(parent: map<T, Option<T>>, rank: map<T, nat>)
  {
    && rank.Keys == parent.Keys
    && forall n :: n in parent && parent[n].Some? ==>
         parent[n].value in parent && rank[parent[n].value] < rank[n]
  }

  /** Every node leads, through its parents, to a root. */
  ghost predicate IsForest<T(!new)>(parent: map<T, Option<T>>)
  {
    exists rank :: Ranked(parent, rank)
  }

  ghost function Roots<T(!new)>(parent: map<T, Option<T>>): set<T>
  {
    set n | n in parent && parent[n].None?
  }

  /** `s` lists a node, its parent, and so on up to a root. */
  ghost predicate IsChain<T(!new)>(parent: map<T, Option<T>>, s: seq<T>, n: T)
  {
    && |s| > 0 && s[0] == n
    && (forall i :: 0 <= i < |s| ==> s[i] in parent)
    && (forall i :: 0 <= i < |s| - 1 ==> parent[s[i]] == Some(s[i + 1]))
    && parent[s[|s| - 1]].None?
  }

  lemma {:induction false} ChainExists<T(!new)>(parent: map<T, Option<T>>, rank: map<T, nat>, n: T) returns (s: seq<T>)
    requires Ranked(parent, rank) && n in parent
    ensures IsChain(parent, s, n)
    decreases rank[n]
  {
    if parent[n].None? {
      s := [n];
    } else {
      var t := ChainExists(parent, rank, parent[n].value);
      s := [n] + t;
    }
  }

  lemma {:induction false} ChainUnique<T(!new)>(parent: map<T, Option<T>>, s: seq<T>, t: seq<T>, n: T)
    requires IsChain(parent, s, n) && IsChain(parent, t, n)
    ensures s == t
  {
    ChainHead(parent, s, n);
    ChainHead(parent, t, n);
    if parent[n].Some? {
      ChainTail(parent, s, n);
      ChainTail(parent, t, n);
      ChainUnique(parent, s[1..], t[1..], s[1]);
      assert s == [n] + s[1..] && t == [n] + t[1..];
    }
  }

  lemma ChainHead<T(!new)>(parent: map<T, Option<T>>, s: seq<T>, n: T)
    requires IsChain(parent, s, n)
    ensures parent[n].Some? <==> |s| > 1
  {
    if |s| > 1 {
      assert parent[s[0]] == Some(s[0 + 1]);
    }
  }

  lemma ChainTail<T(!new)>(parent: map<T, Option<T>>, s: seq<T>, n: T)
    requires IsChain(parent, s, n) && |s| > 1
    ensures parent[n] == Some(s[1])
    ensures IsChain(parent, s[1..], s[1])
  {
  }

  /** A new node below an existing one keeps a forest. */
  lemma AddLeaf<T(!new)>(parent: map<T, Option<T>>, t: T, p: T)
    requires IsForest(parent) && t !in parent && p in parent
    ensures IsForest(parent[t := Some(p)])
    ensures Roots(parent[t := Some(p)]) == Roots(parent)
  {
    var rank :| Ranked(parent, rank);
    assert Ranked(parent[t := Some(p)], rank[t := rank[p] + 1]);
  }

  /** Moving `n`, with everything below it, under `t` keeps a forest when some quantity that never
      falls from parent to child is larger at `n` than at `t`: then `t` is not below `n`. */
  lemma Relink<T(!new)>(parent: map<T, Option<T>>, key: map<T, real>, n: T, t: T)
    requires IsForest(parent) && key.Keys == parent.Keys
    requires forall x :: x in parent && parent[x].Some? ==> parent[x].value in parent && key[parent[x].value] <= key[x]
    requires n in parent && t in parent && key[t] < key[n]
    ensures IsForest(parent[n := Some(t)])
  {
    var rank :| Ranked(parent, rank);
    var rank' := map x | x in parent :: if key[x] >= key[n] then rank[x] + rank[t] + 1 else rank[x];
    assert Ranked(parent[n := Some(t)], rank');
  }

  // ----- being below a node -----

  ghost predicate Below<T(!new)>(parent: map<T, Option<T>>, rank: map<T, nat>, x: T, n: T)
    requires Ranked(parent, rank) && x in parent
    decreases rank[x]
  {
    x == n || (parent[x].Some? && Below(parent, rank, parent[x].value, n))
  }

  lemma {:induction false} BelowRank<T(!new)>(parent: map<T, Option<T>>, rank: map<T, nat>, x: T, n: T)
    requires Ranked(parent, rank) && x in parent && Below(parent, rank, x, n)
    ensures n in parent && rank[n] <= rank[x]
    ensures x != n ==> rank[n] < rank[x]
    decreases rank[x]
  {
    if x != n {
      BelowRank(parent, rank, parent[x].value, n);
    }
  }

  /** Two nodes above the same node are one above the other. */
  lemma {:induction false} BelowLinear<T(!new)>(parent: map<T, Option<T>>, rank: map<T, nat>, x: T, a: T, b: T)
    requires Ranked(parent, rank) && x in parent && a in parent && b in parent
    requires Below(parent, rank, x, a) && Below(parent, rank, x, b)
    ensures Below(parent, rank, a, b) || Below(parent, rank, b, a)
    decreases rank[x]
  {
    if x != a && x != b {
      BelowLinear(parent, rank, parent[x].value, a, b);
    }
  }

  lemma {:induction false} BelowChild<T(!new)>(parent: map<T, Option<T>>, rank: map<T, nat>, x: T, n: T) returns (c: T)
    requires Ranked(parent, rank) && x in parent && x != n && Below(parent, rank, x, n)
    ensures c in parent && parent[c] == Some(n) && Below(parent, rank, x, c)
    decreases rank[x]
  {
    if parent[x].value == n {
      c := x;
    } else {
      c := BelowChild(parent, rank, parent[x].value, n);
    }
  }

  lemma {:induction false} BelowTransitive<T(!new)>(parent: map<T, Option<T>>, rank: map<T, nat>, x: T, c: T, n: T)
    requires Ranked(parent, rank) && x in parent && c in parent
    requires Below(parent, rank, x, c) && Below(parent, rank, c, n)
    ensures Below(parent, rank, x, n)
    decreases rank[x]
  {
    if x != c {
      BelowTransitive(parent, rank, parent[x].value, c, n);
    }
  }

  /** Nothing lies below two children of the same node. */
  lemma ChildrenApart<T(!new)>(parent: map<T, Option<T>>, rank: map<T, nat>, n: T, x: T, a: T, b: T)
    requires Ranked(parent, rank) && x in parent && a in parent && b in parent && a != b
    requires parent[a] == parent[b] == Some(n)
    requires Below(parent, rank, x, b)
    ensures !Below(parent, rank, x, a)
  {
    if Below(parent, rank, x, a) {
      BelowLinear(parent, rank, x, a, b);
      if Below(parent, rank, n, b) {
        BelowRank(parent, rank, n, b);
      } else {
        BelowRank(parent, rank, n, a);
      }
    }
  }

  /** The loop that follows parents until there is none. */
  method Climb<T(!new, ==)>(parent: map<T, Option<T>>, from: Option<T>) returns (path: seq<T>)
    requires IsForest(parent) && (from.Some? ==> from.value in parent)
    ensures if from.Some? then IsChain(parent, path, from.value) else path == []
  {
    path := [];
    var cur := from;
    ghost var rank :| Ranked(parent, rank);
    ghost var chain: seq<T> := [];
    if from.Some? {
      chain := ChainExists(parent, rank, from.value);
    }
    while cur.Some?
      invariant |path| <= |chain| && path == chain[..|path|]
      invariant cur == if |path| < |chain| then Some(chain[|path|]) else None
      decreases |chain| - |path|
    {
      path := path + [cur.value];
      assert |path| < |chain| ==> parent[chain[|path| - 1]] == Some(chain[|path| - 1 + 1]);
      cur := if cur.value in parent then parent[cur.value] else None;
    }
    assert chain == chain[..|chain|];
  }
}

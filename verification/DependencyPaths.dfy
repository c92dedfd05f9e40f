/** Dependency paths in a finite set of edges, and how many of them there are.

An edge `(c, p)` says that the child `c` depends on the parent `p`. A path is the sequence of
names it visits, so two paths are the same exactly when they visit the same names. "There are
`n` paths from `u` to `v`" means that the paths from `u` to `v` form a finite set of size `n`;
this is the reference against which the matrix kept by the resource graph is judged.
*/
module DependencyPaths {
  import opened Sequences

  /** A fully qualified resource name. */
  datatype Name = Name(namespace: string, resourceType: string, subtype: string, remote: string, name: string)

  /** (child, parent) */
  type Edge = (Name, Name)

  // ----- paths -----

  ghost predicate IsWalk(e: set<Edge>, s: seq<Name>)
  {
    forall i :: 0 <= i < |s| - 1 ==> (s[i], s[i + 1]) in e
  }

  ghost predicate IsPath(e: set<Edge>, s: seq<Name>, u: Name, v: Name)
  {
    && |s| > 0
    && s[0] == u
    && s[|s| - 1] == v
    && IsWalk(e, s)
  }

  ghost predicate Reaches(e: set<Edge>, u: Name, v: Name)
  {
    exists s :: IsPath(e, s, u, v)
  }

  /** No path returns to its start, except the one that never leaves it. */
  ghost predicate Acyclic(e: set<Edge>)
  {
    forall s, u :: IsPath(e, s, u, u) ==> |s| == 1
  }

  ghost predicate PathsAre(e: set<Edge>, u: Name, v: Name, paths: set<seq<Name>>)
  {
    forall s :: s in paths <==> IsPath(e, s, u, v)
  }

  /** There are exactly `n` paths from `u` to `v`. */
  ghost predicate Counts(e: set<Edge>, u: Name, v: Name, n: int)
  {
    exists paths :: PathsAre(e, u, v, paths) && |paths| == n
  }

  lemma JoinPaths(e: set<Edge>, s: seq<Name>, t: seq<Name>, u: Name, m: Name, v: Name)
    requires IsPath(e, s, u, m) && IsPath(e, t, m, v)
    ensures IsPath(e, s + t[1..], u, v)
  {
  }

  lemma ReachesTransitive(e: set<Edge>, u: Name, m: Name, v: Name)
    requires Reaches(e, u, m) && Reaches(e, m, v)
    ensures Reaches(e, u, v)
  {
    var s :| IsPath(e, s, u, m);
    var t :| IsPath(e, t, m, v);
    JoinPaths(e, s, t, u, m, v);
  }

  lemma EdgeReaches(e: set<Edge>, u: Name, v: Name)
    requires (u, v) in e
    ensures Reaches(e, u, v)
  {
    assert IsPath(e, [u, v], u, v);
  }

  lemma SelfReaches(e: set<Edge>, u: Name)
    ensures IsPath(e, [u], u, u)
    ensures Reaches(e, u, u)
  {
    assert IsPath(e, [u], u, u);
  }

  lemma SubPath(e: set<Edge>, s: seq<Name>, u: Name, v: Name, i: nat, j: nat)
    requires IsPath(e, s, u, v) && i <= j < |s|
    ensures IsPath(e, s[i..j + 1], s[i], s[j])
  {
  }

  lemma PathGrows(e: set<Edge>, e': set<Edge>, s: seq<Name>, u: Name, v: Name)
    requires e <= e' && IsPath(e, s, u, v)
    ensures IsPath(e', s, u, v)
  {
  }

  /** The last and first edges of a path that leaves its start. */
  lemma EndEdges(e: set<Edge>, s: seq<Name>, u: Name, v: Name)
    requires IsPath(e, s, u, v) && |s| > 1
    ensures (s[|s| - 2], v) in e
    ensures (u, s[1]) in e
  {
  }

  // ----- counting -----

  /** The number of paths is a function of the edges and the two ends. */
  lemma CountsUnique(e: set<Edge>, u: Name, v: Name, n: int, n': int)
    requires Counts(e, u, v, n) && Counts(e, u, v, n')
    ensures n == n'
  {
    var a :| PathsAre(e, u, v, a) && |a| == n;
    var b :| PathsAre(e, u, v, b) && |b| == n';
    assert a == b;
  }

  lemma CountsPositive(e: set<Edge>, u: Name, v: Name, n: int)
    requires Counts(e, u, v, n)
    ensures n >= 0
    ensures n != 0 <==> Reaches(e, u, v)
  {
    var a :| PathsAre(e, u, v, a) && |a| == n;
    if a != {} {
      var s :| s in a;
      assert IsPath(e, s, u, v);
    }
    if Reaches(e, u, v) {
      var s :| IsPath(e, s, u, v);
      assert s in a;
    }
  }

  lemma CountsZero(e: set<Edge>, u: Name, v: Name)
    requires !Reaches(e, u, v)
    ensures Counts(e, u, v, 0)
  {
    assert PathsAre(e, u, v, {});
  }

  /** In an acyclic graph there is one path from a name to itself, and conversely. */
  lemma CountsSelf(e: set<Edge>, u: Name)
    ensures Counts(e, u, u, 1) <==> forall s :: IsPath(e, s, u, u) ==> |s| == 1
  {
    SelfReaches(e, u);
    if Counts(e, u, u, 1) {
      var a :| PathsAre(e, u, u, a) && |a| == 1;
      assert [u] in a;
      forall s | IsPath(e, s, u, u)
        ensures |s| == 1
      {
        assert s in a;
        SubsetSize({[u], s}, a);
        assert s != [u] ==> |{[u], s}| == 2;
      }
    }
    if forall s :: IsPath(e, s, u, u) ==> |s| == 1 {
      assert forall s :: IsPath(e, s, u, u) ==> s == [u];
      assert PathsAre(e, u, u, {[u]});
    }
  }

  // ----- what one edge does to the paths -----

  ghost function Joins(a: set<seq<Name>>, b: set<seq<Name>>): set<seq<Name>>
  {
    set s, t | s in a && t in b :: s + t
  }

  ghost function Extensions(s: seq<Name>, b: set<seq<Name>>): set<seq<Name>>
  {
    set t | t in b :: s + t
  }

  ghost predicate SplitsUniquely(a: set<seq<Name>>, b: set<seq<Name>>)
  {
    forall s, s', t, t' :: s in a && s' in a && t in b && t' in b && s + t == s' + t' ==> s == s' && t == t'
  }

  lemma {:induction false} JoinsOneSize(s: seq<Name>, b: set<seq<Name>>)
    ensures |Extensions(s, b)| == |b|
  {
    if b == {} {
      assert Extensions(s, b) == {};
    } else {
      var t0 :| t0 in b;
      JoinsOneSize(s, b - {t0});
      var rest := Extensions(s, b - {t0});
      assert Extensions(s, b) == rest + {s + t0};
      forall t | t in b - {t0}
        ensures s + t != s + t0
      {
        assert (s + t)[|s|..] == t && (s + t0)[|s|..] == t0;
      }
    }
  }

  lemma JoinsStep(a: set<seq<Name>>, b: set<seq<Name>>, s0: seq<Name>)
    requires SplitsUniquely(a, b) && s0 in a
    ensures Joins(a, b) == Joins(a - {s0}, b) + Extensions(s0, b)
    ensures Joins(a - {s0}, b) !! Extensions(s0, b)
    ensures SplitsUniquely(a - {s0}, b)
  {
  }

  lemma {:induction false} JoinsSize(a: set<seq<Name>>, b: set<seq<Name>>)
    requires SplitsUniquely(a, b)
    ensures |Joins(a, b)| == |a| * |b|
  {
    if a == {} {
      assert Joins(a, b) == {};
    } else {
      var s0 :| s0 in a;
      JoinsStep(a, b, s0);
      JoinsOneSize(s0, b);
      JoinsSize(a - {s0}, b);
      OneMore(|a - {s0}|, |a|, |b|);
    }
  }

  lemma OneMore(k: int, n: int, m: int)
    requires n == k + 1
    ensures k * m + m == n * m
  {
  }

  /** The first place where a walk takes the edge from `c` to `p`, or the end of the walk. */
  ghost function FirstUse(s: seq<Name>, c: Name, p: Name): (i: nat)
    ensures i < |s| - 1 ==> s[i] == c && s[i + 1] == p
    ensures forall j :: 0 <= j < i && j < |s| - 1 ==> !(s[j] == c && s[j + 1] == p)
  {
    if |s| <= 1 then |s|
    else if s[0] == c && s[1] == p then 0
    else
      var k := FirstUse(s[1..], c, p);
      assert forall j :: 0 < j < |s| ==> s[j] == s[1..][j - 1];
      k + 1
  }

  /** A path that avoids the edge is a path without it. */
  lemma AvoidsEdge(e: set<Edge>, s: seq<Name>, u: Name, v: Name, c: Name, p: Name)
    requires IsPath(e, s, u, v)
    requires forall j :: 0 <= j < |s| - 1 ==> !(s[j] == c && s[j + 1] == p)
    ensures IsPath(e - {(c, p)}, s, u, v)
  {
  }

  /** When `p` does not reach `c` without the edge, a path uses the edge at most once. */
  lemma UsesOnce(e: set<Edge>, s: seq<Name>, u: Name, v: Name, c: Name, p: Name, i: nat)
    requires IsPath(e, s, u, v)
    requires i < |s| - 1 && s[i] == c && s[i + 1] == p
    requires forall j :: 0 <= j < i ==> !(s[j] == c && s[j + 1] == p)
    requires !Reaches(e - {(c, p)}, p, c)
    ensures IsPath(e - {(c, p)}, s[..i + 1], u, c)
    ensures IsPath(e - {(c, p)}, s[i + 1..], p, v)
  {
    hide IsPath, Reaches;
    StartOf(e, s, u, v);
    SubPath(e, s, u, v, 0, i);
    assert s[0..i + 1] == s[..i + 1];
    AvoidsEdge(e, s[..i + 1], u, c, c, p);
    SubPath(e, s, u, v, i + 1, |s| - 1);
    assert s[i + 1..|s|] == s[i + 1..];
    NeverUses(e, s[i + 1..], v, c, p);
  }

  /** A path from the parent of an edge does not come to use it. */
  lemma NeverUses(e: set<Edge>, t: seq<Name>, v: Name, c: Name, p: Name)
    requires IsPath(e, t, p, v) && !Reaches(e - {(c, p)}, p, c)
    ensures IsPath(e - {(c, p)}, t, p, v)
  {
    hide IsPath;
    var k := FirstUse(t, c, p);
    if k < |t| - 1 {
      SubPath(e, t, p, v, 0, k);
      StartOf(e, t, p, v);
      AvoidsEdge(e, t[0..k + 1], p, c, c, p);
    } else {
      AvoidsEdge(e, t, p, v, c, p);
    }
  }

  lemma StartOf(e: set<Edge>, s: seq<Name>, u: Name, v: Name)
    requires IsPath(e, s, u, v)
    ensures |s| > 0 && s[0] == u && s[|s| - 1] == v
  {
  }

  /** The paths of a graph with the edge are those without it, and those made of a path to its
      child followed by a path from its parent, each exactly once. */
  lemma PathsThroughEdge(e: set<Edge>, u: Name, v: Name, c: Name, p: Name,
                         direct: set<seq<Name>>, before: set<seq<Name>>, after: set<seq<Name>>)
    requires (c, p) in e
    requires !Reaches(e - {(c, p)}, p, c)
    requires PathsAre(e - {(c, p)}, u, v, direct)
    requires PathsAre(e - {(c, p)}, u, c, before)
    requires PathsAre(e - {(c, p)}, p, v, after)
    ensures PathsAre(e, u, v, direct + Joins(before, after))
    ensures |direct + Joins(before, after)| == |direct| + |before| * |after|
  {
    var e' := e - {(c, p)};
    forall s | IsPath(e, s, u, v)
      ensures s in direct + Joins(before, after)
    {
      var i := FirstUse(s, c, p);
      if i < |s| - 1 {
        UsesOnce(e, s, u, v, c, p, i);
        assert s[..i + 1] in before && s[i + 1..] in after;
        assert s == s[..i + 1] + s[i + 1..];
      } else {
        AvoidsEdge(e, s, u, v, c, p);
      }
    }
    forall a, b | a in before && b in after
      ensures IsPath(e, a + b, u, v)
      ensures (a + b)[|a| - 1] == c && (a + b)[|a|] == p
    {
      assert IsPath(e', a, u, c) && IsPath(e', b, p, v);
      var s := a + b;
      forall j | 0 <= j < |s| - 1
        ensures (s[j], s[j + 1]) in e
      {
        if j < |a| - 1 {
          assert (a[j], a[j + 1]) in e';
        } else if j > |a| - 1 {
          assert (b[j - |a|], b[j - |a| + 1]) in e';
        }
      }
    }
    forall s | s in direct + Joins(before, after)
      ensures IsPath(e, s, u, v)
    {
      if s in direct {
        assert IsPath(e', s, u, v);
      }
    }
    forall s | s in Joins(before, after)
      ensures s !in direct
    {
      var a, b :| a in before && b in after && s == a + b;
      assert (s[|a| - 1], s[|a| - 1 + 1]) !in e';
    }
    assert direct !! Joins(before, after);
    JoinSplits(e', u, v, c, p, before, after);
    JoinsSize(before, after);
  }

  lemma JoinSplits(e: set<Edge>, u: Name, v: Name, c: Name, p: Name, before: set<seq<Name>>, after: set<seq<Name>>)
    requires (c, p) !in e
    requires PathsAre(e, u, c, before) && PathsAre(e, p, v, after)
    ensures SplitsUniquely(before, after)
  {
    forall s, s', t, t' | s in before && s' in before && t in after && t' in after && s + t == s' + t'
      ensures s == s' && t == t'
    {
      LongerPrefixUsesEdge(e, u, v, c, p, s, s', t, t');
      LongerPrefixUsesEdge(e, u, v, c, p, s', s, t', t);
      assert s == (s + t)[..|s|] && s' == (s' + t')[..|s'|];
      assert t == (s + t)[|s|..] && t' == (s' + t')[|s'|..];
    }
  }

  lemma LongerPrefixUsesEdge(e: set<Edge>, u: Name, v: Name, c: Name, p: Name,
                             s: seq<Name>, s': seq<Name>, t: seq<Name>, t': seq<Name>)
    requires IsPath(e, s, u, c) && IsPath(e, s', u, c) && IsPath(e, t, p, v) && IsPath(e, t', p, v)
    requires s + t == s' + t'
    ensures |s| < |s'| ==> (c, p) in e
  {
    if |s| < |s'| {
      assert s'[|s| - 1] == (s + t)[|s| - 1] == c;
      assert s'[|s|] == (s + t)[|s|] == p;
      assert (s'[|s| - 1], s'[|s| - 1 + 1]) in e;
    }
  }

  /** Linking `c` to `p` adds, between any two names, the number of paths to `c` times the
      number of paths from `p`. */
  lemma CountsAddEdge(e: set<Edge>, u: Name, v: Name, c: Name, p: Name, n: int, a: int, b: int)
    requires (c, p) !in e
    requires Counts(e, p, c, 0)
    requires Counts(e, u, v, n) && Counts(e, u, c, a) && Counts(e, p, v, b)
    ensures Counts(e + {(c, p)}, u, v, n + a * b)
  {
    hide IsPath, Reaches, PathsAre, Joins;
    var e' := e + {(c, p)};
    assert e' - {(c, p)} == e;
    CountsPositive(e, p, c, 0);
    var direct :| PathsAre(e, u, v, direct) && |direct| == n;
    var before :| PathsAre(e, u, c, before) && |before| == a;
    var after :| PathsAre(e, p, v, after) && |after| == b;
    PathsThroughEdge(e', u, v, c, p, direct, before, after);
    CountsBy(e', u, v, direct + Joins(before, after), n + a * b);
  }

  lemma CountsBy(e: set<Edge>, u: Name, v: Name, paths: set<seq<Name>>, n: int)
    requires PathsAre(e, u, v, paths) && |paths| == n
    ensures Counts(e, u, v, n)
  {
    hide PathsAre;
  }

  /** Unlinking `c` from `p` takes the same product away again, computed with the counts that
      still include the edge. */
  lemma CountsRemoveEdge(e: set<Edge>, u: Name, v: Name, c: Name, p: Name, n: int, a: int, b: int)
    requires (c, p) in e
    requires Counts(e, p, c, 0)
    requires Counts(e, u, v, n) && Counts(e, u, c, a) && Counts(e, p, v, b)
    ensures Counts(e - {(c, p)}, u, v, n - a * b)
  {
    hide IsPath, Reaches, PathsAre, Counts, Joins;
    NoReturn(e, c, p);
    var direct := CountableWithout(e, u, v, c, p, n);
    var before := CountableWithout(e, u, c, c, p, a);
    var after := CountableWithout(e, p, v, c, p, b);
    var none: set<seq<Name>> := {};
    PathsThroughEdge(e, u, v, c, p, direct, before, after);
    CountsBy(e, u, v, direct + Joins(before, after), |direct| + |before| * |after|);
    CountsUnique(e, u, v, n, |direct| + |before| * |after|);
    PathsThroughEdge(e, u, c, c, p, before, before, none);
    CountsBy(e, u, c, before + Joins(before, none), |before|);
    CountsUnique(e, u, c, a, |before|);
    PathsThroughEdge(e, p, v, c, p, after, none, after);
    CountsBy(e, p, v, after + Joins(none, after), |after|);
    CountsUnique(e, p, v, b, |after|);
    CountsBy(e - {(c, p)}, u, v, direct, n - a * b);
  }

  lemma NoReturn(e: set<Edge>, c: Name, p: Name)
    requires Counts(e, p, c, 0)
    ensures !Reaches(e - {(c, p)}, p, c) && PathsAre(e - {(c, p)}, p, c, {})
  {
    hide IsPath;
    CountsPositive(e, p, c, 0);
    forall s
      ensures !IsPath(e - {(c, p)}, s, p, c)
    {
      if IsPath(e - {(c, p)}, s, p, c) {
        PathGrows(e - {(c, p)}, e, s, p, c);
      }
    }
  }

  /** The paths that remain after an edge is taken away are still finitely many. */
  lemma CountableWithout(e: set<Edge>, u: Name, v: Name, c: Name, p: Name, n: int) returns (paths: set<seq<Name>>)
    requires Counts(e, u, v, n)
    ensures PathsAre(e - {(c, p)}, u, v, paths)
  {
    var all :| PathsAre(e, u, v, all) && |all| == n;
    paths := set s | s in all && IsPath(e - {(c, p)}, s, u, v);
    forall s | IsPath(e - {(c, p)}, s, u, v)
      ensures s in paths
    {
      PathGrows(e - {(c, p)}, e, s, u, v);
    }
  }

  // ----- cycles -----

  lemma AcyclicSubset(e: set<Edge>, e': set<Edge>)
    requires e <= e' && Acyclic(e')
    ensures Acyclic(e)
  {
    forall s, u | IsPath(e, s, u, u)
      ensures |s| == 1
    {
      PathGrows(e, e', s, u, u);
    }
  }

  /** Linking `c` to `p` closes a cycle exactly when `p` already depends on `c`. */
  lemma AcyclicAddEdge(e: set<Edge>, c: Name, p: Name)
    requires Acyclic(e)
    ensures Acyclic(e + {(c, p)}) <==> !Reaches(e, p, c)
  {
    var e' := e + {(c, p)};
    if Reaches(e, p, c) {
      var s :| IsPath(e, s, p, c);
      PathGrows(e, e', s, p, c);
      assert IsPath(e', [c, p], c, p);
      JoinPaths(e', [c, p], s, c, p, c);
    } else {
      forall s, u | IsPath(e', s, u, u)
        ensures |s| == 1
      {
        NewCycle(e, s, u, c, p);
      }
    }
  }

  lemma NewCycle(e: set<Edge>, s: seq<Name>, u: Name, c: Name, p: Name)
    requires Acyclic(e) && !Reaches(e, p, c)
    requires IsPath(e + {(c, p)}, s, u, u)
    ensures |s| == 1
  {
    var e' := e + {(c, p)};
    if (c, p) in e {
      assert e' == e;
    } else {
      assert e' - {(c, p)} == e;
      var i := FirstUse(s, c, p);
      if i < |s| - 1 {
        UsesOnce(e', s, u, u, c, p, i);
        ReachesTransitive(e, p, u, c);
      } else {
        AvoidsEdge(e', s, u, u, c, p);
      }
    }
  }

  /** Two names of an acyclic graph cannot depend on each other. */
  lemma NoTwoWays(e: set<Edge>, u: Name, v: Name)
    requires Acyclic(e) && Reaches(e, u, v) && Reaches(e, v, u)
    ensures u == v
  {
    var s :| IsPath(e, s, u, v);
    var t :| IsPath(e, t, v, u);
    JoinPaths(e, s, t, u, v, u);
  }

  /** The names, other than `u`, that depend on `u`. */
  ghost function Dependents(e: set<Edge>, names: set<Name>, u: Name): set<Name>
  {
    set x | x in names && x != u && Reaches(e, x, u)
  }

  /** Every non-empty finite acyclic graph has a name on which nothing depends. */
  lemma {:induction false} SomeLeaf(e: set<Edge>, names: set<Name>, u: Name) returns (leaf: Name)
    requires Acyclic(e) && u in names
    requires forall c, p :: (c, p) in e ==> c in names && p in names
    ensures leaf in names
    ensures forall c :: (c, leaf) !in e
    decreases Dependents(e, names, u)
  {
    if c :| (c, u) in e {
      EdgeReaches(e, c, u);
      assert c != u by {
        assert IsPath(e, [c, u], c, u);
      }
      forall x | x in Dependents(e, names, c)
        ensures x in Dependents(e, names, u)
      {
        ReachesTransitive(e, x, c, u);
        if x == u {
          NoTwoWays(e, u, c);
        }
      }
      assert c in Dependents(e, names, u) && c !in Dependents(e, names, c);
      leaf := SomeLeaf(e, names, c);
    } else {
      leaf := u;
    }
  }

  // ----- restriction and renaming -----

  /** The edges whose two ends are both among `names`. */
  ghost function Induced(e: set<Edge>, names: set<Name>): set<Edge>
  {
    set x | x in e && x.0 in names && x.1 in names
  }

  /** Keeping every name that depends on `node` keeps every path to `node`. */
  lemma InducedReaches(e: set<Edge>, names: set<Name>, u: Name, node: Name)
    requires Reaches(e, u, node)
    requires forall x :: Reaches(e, x, node) && (x == u || exists y :: (y, x) in e) ==> x in names
    ensures Reaches(Induced(e, names), u, node)
  {
    var s :| IsPath(e, s, u, node);
    forall i | 0 <= i < |s|
      ensures s[i] in names
    {
      SubPath(e, s, u, node, i, |s| - 1);
      if i > 0 {
        assert (s[i - 1], s[i - 1 + 1]) in e;
      }
    }
    assert IsPath(Induced(e, names), s, u, node);
  }

  function Renamed(old_: Name, new_: Name, x: Name): Name
  {
    if x == old_ then new_ else x
  }

  ghost function RenamedPath(old_: Name, new_: Name, s: seq<Name>): seq<Name>
  {
    seq(|s|, i requires 0 <= i < |s| => Renamed(old_, new_, s[i]))
  }

  ghost function RenamedEdges(old_: Name, new_: Name, e: set<Edge>): set<Edge>
  {
    set x | x in e :: (Renamed(old_, new_, x.0), Renamed(old_, new_, x.1))
  }

  lemma RenamedIsPath(e: set<Edge>, e': set<Edge>, s: seq<Name>, u: Name, v: Name, a: Name, b: Name)
    requires IsPath(e, s, u, v)
    requires forall x :: x in e ==> (Renamed(a, b, x.0), Renamed(a, b, x.1)) in e'
    ensures IsPath(e', RenamedPath(a, b, s), Renamed(a, b, u), Renamed(a, b, v))
  {
  }

  /** A name that no edge touches is on no path between other names. */
  lemma OffPath(e: set<Edge>, s: seq<Name>, u: Name, v: Name, b: Name)
    requires IsPath(e, s, u, v) && u != b
    requires forall x :: (x, b) !in e
    ensures b !in s
  {
    forall i | 0 <= i < |s|
      ensures s[i] != b
    {
      if i > 0 {
        assert (s[i - 1], s[i - 1 + 1]) in e;
      }
    }
  }

  lemma {:induction false} RenamedPathsSize(a: Name, b: Name, paths: set<seq<Name>>)
    requires forall s :: s in paths ==> b !in s
    ensures |set s | s in paths :: RenamedPath(a, b, s)| == |paths|
  {
    if paths == {} {
      assert (set s | s in paths :: RenamedPath(a, b, s)) == {};
    } else {
      var t :| t in paths;
      RenamedPathsSize(a, b, paths - {t});
      var rest := set s | s in paths - {t} :: RenamedPath(a, b, s);
      assert (set s | s in paths :: RenamedPath(a, b, s)) == rest + {RenamedPath(a, b, t)};
      forall s | s in paths - {t}
        ensures RenamedPath(a, b, s) != RenamedPath(a, b, t)
      {
        RenamedBack(a, b, s);
        RenamedBack(a, b, t);
      }
    }
  }

  lemma RenamedBack(a: Name, b: Name, s: seq<Name>)
    requires b !in s
    ensures RenamedPath(b, a, RenamedPath(a, b, s)) == s
  {
  }

  /** Renaming `a` to a name without edges keeps the number of paths between any two names. */
  lemma CountsRenamed(e: set<Edge>, u: Name, v: Name, a: Name, b: Name, n: int)
    requires forall x :: (b, x) !in e && (x, b) !in e
    requires u != b && v != b
    requires Counts(e, u, v, n)
    ensures Counts(RenamedEdges(a, b, e), Renamed(a, b, u), Renamed(a, b, v), n)
  {
    var e' := RenamedEdges(a, b, e);
    var paths :| PathsAre(e, u, v, paths) && |paths| == n;
    var paths' := set s | s in paths :: RenamedPath(a, b, s);
    assert forall x :: x in e ==> (x.0, x.1) in e;
    forall s | s in paths
      ensures b !in s && IsPath(e', RenamedPath(a, b, s), Renamed(a, b, u), Renamed(a, b, v))
    {
      OffPath(e, s, u, v, b);
      RenamedIsPath(e, e', s, u, v, a, b);
    }
    forall s | IsPath(e', s, Renamed(a, b, u), Renamed(a, b, v))
      ensures s in paths'
    {
      RenamedIsPath(e', e, s, Renamed(a, b, u), Renamed(a, b, v), b, a);
      var t := RenamedPath(b, a, s);
      assert t in paths;
      if a != b {
        assert forall x :: (x, a) !in e';
        assert a !in s by {
          if Renamed(a, b, u) != a {
            OffPath(e', s, Renamed(a, b, u), Renamed(a, b, v), a);
          }
        }
      }
      RenamedBack(b, a, s);
    }
    RenamedPathsSize(a, b, paths);
  }
}

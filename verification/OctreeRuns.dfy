/** Whole runs of the octree: any sequence of calls of `Set`, compared with a plain map from points
    to data. */
module OctreeRuns {
  import opened OctreeModel
  import opened Options

  /** One call of `Set`. */
  datatype Call = Call(p: Point, d: Data)

  function SetAll(t: Octree, calls: seq<Call>): Octree
    decreases |calls|
  {
    if calls == [] then t else SetAll(Set(t, calls[0].p, calls[0].d).tree, calls[1..])
  }

  ghost predicate Agrees(t: Octree, m: map<Point, Data>)
  {
    forall q :: At(t, q) == if q in m then Some(m[q]) else None
  }

  function Put(m: map<Point, Data>, c: Call, accepted: bool): map<Point, Data>
  {
    if accepted && !Ignored(c.p, c.d) then m[c.p := c.d] else m
  }

  lemma PutAgrees(t: Octree, m: map<Point, Data>, c: Call)
    requires WellFormed(t) && Agrees(t, m)
    ensures Agrees(Set(t, c.p, c.d).tree, Put(m, c, SetOutcome(t, c.p, c.d, 0).Ok?))
  {
    hide WellFormed, HelperSet, At, SetOutcome;
    SetCorrect(t, c.p, c.d, 0);
    forall q
      ensures At(Set(t, c.p, c.d).tree, q) ==
          if SetOutcome(t, c.p, c.d, 0).Ok? && !Ignored(c.p, c.d) && q == c.p then Some(c.d) else At(t, q)
    {
      SetThenAt(t, c.p, c.d, q);
    }
  }

  // ----- runs of any calls -----

  /** The map after the calls; each is carried out if the tree it meets has the point in reach. */
  ghost function MapAfter(t: Octree, m: map<Point, Data>, calls: seq<Call>): map<Point, Data>
    decreases |calls|
  {
    if calls == [] then m
    else
      var c := calls[0];
      MapAfter(Set(t, c.p, c.d).tree, Put(m, c, SetOutcome(t, c.p, c.d, 0).Ok?), calls[1..])
  }

  /** No call meets a stored point. */
  ghost predicate NeverOverwrites(t: Octree, calls: seq<Call>)
    decreases |calls|
  {
    calls != [] ==>
      && !Overwrites(t, calls[0].p, calls[0].d, 0)
      && NeverOverwrites(Set(t, calls[0].p, calls[0].d).tree, calls[1..])
  }

  /** In every run the tree answers lookups as the plain map does, its sizes cover what is below
      them, and as long as no point is overwritten they are exact. */
  lemma {:induction false} RunAgrees(t: Octree, m: map<Point, Data>, calls: seq<Call>)
    requires WellFormed(t) && Agrees(t, m) && SizesCover(t)
    ensures WellFormed(SetAll(t, calls)) && Agrees(SetAll(t, calls), MapAfter(t, m, calls))
    ensures SizesCover(SetAll(t, calls))
    ensures SizesExact(t) && NeverOverwrites(t, calls) ==> SizesExact(SetAll(t, calls))
    decreases |calls|
  {
    hide WellFormed, SizesExact, SizesCover, HelperSet, SetOutcome, Agrees, Overwrites, Put;
    if calls != [] {
      var c := calls[0];
      SetCorrect(t, c.p, c.d, 0);
      SetCovers(t, c.p, c.d, 0);
      if SizesExact(t) {
        SetSizes(t, c.p, c.d, 0);
      }
      PutAgrees(t, m, c);
      RunAgrees(Set(t, c.p, c.d).tree, Put(m, c, SetOutcome(t, c.p, c.d, 0).Ok?), calls[1..]);
    }
  }

  // ----- runs in which every call succeeds -----

  /** The side of a cube after `n` halvings. */
  function Halved(side: real, n: nat): real
    decreases n
  {
    if n == 0 then side else Halved(side / 2.0, n - 1)
  }

  /** Two points differ by more than a distance in some coordinate. */
  predicate Apart(p: Point, q: Point, distance: real)
  {
    Abs(p.x - q.x) > distance || Abs(p.y - q.y) > distance || Abs(p.z - q.z) > distance
  }

  lemma SameCube(center: Point, side: real, p: Point, q: Point)
    requires InCube(center, side, p) && InCube(center, side, q)
    ensures !Apart(p, q, side)
  {
  }

  /** Points that share `n` levels are no further apart than the side halved `n` times, so points
      further apart part in time. */
  lemma {:induction false} SharedIsNear(center: Point, side: real, p: Point, q: Point, n: nat)
    requires InCube(center, side, p) && InCube(center, side, q) && ShareLevels(center, side, p, q, n)
    ensures !Apart(p, q, Halved(side, n))
    decreases n
  {
    hide InCube, OctantCenter, Apart;
    SameCube(center, side, p, q);
    if n > 0 {
      SharedIsNear(OctantCenter(center, side, FirstOctant(center, side, p)), side / 2.0, p, q, n - 1);
    }
  }

  lemma {:induction false} LeafHolds(t: Octree, p: Point)
    requires WellFormed(t) && Holds(t, p)
    ensures WellFormed(LeafFor(t, p)) && Holds(LeafFor(t, p), p) && !LeafFor(t, p).node.Internal?
    decreases t
  {
    hide InCube, OctantCenter;
    if t.node.Internal? {
      SomeOctantHolds(t.center, t.side, t.node.children, p);
      LeafHolds(t.node.children[FirstHolding(t.node.children, p)], p);
    }
  }

  /** A point is in reach if its leaf is, and the point found there is further away than the side of the
      leaf halved once for every two steps that are left. */
  lemma FarIsInReach(t: Octree, p: Point, depth: nat)
    requires WellFormed(t) && Holds(t, p) && depth + Level(t, p) < MAX_RECURSION_DEPTH
    requires var leaf := LeafFor(t, p);
      leaf.node.Filled? && leaf.node.p != p ==>
        Apart(p, leaf.node.p, Halved(leaf.side, (MAX_RECURSION_DEPTH - depth - Level(t, p) - 1) / 2))
    ensures InReach(t, p, depth)
  {
    hide InCube, ShareLevels, Apart, Halved;
    LeafHolds(t, p);
    var leaf := LeafFor(t, p);
    var n := (MAX_RECURSION_DEPTH - depth - Level(t, p) - 1) / 2;
    if leaf.node.Filled? && leaf.node.p != p && ShareLevels(leaf.center, leaf.side, p, leaf.node.p, n) {
      SharedIsNear(leaf.center, leaf.side, p, leaf.node.p, n);
    }
  }

  /** Inner nodes are found on the first `n` levels only. */
  ghost predicate Shallow(t: Octree, n: nat)
  {
    t.node.Internal? ==> n > 0 && forall k :: 0 <= k < |t.node.children| ==> Shallow(t.node.children[k], n - 1)
  }

  /** No stored point other than `p` is near it. */
  ghost predicate Clear(t: Octree, p: Point, distance: real)
  {
    forall q :: Stores(t, q) && q != p ==> Apart(p, q, distance)
  }

  lemma ClearChild(t: Octree, p: Point, k: nat, distance: real)
    requires t.node.Internal? && k < |t.node.children| && Clear(t, p, distance)
    ensures Clear(t.node.children[k], p, distance)
  {
    forall q | Stores(t.node.children[k], q)
      ensures Stores(t, q)
    {
      var d :| (q, d) in Points(t.node.children[k]);
      PointsInMember(t.node.children, (q, d));
    }
  }

  /** In a shallow tree a point with no other one near it is always accepted, and the tree stays shallow. */
  lemma {:induction false} ClearSet(t: Octree, p: Point, d: Data, depth: nat, n: nat)
    requires WellFormed(t) && Holds(t, p) && !Ignored(p, d) && Shallow(t, n)
    requires depth + 2 * n < MAX_RECURSION_DEPTH && Clear(t, p, Halved(t.side, n))
    ensures HelperSet(t, p, d, depth).outcome == Ok && Shallow(HelperSet(t, p, d, depth).tree, n)
    decreases n
  {
    hide InCube, OctantCenter, Clear, Apart, SplitIntoOctants;
    match t.node
    case Internal(cs) =>
      SomeOctantHolds(t.center, t.side, cs, p);
      var k := FirstHolding(cs, p);
      ClearChild(t, p, k, Halved(t.side, n));
      ClearSet(cs[k], p, d, depth + 1, n - 1);
    case Filled(q, _) =>
      if q != p {
        ClearLeaf(t, p, n);
        SplitCorrect(t);
        SplitClear(t, p, n);
        var r := SplitIntoOctants(t).tree;
        SomeOctantHolds(r.center, r.side, r.node.children, p);
        var k := FirstHolding(r.node.children, p);
        ClearSet(r.node.children[k], p, d, depth + 2, n - 1);
      }
    case Empty =>
  }

  lemma ClearLeaf(t: Octree, p: Point, n: nat)
    requires WellFormed(t) && t.node.Filled? && t.node.p != p && Holds(t, p) && Clear(t, p, Halved(t.side, n))
    ensures n > 0
  {
    assert (t.node.p, t.node.d) in Points(t);
    assert Stores(t, t.node.p);
    SameCube(t.center, t.side, p, t.node.p);
  }

  lemma SplitClear(t: Octree, p: Point, n: nat)
    requires WellFormed(t) && t.node.Filled? && Clear(t, p, Halved(t.side, n)) && n > 0
    ensures var r := SplitIntoOctants(t).tree;
      && r.node.Internal? && |r.node.children| == 8
      && forall k :: 0 <= k < 8 ==> !r.node.children[k].node.Internal? && Clear(r.node.children[k], p, Halved(t.side / 2.0, n - 1))
  {
    hide InCube, OctantCenter, Apart, Clear;
    SplitCorrect(t);
    SplitSizes(t);
    var r := SplitIntoOctants(t).tree;
    SplitStores(t, p, Halved(t.side, n));
    forall k | 0 <= k < 8
      ensures !r.node.children[k].node.Internal? && Clear(r.node.children[k], p, Halved(t.side / 2.0, n - 1))
    {
      ClearChild(r, p, k, Halved(t.side, n));
    }
  }

  lemma SplitStores(t: Octree, p: Point, distance: real)
    requires WellFormed(t) && t.node.Filled? && Clear(t, p, distance)
    ensures Clear(SplitIntoOctants(t).tree, p, distance)
  {
    SplitSizes(t);
    assert (t.node.p, t.node.d) in Points(t);
    assert Stores(t, t.node.p);
  }

  const SAFE_LEVELS := 499

  ghost predicate Spaced(points: set<Point>, distance: real)
  {
    forall p, q :: p in points && q in points && p != q ==> Apart(p, q, distance)
  }

  function Called(calls: seq<Call>): set<Point>
  {
    set c | c in calls :: c.p
  }

  /** The map that the calls describe, with no tree in sight. */
  function PlainAfter(m: map<Point, Data>, calls: seq<Call>): map<Point, Data>
    decreases |calls|
  {
    if calls == [] then m else PlainAfter(Put(m, calls[0], true), calls[1..])
  }

  /** As long as the points lie in the cube and differ by more than its side halved 499 times, every
      call succeeds: the tree answers as the plain map of the calls. */
  lemma {:induction false} SpacedRunAgrees(t: Octree, m: map<Point, Data>, calls: seq<Call>)
    requires WellFormed(t) && Agrees(t, m) && Shallow(t, SAFE_LEVELS)
    requires Spaced(m.Keys + Called(calls), Halved(t.side, SAFE_LEVELS))
    requires forall c :: c in calls ==> Holds(t, c.p)
    ensures Agrees(SetAll(t, calls), PlainAfter(m, calls))
    decreases |calls|
  {
    hide WellFormed, HelperSet, SetOutcome, Shallow, Apart, Halved, InCube, At;
    if calls != [] {
      var c := calls[0];
      var t' := Set(t, c.p, c.d).tree;
      assert c in calls;
      SetCorrect(t, c.p, c.d, 0);
      if Ignored(c.p, c.d) {
        IgnoredSet(t, c.p, c.d);
      } else {
        StoredAreKeys(t, m);
        ClearSet(t, c.p, c.d, 0, SAFE_LEVELS);
      }
      PutAgrees(t, m, c);
      assert forall x :: x in calls[1..] ==> x in calls;
      SpacedRunAgrees(t', Put(m, c, true), calls[1..]);
    }
  }

  lemma IgnoredSet(t: Octree, p: Point, d: Data)
    requires Ignored(p, d)
    ensures SetOutcome(t, p, d, 0) == Ok && Set(t, p, d).tree == t
  {
  }

  lemma StoredAreKeys(t: Octree, m: map<Point, Data>)
    requires WellFormed(t) && Agrees(t, m)
    ensures forall q :: Stores(t, q) ==> q in m
  {
    forall q | Stores(t, q)
      ensures q in m
    {
      var d :| (q, d) in Points(t);
      AtIsStored(t, q, d);
    }
  }

  /** The same from an empty tree. */
  lemma FreshRunAgrees(center: Point, side: real, calls: seq<Call>)
    requires side > 0.0 && Spaced(Called(calls), Halved(side, SAFE_LEVELS))
    requires forall c :: c in calls ==> InCube(center, side, c.p)
    ensures Agrees(SetAll(Octree(Empty, center, side, 0), calls), PlainAfter(map[], calls))
  {
    hide Halved;
    SpacedRunAgrees(Octree(Empty, center, side, 0), map[], calls);
  }
}

/** The octree point cloud, as values.

A node covers a cube. Inner nodes have eight children, one per octant; a point on the border
between octants lies in several of them, and belongs to the first. The functions here are the
reference for the mutable `BasicOctree`; the lemmas say that looking a point up, setting it and
iterating agree with a plain map from points to data.
*/
module OctreeModel {
  import opened Options

  datatype Point = Point(x: real, y: real, z: real)

  /** `Nil` is the nil data. */
  datatype Data = Nil | Data(value: int)

  datatype Error = MaxRecursionDepth | OutOfBounds | InvalidInternalNode

  datatype Outcome = Ok | Err(error: Error)

  datatype Node = Internal(children: seq<Octree>) | Empty | Filled(p: Point, d: Data)

  datatype Octree = Octree(node: Node, center: Point, side: real, size: int)

  const MAX_RECURSION_DEPTH := 1000

  const ORIGIN := Point(0.0, 0.0, 0.0)

  // ----- cubes -----

  function Abs(r: real): real
  {
    if r < 0.0 then -r else r
  }

  /** The point lies in the cube, border included. */
  predicate InCube(center: Point, side: real, p: Point)
  {
    && Abs(center.x - p.x) <= side / 2.0
    && Abs(center.y - p.y) <= side / 2.0
    && Abs(center.z - p.z) <= side / 2.0
  }

  predicate Holds(t: Octree, p: Point)
  {
    InCube(t.center, t.side, p)
  }

  function Sign(bit: bool): real
  {
    if bit then 1.0 else -1.0
  }

  /** The center of the `k`th octant: x varies slowest and z fastest, the lower half first. */
  function OctantCenter(center: Point, side: real, k: nat): Point
    requires k < 8
  {
    var half := side / 2.0;
    Point(center.x + Sign(k >= 4) * half / 2.0,
          center.y + Sign(k % 4 >= 2) * half / 2.0,
          center.z + Sign(k % 2 == 1) * half / 2.0)
  }

  function EmptyOctants(center: Point, side: real): seq<Octree>
  {
    seq(8, k requires 0 <= k < 8 => Octree(Empty, OctantCenter(center, side, k), side / 2.0, 0))
  }

  /** The octants of a cube cover it. */
  lemma OctantsCover(center: Point, side: real, p: Point) returns (k: nat)
    requires InCube(center, side, p)
    ensures k < 8 && InCube(OctantCenter(center, side, k), side / 2.0, p)
  {
    k := (if p.x >= center.x then 4 else 0) + (if p.y >= center.y then 2 else 0) + (if p.z >= center.z then 1 else 0);
  }

  lemma OctantInside(center: Point, side: real, k: nat, p: Point)
    requires k < 8 && InCube(OctantCenter(center, side, k), side / 2.0, p)
    ensures InCube(center, side, p)
  {
  }

  /** The first of the trees that holds the point, or their number. */
  function FirstHolding(cs: seq<Octree>, p: Point): (k: nat)
    ensures k <= |cs|
    ensures k < |cs| ==> Holds(cs[k], p)
    ensures forall i :: 0 <= i < k ==> !Holds(cs[i], p)
  {
    if cs == [] then 0
    else if Holds(cs[0], p) then 0
    else
      var k := FirstHolding(cs[1..], p);
      assert forall i :: 0 < i < |cs| ==> cs[i] == cs[1..][i - 1];
      k + 1
  }

  // ----- what a tree stores -----

  /** The stored points with their data, in the order of traversal. */
  function Points(t: Octree): seq<(Point, Data)>
    decreases t, 1
  {
    match t.node
    case Internal(cs) => PointsIn(cs)
    case Empty => []
    case Filled(p, d) => [(p, d)]
  }

  function PointsIn(cs: seq<Octree>): seq<(Point, Data)>
    decreases cs, 0
  {
    if cs == [] then [] else Points(cs[0]) + PointsIn(cs[1..])
  }

  ghost predicate Stores(t: Octree, p: Point)
  {
    exists d :: (p, d) in Points(t)
  }

  lemma {:induction false} PointsInMember(cs: seq<Octree>, x: (Point, Data))
    ensures x in PointsIn(cs) <==> exists k :: 0 <= k < |cs| && x in Points(cs[k])
  {
    if cs != [] {
      PointsInMember(cs[1..], x);
      if k :| 0 <= k < |cs[1..]| && x in Points(cs[1..][k]) {
        assert x in Points(cs[k + 1]);
      }
      if k :| 0 <= k < |cs| && x in Points(cs[k]) {
        assert k > 0 ==> cs[k] == cs[1..][k - 1];
      }
    }
  }

  /** The shape every tree built from an empty one keeps: children are exactly the octants, no
      leaf holds the ignored zero point, and every stored point lies in its leaf's cube and on its
      path of first children. */
  ghost predicate WellFormed(t: Octree)
    decreases t, 1
  {
    && t.side > 0.0
    && match t.node
       case Empty => true
       case Filled(p, d) => Holds(t, p) && !(p == ORIGIN && d == Nil)
       case Internal(cs) => GoodChildren(t.center, t.side, cs)
  }

  /** The eight octants with the right cubes, each well formed and storing only what is its own. */
  ghost predicate GoodChildren(center: Point, side: real, cs: seq<Octree>)
    decreases cs, 0
  {
    && |cs| == 8
    && (forall k :: 0 <= k < 8 ==> cs[k].center == OctantCenter(center, side, k) && cs[k].side == side / 2.0)
    && (forall k :: 0 <= k < 8 ==> WellFormed(cs[k]))
    && (forall k, p :: 0 <= k < 8 && Stores(cs[k], p) ==> FirstHolding(cs, p) == k)
  }

  lemma {:induction false} StoredIsHeld(t: Octree, p: Point)
    requires WellFormed(t) && Stores(t, p)
    ensures Holds(t, p)
    decreases t
  {
    hide InCube, OctantCenter;
    if t.node.Internal? {
      var d :| (p, d) in Points(t);
      PointsInMember(t.node.children, (p, d));
      var k :| 0 <= k < 8 && (p, d) in Points(t.node.children[k]);
      assert Stores(t.node.children[k], p);
      StoredIsHeld(t.node.children[k], p);
      OctantInside(t.center, t.side, k, p);
    }
  }

  // ----- looking up -----

  function At(t: Octree, p: Point): Option<Data>
    decreases t, 1
  {
    if !Holds(t, p) then None
    else
      match t.node
      case Internal(cs) => AtIn(cs, p)
      case Empty => None
      case Filled(q, d) => if q == p then Some(d) else None
  }

  /** The answer of the first child that has one. */
  function AtIn(cs: seq<Octree>, p: Point): Option<Data>
    decreases cs, 0
  {
    if cs == [] then None
    else if At(cs[0], p).Some? then At(cs[0], p)
    else AtIn(cs[1..], p)
  }

  lemma {:induction false} AtInMember(cs: seq<Octree>, p: Point)
    ensures AtIn(cs, p).Some? ==> exists k :: 0 <= k < |cs| && At(cs[k], p) == AtIn(cs, p)
    ensures AtIn(cs, p).None? ==> forall k :: 0 <= k < |cs| ==> At(cs[k], p).None?
  {
    if cs != [] && At(cs[0], p).None? {
      AtInMember(cs[1..], p);
      assert forall k :: 0 < k < |cs| ==> cs[k] == cs[1..][k - 1];
    }
  }

  /** A lookup finds exactly what is stored, and each point is stored with one data only. */
  lemma {:induction false} AtIsStored(t: Octree, p: Point, d: Data)
    requires WellFormed(t)
    ensures At(t, p) == Some(d) <==> (p, d) in Points(t)
    decreases t
  {
    hide InCube, OctantCenter;
    if t.node.Internal? {
      var cs := t.node.children;
      PointsInMember(cs, (p, d));
      AtInMember(cs, p);
      forall k | 0 <= k < 8
        ensures At(cs[k], p) == Some(d) <==> (p, d) in Points(cs[k])
        ensures At(cs[k], p).Some? ==> FirstHolding(cs, p) == k
      {
        AtIsStored(cs[k], p, d);
        if At(cs[k], p).Some? {
          AtIsStored(cs[k], p, At(cs[k], p).value);
          assert Stores(cs[k], p);
        }
      }
      if (p, d) in Points(t) {
        assert Stores(t, p);
        StoredIsHeld(t, p);
      }
    } else if t.node.Filled? {
      assert (p, d) in Points(t) <==> p == t.node.p && d == t.node.d;
    }
  }

  // ----- setting -----

  datatype SetResult = SetResult(tree: Octree, outcome: Outcome)

  /** Setting the zero point with nil data is ignored. */
  predicate Ignored(p: Point, d: Data)
  {
    p == ORIGIN && d == Nil
  }

  function EmptyInternal(center: Point, side: real): Octree
  {
    Octree(Internal(EmptyOctants(center, side)), center, side, 0)
  }

  /** A filled leaf made into an inner node, with its point moved into the first octant that holds it. */
  function SplitIntoOctants(t: Octree): SetResult
    requires t.node.Filled?
  {
    var base := EmptyInternal(t.center, t.side);
    var p, d, cs := t.node.p, t.node.d, base.node.children;
    var k := FirstHolding(cs, p);
    if Ignored(p, d) then SetResult(base, Ok)
    else if !Holds(base, p) then SetResult(base, Err(OutOfBounds))
    else if k == |cs| then SetResult(base, Err(InvalidInternalNode))
    else
      SetResult(base.(node := Internal(cs[k := cs[k].(node := Filled(p, d), size := 1)]), size := 1), Ok)
  }

  function HelperSet(t: Octree, p: Point, d: Data, depth: nat): SetResult
    decreases MAX_RECURSION_DEPTH - depth
  {
    if depth >= MAX_RECURSION_DEPTH then SetResult(t, Err(MaxRecursionDepth))
    else if Ignored(p, d) then SetResult(t, Ok)
    else if !Holds(t, p) then SetResult(t, Err(OutOfBounds))
    else
      match t.node
      case Internal(cs) =>
        var k := FirstHolding(cs, p);
        if k == |cs| then SetResult(t, Err(InvalidInternalNode))
        else
          var r := HelperSet(cs[k], p, d, depth + 1);
          SetResult(t.(node := Internal(cs[k := r.tree]), size := if r.outcome.Ok? then t.size + 1 else t.size), r.outcome)
      case Filled(q, _) =>
        if At(t, p).Some? then SetResult(t.(node := Filled(q, d)), Ok)
        else
          var split := SplitIntoOctants(t);
          if split.outcome.Err? then split
          else HelperSet(split.tree, p, d, depth + 1)
      case Empty =>
        SetResult(t.(node := Filled(p, d), size := t.size + 1), Ok)
  }

  function Set(t: Octree, p: Point, d: Data): SetResult
  {
    HelperSet(t, p, d, 0)
  }

  /** The split is itself the setting of the stored point in the emptied node. */
  lemma SplitIsSet(t: Octree)
    requires t.node.Filled?
    ensures SplitIntoOctants(t) == Set(EmptyInternal(t.center, t.side), t.node.p, t.node.d)
  {
  }

  lemma {:induction false} FirstHoldingSame(cs: seq<Octree>, cs': seq<Octree>, p: Point)
    requires |cs| == |cs'|
    requires forall k :: 0 <= k < |cs| ==> cs[k].center == cs'[k].center && cs[k].side == cs'[k].side
    ensures FirstHolding(cs, p) == FirstHolding(cs', p)
  {
  }

  /** What the stored pairs are after a call: unchanged, or with `p` now mapped to `d`. */
  ghost predicate StoredAfter(t: Octree, t': Octree, p: Point, d: Data, changed: bool)
  {
    forall q, e :: (q, e) in Points(t') <==>
      if changed && q == p then e == d else (q, e) in Points(t)
  }

  /** Replacing the child that a point belongs to by one in which the point has been set. */
  ghost predicate Replaces(cs: seq<Octree>, c: Octree, p: Point, d: Data, changed: bool)
  {
    var k := FirstHolding(cs, p);
    && k < |cs|
    && c.center == cs[k].center && c.side == cs[k].side && WellFormed(c)
    && StoredAfter(cs[k], c, p, d, changed)
  }

  lemma ReplaceKeepsShape(center: Point, side: real, cs: seq<Octree>, c: Octree, p: Point, d: Data, changed: bool)
    requires GoodChildren(center, side, cs) && Replaces(cs, c, p, d, changed)
    ensures GoodChildren(center, side, cs[FirstHolding(cs, p) := c])
  {
    hide InCube, OctantCenter, WellFormed;
    var k := FirstHolding(cs, p);
    var cs' := cs[k := c];
    forall j, q | 0 <= j < 8 && Stores(cs'[j], q)
      ensures FirstHolding(cs', q) == j
    {
      FirstHoldingSame(cs, cs', q);
      if j == k && q != p {
        var e :| (q, e) in Points(c);
        assert Stores(cs[k], q);
      }
    }
  }

  lemma ReplaceStores(center: Point, side: real, cs: seq<Octree>, c: Octree, p: Point, d: Data, changed: bool, q: Point, e: Data)
    requires GoodChildren(center, side, cs) && Replaces(cs, c, p, d, changed)
    ensures (q, e) in PointsIn(cs[FirstHolding(cs, p) := c]) <==>
        if changed && q == p then e == d else (q, e) in PointsIn(cs)
  {
    hide InCube, OctantCenter, WellFormed;
    var k := FirstHolding(cs, p);
    var cs' := cs[k := c];
    PointsInMember(cs, (q, e));
    PointsInMember(cs', (q, e));
    if (q, e) in PointsIn(cs) {
      var j :| 0 <= j < 8 && (q, e) in Points(cs[j]);
      assert Stores(cs[j], q);
      assert (q, e) in Points(cs'[j]) <==> if changed && q == p then e == d else true;
    }
    if (q, e) in PointsIn(cs') {
      var j :| 0 <= j < 8 && (q, e) in Points(cs'[j]);
      ReplaceKeepsShape(center, side, cs, c, p, d, changed);
      assert Stores(cs'[j], q);
      FirstHoldingSame(cs, cs', q);
      assert j != k ==> (q, e) in Points(cs[j]);
    }
    if changed && q == p && e == d {
      assert (q, e) in Points(cs'[k]);
    }
  }

  lemma ReplaceChild(t: Octree, c: Octree, p: Point, d: Data, changed: bool, size: int)
    requires WellFormed(t) && t.node.Internal? && Replaces(t.node.children, c, p, d, changed)
    ensures var t' := t.(node := Internal(t.node.children[FirstHolding(t.node.children, p) := c]), size := size);
      WellFormed(t') && StoredAfter(t, t', p, d, changed)
  {
    hide InCube, OctantCenter, GoodChildren;
    var cs := t.node.children;
    var cs' := cs[FirstHolding(cs, p) := c];
    ReplaceKeepsShape(t.center, t.side, cs, c, p, d, changed);
    forall q, e
      ensures (q, e) in PointsIn(cs') <==> if changed && q == p then e == d else (q, e) in PointsIn(cs)
    {
      ReplaceStores(t.center, t.side, cs, c, p, d, changed, q, e);
    }
  }

  lemma EmptyInternalGood(center: Point, side: real)
    requires side > 0.0
    ensures WellFormed(EmptyInternal(center, side))
    ensures forall x :: x !in Points(EmptyInternal(center, side))
  {
    hide InCube, OctantCenter;
    var cs := EmptyOctants(center, side);
    forall x
      ensures x !in PointsIn(cs)
    {
      PointsInMember(cs, x);
    }
    assert GoodChildren(center, side, cs);
  }

  /** A point of the cube always has a first octant: the invalid-node error cannot occur. */
  lemma SomeOctantHolds(center: Point, side: real, cs: seq<Octree>, p: Point)
    requires GoodChildren(center, side, cs) && InCube(center, side, p)
    ensures FirstHolding(cs, p) < 8
  {
    var k := OctantsCover(center, side, p);
    assert Holds(cs[k], p);
  }

  lemma SplitCorrect(t: Octree)
    requires WellFormed(t) && t.node.Filled?
    ensures var r := SplitIntoOctants(t);
      && r.outcome == Ok && WellFormed(r.tree) && r.tree.center == t.center && r.tree.side == t.side
      && r.tree.node.Internal?
      && StoredAfter(t, r.tree, t.node.p, t.node.d, false)
  {
    hide InCube, OctantCenter;
    var base, p, d := EmptyInternal(t.center, t.side), t.node.p, t.node.d;
    EmptyInternalGood(t.center, t.side);
    SomeOctantHolds(t.center, t.side, base.node.children, p);
    var cs := base.node.children;
    var k := FirstHolding(cs, p);
    var c := cs[k].(node := Filled(p, d), size := 1);
    assert WellFormed(cs[k]);
    assert Replaces(cs, c, p, d, true);
    ReplaceChild(base, c, p, d, true, 1);
  }

  // ----- when setting succeeds -----

  /** The leaf in which a point belongs, and how far down it is. */
  function LeafFor(t: Octree, p: Point): Octree
    decreases t
  {
    if t.node.Internal? && FirstHolding(t.node.children, p) < |t.node.children| then
      LeafFor(t.node.children[FirstHolding(t.node.children, p)], p)
    else t
  }

  function Level(t: Octree, p: Point): nat
    decreases t
  {
    if t.node.Internal? && FirstHolding(t.node.children, p) < |t.node.children| then
      1 + Level(t.node.children[FirstHolding(t.node.children, p)], p)
    else 0
  }

  function FirstOctant(center: Point, side: real, p: Point): nat
  {
    FirstHolding(EmptyOctants(center, side), p)
  }

  /** The octants of a cube that hold one of its points. */
  lemma OctantHolds(center: Point, side: real, k: nat, p: Point)
    requires k < 8 && InCube(center, side, p)
    ensures InCube(OctantCenter(center, side, k), side / 2.0, p) <==>
      && (if k >= 4 then p.x >= center.x else p.x <= center.x)
      && (if k % 4 >= 2 then p.y >= center.y else p.y <= center.y)
      && (if k % 2 == 1 then p.z >= center.z else p.z <= center.z)
  {
  }

  /** A point belongs in the upper half of a coordinate only if it lies strictly above the middle. */
  lemma FirstOctantIs(center: Point, side: real, p: Point)
    requires InCube(center, side, p)
    ensures FirstOctant(center, side, p)
        == (if p.x > center.x then 4 else 0) + (if p.y > center.y then 2 else 0) + (if p.z > center.z then 1 else 0)
  {
    hide InCube, OctantCenter;
    var cs := EmptyOctants(center, side);
    forall k | 0 <= k < 8
      ensures Holds(cs[k], p) <==>
        && (if k >= 4 then p.x >= center.x else p.x <= center.x)
        && (if k % 4 >= 2 then p.y >= center.y else p.y <= center.y)
        && (if k % 2 == 1 then p.z >= center.z else p.z <= center.z)
    {
      OctantHolds(center, side, k, p);
    }
    var first := (if p.x > center.x then 4 else 0) + (if p.y > center.y then 2 else 0) + (if p.z > center.z then 1 else 0);
    assert Holds(cs[first], p);
  }

  /** Two points belong in the same octant on `n` levels in a row. */
  predicate ShareLevels(center: Point, side: real, p: Point, q: Point, n: nat)
    decreases n
  {
    n == 0
    || var k := FirstOctant(center, side, p);
       k < 8 && FirstOctant(center, side, q) == k && ShareLevels(OctantCenter(center, side, k), side / 2.0, p, q, n - 1)
  }

  /** The recursion ends in time: the leaf is reached, and if another point is in the way the two
      part soon enough, each shared level costing two steps. */
  predicate InReach(t: Octree, p: Point, depth: nat)
  {
    && depth + Level(t, p) < MAX_RECURSION_DEPTH
    && var leaf := LeafFor(t, p);
       leaf.node.Filled? && leaf.node.p != p ==>
         !ShareLevels(leaf.center, leaf.side, p, leaf.node.p, (MAX_RECURSION_DEPTH - depth - Level(t, p) - 1) / 2)
  }

  function SetOutcome(t: Octree, p: Point, d: Data, depth: nat): Outcome
  {
    if depth >= MAX_RECURSION_DEPTH then Err(MaxRecursionDepth)
    else if Ignored(p, d) then Ok
    else if !Holds(t, p) then Err(OutOfBounds)
    else if InReach(t, p, depth) then Ok
    else Err(MaxRecursionDepth)
  }

  /** Where a point belongs in a leaf that has been split. */
  lemma SplitLeaf(t: Octree, p: Point)
    requires WellFormed(t) && t.node.Filled? && Holds(t, p)
    ensures var r, k := SplitIntoOctants(t).tree, FirstOctant(t.center, t.side, p);
      && r.node.Internal? && |r.node.children| == 8 && k < 8 && FirstHolding(r.node.children, p) == k
      && r.node.children[k].center == OctantCenter(t.center, t.side, k) && r.node.children[k].side == t.side / 2.0
      && r.node.children[k].node == if FirstOctant(t.center, t.side, t.node.p) == k then t.node else Empty
  {
    hide InCube, OctantCenter;
    EmptyInternalGood(t.center, t.side);
    var cs := EmptyOctants(t.center, t.side);
    SomeOctantHolds(t.center, t.side, cs, p);
    SomeOctantHolds(t.center, t.side, cs, t.node.p);
    FirstHoldingSame(cs, SplitIntoOctants(t).tree.node.children, p);
  }

  lemma SplitReach(t: Octree, p: Point, depth: nat)
    requires WellFormed(t) && t.node.Filled? && Holds(t, p) && p != t.node.p && depth < MAX_RECURSION_DEPTH
    ensures InReach(t, p, depth) <==> InReach(SplitIntoOctants(t).tree, p, depth + 1)
  {
    hide InCube, OctantCenter, WellFormed, FirstHolding, FirstOctant, SplitIntoOctants;
    SplitLeaf(t, p);
    var r := SplitIntoOctants(t).tree;
    var c := r.node.children[FirstHolding(r.node.children, p)];
    assert LeafFor(r, p) == LeafFor(c, p) == c && Level(r, p) == 1 + Level(c, p) == 1;
    HalfTheDepth(depth);
  }

  lemma HalfTheDepth(depth: nat)
    requires depth < MAX_RECURSION_DEPTH
    ensures (MAX_RECURSION_DEPTH - depth - 1) / 2 > 0 <==> depth + 2 < MAX_RECURSION_DEPTH
    ensures depth + 2 < MAX_RECURSION_DEPTH ==>
      (MAX_RECURSION_DEPTH - (depth + 1) - 1 - 1) / 2 == (MAX_RECURSION_DEPTH - depth - 1) / 2 - 1
  {
  }

  /** Whether a call succeeds, and with which error it fails, is decided by the tree before it. */
  lemma {:induction false} SetDecided(t: Octree, p: Point, d: Data, depth: nat)
    requires WellFormed(t)
    ensures HelperSet(t, p, d, depth).outcome == SetOutcome(t, p, d, depth)
    decreases MAX_RECURSION_DEPTH - depth
  {
    hide InCube, OctantCenter, ShareLevels, SplitIntoOctants;
    if depth < MAX_RECURSION_DEPTH && !Ignored(p, d) && Holds(t, p) {
      match t.node
      case Internal(cs) =>
        SomeOctantHolds(t.center, t.side, cs, p);
        SetDecided(cs[FirstHolding(cs, p)], p, d, depth + 1);
      case Filled(q, e) =>
        if q != p {
          SplitCorrect(t);
          SplitReach(t, p, depth);
          SetDecided(SplitIntoOctants(t).tree, p, d, depth + 1);
        }
      case Empty =>
    }
  }

  /** Setting a point, for every tree, every point and every recursion depth: the outcome is the one
      the tree decides, the shape stays, a successful call maps the point to the new data and leaves
      everything else, and a failed or ignored call leaves the stored points as they were, even if a
      leaf was split on the way. */
  lemma {:induction false} SetCorrect(t: Octree, p: Point, d: Data, depth: nat)
    requires WellFormed(t)
    ensures var r := HelperSet(t, p, d, depth);
      && r.outcome == SetOutcome(t, p, d, depth)
      && WellFormed(r.tree) && r.tree.center == t.center && r.tree.side == t.side
      && StoredAfter(t, r.tree, p, d, r.outcome.Ok? && !Ignored(p, d))
    decreases MAX_RECURSION_DEPTH - depth
  {
    hide InCube, OctantCenter, SetOutcome, SplitIntoOctants;
    SetDecided(t, p, d, depth);
    if depth < MAX_RECURSION_DEPTH && !Ignored(p, d) && Holds(t, p) {
      match t.node
      case Internal(cs) =>
        SomeOctantHolds(t.center, t.side, cs, p);
        var k := FirstHolding(cs, p);
        SetCorrect(cs[k], p, d, depth + 1);
        var r := HelperSet(cs[k], p, d, depth + 1);
        ReplaceChild(t, r.tree, p, d, r.outcome.Ok?, if r.outcome.Ok? then t.size + 1 else t.size);
      case Filled(q, e) =>
        if q != p {
          SplitCorrect(t);
          SetCorrect(SplitIntoOctants(t).tree, p, d, depth + 1);
        }
      case Empty =>
    }
  }

  /** A stored point is found in the leaf in which it belongs. */
  lemma {:induction false} StoredInLeaf(t: Octree, p: Point)
    requires WellFormed(t) && Stores(t, p)
    ensures LeafFor(t, p).node.Filled? && LeafFor(t, p).node.p == p
    decreases t
  {
    hide InCube, OctantCenter;
    if t.node.Internal? {
      StoredIsHeld(t, p);
      SomeOctantHolds(t.center, t.side, t.node.children, p);
      StoresInChild(t, p);
      StoredInLeaf(t.node.children[FirstHolding(t.node.children, p)], p);
    }
  }

  /** After a successful `Set`, the point is found with its new data and every other point as before. */
  lemma SetThenAt(t: Octree, p: Point, d: Data, q: Point)
    requires WellFormed(t)
    ensures var r := Set(t, p, d);
      At(r.tree, q) == if r.outcome.Ok? && !Ignored(p, d) && q == p then Some(d) else At(t, q)
  {
    SetCorrect(t, p, d, 0);
    var r := Set(t, p, d);
    AtIsStored(r.tree, q, d);
    if At(r.tree, q).Some? {
      AtIsStored(r.tree, q, At(r.tree, q).value);
      AtIsStored(t, q, At(r.tree, q).value);
    }
    if At(t, q).Some? {
      AtIsStored(r.tree, q, At(t, q).value);
      AtIsStored(t, q, At(t, q).value);
    }
  }

  // ----- sizes -----

  /** Every node's size is the number of points stored below it. */
  ghost predicate SizesExact(t: Octree)
  {
    && t.size == |Points(t)|
    && (t.node.Internal? ==> forall k :: 0 <= k < |t.node.children| ==> SizesExact(t.node.children[k]))
  }

  lemma {:induction false} PointsInReplaced(cs: seq<Octree>, k: nat, c: Octree)
    requires k < |cs|
    ensures |PointsIn(cs[k := c])| == |PointsIn(cs)| - |Points(cs[k])| + |Points(c)|
  {
    if k > 0 {
      assert cs[k := c][1..] == cs[1..][k - 1 := c];
      PointsInReplaced(cs[1..], k - 1, c);
    } else {
      assert cs[k := c][1..] == cs[1..];
    }
  }

  lemma StoresInChild(t: Octree, p: Point)
    requires WellFormed(t) && t.node.Internal? && FirstHolding(t.node.children, p) < |t.node.children|
    ensures Stores(t, p) <==> Stores(t.node.children[FirstHolding(t.node.children, p)], p)
  {
    hide InCube, OctantCenter;
    var cs := t.node.children;
    var k := FirstHolding(cs, p);
    if Stores(t, p) {
      var d :| (p, d) in Points(t);
      PointsInMember(cs, (p, d));
      var j :| 0 <= j < 8 && (p, d) in Points(cs[j]);
      assert Stores(cs[j], p);
    }
    if Stores(cs[k], p) {
      var d :| (p, d) in Points(cs[k]);
      PointsInMember(cs, (p, d));
    }
  }

  lemma EmptyOrMember(s: seq<(Point, Data)>)
    ensures s == [] || exists x :: x in s
  {
    if s != [] {
      assert s[0] in s;
    }
  }

  lemma SplitSizes(t: Octree)
    requires WellFormed(t) && t.node.Filled?
    ensures var r := SplitIntoOctants(t).tree;
      SizesExact(r) && |Points(r)| == 1 && forall p :: Stores(r, p) <==> p == t.node.p
  {
    hide InCube, OctantCenter;
    SplitCorrect(t);
    EmptyInternalGood(t.center, t.side);
    SomeOctantHolds(t.center, t.side, EmptyOctants(t.center, t.side), t.node.p);
    var base := EmptyInternal(t.center, t.side);
    EmptyOrMember(Points(base));
    var cs, r := base.node.children, SplitIntoOctants(t).tree;
    var k := FirstHolding(cs, t.node.p);
    PointsInReplaced(cs, k, r.node.children[k]);
    forall j | 0 <= j < 8
      ensures SizesExact(r.node.children[j])
    {
    }
    forall p
      ensures Stores(r, p) <==> p == t.node.p
    {
      assert forall e :: (p, e) in Points(r) <==> (p, e) in Points(t);
      assert (t.node.p, t.node.d) in Points(t);
    }
  }

  /** A call overwrites a point that is stored within reach. */
  ghost predicate Overwrites(t: Octree, p: Point, d: Data, depth: nat)
  {
    depth + Level(t, p) < MAX_RECURSION_DEPTH && !Ignored(p, d) && Stores(t, p)
  }

  lemma OverwriteSucceeds(t: Octree, p: Point, d: Data, depth: nat)
    requires WellFormed(t)
    ensures Overwrites(t, p, d, depth) <==> HelperSet(t, p, d, depth).outcome.Ok? && !Ignored(p, d) && Stores(t, p)
  {
    SetCorrect(t, p, d, depth);
    if Stores(t, p) {
      StoredInLeaf(t, p);
      StoredIsHeld(t, p);
    }
  }

  /** How many points are stored after a call, and when the sizes are still exact: always, except
      that overwriting a point below an inner node counts it again. */
  lemma SetSizes(t: Octree, p: Point, d: Data, depth: nat)
    requires WellFormed(t) && SizesExact(t)
    ensures var r := HelperSet(t, p, d, depth).tree;
      && |Points(r)| == |Points(t)| + (if SetOutcome(t, p, d, depth).Ok? && !Ignored(p, d) && !Stores(t, p) then 1 else 0)
      && (SizesExact(r) <==> !(Overwrites(t, p, d, depth) && t.node.Internal?))
      && r.size == |Points(r)| + (if Overwrites(t, p, d, depth) && t.node.Internal? then 1 else 0)
  {
    hide WellFormed, SizesExact, HelperSet, SetOutcome, Stores, Overwrites;
    SetCorrect(t, p, d, depth);
    OverwriteSucceeds(t, p, d, depth);
    SizesAfter(t, p, d, depth);
  }

  lemma {:induction false} SizesAfter(t: Octree, p: Point, d: Data, depth: nat)
    requires WellFormed(t) && SizesExact(t)
    ensures var r := HelperSet(t, p, d, depth);
      var ok := r.outcome.Ok? && !Ignored(p, d);
      && |Points(r.tree)| == |Points(t)| + (if ok && !Stores(t, p) then 1 else 0)
      && (SizesExact(r.tree) <==> !(ok && Stores(t, p) && t.node.Internal?))
      && r.tree.size == |Points(r.tree)| + (if ok && Stores(t, p) && t.node.Internal? then 1 else 0)
    decreases MAX_RECURSION_DEPTH - depth
  {
    hide InCube, OctantCenter;
    if depth < MAX_RECURSION_DEPTH && !Ignored(p, d) && Holds(t, p) {
      match t.node
      case Internal(cs) =>
        SomeOctantHolds(t.center, t.side, cs, p);
        var k := FirstHolding(cs, p);
        StoresInChild(t, p);
        SizesAfter(cs[k], p, d, depth + 1);
        PointsInReplaced(cs, k, HelperSet(cs[k], p, d, depth + 1).tree);
        InternalSizes(t, HelperSet(t, p, d, depth).tree, k);
      case Filled(q, e) =>
        assert Stores(t, p) <==> p == q by {
          assert (q, e) in Points(t);
        }
        if q != p {
          SplitCorrect(t);
          SplitSizes(t);
          SizesAfter(SplitIntoOctants(t).tree, p, d, depth + 1);
        }
      case Empty =>
        assert forall e :: (p, e) !in Points(t);
    }
  }

  lemma InternalSizes(t: Octree, t': Octree, k: nat)
    requires t.node.Internal? && t'.node.Internal? && k < |t.node.children| == |t'.node.children| && SizesExact(t)
    requires t'.node.children == t.node.children[k := t'.node.children[k]]
    ensures SizesExact(t') <==> t'.size == |Points(t')| && SizesExact(t'.node.children[k])
  {
  }

  // ----- sizes after overwriting -----

  function SumSizes(cs: seq<Octree>): int
  {
    if cs == [] then 0 else cs[0].size + SumSizes(cs[1..])
  }

  /** The size of a leaf is exact and that of an inner node is at least the sum over its children. */
  ghost predicate SizesCover(t: Octree)
  {
    match t.node
    case Empty => t.size == 0
    case Filled(_, _) => t.size == 1
    case Internal(cs) =>
      && SumSizes(cs) <= t.size
      && forall k :: 0 <= k < |cs| ==> SizesCover(cs[k])
  }

  lemma {:induction false} SumNonNegative(cs: seq<Octree>)
    requires forall k :: 0 <= k < |cs| ==> cs[k].size >= 0
    ensures SumSizes(cs) >= 0
  {
    if cs != [] {
      SumNonNegative(cs[1..]);
    }
  }

  lemma {:induction false} CoverNonNegative(t: Octree)
    requires SizesCover(t)
    ensures t.size >= 0
  {
    if t.node.Internal? {
      forall k | 0 <= k < |t.node.children|
        ensures t.node.children[k].size >= 0
      {
        CoverNonNegative(t.node.children[k]);
      }
      SumNonNegative(t.node.children);
    }
  }

  lemma {:induction false} SumReplaced(cs: seq<Octree>, k: nat, c: Octree)
    requires k < |cs|
    ensures SumSizes(cs[k := c]) == SumSizes(cs) - cs[k].size + c.size
  {
    if k > 0 {
      assert cs[k := c][1..] == cs[1..][k - 1 := c];
      SumReplaced(cs[1..], k - 1, c);
    } else {
      assert cs[k := c][1..] == cs[1..];
    }
  }

  lemma {:induction false} SumEmpty(cs: seq<Octree>)
    requires forall k :: 0 <= k < |cs| ==> cs[k].size == 0
    ensures SumSizes(cs) == 0
  {
    if cs != [] {
      SumEmpty(cs[1..]);
    }
  }

  lemma SplitCovers(t: Octree)
    requires WellFormed(t) && t.node.Filled?
    ensures SizesCover(SplitIntoOctants(t).tree) && SplitIntoOctants(t).tree.size == 1
  {
    hide InCube, OctantCenter;
    var cs := EmptyOctants(t.center, t.side);
    EmptyInternalGood(t.center, t.side);
    SomeOctantHolds(t.center, t.side, cs, t.node.p);
    var k := FirstHolding(cs, t.node.p);
    SumEmpty(cs);
    SumReplaced(cs, k, SplitIntoOctants(t).tree.node.children[k]);
  }

  /** Sizes still cover what is below after every call, overwriting and failing ones included. */
  lemma {:induction false} SetCovers(t: Octree, p: Point, d: Data, depth: nat)
    requires WellFormed(t) && SizesCover(t)
    ensures var r := HelperSet(t, p, d, depth);
      SizesCover(r.tree) && t.size <= r.tree.size <= t.size + if r.outcome.Ok? then 1 else 0
    decreases MAX_RECURSION_DEPTH - depth
  {
    hide InCube, OctantCenter, SplitIntoOctants;
    if depth < MAX_RECURSION_DEPTH && !Ignored(p, d) && Holds(t, p) {
      match t.node
      case Internal(cs) =>
        SomeOctantHolds(t.center, t.side, cs, p);
        var k := FirstHolding(cs, p);
        SetCovers(cs[k], p, d, depth + 1);
        SumReplaced(cs, k, HelperSet(cs[k], p, d, depth + 1).tree);
      case Filled(q, _) =>
        if q != p {
          SplitCorrect(t);
          SplitCovers(t);
          SetCovers(SplitIntoOctants(t).tree, p, d, depth + 1);
        }
      case Empty =>
    }
  }
}

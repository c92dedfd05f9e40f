/** The mutable octree. Each node is an object; `view` is the value it represents, and every method
    is proved to act on the view as the corresponding function of `OctreeModel` does. */
module PointCloud {
  import opened OctreeIteration
  import opened OctreeModel
  import opened Options

  datatype NodeType = InternalNode | LeafNodeEmpty | LeafNodeFilled

  lemma OctantOf(center: Point, side: real, i: nat, j: nat, k: nat)
    requires i < 2 && j < 2 && k < 2
    ensures OctantCenter(center, side, 4 * i + 2 * j + k)
        == Point(center.x + Sign(i == 1) * (side / 2.0) / 2.0,
                 center.y + Sign(j == 1) * (side / 2.0) / 2.0,
                 center.z + Sign(k == 1) * (side / 2.0) / 2.0)
  {
  }

  class BasicOctree {
    var nodeType: NodeType
    var children: seq<BasicOctree>
    var point: Point
    var data: Data
    var center: Point
    var side: real
    var size: int
    ghost var view: Octree
    ghost var Repr: set<object>

    ghost predicate Valid()
      reads this, Repr
      decreases Repr
      ensures Valid() ==> this in Repr
    {
      && this in Repr
      && view.center == center && view.side == side && view.size == size
      && match nodeType
         case LeafNodeEmpty => view.node == Empty
         case LeafNodeFilled => view.node == Filled(point, data)
         case InternalNode =>
           && view.node.Internal? && |view.node.children| == |children|
           && (forall k :: 0 <= k < |children| ==>
                 && children[k] in Repr && children[k].Repr <= Repr && this !in children[k].Repr
                 && children[k].Valid() && children[k].view == view.node.children[k])
           && (forall i, j :: 0 <= i < j < |children| ==> children[i].Repr !! children[j].Repr)
    }

    /** An empty leaf. */
    constructor (center: Point, side: real)
      ensures Valid() && Repr == {this}
      ensures view == Octree(Empty, center, side, 0)
    {
      nodeType, children, size := LeafNodeEmpty, [], 0;
      point, data := ORIGIN, Nil;
      this.center, this.side := center, side;
      view := Octree(Empty, center, side, 0);
      Repr := {this};
    }

    /** A side length that is not positive is refused. */
    static method NewBasicOctree(center: Point, side: real) returns (t: BasicOctree?)
      ensures t == null <==> side <= 0.0
      ensures t != null ==> fresh(t) && t.Valid() && fresh(t.Repr) && t.view == Octree(Empty, center, side, 0)
      ensures t != null ==> WellFormed(t.view) && SizesExact(t.view) && SizesCover(t.view)
    {
      if side <= 0.0 {
        return null;
      }
      t := new BasicOctree(center, side);
    }

    predicate CheckPointPlacement(p: Point)
      reads this
    {
      InCube(center, side, p)
    }

    method At(p: Point) returns (r: Option<Data>)
      requires Valid()
      ensures r == OctreeModel.At(view, p)
      decreases Repr
    {
      if !CheckPointPlacement(p) {
        return None;
      }
      match nodeType
      case InternalNode =>
        for k := 0 to |children|
          invariant OctreeModel.At(view, p) == AtIn(view.node.children[k..], p)
        {
          r := children[k].At(p);
          if r.Some? {
            return;
          }
          assert view.node.children[k..][1..] == view.node.children[k + 1..];
        }
        return None;
      case LeafNodeFilled =>
        return if point == p then Some(data) else None;
      case LeafNodeEmpty =>
        return None;
    }

    /** The eight empty octants of a cube, in the order of the three nested loops. */
    static method MakeOctants(center: Point, side: real) returns (cs: seq<BasicOctree>)
      ensures |cs| == 8 && EmptyLeaves(cs, center, side) && fresh(set c | c in cs)
    {
      hide OctantCenter, EmptyLeaves;
      cs := [];
      NoLeaves(center, side);
      for i := 0 to 2
        invariant |cs| == 4 * i && EmptyLeaves(cs, center, side) && fresh(set c | c in cs)
      {
        for j := 0 to 2
          invariant |cs| == 4 * i + 2 * j && EmptyLeaves(cs, center, side) && fresh(set c | c in cs)
        {
          for k := 0 to 2
            invariant |cs| == 4 * i + 2 * j + k && EmptyLeaves(cs, center, side) && fresh(set c | c in cs)
          {
            ghost var before := cs;
            cs := AddOctant(cs, center, side, i, j, k);
            assert cs == before + [cs[|before|]];
          }
        }
      }
    }

    /** The body of the innermost loop. */
    static method AddOctant(cs: seq<BasicOctree>, center: Point, side: real, i: nat, j: nat, k: nat) returns (r: seq<BasicOctree>)
      requires i < 2 && j < 2 && k < 2 && |cs| == 4 * i + 2 * j + k && EmptyLeaves(cs, center, side)
      ensures EmptyLeaves(r, center, side)
      ensures |r| == |cs| + 1 && r[..|cs|] == cs && fresh(r[|cs|])
    {
      hide OctantCenter;
      var half := side / 2.0;
      var x, y, z := Sign(i == 1), Sign(j == 1), Sign(k == 1);
      OctantOf(center, side, i, j, k);
      var c := new BasicOctree(
        Point(center.x + x * half / 2.0, center.y + y * half / 2.0, center.z + z * half / 2.0), half);
      r := cs + [c];
    }

    static lemma NoLeaves(center: Point, side: real)
      ensures EmptyLeaves([], center, side)
    {
    }

    static lemma EightLeaves(cs: seq<BasicOctree>, center: Point, side: real)
      requires |cs| == 8 && EmptyLeaves(cs, center, side)
      ensures forall n :: 0 <= n < 8 ==> cs[n].Valid() && cs[n].Repr == {cs[n]} && cs[n].view == EmptyOctants(center, side)[n]
      ensures forall m, n :: 0 <= m < n < 8 ==> cs[m] != cs[n]
    {
    }

    static ghost predicate EmptyLeaves(cs: seq<BasicOctree>, center: Point, side: real)
      reads cs
    {
      && |cs| <= 8
      && (forall n :: 0 <= n < |cs| ==> cs[n].Repr == {cs[n]} && cs[n].Valid() && cs[n].view == EmptyOctants(center, side)[n])
      && (forall m, n :: 0 <= m < n < |cs| ==> cs[m] != cs[n])
    }

    /** The first child whose cube holds the point, or the number of children. */
    method FirstPlaced(p: Point) returns (k: nat)
      requires Valid() && nodeType.InternalNode?
      ensures k == FirstHolding(view.node.children, p)
    {
      for i := 0 to |children|
        invariant forall j :: 0 <= j < i ==> !Holds(view.node.children[j], p)
      {
        if children[i].CheckPointPlacement(p) {
          return i;
        }
      }
      return |children|;
    }

    method HelperSet(p: Point, d: Data, depth: nat) returns (r: Outcome)
      requires Valid()
      modifies Repr
      ensures Valid() && fresh(Repr - old(Repr))
      ensures r == OctreeModel.HelperSet(old(view), p, d, depth).outcome
      ensures view == OctreeModel.HelperSet(old(view), p, d, depth).tree
      decreases if NothingBelow(view) then 0 else 1, MAX_RECURSION_DEPTH - depth, 1
    {
      hide InCube, OctantCenter, FirstHolding, OctreeModel.SplitIntoOctants, OctreeModel.At;
      if depth >= MAX_RECURSION_DEPTH {
        return Err(MaxRecursionDepth);
      }
      if p == ORIGIN && d == Nil {
        return Ok;
      }
      if !CheckPointPlacement(p) {
        return Err(OutOfBounds);
      }
      match nodeType
      case InternalNode =>
        var k := FirstPlaced(p);
        if k == |children| {
          return Err(InvalidInternalNode);
        }
        r := SetInChild(k, p, d, depth);
      case LeafNodeFilled =>
        var found := At(p);
        if found.Some? {
          data := d;
          view := view.(node := Filled(point, d));
          return Ok;
        }
        r := SplitIntoOctants();
        if r.Err? {
          return;
        }
        r := HelperSet(p, d, depth + 1);
      case LeafNodeEmpty =>
        size := size + 1;
        nodeType, point, data := LeafNodeFilled, p, d;
        view := view.(node := Filled(p, d), size := size);
        return Ok;
    }

    /** The inner-node case of `HelperSet`. */
    method SetInChild(k: nat, p: Point, d: Data, depth: nat) returns (r: Outcome)
      requires Valid() && nodeType.InternalNode? && k < |children| && k == FirstHolding(view.node.children, p)
      requires depth < MAX_RECURSION_DEPTH && !Ignored(p, d) && Holds(view, p)
      modifies Repr
      ensures Valid() && fresh(Repr - old(Repr))
      ensures r == OctreeModel.HelperSet(old(view), p, d, depth).outcome
      ensures view == OctreeModel.HelperSet(old(view), p, d, depth).tree
      decreases if NothingBelow(view) then 0 else 1, MAX_RECURSION_DEPTH - depth, 0
    {
      hide InCube, Holds, Ignored, OctantCenter, OctreeModel.HelperSet, OctreeModel.SplitIntoOctants, OctreeModel.At, FirstHolding, NothingBelow;
      var c := children[k];
      SetInChildStep(view, p, d, depth);
      r := c.HelperSet(p, d, depth + 1);
      forall j | 0 <= j < |children| && j != k
        ensures unchanged(children[j]) && children[j].Valid() && children[j].Repr !! c.Repr
      {
        assert children[j].Repr !! old(c.Repr);
      }
      Absorb(k, r.Ok?);
    }

    /** Valid, except that the `k`th child has changed. */
    ghost predicate ValidBut(k: nat)
      reads this, Repr, set c | c in children :: c, set c, o | c in children && o in c.Repr :: o
    {
      && this in Repr && nodeType.InternalNode? && k < |children|
      && view.center == center && view.side == side && view.size == size
      && view.node.Internal? && |view.node.children| == |children|
      && (forall j :: 0 <= j < |children| ==> children[j].Valid() && this !in children[j].Repr)
      && (forall j :: 0 <= j < |children| && j != k ==>
            children[j] in Repr && children[j].Repr <= Repr && children[j].view == view.node.children[j])
      && (forall i, j :: 0 <= i < j < |children| ==> children[i].Repr !! children[j].Repr)
    }

    /** Takes the change of a child over. */
    method Absorb(k: nat, grown: bool)
      requires ValidBut(k)
      modifies this
      ensures Valid() && Repr == old(Repr) + old(children[k].Repr)
      ensures view == old(view).(node := Internal(old(view.node.children)[k := old(children[k].view)]),
                                 size := if grown then old(view.size) + 1 else old(view.size))
    {
      if grown {
        size := size + 1;
      }
      Repr := Repr + children[k].Repr;
      view := view.(node := Internal(view.node.children[k := children[k].view]), size := size);
    }

    /** Turns a filled leaf into an inner node and sets its point again. */
    method SplitIntoOctants() returns (r: Outcome)
      requires Valid() && nodeType.LeafNodeFilled?
      modifies Repr
      ensures Valid() && fresh(Repr - old(Repr))
      ensures r == OctreeModel.SplitIntoOctants(old(view)).outcome
      ensures view == OctreeModel.SplitIntoOctants(old(view)).tree
      decreases 1, 0, 0
    {
      hide OctantCenter, InCube, OctreeModel.HelperSet, OctreeModel.SplitIntoOctants, EmptyLeaves, EmptyInternal;
      var cs := MakeOctants(center, side);
      SplitIsSet(view);
      var p, d := point, data;
      NothingInside(center, side);
      BecomeInternal(cs);
      r := Set(p, d);
    }

    /** Replaces the leaf by an inner node with the given empty octants. */
    method BecomeInternal(cs: seq<BasicOctree>)
      requires Valid() && |cs| == 8 && EmptyLeaves(cs, center, side)
      requires forall n :: 0 <= n < 8 ==> cs[n] !in Repr
      modifies this
      ensures Valid() && view == EmptyInternal(old(center), old(side)) && Repr == old(Repr) + set c | c in cs
    {
      hide OctantCenter, EmptyLeaves;
      EightLeaves(cs, center, side);
      nodeType, children, size := InternalNode, cs, 0;
      Repr := Repr + set c | c in cs;
      view := EmptyInternal(center, side);
    }

    method Set(p: Point, d: Data) returns (r: Outcome)
      requires Valid()
      modifies Repr
      ensures Valid() && fresh(Repr - old(Repr))
      ensures r == OctreeModel.Set(old(view), p, d).outcome
      ensures view == OctreeModel.Set(old(view), p, d).tree
      decreases if NothingBelow(view) then 0 else 1, MAX_RECURSION_DEPTH, 2
    {
      r := HelperSet(p, d, 0);
    }

    /** Visits the points of a batch in traversal order until the callback says stop. */
    method HelperIterate(lower: int, upper: int, idx: int, fn: (Point, Data) -> bool)
      returns (ok: bool, visited: seq<Stored>)
      requires Valid()
      ensures ok <==> AllGoOn(InBatch(view, lower, upper, idx), fn)
      ensures visited == UpTo(InBatch(view, lower, upper, idx), fn)
      decreases Repr
    {
      hide AllGoOn, UpTo;
      ok, visited := true, [];
      match nodeType
      case InternalNode =>
        ghost var cs := view.node.children;
        var pos := idx;
        for k := 0 to |children|
          invariant UpTo(InBatch(view, lower, upper, idx), fn) == visited + UpTo(InBatchOf(cs[k..], lower, upper, pos), fn)
          invariant AllGoOn(InBatch(view, lower, upper, idx), fn) <==> AllGoOn(InBatchOf(cs[k..], lower, upper, pos), fn)
        {
          var numPoints := children[k].size;
          WalkStep(cs, k, lower, upper, pos, fn);
          if pos + numPoints > lower && pos < upper {
            var more;
            ok, more := children[k].HelperIterate(lower, upper, pos, fn);
            visited := visited + more;
            if !ok {
              return;
            }
          }
          pos := pos + numPoints;
        }
        NothingStops(fn);
        ok := true;
      case LeafNodeFilled =>
        ok := fn(point, data);
        visited := [(point, data)];
        OneStops(point, data, fn);
      case LeafNodeEmpty =>
        NothingStops(fn);
    }

    method Iterate(numBatches: int, currentBatch: int, fn: (Point, Data) -> bool) returns (visited: seq<Stored>)
      requires Valid() && size >= 0
      ensures visited == UpTo(Batch(view, numBatches, currentBatch), fn)
      ensures numBatches < 0 || currentBatch < 0 || (numBatches > 0 && currentBatch >= numBatches) ==> visited == []
    {
      visited := [];
      if numBatches < 0 || currentBatch < 0 || (numBatches > 0 && currentBatch >= numBatches) {
        return;
      }
      var lowerBound, upperBound := 0, size;
      if numBatches > 0 {
        var batchSize := (size + numBatches - 1) / numBatches;
        lowerBound := currentBatch * batchSize;
        upperBound := (currentBatch + 1) * batchSize;
      }
      if upperBound > size {
        upperBound := size;
      }
      var ok;
      ok, visited := HelperIterate(lowerBound, upperBound, 0, fn);
    }
  }

  lemma SetInChildStep(t: Octree, p: Point, d: Data, depth: nat)
    requires t.node.Internal? && FirstHolding(t.node.children, p) < |t.node.children|
    requires depth < MAX_RECURSION_DEPTH && !Ignored(p, d) && Holds(t, p)
    ensures var k := FirstHolding(t.node.children, p);
      var r := HelperSet(t.node.children[k], p, d, depth + 1);
      && HelperSet(t, p, d, depth) == SetResult(
           t.(node := Internal(t.node.children[k := r.tree]), size := if r.outcome.Ok? then t.size + 1 else t.size), r.outcome)
      && (NothingBelow(t) ==> NothingBelow(t.node.children[k]))
  {
  }

  lemma NothingInside(center: Point, side: real)
    ensures NothingBelow(EmptyInternal(center, side))
  {
  }

  /** Neither the node nor a child of it stores anything. */
  ghost predicate NothingBelow(t: Octree)
  {
    match t.node
    case Internal(cs) => forall k :: 0 <= k < |cs| ==> cs[k].node == Empty
    case Empty => true
    case Filled(_, _) => false
  }
}

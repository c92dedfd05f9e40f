/** Where frames are after frame systems are divided and merged. */
module FramePoses {
  import opened Forest
  import opened FrameSystems
  import opened FrameTree
  import opened Options
  import opened Poses

  /** A frame stands where it stood in any larger tree with the same links. */
  lemma {:induction false} PoseInLarger<P(!new)>(k: Kinematics<P>, inputs: Inputs, small: Parents, large: Parents, world: Frame, f: Frame)
    requires IsTree(small, world) && IsTree(large, world) && WithinMap(small, large) && (f in small || f == world)
    ensures f in large || f == world
    ensures WorldPose(k, inputs, small, world, f) == WorldPose(k, inputs, large, world, f)
    decreases |Trace(small, world, f)|
  {
    TraceStep(small, world, f);
    WorldPoseStep(k, inputs, small, world, f);
    WorldPoseStep(k, inputs, large, world, f);
    if f != world {
      PoseInLarger(k, inputs, small, large, world, small[f]);
    }
  }

  // ----- dividing -----

  /** In what is left after a division every transform gives what it gave before. */
  lemma RestUnmoved<P(!new)>(k: Kinematics<P>, inputs: Inputs, parents: Parents, world: Frame, root: Frame, x: Frame, y: Frame, pose: P)
    requires IsTree(parents, world)
    requires x in parents - Descendants(parents, world, root) || x == world
    requires y in parents - Descendants(parents, world, root) || y == world
    ensures IsTree(parents - Descendants(parents, world, root), world)
    ensures Transformed(k, inputs, parents - Descendants(parents, world, root), world, x, y, pose)
         == Transformed(k, inputs, parents, world, x, y, pose)
  {
    RemoveKeepsTree(parents, world, root);
    var left := parents - Descendants(parents, world, root);
    PoseInLarger(k, inputs, left, parents, world, x);
    PoseInLarger(k, inputs, left, parents, world, y);
  }

  /** In the whole, a frame of the part stands where it stands in the part, moved by where the
      part hangs. */
  lemma {:induction false} PartPose<P(!new)>(k: Kinematics<P>, inputs: Inputs, parents: Parents, world: Frame,
                                            root: Frame, newWorld: Frame, f: Frame)
    requires IsGroup(k.group) && IsTree(parents, world) && root in parents && newWorld !in parents
    requires IsTree(SubsetParents(parents, world, root, newWorld), newWorld)
    requires f in Descendants(parents, world, root)
    ensures parents[root] in parents || parents[root] == world
    ensures WorldPose(k, inputs, parents, world, f) ==
        Composed(k, WorldPose(k, inputs, parents, world, parents[root]),
                 WorldPose(k, inputs, SubsetParents(parents, world, root, newWorld), newWorld, f))
    decreases |Trace(parents, world, f)|
  {
    hide IsGroup, IsTree, WorldPose, PoseFromPositions, PathPose;
    var sub := SubsetParents(parents, world, root, newWorld);
    TraceStep(parents, world, f);
    TraceStep(parents, world, root);
    DescendantsStep(parents, world, f, root);
    WorldPoseStep(k, inputs, parents, world, f);
    WorldPoseStep(k, inputs, sub, newWorld, f);
    WorldPoseStep(k, inputs, sub, newWorld, newWorld);
    var at, own := WorldPose(k, inputs, parents, world, parents[root]), PoseFromPositions(k, f, inputs);
    if f == root {
      ComposedZero(k, own);
    } else {
      DescendantsStep(parents, world, root, root);
      PartPose(k, inputs, parents, world, root, newWorld, parents[f]);
      ComposedAssociative(k, at, WorldPose(k, inputs, sub, newWorld, parents[f]), own);
    }
  }

  lemma ComposedZero<P(!new)>(k: Kinematics<P>, a: Option<P>)
    requires IsGroup(k.group)
    ensures Composed(k, Some(k.group.zero), a) == a
  {
  }

  /** Inside the part that was split off, every transform that could be made still gives the same. */
  lemma PartUnmoved<P(!new)>(k: Kinematics<P>, inputs: Inputs, parents: Parents, world: Frame, root: Frame, newWorld: Frame,
                             x: Frame, y: Frame, pose: P)
    requires IsGroup(k.group) && IsTree(parents, world) && root in parents && newWorld !in parents
    requires x in Descendants(parents, world, root) && y in Descendants(parents, world, root)
    requires Transformed(k, inputs, parents, world, x, y, pose).Some?
    ensures IsTree(SubsetParents(parents, world, root, newWorld), newWorld)
    ensures Transformed(k, inputs, SubsetParents(parents, world, root, newWorld), newWorld, x, y, pose)
         == Transformed(k, inputs, parents, world, x, y, pose)
  {
    SubsetEnd(parents, world, root, newWorld);
    hide IsGroup, IsTree, WorldPose;
    var sub := SubsetParents(parents, world, root, newWorld);
    PartPose(k, inputs, parents, world, root, newWorld, x);
    PartPose(k, inputs, parents, world, root, newWorld, y);
    if x != y {
      var m := WorldPose(k, inputs, parents, world, parents[root]).value;
      var a, b := WorldPose(k, inputs, sub, newWorld, x).value, WorldPose(k, inputs, sub, newWorld, y).value;
      RelativeCancels(k.group, m, a, b);
    }
  }

  // ----- merging -----

  lemma MergedEntries(a: Parents, at: Frame, b: Parents, w: Frame)
    ensures MergedParents(a, at, b, w).Keys == a.Keys + b.Keys
    ensures forall x :: x in b ==> MergedParents(a, at, b, w)[x] == if b[x] == w then at else b[x]
    ensures forall x :: x in a && x !in b ==> MergedParents(a, at, b, w)[x] == a[x]
  {
  }

  /** The merged tree hangs from the world of the first. */
  lemma MergedIsTree(a: Parents, world: Frame, at: Frame, b: Parents, w: Frame)
    requires IsTree(a, world) && IsTree(b, w) && (at in a || at == world)
    requires a.Keys !! b.Keys && world !in b
    ensures IsTree(MergedParents(a, at, b, w), world)
  {
    hide IsTree, Ranked, Up, MergedParents;
    var ra := TreeRank(a, world);
    var rb := TreeRank(b, w);
    var m := MergedParents(a, at, b, w);
    MergedEntries(a, at, b, w);
    var rank := map x | x in m.Keys + {world} :: if x in b then rb[x] + ra[at] + 1 else ra[x];
    forall x | x in m
      ensures FallsAt(m, world, rank, x)
    {
      assert if x in b then FallsAt(b, w, rb, x) else FallsAt(a, world, ra, x);
    }
    TreeFromRank(m, world, rank);
  }

  /** Each merged frame stands where it stood in its old world, moved to the frame it was attached to. */
  lemma {:induction false} MergedPose<P(!new)>(k: Kinematics<P>, inputs: Inputs, a: Parents, world: Frame, at: Frame,
                                              b: Parents, w: Frame, f: Frame)
    requires IsGroup(k.group) && IsTree(a, world) && IsTree(b, w) && (at in a || at == world)
    requires a.Keys !! b.Keys && world !in b && f in b
    ensures IsTree(MergedParents(a, at, b, w), world)
    ensures WorldPose(k, inputs, MergedParents(a, at, b, w), world, f) ==
        Composed(k, WorldPose(k, inputs, a, world, at), WorldPose(k, inputs, b, w, f))
    decreases |Trace(b, w, f)|
  {
    hide IsGroup, IsTree, WorldPose, PoseFromPositions, PathPose;
    MergedIsTree(a, world, at, b, w);
    var m := MergedParents(a, at, b, w);
    TraceStep(b, w, f);
    WorldPoseStep(k, inputs, m, world, f);
    WorldPoseStep(k, inputs, b, w, f);
    WorldPoseStep(k, inputs, b, w, w);
    var top, own := WorldPose(k, inputs, a, world, at), PoseFromPositions(k, f, inputs);
    if b[f] == w {
      PoseInLarger(k, inputs, a, m, world, at);
      ComposedZero(k, own);
    } else {
      MergedPose(k, inputs, a, world, at, b, w, b[f]);
      ComposedAssociative(k, top, WorldPose(k, inputs, b, w, b[f]), own);
    }
  }

  /** The frames that were there before the merge stay where they are. */
  lemma MergeMovesNothing<P(!new)>(k: Kinematics<P>, inputs: Inputs, a: Parents, world: Frame, at: Frame, b: Parents, w: Frame, f: Frame)
    requires IsTree(a, world) && IsTree(b, w) && (at in a || at == world) && (f in a || f == world)
    requires a.Keys !! b.Keys && world !in b
    ensures IsTree(MergedParents(a, at, b, w), world)
    ensures WorldPose(k, inputs, MergedParents(a, at, b, w), world, f) == WorldPose(k, inputs, a, world, f)
  {
    MergedIsTree(a, world, at, b, w);
    PoseInLarger(k, inputs, a, MergedParents(a, at, b, w), world, f);
  }
}

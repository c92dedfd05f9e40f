/** Frames, the tree they form below the world frame, and poses along the tree. */
module FrameTree {
  import opened Forest
  import opened Options
  import opened Poses

  const WORLD := "world"

  /** A reference frame: its identity, its name, and its number of degrees of freedom. */
  datatype Frame = Frame(id: nat, name: string, dof: nat)

  type Parents = map<Frame, Frame>

  type Inputs = map<string, seq<real>>

  /** How the inputs of a frame place it in its parent. */
  datatype Kinematics<!P> = Kinematics(group: Group<P>, pose: (Frame, seq<real>) -> P)

  // ----- poses along a path of frames -----

  /** The inputs of a frame; a frame that moves must be given some. */
  function GetFrameInputs(f: Frame, inputs: Inputs): Option<seq<real>>
  {
    if f.dof > 0 then
      if f.name in inputs then Some(inputs[f.name]) else None
    else Some([])
  }

  /** The pose of a frame in its parent; a wrong number of inputs is an error. */
  function PoseFromPositions<P>(k: Kinematics<P>, f: Frame, inputs: Inputs): Option<P>
  {
    var v := GetFrameInputs(f, inputs);
    if v.None? || |v.value| != f.dof then None else Some(k.pose(f, v.value))
  }

  function Composed<P>(k: Kinematics<P>, a: Option<P>, b: Option<P>): Option<P>
  {
    if a.Some? && b.Some? then Some(k.group.compose(a.value, b.value)) else None
  }

  /** The pose of the first frame of a path from child to parent as seen from the last. */
  ghost function PathPose<P>(k: Kinematics<P>, inputs: Inputs, s: seq<Frame>): Option<P>
  {
    if |s| <= 1 then Some(k.group.zero)
    else Composed(k, PathPose(k, inputs, s[1..]), PoseFromPositions(k, s[0], inputs))
  }

  lemma ComposedAssociative<P(!new)>(k: Kinematics<P>, a: Option<P>, b: Option<P>, c: Option<P>)
    requires IsGroup(k.group)
    ensures Composed(k, Composed(k, a, b), c) == Composed(k, a, Composed(k, b, c))
  {
  }

  /** The pose along a path is that along its second part after that along its first part. */
  lemma {:induction false} PathPoseSplits<P(!new)>(k: Kinematics<P>, inputs: Inputs, s: seq<Frame>, i: nat)
    requires IsGroup(k.group) && i < |s|
    ensures PathPose(k, inputs, s) == Composed(k, PathPose(k, inputs, s[i..]), PathPose(k, inputs, s[..i + 1]))
  {
    hide IsGroup, PoseFromPositions;
    if i == 0 {
      assert s[0..] == s;
      if PathPose(k, inputs, s).Some? {
        Neutral(k.group, PathPose(k, inputs, s).value);
      }
    } else {
      PathPoseSplits(k, inputs, s[1..], i - 1);
      assert s[1..][i - 1..] == s[i..];
      assert s[1..][..i - 1 + 1] == s[..i + 1][1..];
      ComposedAssociative(k, PathPose(k, inputs, s[i..]), PathPose(k, inputs, s[..i + 1][1..]), PoseFromPositions(k, s[0], inputs));
    }
  }

  /** Frames that get the same inputs give the same pose. */
  lemma {:induction false} PathPoseSame<P(!new)>(k: Kinematics<P>, inputs: Inputs, inputs': Inputs, s: seq<Frame>)
    requires forall i :: 0 <= i < |s| - 1 ==> GetFrameInputs(s[i], inputs) == GetFrameInputs(s[i], inputs')
    ensures PathPose(k, inputs, s) == PathPose(k, inputs', s)
  {
    if |s| > 1 {
      PathPoseSame(k, inputs, inputs', s[1..]);
    }
  }

  // ----- the tree -----

  /** The parents, with the world as the only root. */
  ghost function Up(parents: Parents, world: Frame): map<Frame, Option<Frame>>
  {
    map f | f in parents.Keys + {world} :: if f in parents then Some(parents[f]) else None
  }

  /** Every frame hangs, through its parents, from the world. */
  ghost predicate IsTree(parents: Parents, world: Frame)
  {
    world !in parents && IsForest(Up(parents, world))
  }

  /** The rank falls on the way from every frame to its parent. */
  ghost predicate Falls(parents: Parents, world: Frame, rank: map<Frame, nat>)
  {
    && rank.Keys == parents.Keys + {world}
    && forall f :: f in parents ==> FallsAt(parents, world, rank, f)
  }

  ghost predicate FallsAt(parents: Parents, world: Frame, rank: map<Frame, nat>, f: Frame)
    requires f in parents && rank.Keys == parents.Keys + {world}
  {
    (parents[f] in parents || parents[f] == world) && rank[parents[f]] < rank[f]
  }

  lemma TreeFromRank(parents: Parents, world: Frame, rank: map<Frame, nat>)
    requires world !in parents && Falls(parents, world, rank)
    ensures IsTree(parents, world)
  {
    forall f | f in parents
      ensures (parents[f] in parents || parents[f] == world) && rank[parents[f]] < rank[f]
    {
      assert FallsAt(parents, world, rank, f);
    }
    assert Ranked(Up(parents, world), rank);
  }

  lemma TreeRank(parents: Parents, world: Frame) returns (rank: map<Frame, nat>)
    requires IsTree(parents, world)
    ensures Ranked(Up(parents, world), rank) && Falls(parents, world, rank) && world !in parents
  {
    rank :| Ranked(Up(parents, world), rank);
    forall f | f in parents
      ensures FallsAt(parents, world, rank, f)
    {
      assert Up(parents, world)[f] == Some(parents[f]);
    }
  }

  /** The frames registered by name are those that have a parent; none is called world. */
  ghost predicate Registered(frames: map<string, Frame>, parents: Parents)
  {
    && (forall n :: n in frames ==> frames[n].name == n && frames[n] in parents)
    && (forall f :: f in parents ==> f.name in frames && frames[f.name] == f && f.name != WORLD)
  }

  /** `s` lists a frame, its parent, and so on up to the world. */
  ghost predicate IsTrace(parents: Parents, world: Frame, s: seq<Frame>, f: Frame)
  {
    IsChain(Up(parents, world), s, f)
  }

  lemma TraceEndsAtWorld(parents: Parents, world: Frame, s: seq<Frame>, f: Frame)
    requires IsTree(parents, world) && IsTrace(parents, world, s, f)
    ensures s[|s| - 1] == world
    ensures |s| == 1 <==> f == world
    ensures forall i :: 0 <= i < |s| - 1 ==> s[i] in parents && parents[s[i]] == s[i + 1]
  {
    ChainHead(Up(parents, world), s, f);
    forall i | 0 <= i < |s| - 1
      ensures s[i] in parents && parents[s[i]] == s[i + 1]
    {
      assert Up(parents, world)[s[i]] == Some(s[i + 1]);
    }
  }

  lemma TraceExists(parents: Parents, world: Frame, f: Frame) returns (s: seq<Frame>)
    requires IsTree(parents, world) && (f in parents || f == world)
    ensures IsTrace(parents, world, s, f)
  {
    var rank :| Ranked(Up(parents, world), rank);
    s := ChainExists(Up(parents, world), rank, f);
  }

  ghost function Trace(parents: Parents, world: Frame, f: Frame): (s: seq<Frame>)
    requires IsTree(parents, world) && (f in parents || f == world)
    ensures IsTrace(parents, world, s, f)
  {
    assert exists s :: IsTrace(parents, world, s, f) by {
      var s := TraceExists(parents, world, f);
    }
    var s :| IsTrace(parents, world, s, f);
    s
  }

  /** The pose of a frame in the world. */
  ghost function WorldPose<P(!new)>(k: Kinematics<P>, inputs: Inputs, parents: Parents, world: Frame, f: Frame): Option<P>
    requires IsTree(parents, world) && (f in parents || f == world)
  {
    PathPose(k, inputs, Trace(parents, world, f))
  }

  lemma TraceIs(parents: Parents, world: Frame, s: seq<Frame>, f: Frame)
    requires IsTree(parents, world) && IsTrace(parents, world, s, f)
    ensures Trace(parents, world, f) == s
  {
    ChainUnique(Up(parents, world), s, Trace(parents, world, f), f);
  }

  /** A frame is where its parent is, moved by its own pose. */
  lemma WorldPoseStep<P(!new)>(k: Kinematics<P>, inputs: Inputs, parents: Parents, world: Frame, f: Frame)
    requires IsTree(parents, world)
    requires f in parents || f == world
    ensures f in parents ==> parents[f] in parents || parents[f] == world
    ensures WorldPose(k, inputs, parents, world, f) ==
        if f == world then Some(k.group.zero)
        else Composed(k, WorldPose(k, inputs, parents, world, parents[f]), PoseFromPositions(k, f, inputs))
  {
    var s := Trace(parents, world, f);
    TraceEndsAtWorld(parents, world, s, f);
    if f != world {
      ChainTail(Up(parents, world), s, f);
      TraceIs(parents, world, s[1..], parents[f]);
    }
  }

  lemma TraceStep(parents: Parents, world: Frame, f: Frame)
    requires IsTree(parents, world) && (f in parents || f == world)
    ensures f == world ==> Trace(parents, world, f) == [world]
    ensures f in parents ==> parents[f] in parents || parents[f] == world
    ensures f in parents ==> Trace(parents, world, f) == [f] + Trace(parents, world, parents[f])
  {
    var s := Trace(parents, world, f);
    TraceEndsAtWorld(parents, world, s, f);
    if f != world {
      ChainTail(Up(parents, world), s, f);
      TraceIs(parents, world, s[1..], parents[f]);
      assert s == [f] + s[1..];
    } else {
      assert s == [world];
    }
  }

  // ----- what hangs below a frame -----

  /** The frame itself, unless it is the world, and every frame that hangs below it. */
  ghost function Descendants(parents: Parents, world: Frame, f: Frame): set<Frame>
    requires IsTree(parents, world)
  {
    set x | x in parents && f in Trace(parents, world, x)
  }

  lemma {:induction false} TraceIsBelow(parents: Parents, world: Frame, rank: map<Frame, nat>, x: Frame, f: Frame)
    requires IsTree(parents, world) && (x in parents || x == world) && Ranked(Up(parents, world), rank)
    ensures f in Trace(parents, world, x) <==> Below(Up(parents, world), rank, x, f)
    decreases rank[x]
  {
    TraceStep(parents, world, x);
    if x != world {
      assert Up(parents, world)[x] == Some(parents[x]);
      TraceIsBelow(parents, world, rank, parents[x], f);
    }
  }

  lemma DescendantsStep(parents: Parents, world: Frame, x: Frame, f: Frame)
    requires IsTree(parents, world) && x in parents
    ensures x in Descendants(parents, world, f) <==>
        x == f || parents[x] == f || parents[x] in Descendants(parents, world, f)
  {
    TraceStep(parents, world, x);
    TraceStep(parents, world, parents[x]);
  }

  /** Below a child is below the frame, and below only one child; and the frame is not below its child. */
  lemma BelowChildren(parents: Parents, world: Frame, f: Frame, c: Frame, x: Frame)
    requires IsTree(parents, world) && c in parents && parents[c] == f
    requires x in Descendants(parents, world, c)
    ensures x in Descendants(parents, world, f)
    ensures f !in Descendants(parents, world, c) && x != f
    ensures forall c' :: c' in parents && parents[c'] == f && x in Descendants(parents, world, c') ==> c' == c
    ensures x != c ==> parents[x] != f && parents[x] in Descendants(parents, world, c)
  {
    var rank :| Ranked(Up(parents, world), rank);
    var up := Up(parents, world);
    TraceIsBelow(parents, world, rank, x, c);
    TraceIsBelow(parents, world, rank, x, f);
    assert up[c] == Some(f) && Below(up, rank, c, f);
    BelowTransitive(up, rank, x, c, f);
    if f in Descendants(parents, world, c) {
      TraceIsBelow(parents, world, rank, f, c);
      BelowRank(up, rank, f, c);
    }
    forall c' | c' in parents && parents[c'] == f && x in Descendants(parents, world, c')
      ensures c' == c
    {
      TraceIsBelow(parents, world, rank, x, c');
      if c' != c {
        ChildrenApart(up, rank, f, x, c', c);
      }
    }
    BelowRank(up, rank, x, c);
    DescendantsStep(parents, world, x, c);
    TraceStep(parents, world, f);
  }

  /** What hangs below a frame hangs below one of its children, if everything on the way is there. */
  lemma {:induction false} AboveIsChild(parents: Parents, world: Frame, f: Frame, here: Parents, x: Frame) returns (c: Frame)
    requires IsTree(parents, world) && (f in parents || f == world)
    requires x in parents && x in here && x in Descendants(parents, world, f) && x != f
    requires forall y :: y in here && y in Descendants(parents, world, f) && y != f ==> parents[y] == f || parents[y] in here
    ensures c in here && c in parents && parents[c] == f && x in Descendants(parents, world, c)
    decreases |Trace(parents, world, x)|
  {
    TraceStep(parents, world, x);
    DescendantsStep(parents, world, x, f);
    if parents[x] == f {
      c := x;
      DescendantsStep(parents, world, x, x);
    } else {
      c := AboveIsChild(parents, world, f, here, parents[x]);
      DescendantsStep(parents, world, x, c);
    }
  }

  // ----- transforming between frames -----

  /** A pose given in `src`, expressed in `dst`. */
  ghost function Transformed<P(!new)>(k: Kinematics<P>, inputs: Inputs, parents: Parents, world: Frame,
                                      src: Frame, dst: Frame, pose: P): Option<P>
    requires IsTree(parents, world) && (src in parents || src == world) && (dst in parents || dst == world)
  {
    var a, b := WorldPose(k, inputs, parents, world, src), WorldPose(k, inputs, parents, world, dst);
    if src == dst then Some(pose)
    else if a.Some? && b.Some? then Some(k.group.compose(Relative(k.group, a.value, b.value), pose))
    else None
  }

  /** Transforming to a second frame and on to a third is transforming to the third; in particular
      there and back again gives the original pose. */
  lemma TransformFunctorial<P(!new)>(k: Kinematics<P>, inputs: Inputs, parents: Parents, world: Frame,
                                     src: Frame, mid: Frame, dst: Frame, pose: P)
    requires IsGroup(k.group) && IsTree(parents, world)
    requires (src in parents || src == world) && (mid in parents || mid == world) && (dst in parents || dst == world)
    requires Transformed(k, inputs, parents, world, src, mid, pose).Some?
    ensures var there := Transformed(k, inputs, parents, world, src, mid, pose).value;
      var on := Transformed(k, inputs, parents, world, mid, dst, there);
      && (on.Some? ==> on == Transformed(k, inputs, parents, world, src, dst, pose))
      && (dst == src ==> on == Some(pose))
  {
    hide IsGroup, IsTree, WorldPose;
    var a, b, c := WorldPose(k, inputs, parents, world, src), WorldPose(k, inputs, parents, world, mid),
      WorldPose(k, inputs, parents, world, dst);
    if a.Some? && b.Some? && c.Some? {
      var g := k.group;
      RelativeChains(g, a.value, b.value, c.value);
      RelativeChains(g, a.value, a.value, a.value);
      Associative(g, Relative(g, b.value, c.value), Relative(g, a.value, b.value), pose);
      Neutral(g, pose);
    }
  }

  /** What stands at a pose in a frame stands, in the world, at that pose moved by where the frame is. */
  lemma TransformToWorld<P(!new)>(k: Kinematics<P>, inputs: Inputs, parents: Parents, world: Frame, f: Frame, pose: P)
    requires IsGroup(k.group) && IsTree(parents, world) && (f in parents || f == world)
    ensures Transformed(k, inputs, parents, world, f, world, pose)
         == Composed(k, WorldPose(k, inputs, parents, world, f), Some(pose))
  {
    hide IsGroup, IsTree, WorldPose;
    WorldPoseStep(k, inputs, parents, world, world);
    Neutral(k.group, pose);
    RelativeToZero(k, inputs, parents, world, f);
  }

  lemma RelativeToZero<P(!new)>(k: Kinematics<P>, inputs: Inputs, parents: Parents, world: Frame, f: Frame)
    requires IsGroup(k.group) && IsTree(parents, world) && (f in parents || f == world)
    ensures var a := WorldPose(k, inputs, parents, world, f);
      a.Some? ==> Relative(k.group, a.value, k.group.zero) == a.value
  {
    hide IsGroup, IsTree, WorldPose;
    var a := WorldPose(k, inputs, parents, world, f);
    if a.Some? {
      Undone(k.group, k.group.zero, a.value);
      Neutral(k.group, a.value);
    }
  }

  /** A frame stands in its parent at its own pose. */
  lemma TransformToParent<P(!new)>(k: Kinematics<P>, inputs: Inputs, parents: Parents, world: Frame, f: Frame)
    requires IsGroup(k.group) && IsTree(parents, world) && f in parents && WorldPose(k, inputs, parents, world, f).Some?
    ensures (parents[f] in parents || parents[f] == world) && parents[f] != f
    ensures Transformed(k, inputs, parents, world, f, parents[f], k.group.zero) == PoseFromPositions(k, f, inputs)
    ensures PoseFromPositions(k, f, inputs).Some?
  {
    hide IsGroup, IsTree, WorldPose;
    WorldPoseStep(k, inputs, parents, world, f);
    var rank := TreeRank(parents, world);
    assert FallsAt(parents, world, rank, f);
    var above, own := WorldPose(k, inputs, parents, world, parents[f]), PoseFromPositions(k, f, inputs);
    Undone(k.group, above.value, own.value);
    Neutral(k.group, own.value);
  }

  /** Seen from a frame, a pose of the world is the one that the frame's own place moves back to it. */
  lemma TransformFromWorld<P(!new)>(k: Kinematics<P>, inputs: Inputs, parents: Parents, world: Frame, f: Frame, pose: P)
    requires IsGroup(k.group) && IsTree(parents, world) && f in parents
    ensures var a, r := WorldPose(k, inputs, parents, world, f), Transformed(k, inputs, parents, world, world, f, pose);
      && (r.Some? <==> a.Some?)
      && (r.Some? ==> k.group.compose(a.value, r.value) == pose)
  {
    hide IsGroup, IsTree, WorldPose;
    WorldPoseStep(k, inputs, parents, world, world);
    var rank := TreeRank(parents, world);
    var a := WorldPose(k, inputs, parents, world, f);
    if a.Some? {
      var g := k.group;
      Neutral(g, g.inverse(a.value));
      Undone(g, a.value, pose);
    }
  }
}

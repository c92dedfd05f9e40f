/** The frame system: a mutable tree of named frames rooted at the world frame. */
module FrameSystems {
  import opened Forest
  import opened FrameTree
  import opened Options
  import opened Poses
  import opened Sequences

  datatype Error = ParentFrameMissing | FrameMissing(name: string) | FrameAlreadyExists(name: string) | NoPositions

  datatype Outcome = Ok | Err(error: Error)

  datatype Result<T> = Success(value: T) | Failure(error: Error)

  class FrameSystem {
    const world: Frame
    var frames: map<string, Frame>
    var parents: Parents

    ghost predicate Valid()
      reads this
    {
      && world.name == WORLD && world.dof == 0
      && IsTree(parents, world)
      && Registered(frames, parents)
    }

    /** The frame itself, not merely one of the same name, belongs to the system. */
    ghost predicate Has(f: Frame)
      reads this
    {
      f == world || f in parents
    }

    constructor (world: Frame)
      requires world.name == WORLD && world.dof == 0
      ensures Valid() && this.world == world && parents == map[] && frames == map[]
    {
      this.world := world;
      frames, parents := map[], map[];
      new;
      assert Ranked(Up(parents, world), map[world := 0]);
    }

    predicate FrameExists(name: string)
      reads this
    {
      name == WORLD || name in frames
    }

    /** The frame of the given name. */
    function FrameNamed(name: string): (r: Option<Frame>)
      requires Valid()
      reads this
      ensures r.Some? <==> FrameExists(name)
      ensures r.Some? ==> Has(r.value) && r.value.name == name
    {
      if !FrameExists(name) then None
      else if name == WORLD then Some(world)
      else Some(frames[name])
    }

    /** The frame's parent; the world has none. */
    function Parent(f: Frame): (r: Result<Frame>)
      requires Valid()
      reads this
      ensures r.Success? <==> f in parents
      ensures r.Success? ==> Has(r.value) && r.value == parents[f]
    {
      if !FrameExists(f.name) then Failure(FrameMissing(f.name))
      else if f in parents then
        ParentInTree(parents, world, f);
        Success(parents[f])
      else Failure(ParentFrameMissing)
    }

    /** Adds a new frame below a registered one. */
    method AddFrame(f: Frame, parent: Option<Frame>) returns (r: Outcome)
      requires Valid()
      requires parent.Some? && FrameExists(parent.value.name) ==> Has(parent.value)
      modifies this`frames, this`parents
      ensures Valid()
      ensures r == if parent.None? then Err(ParentFrameMissing)
                   else if !old(FrameExists(parent.value.name)) then Err(FrameMissing(parent.value.name))
                   else if old(FrameExists(f.name)) then Err(FrameAlreadyExists(f.name))
                   else Ok
      ensures r.Err? ==> unchanged(this)
      ensures r.Ok? ==> parents == old(parents)[f := parent.value] && frames == old(frames)[f.name := f]
    {
      hide IsTree, Registered;
      if parent.None? {
        return Err(ParentFrameMissing);
      }
      if !FrameExists(parent.value.name) {
        return Err(FrameMissing(parent.value.name));
      }
      if FrameExists(f.name) {
        return Err(FrameAlreadyExists(f.name));
      }
      AddKeepsRegistered(frames, parents, f, parent.value);
      AddKeepsTree(parents, world, f, parent.value);
      frames := frames[f.name := f];
      parents := parents[f := parent.value];
      return Ok;
    }

    /** The frames from a frame up to the world, both included. */
    method TracebackFrame(query: Frame) returns (r: Result<seq<Frame>>)
      requires Valid()
      requires FrameExists(query.name) ==> Has(query)
      ensures r == if FrameExists(query.name) then Success(Trace(parents, world, query)) else Failure(FrameMissing(query.name))
      decreases if Has(query) then |Trace(parents, world, query)| else 0
    {
      hide IsTree;
      if !FrameExists(query.name) {
        return Failure(FrameMissing(query.name));
      }
      TraceStep(parents, world, query);
      if query == world {
        return Success([query]);
      }
      var rest := TracebackFrame(parents[query]);
      if rest.Failure? {
        return rest;
      }
      return Success([query] + rest.value);
    }

    /** The pose of a frame in the world, composed frame by frame on the way up. */
    method ComposeTransforms<P(!new)>(k: Kinematics<P>, f: Frame, inputs: Inputs) returns (r: Option<P>)
      requires Valid() && Has(f) && IsGroup(k.group)
      ensures r == WorldPose(k, inputs, parents, world, f)
    {
      hide IsGroup, IsTree;
      var q := k.group.zero;
      var frame := f;
      ghost var s := Trace(parents, world, f);
      ghost var i := 0;
      TraceEndsAtWorld(parents, world, s, f);
      StartPose(k, inputs, s);
      while frame in parents
        invariant 0 <= i < |s| && frame == s[i]
        invariant PathPose(k, inputs, s[..i + 1]) == Some(q)
        decreases |s| - i
      {
        var pose := PoseFromPositions(k, frame, inputs);
        StepPose(k, inputs, s, i);
        if pose.None? {
          return None;
        }
        q := k.group.compose(pose.value, q);
        frame := parents[frame];
        i := i + 1;
      }
      assert i == |s| - 1 && s[..i + 1] == s;
      return Some(q);
    }

    /** Expresses a pose given in one frame in another. */
    method Transform<P(!new)>(k: Kinematics<P>, inputs: Inputs, src: string, pose: P, dst: string) returns (r: Result<P>)
      requires Valid() && IsGroup(k.group)
      ensures src == dst ==> r == Success(pose)
      ensures src != dst && !FrameExists(src) ==> r == Failure(FrameMissing(src))
      ensures src != dst && FrameExists(src) && !FrameExists(dst) ==> r == Failure(FrameMissing(dst))
      ensures FrameExists(src) && FrameExists(dst) ==>
        var t := Transformed(k, inputs, parents, world, FrameNamed(src).value, FrameNamed(dst).value, pose);
        r == if t.Some? then Success(t.value) else Failure(NoPositions)
    {
      if src == dst {
        return Success(pose);
      }
      if !FrameExists(src) {
        return Failure(FrameMissing(src));
      }
      if !FrameExists(dst) {
        return Failure(FrameMissing(dst));
      }
      var srcFrame, dstFrame := FrameNamed(src).value, FrameNamed(dst).value;
      var dstToWorld := ComposeTransforms(k, dstFrame, inputs);
      var srcToWorld := ComposeTransforms(k, srcFrame, inputs);
      if dstToWorld.None? || srcToWorld.None? {
        return Failure(NoPositions);
      }
      var tf := k.group.compose(k.group.inverse(dstToWorld.value), srcToWorld.value);
      return Success(k.group.compose(tf, pose));
    }

    /** Removes a frame and everything below it. */
    method RemoveFrame(f: Frame)
      requires Valid() && Has(f)
      modifies this`frames, this`parents
      ensures Valid()
      ensures parents == old(parents) - Descendants(old(parents), world, f)
    {
      hide IsTree, Descendants, Registered;
      NoGapAtFirst(parents, world, f);
      RemoveKeepsTree(parents, world, f);
      RemoveRec(f, parents);
    }

    /** The recursion of `RemoveFrame`; `orig` are the parents before the first call. The map is
        iterated in any order, and entries that a recursive call deletes are no longer met. */
    method RemoveRec(f: Frame, ghost orig: Parents)
      requires IsTree(orig, world) && (f in orig || f == world) && world.name == WORLD
      requires Registered(frames, parents) && WithinMap(parents, orig)
      requires f in parents || f == world
      requires NoGapBelow(orig, world, f, parents)
      modifies this`frames, this`parents
      ensures parents == old(parents) - Descendants(orig, world, f)
      ensures Registered(frames, parents)
      decreases if f in parents then |parents.Keys| else |parents.Keys| + 1
    {
      hide IsTree, Descendants, Registered, RemoveInv, NoGapBelow;
      ghost var was := parents;
      UnregisterKeeps(frames, parents, world, f);
      frames := frames - {f.name};
      parents := parents - {f};
      RemoveStart(orig, world, f, was);
      var seen: set<Frame> := {};
      var todo := parents.Keys - seen;
      while todo != {}
        invariant todo == parents.Keys - seen
        invariant Registered(frames, parents) && RemoveInv(orig, world, f, was, parents, seen)
        decreases |was.Keys - seen|
      {
        var x :| x in todo;
        RemoveMeasure(orig, world, f, was, parents, seen, x);
        if parents[x] == f {
          RemoveChildReady(orig, world, f, was, parents, seen, x);
          RemoveChildDone(orig, world, f, was, parents, seen, x);
          RemoveRec(x, orig);
        } else {
          RemovePass(orig, world, f, was, parents, seen, x);
        }
        seen := seen + {x};
        todo := parents.Keys - seen;
      }
      RemoveEnd(orig, world, f, was, parents, seen);
    }

    /** A new system rooted at the given frame, with everything below it. This system is unchanged. */
    method FrameSystemSubset(newRoot: Frame, newWorld: Frame) returns (r: Result<FrameSystem>)
      requires Valid() && newRoot.name != WORLD && (FrameExists(newRoot.name) ==> Has(newRoot))
      requires newWorld.name == WORLD && newWorld.dof == 0
      ensures r.Success? <==> FrameExists(newRoot.name)
      ensures r.Failure? ==> r.error == FrameMissing(newRoot.name)
      ensures r.Success? ==> fresh(r.value) && r.value.Valid() && r.value.world == newWorld
      ensures r.Success? ==> r.value.parents == SubsetParents(parents, world, newRoot, newWorld)
    {
      hide IsTree, Descendants, SubsetParents;
      if !FrameExists(newRoot.name) {
        return Failure(FrameMissing(newRoot.name));
      }
      var sub := new FrameSystem(newWorld);
      sub.frames := sub.frames[newRoot.name := newRoot];
      sub.parents := sub.parents[newRoot := newWorld];
      var todo := parents.Keys;
      SubsetStart(parents, world, newRoot, newWorld);
      while todo != {}
        invariant todo <= parents.Keys && sub.world == newWorld
        invariant Registered(sub.frames, sub.parents)
        invariant sub.parents == SubsetSoFar(parents, world, newRoot, newWorld, todo)
      {
        var f :| f in todo;
        SubsetStep(parents, world, newRoot, newWorld, todo, f);
        var addNew := true;
        if parents[f] != newRoot {
          addNew := TraceParent(parents[f], newRoot, newWorld, sub.frames, todo);
        }
        if addNew {
          SubsetRegisters(parents, world, newRoot, newWorld, todo, frames, sub.frames, f);
          sub.frames := sub.frames[f.name := f];
          sub.parents := sub.parents[f := parents[f]];
        }
        todo := todo - {f};
      }
      SubsetEnd(parents, world, newRoot, newWorld);
      return Success(sub);
    }

    /** Whether a frame hangs below the new root; a frame already taken over shortens the search. */
    method TraceParent(f: Frame, newRoot: Frame, ghost newWorld: Frame, taken: map<string, Frame>, ghost todo: set<Frame>)
      returns (b: bool)
      requires Valid() && Has(f) && newRoot in parents
      requires Registered(taken, SubsetSoFar(parents, world, newRoot, newWorld, todo))
      ensures b <==> f in Descendants(parents, world, newRoot)
      decreases |Trace(parents, world, f)|
    {
      hide IsTree, SubsetSoFar, Descendants;
      TraceStep(parents, world, f);
      if f == world {
        NotBelow(parents, world, newRoot);
        return false;
      }
      DescendantsStep(parents, world, f, newRoot);
      if f == newRoot {
        return true;
      }
      if f.name == WORLD || f.name in taken {
        TakenIsBelow(parents, world, newRoot, newWorld, todo, frames, taken, f);
        return true;
      }
      if parents[f] == newRoot {
        DescendantsStep(parents, world, newRoot, newRoot);
      }
      b := TraceParent(parents[f], newRoot, newWorld, taken, todo);
    }

    /** Splits off the given frame with everything below it. */
    method DivideFrameSystem(newRoot: Frame, newWorld: Frame) returns (r: Result<FrameSystem>)
      requires Valid() && newRoot.name != WORLD && (FrameExists(newRoot.name) ==> Has(newRoot))
      requires newWorld.name == WORLD && newWorld.dof == 0
      modifies this`frames, this`parents
      ensures Valid()
      ensures r == Failure(FrameMissing(newRoot.name)) || r.Success?
      ensures r.Success? <==> old(FrameExists(newRoot.name))
      ensures r.Failure? ==> unchanged(this)
      ensures r.Success? ==> fresh(r.value) && r.value.Valid() && r.value.world == newWorld
      ensures r.Success? ==> r.value.parents == SubsetParents(old(parents), world, newRoot, newWorld)
      ensures r.Success? ==> parents == old(parents) - Descendants(old(parents), world, newRoot)
      ensures r.Success? ==> parents.Keys !! r.value.parents.Keys && parents.Keys + r.value.parents.Keys == old(parents).Keys
    {
      hide IsTree, Descendants, SubsetParents;
      r := FrameSystemSubset(newRoot, newWorld);
      if r.Failure? {
        return;
      }
      SubsetKeys(parents, world, newRoot, newWorld);
      RemoveFrame(newRoot);
    }

    /** The children of each frame, collected over the frames in any order. */
    method ChildrenMap() returns (m: map<Frame, seq<Frame>>)
      requires Valid()
      ensures Collected(m, parents, {})
    {
      hide IsTree, Registered, Collected;
      m := map[];
      var names := frames.Keys;
      CollectStart(frames, parents);
      while names != {}
        invariant names <= frames.Keys && Collected(m, parents, names)
      {
        var name :| name in names;
        RegisteredName(frames, parents, name);
        var child := frames[name];
        var parent := parents[child];
        CollectStep(m, frames, parents, names, name);
        m := m[parent := KidsOf(m, parent) + [child]];
        names := names - {name};
      }
    }

    /** Adds the listed frames below one frame, up to the first whose name is taken. */
    method AddAll(kids: seq<Frame>, p: Frame) returns (r: Outcome)
      requires Valid() && Has(p)
      requires forall i, j :: 0 <= i < j < |kids| ==> kids[i].name != kids[j].name
      requires forall i :: 0 <= i < |kids| ==> kids[i].name != WORLD
      modifies this`frames, this`parents
      ensures Valid()
      ensures r.Ok? <==> forall i :: 0 <= i < |kids| ==> kids[i].name !in old(frames)
      ensures r.Ok? ==> parents == Hung(old(parents), kids, p)
      ensures r.Ok? ==> old(parents).Keys <= parents.Keys
      ensures r.Err? ==> exists i :: 0 <= i < |kids| && r.error == FrameAlreadyExists(kids[i].name)
      ensures r.Err? ==> r.error.FrameAlreadyExists? && r.error.name in old(frames)
      ensures HungPartly(old(parents), parents, kids, p)
    {
      hide IsTree, Registered, Hung, Names;
      HungStart(parents, kids, p);
      for i := 0 to |kids|
        invariant Valid() && Has(p)
        invariant parents == Hung(old(parents), kids[..i], p)
        invariant frames.Keys == old(frames).Keys + Names(kids[..i]) && old(parents).Keys <= parents.Keys
        invariant forall j :: 0 <= j < i ==> kids[j].name !in old(frames)
        invariant HungPartly(old(parents), parents, kids, p)
      {
        RegisteredFrame(frames, parents, kids[i]);
        HungStep(old(parents), kids, p, i);
        RegisteredFrame(frames, parents, p);
        r := AddFrame(kids[i], Some(p));
        if r.Err? {
          return;
        }
      }
      assert kids[..|kids|] == kids;
      return Ok;
    }

    /** Hangs every frame of another system below a frame of this one. It succeeds exactly when that
        frame exists and no name of the other system is taken. */
    method MergeFrameSystem(other: FrameSystem, attachTo: Frame) returns (r: Outcome)
      requires Valid() && other.Valid()
      modifies this`frames, this`parents
      ensures Valid()
      ensures r == Err(FrameMissing(attachTo.name)) <==> !old(FrameExists(attachTo.name))
      ensures r.Ok? <==> old(FrameExists(attachTo.name)) && old(other.frames).Keys !! old(frames).Keys
      ensures r.Ok? ==> parents == MergedParents(old(parents), old(FrameNamed(attachTo.name)).value, old(other.parents), other.world)
      ensures r.Err? && old(FrameExists(attachTo.name)) ==>
        && r.error.FrameAlreadyExists? && r.error.name in old(frames) && r.error.name in old(other.frames)
        && MergedPartly(old(parents), old(FrameNamed(attachTo.name)).value, old(other.parents), other.world, parents)
    {
      hide IsTree, Registered, QueueInv, Transplanted, Added, MergedParents, Distinct, Hung, Elements, KidsOf, Collected;
      var attach := FrameNamed(attachTo.name);
      if attach.None? {
        return Err(FrameMissing(attachTo.name));
      }
      var childrenMap := other.ChildrenMap();
      ghost var a, names, b, w, at := parents, frames.Keys, other.parents, other.world, attach.value;
      ghost var bFrames := other.frames;
      ghost var popped: set<Frame> := {};
      var queue := [other.world];
      MergeStart(a, names, at, b, w);
      while |queue| != 0
        invariant Valid() && Has(at)
        invariant MergeInv(a, names, at, b, w, parents, popped, queue)
        decreases |b.Keys + {w} - popped|
      {
        var parent := queue[0];
        var kids := KidsOf(childrenMap, parent);
        var below := if parent == other.world then attach.value else parent;
        MergeReady(a, names, at, b, w, parents, popped, queue, childrenMap, frames, bFrames, old(frames));
        ghost var before := parents;
        r := AddAll(kids, below);
        if r.Err? {
          MergeStops(a, names, at, b, w, before, popped, queue, childrenMap, old(frames), parents, below);
          return;
        }
        MergePop(a, names, at, b, w, before, popped, queue, childrenMap);
        MergeShrinks(b, w, popped, queue);
        queue := queue[1..] + kids;
        popped := popped + {parent};
      }
      MergeEnd(a, names, at, b, w, parents, popped, bFrames);
      return Ok;
    }
  }

  // ----- merging -----

  function KidsOf(m: map<Frame, seq<Frame>>, p: Frame): seq<Frame>
  {
    if p in m then m[p] else []
  }

  ghost function Hung(parents: Parents, kids: seq<Frame>, p: Frame): Parents
  {
    parents + map c | c in kids :: p
  }

  ghost function Names(s: seq<Frame>): set<string>
  {
    set f | f in s :: f.name
  }

  lemma HungStart(parents: Parents, kids: seq<Frame>, p: Frame)
    ensures Hung(parents, kids[..0], p) == parents && Names(kids[..0]) == {}
  {
  }

  lemma HungStep(parents: Parents, kids: seq<Frame>, p: Frame, i: nat)
    requires i < |kids| && forall i, j :: 0 <= i < j < |kids| ==> kids[i].name != kids[j].name
    ensures Hung(parents, kids[..i + 1], p) == Hung(parents, kids[..i], p)[kids[i] := p]
    ensures Names(kids[..i + 1]) == Names(kids[..i]) + {kids[i].name}
    ensures kids[i].name !in Names(kids[..i])
  {
    assert kids[..i + 1] == kids[..i] + [kids[i]];
    HungOneMore(parents, kids[..i], p, kids[i]);
    NamesOneMore(kids[..i], kids[i]);
  }

  lemma HungOneMore(parents: Parents, s: seq<Frame>, p: Frame, x: Frame)
    ensures Hung(parents, s + [x], p) == Hung(parents, s, p)[x := p]
  {
  }

  lemma NamesOneMore(s: seq<Frame>, x: Frame)
    ensures Names(s + [x]) == Names(s) + {x.name}
  {
  }

  /** The child lists over all frames whose names are not in `names`. */
  ghost predicate Collected(m: map<Frame, seq<Frame>>, parents: Parents, names: set<string>)
  {
    && (forall p, c :: c in KidsOf(m, p) <==> c in parents && parents[c] == p && c.name !in names)
    && (forall p :: Distinct(KidsOf(m, p)))
  }

  lemma RegisteredName(frames: map<string, Frame>, parents: Parents, name: string)
    requires Registered(frames, parents) && name in frames
    ensures frames[name] in parents
  {
  }

  lemma RegisteredFrame(frames: map<string, Frame>, parents: Parents, f: Frame)
    requires Registered(frames, parents)
    ensures f in parents ==> f.name in frames
  {
  }

  lemma CollectStart(frames: map<string, Frame>, parents: Parents)
    requires Registered(frames, parents)
    ensures Collected(map[], parents, frames.Keys)
  {
  }

  lemma CollectStep(m: map<Frame, seq<Frame>>, frames: map<string, Frame>, parents: Parents, names: set<string>, name: string)
    requires Registered(frames, parents) && Collected(m, parents, names) && name in names && name in frames
    ensures var child := frames[name];
      child in parents &&
      Collected(m[parents[child] := KidsOf(m, parents[child]) + [child]], parents, names - {name})
  {
    var child := frames[name];
    var parent := parents[child];
    var kids := KidsOf(m, parent) + [child];
    var m' := m[parent := kids];
    forall p, c
      ensures c in KidsOf(m', p) <==> c in parents && parents[c] == p && c.name !in names - {name}
    {
      assert c in KidsOf(m, p) <==> c in parents && parents[c] == p && c.name !in names;
      if p == parent {
        assert c in kids <==> c in KidsOf(m, parent) || c == child;
      }
    }
    forall p
      ensures Distinct(KidsOf(m', p))
    {
      assert Distinct(KidsOf(m, p));
      if p == parent {
        assert child !in KidsOf(m, parent);
        AppendDistinct(KidsOf(m, parent), child);
      }
    }
  }

  /** The parents of the given frames, with `at` in the place of their world. */
  ghost function Transplanted(at: Frame, b: Parents, w: Frame, fs: set<Frame>): Parents
  {
    map f | f in b && f in fs :: if b[f] == w then at else b[f]
  }

  /** The second tree hung below `at`. */
  ghost function MergedParents(a: Parents, at: Frame, b: Parents, w: Frame): Parents
  {
    a + Transplanted(at, b, w, b.Keys)
  }

  /** Some of the listed frames have been added below `p`, and nothing else has changed. */
  ghost predicate HungPartly(was: Parents, now: Parents, kids: seq<Frame>, p: Frame)
  {
    WithinMap(was, now) && forall f :: f in now ==> f in was || (f in kids && now[f] == p)
  }

  /** No frame of the first tree is lost or moved, and what is new hangs as in the whole merge. */
  ghost predicate MergedPartly(a: Parents, at: Frame, b: Parents, w: Frame, now: Parents)
  {
    && WithinMap(a, now)
    && forall f :: f in now ==> f in a || (f in b && now[f] == if b[f] == w then at else b[f])
  }

  lemma MergeStops(a: Parents, names: set<string>, at: Frame, b: Parents, w: Frame, before: Parents, popped: set<Frame>,
                   queue: seq<Frame>, m: map<Frame, seq<Frame>>, aFrames: map<string, Frame>, now: Parents, below: Frame)
    requires MergeInv(a, names, at, b, w, before, popped, queue) && |queue| > 0 && Collected(m, b, {})
    requires Registered(aFrames, a) && names == aFrames.Keys
    requires below == if queue[0] == w then at else queue[0]
    requires HungPartly(before, now, KidsOf(m, queue[0]), below)
    ensures MergedPartly(a, at, b, w, now)
  {
    hide QueueInv;
    forall c | c in KidsOf(m, queue[0])
      ensures c in b && b[c] == queue[0]
    {
    }
    forall f | f in a
      ensures f in before && before[f] == a[f]
    {
      assert f.name in names;
    }
  }

  /** The frames whose parents have been taken off the queue. */
  ghost function Added(b: Parents, popped: set<Frame>): set<Frame>
  {
    set f | f in b && b[f] in popped
  }

  /** The state of the merge: the children of everything taken off the queue have been added, and
      the queue holds what has been added and not been taken off. */
  ghost predicate MergeInv(a: Parents, names: set<string>, at: Frame, b: Parents, w: Frame,
                           now: Parents, popped: set<Frame>, queue: seq<Frame>)
  {
    && now == a + Transplanted(at, b, w, Added(b, popped))
    && QueueInv(b, w, popped, queue)
    && forall f :: f in Added(b, popped) ==> f.name !in names
  }

  ghost predicate QueueInv(b: Parents, w: Frame, popped: set<Frame>, queue: seq<Frame>)
  {
    && popped <= {w} + Added(b, popped)
    && Elements(queue) == {w} + Added(b, popped) - popped
    && Distinct(queue)
  }

  lemma MergeStart(a: Parents, names: set<string>, at: Frame, b: Parents, w: Frame)
    ensures MergeInv(a, names, at, b, w, a, {}, [w])
  {
  }

  /** Before the children of a frame are added: a name is taken exactly when it was taken at first. */
  lemma MergeReady(a: Parents, names: set<string>, at: Frame, b: Parents, w: Frame, now: Parents, popped: set<Frame>,
                   queue: seq<Frame>, m: map<Frame, seq<Frame>>,
                   frames: map<string, Frame>, bFrames: map<string, Frame>, aFrames: map<string, Frame>)
    requires MergeInv(a, names, at, b, w, now, popped, queue) && |queue| > 0
    requires Registered(frames, now) && Registered(bFrames, b) && Registered(aFrames, a) && names == aFrames.Keys
    requires Collected(m, b, {})
    ensures queue[0] == w || queue[0] in now
    ensures var kids := KidsOf(m, queue[0]);
      && (forall i, j :: 0 <= i < j < |kids| ==> kids[i].name != kids[j].name)
      && (forall i :: 0 <= i < |kids| ==> kids[i].name != WORLD && kids[i].name in bFrames)
      && (forall i :: 0 <= i < |kids| ==> (kids[i].name in frames <==> kids[i].name in names))
  {
    var parent, kids := queue[0], KidsOf(m, queue[0]);
    assert parent in Elements(queue);
    forall i | 0 <= i < |kids|
      ensures kids[i] in b && bFrames[kids[i].name] == kids[i] && kids[i] !in Added(b, popped)
      ensures kids[i].name in frames <==> kids[i].name in aFrames
    {
      assert kids[i] in kids;
      var n := kids[i].name;
      assert n in frames ==> frames[n] in now && frames[n].name == n;
      assert n in aFrames ==> aFrames[n] in now;
    }
  }

  lemma MergePop(a: Parents, names: set<string>, at: Frame, b: Parents, w: Frame, now: Parents, popped: set<Frame>,
                 queue: seq<Frame>, m: map<Frame, seq<Frame>>)
    requires MergeInv(a, names, at, b, w, now, popped, queue) && |queue| > 0
    requires IsTree(b, w) && Collected(m, b, {})
    requires forall i :: 0 <= i < |KidsOf(m, queue[0])| ==> KidsOf(m, queue[0])[i].name !in names
    ensures MergeInv(a, names, at, b, w, Hung(now, KidsOf(m, queue[0]), if queue[0] == w then at else queue[0]),
                     popped + {queue[0]}, queue[1..] + KidsOf(m, queue[0]))
  {
    hide IsTree, Elements, Collected, KidsOf, Hung, Added, Transplanted, QueueInv;
    var parent, kids := queue[0], KidsOf(m, queue[0]);
    PopFacts(b, w, popped, queue, m);
    AddedStep(b, popped, parent, kids);
    HungParents(a, at, b, w, Added(b, popped), kids, parent);
    QueuePop(b, w, popped, queue, m);
    KidsNames(kids, names);
  }

  lemma QueuePop(b: Parents, w: Frame, popped: set<Frame>, queue: seq<Frame>, m: map<Frame, seq<Frame>>)
    requires IsTree(b, w) && Collected(m, b, {}) && |queue| > 0 && QueueInv(b, w, popped, queue)
    ensures QueueInv(b, w, popped + {queue[0]}, queue[1..] + KidsOf(m, queue[0]))
  {
    hide IsTree, Distinct, Elements, Collected, KidsOf, Added;
    var parent, kids := queue[0], KidsOf(m, queue[0]);
    PopFacts(b, w, popped, queue, m);
    AddedStep(b, popped, parent, kids);
    QueueAfter(queue, kids, {w} + Added(b, popped), popped);
    assert {w} + Added(b, popped + {parent}) == {w} + Added(b, popped) + Elements(kids);
  }

  lemma MergeShrinks(b: Parents, w: Frame, popped: set<Frame>, queue: seq<Frame>)
    requires |queue| > 0 && QueueInv(b, w, popped, queue)
    ensures |b.Keys + {w} - (popped + {queue[0]})| < |b.Keys + {w} - popped|
  {
    assert queue[0] in Elements(queue);
    OneMoreTaken(b.Keys + {w}, popped, queue[0]);
  }

  lemma OneMoreTaken(all: set<Frame>, taken: set<Frame>, f: Frame)
    requires f in all && f !in taken
    ensures |all - (taken + {f})| < |all - taken|
  {
    assert all - taken == (all - (taken + {f})) + {f};
  }

  lemma KidsNames(kids: seq<Frame>, names: set<string>)
    requires forall i :: 0 <= i < |kids| ==> kids[i].name !in names
    ensures forall f :: f in Elements(kids) ==> f.name !in names
  {
  }

  lemma PopFacts(b: Parents, w: Frame, popped: set<Frame>, queue: seq<Frame>, m: map<Frame, seq<Frame>>)
    requires IsTree(b, w) && Collected(m, b, {}) && |queue| > 0
    requires QueueInv(b, w, popped, queue)
    ensures var parent, kids := queue[0], KidsOf(m, queue[0]);
      && parent !in popped && parent in {w} + Added(b, popped) && {w} + Added(b, popped) <= b.Keys + {w}
      && Distinct(kids) && (forall c :: c in kids <==> c in b && b[c] == parent)
      && forall c :: c in kids ==> c !in popped && c !in queue && c != parent
  {
    hide IsTree, Distinct;
    var parent, kids := queue[0], KidsOf(m, queue[0]);
    assert parent in Elements(queue);
    assert forall c :: c in kids <==> c in b && b[c] == parent;
    forall c | c in kids
      ensures c !in popped && c !in queue && c != parent
    {
      KidIsNew(b, w, c);
      assert c !in Elements(queue);
    }
  }

  lemma AddedStep(b: Parents, popped: set<Frame>, parent: Frame, kids: seq<Frame>)
    requires parent !in popped && forall c :: c in kids <==> c in b && b[c] == parent
    ensures Added(b, popped + {parent}) == Added(b, popped) + Elements(kids)
    ensures forall c :: c in kids ==> c !in Added(b, popped)
    ensures Added(b, popped) <= b.Keys
  {
  }

  lemma HungParents(a: Parents, at: Frame, b: Parents, w: Frame, added: set<Frame>, kids: seq<Frame>, parent: Frame)
    requires added <= b.Keys && forall c :: c in kids ==> c in b && b[c] == parent && c !in added
    ensures Hung(a + Transplanted(at, b, w, added), kids, if parent == w then at else parent)
        == a + Transplanted(at, b, w, added + Elements(kids))
  {
  }

  lemma KidIsNew(b: Parents, w: Frame, c: Frame)
    requires IsTree(b, w) && c in b
    ensures b[c] != c && c != w
  {
    RootNotBelowItself(b, w, c);
  }

  lemma QueueAfter(queue: seq<Frame>, kids: seq<Frame>, all: set<Frame>, popped: set<Frame>)
    requires |queue| > 0 && Distinct(queue) && Distinct(kids) && Elements(queue) == all - popped
    requires forall c :: c in kids ==> c !in queue && c !in popped
    ensures Distinct(queue[1..] + kids)
    ensures Elements(queue[1..] + kids) == all + Elements(kids) - (popped + {queue[0]})
  {
    var q := queue[1..] + kids;
    assert queue == [queue[0]] + queue[1..];
    forall i, j | 0 <= i < j < |q|
      ensures q[i] != q[j]
    {
      assert i < |queue| - 1 ==> q[i] == queue[i + 1] && q[i] in queue;
      assert j < |queue| - 1 ==> q[j] == queue[j + 1];
      assert j >= |queue| - 1 ==> q[j] in kids;
    }
    forall x
      ensures x in queue <==> x in all && x !in popped
    {
      assert x in queue <==> x in Elements(queue);
    }
    forall x
      ensures x in q <==> x in all + Elements(kids) - (popped + {queue[0]})
    {
      assert x in q <==> x in queue[1..] || x in kids;
      assert queue[0] !in queue[1..];
    }
  }

  /** When the queue has run empty every frame has been added. */
  lemma MergeEnd(a: Parents, names: set<string>, at: Frame, b: Parents, w: Frame, now: Parents, popped: set<Frame>,
                 bFrames: map<string, Frame>)
    requires MergeInv(a, names, at, b, w, now, popped, []) && IsTree(b, w) && Registered(bFrames, b)
    ensures now == MergedParents(a, at, b, w)
    ensures bFrames.Keys !! names
  {
    hide IsTree, Distinct;
    assert forall x :: x in {w} + Added(b, popped) && x !in popped ==> x in Elements<Frame>([]);
    var rank := TreeRank(b, w);
    forall f | f in b
      ensures f in Added(b, popped)
    {
      AllAdded(b, w, popped, rank, f);
    }
    assert Added(b, popped) == b.Keys;
  }

  lemma {:induction false} AllAdded(b: Parents, w: Frame, popped: set<Frame>, rank: map<Frame, nat>, f: Frame)
    requires IsTree(b, w) && Ranked(Up(b, w), rank) && f in b
    requires {w} + Added(b, popped) <= popped
    ensures f in Added(b, popped)
    decreases rank[f]
  {
    assert Up(b, w)[f] == Some(b[f]);
    if b[f] != w {
      AllAdded(b, w, popped, rank, b[f]);
    }
  }

  // ----- taking a part -----

  /** The frame and everything below it, with the frame itself below a new world. */
  ghost function SubsetParents(parents: Parents, world: Frame, root: Frame, newWorld: Frame): Parents
    requires IsTree(parents, world)
  {
    map x | x in parents && x in Descendants(parents, world, root) :: if x == root then newWorld else parents[x]
  }

  lemma SubsetKeys(parents: Parents, world: Frame, root: Frame, newWorld: Frame)
    requires IsTree(parents, world)
    ensures SubsetParents(parents, world, root, newWorld).Keys == Descendants(parents, world, root) <= parents.Keys
  {
  }

  ghost function SubsetSoFar(parents: Parents, world: Frame, root: Frame, newWorld: Frame, todo: set<Frame>): Parents
    requires IsTree(parents, world)
  {
    map x | x in parents && x in Descendants(parents, world, root) && (x == root || x !in todo) ::
      if x == root then newWorld else parents[x]
  }

  lemma SubsetStart(parents: Parents, world: Frame, root: Frame, newWorld: Frame)
    requires IsTree(parents, world) && root in parents
    ensures SubsetSoFar(parents, world, root, newWorld, parents.Keys) == map[root := newWorld]
  {
  }

  lemma SubsetStep(parents: Parents, world: Frame, root: Frame, newWorld: Frame, todo: set<Frame>, f: Frame)
    requires IsTree(parents, world) && root in parents && f in todo && f in parents
    ensures parents[f] in parents || parents[f] == world
    ensures var now, next := SubsetSoFar(parents, world, root, newWorld, todo), SubsetSoFar(parents, world, root, newWorld, todo - {f});
      next == if parents[f] == root || parents[f] in Descendants(parents, world, root) then now[f := parents[f]] else now
  {
    hide IsTree, Descendants;
    TraceStep(parents, world, f);
    DescendantsStep(parents, world, f, root);
    DescendantsStep(parents, world, root, root);
    if parents[root] == root || parents[root] in Descendants(parents, world, root) {
      RootNotBelowItself(parents, world, root);
    }
  }

  lemma RootNotBelowItself(parents: Parents, world: Frame, root: Frame)
    requires IsTree(parents, world) && root in parents
    ensures parents[root] != root && parents[root] !in Descendants(parents, world, root)
  {
    TraceStep(parents, world, root);
    var rank :| Ranked(Up(parents, world), rank);
    assert Up(parents, world)[root] == Some(parents[root]);
    TraceIsBelow(parents, world, rank, parents[root], root);
    if Below(Up(parents, world), rank, parents[root], root) {
      BelowRank(Up(parents, world), rank, parents[root], root);
    }
  }

  lemma NotBelow(parents: Parents, world: Frame, root: Frame)
    requires IsTree(parents, world)
    ensures world !in Descendants(parents, world, root)
  {
  }

  lemma SubsetRegisters(parents: Parents, world: Frame, root: Frame, newWorld: Frame, todo: set<Frame>,
                        frames: map<string, Frame>, taken: map<string, Frame>, f: Frame)
    requires IsTree(parents, world) && Registered(frames, parents) && f in parents
    requires Registered(taken, SubsetSoFar(parents, world, root, newWorld, todo))
    ensures Registered(taken[f.name := f], SubsetSoFar(parents, world, root, newWorld, todo)[f := parents[f]])
  {
    hide Descendants, IsTree;
    forall x | x in SubsetSoFar(parents, world, root, newWorld, todo) && x.name == f.name
      ensures x == f
    {
      assert x in parents;
    }
  }

  lemma TakenIsBelow(parents: Parents, world: Frame, root: Frame, newWorld: Frame, todo: set<Frame>,
                     frames: map<string, Frame>, taken: map<string, Frame>, f: Frame)
    requires IsTree(parents, world) && Registered(frames, parents) && f in parents
    requires Registered(taken, SubsetSoFar(parents, world, root, newWorld, todo))
    requires f.name == WORLD || f.name in taken
    ensures f in Descendants(parents, world, root)
  {
  }

  lemma SubsetFalls(parents: Parents, world: Frame, root: Frame, newWorld: Frame, rank: map<Frame, nat>, x: Frame)
    requires IsTree(parents, world) && Falls(parents, world, rank)
    requires x in SubsetParents(parents, world, root, newWorld) && newWorld !in parents && root in parents
    ensures var p := SubsetParents(parents, world, root, newWorld)[x];
      && x in parents && x in rank
      && (p == newWorld || (p in SubsetParents(parents, world, root, newWorld) && p in parents && p in rank && rank[p] < rank[x]))
  {
    hide IsTree, Descendants;
    SubsetKeys(parents, world, root, newWorld);
    assert FallsAt(parents, world, rank, x);
    DescendantsStep(parents, world, root, root);
    DescendantsStep(parents, world, x, root);
  }

  /** The part hangs from its new world. */
  lemma SubsetEnd(parents: Parents, world: Frame, root: Frame, newWorld: Frame)
    requires IsTree(parents, world) && root in parents && newWorld !in parents
    ensures SubsetSoFar(parents, world, root, newWorld, {}) == SubsetParents(parents, world, root, newWorld)
    ensures IsTree(SubsetParents(parents, world, root, newWorld), newWorld)
  {
    hide IsTree, Descendants;
    var sub := SubsetParents(parents, world, root, newWorld);
    var rank := TreeRank(parents, world);
    SubsetKeys(parents, world, root, newWorld);
    DescendantsStep(parents, world, root, root);
    assert SubsetSoFar(parents, world, root, newWorld, {}) == sub;
    var rank' := map x | x in sub.Keys + {newWorld} :: if x == newWorld then 0 else rank[x] + 1;
    forall x | x in sub
      ensures FallsAt(sub, newWorld, rank', x)
    {
      SubsetFalls(parents, world, root, newWorld, rank, x);
    }
    TreeFromRank(sub, newWorld, rank');
  }

  lemma RemoveMeasure(orig: Parents, world: Frame, f: Frame, was: Parents, now: Parents, seen: set<Frame>, x: Frame)
    requires IsTree(orig, world) && RemoveInv(orig, world, f, was, now, seen) && x in now && x !in seen
    ensures x in orig && orig[x] == now[x] && WithinMap(now, orig)
    ensures |now.Keys| < if f in was then |was.Keys| else |was.Keys| + 1
    ensures |was.Keys - (seen + {x})| < |was.Keys - seen|
  {
    hide IsTree, NoGapBelow, BelowSeen, Descendants;
    SubsetSize(now.Keys, was.Keys - {f});
    OneMoreTaken(was.Keys, seen, x);
  }

  // ----- removing -----

  ghost predicate WithinMap(a: Parents, b: Parents)
  {
    forall x :: x in a ==> x in b && a[x] == b[x]
  }

  lemma UnregisterKeeps(frames: map<string, Frame>, parents: Parents, world: Frame, f: Frame)
    requires Registered(frames, parents) && world.name == WORLD && (f in parents || f.name == WORLD || f.name !in frames)
    ensures Registered(frames - {f.name}, parents - {f})
  {
  }

  /** On the way from a frame up to `f` nothing is missing. */
  ghost predicate NoGapBelow(orig: Parents, world: Frame, f: Frame, here: Parents)
    requires IsTree(orig, world)
  {
    forall x :: x in here && x in Descendants(orig, world, f) && x != f && x in orig ==> orig[x] == f || orig[x] in here
  }

  lemma NoGapAtFirst(parents: Parents, world: Frame, f: Frame)
    requires IsTree(parents, world)
    ensures NoGapBelow(parents, world, f, parents)
  {
    forall x | x in parents && x in Descendants(parents, world, f) && x != f
      ensures parents[x] == f || parents[x] in parents
    {
      DescendantsStep(parents, world, x, f);
    }
  }

  /** The state of the loop: gone are the frame itself and what hangs below the children seen so far. */
  ghost predicate RemoveInv(orig: Parents, world: Frame, f: Frame, was: Parents, now: Parents, seen: set<Frame>)
    requires IsTree(orig, world)
  {
    && WithinMap(was, orig) && WithinMap(now, was) && f !in now
    && NoGapBelow(orig, world, f, was)
    && (forall x :: x in was && x !in now && x != f ==> BelowSeen(orig, world, f, was, seen, x))
    && (forall c, x :: c in seen && c in orig && orig[c] == f && x in now ==> x !in Descendants(orig, world, c))
  }

  ghost predicate BelowSeen(orig: Parents, world: Frame, f: Frame, was: Parents, seen: set<Frame>, x: Frame)
    requires IsTree(orig, world)
  {
    exists c :: c in was && c in seen && c in orig && orig[c] == f && x in Descendants(orig, world, c)
  }

  lemma RemoveStart(orig: Parents, world: Frame, f: Frame, was: Parents)
    requires IsTree(orig, world) && WithinMap(was, orig) && NoGapBelow(orig, world, f, was)
    ensures RemoveInv(orig, world, f, was, was - {f}, {})
  {
  }

  /** A child can be removed on its own: nothing between it and what hangs below it is gone. */
  lemma RemoveChildReady(orig: Parents, world: Frame, f: Frame, was: Parents, now: Parents, seen: set<Frame>, x: Frame)
    requires IsTree(orig, world) && RemoveInv(orig, world, f, was, now, seen) && x in now && x !in seen && orig[x] == f
    ensures NoGapBelow(orig, world, x, now)
  {
    hide IsTree, Descendants;
    forall y | y in now && y in Descendants(orig, world, x) && y != x && y in orig
      ensures orig[y] == x || orig[y] in now
    {
      BelowChildren(orig, world, f, x, y);
      if orig[y] !in now {
        assert BelowSeen(orig, world, f, was, seen, orig[y]);
        var c :| c in was && c in seen && c in orig && orig[c] == f && orig[y] in Descendants(orig, world, c);
        BelowChildren(orig, world, f, x, orig[y]);
      }
    }
  }

  lemma RemoveChildDone(orig: Parents, world: Frame, f: Frame, was: Parents, now: Parents, seen: set<Frame>, x: Frame)
    requires IsTree(orig, world) && RemoveInv(orig, world, f, was, now, seen) && x in now && orig[x] == f
    ensures RemoveInv(orig, world, f, was, now - Descendants(orig, world, x), seen + {x})
  {
  }

  lemma RemovePass(orig: Parents, world: Frame, f: Frame, was: Parents, now: Parents, seen: set<Frame>, x: Frame)
    requires IsTree(orig, world) && RemoveInv(orig, world, f, was, now, seen) && x in now && orig[x] != f
    ensures RemoveInv(orig, world, f, was, now, seen + {x})
  {
  }

  lemma ChildSeen(orig: Parents, world: Frame, f: Frame, was: Parents, now: Parents, seen: set<Frame>, c: Frame)
    requires IsTree(orig, world) && RemoveInv(orig, world, f, was, now, seen) && c in was && c in orig && orig[c] == f
    requires forall x :: x in now ==> x in seen
    ensures c in seen
  {
    hide IsTree, Descendants;
    DescendantsStep(orig, world, c, c);
    BelowChildren(orig, world, f, c, c);
    if c !in now {
      assert BelowSeen(orig, world, f, was, seen, c);
    }
  }

  lemma RemoveEnd(orig: Parents, world: Frame, f: Frame, was: Parents, now: Parents, seen: set<Frame>)
    requires IsTree(orig, world) && RemoveInv(orig, world, f, was, now, seen) && (f in orig || f == world)
    requires forall x :: x in now ==> x in seen
    ensures now == was - Descendants(orig, world, f)
  {
    hide IsTree, Descendants;
    forall x | x in was
      ensures x in now <==> x !in Descendants(orig, world, f)
    {
      DescendantsStep(orig, world, x, f);
      if x in now && x in Descendants(orig, world, f) {
        var c := AboveIsChild(orig, world, f, was, x);
        ChildSeen(orig, world, f, was, now, seen, c);
      }
      if x !in now && x != f {
        assert BelowSeen(orig, world, f, was, seen, x);
        var c :| c in was && c in seen && c in orig && orig[c] == f && x in Descendants(orig, world, c);
        BelowChildren(orig, world, f, c, x);
      }
    }
  }

  /** What is left after a removal still hangs from the world. */
  lemma RemoveKeepsTree(parents: Parents, world: Frame, f: Frame)
    requires IsTree(parents, world)
    ensures IsTree(parents - Descendants(parents, world, f), world)
  {
    hide IsTree, Descendants;
    var left := parents - Descendants(parents, world, f);
    var rank := TreeRank(parents, world);
    var rank' := map x | x in left.Keys + {world} :: rank[x];
    forall x | x in left
      ensures FallsAt(left, world, rank', x)
    {
      assert FallsAt(parents, world, rank, x);
      DescendantsStep(parents, world, x, f);
    }
    TreeFromRank(left, world, rank');
  }

  lemma ParentInTree(parents: Parents, world: Frame, f: Frame)
    requires IsTree(parents, world) && f in parents
    ensures parents[f] in parents || parents[f] == world
    ensures forall rank :: Ranked(Up(parents, world), rank) ==> parents[f] in rank && f in rank && rank[parents[f]] < rank[f]
  {
    assert Up(parents, world)[f] == Some(parents[f]);
  }

  lemma AddKeepsRegistered(frames: map<string, Frame>, parents: Parents, f: Frame, p: Frame)
    requires Registered(frames, parents) && f.name !in frames && f.name != WORLD
    ensures Registered(frames[f.name := f], parents[f := p])
    ensures f !in parents
  {
  }

  lemma AddKeepsTree(parents: Parents, world: Frame, f: Frame, p: Frame)
    requires IsTree(parents, world) && f !in parents && f != world && (p in parents || p == world)
    ensures IsTree(parents[f := p], world)
  {
    AddLeaf(Up(parents, world), f, p);
    assert Up(parents[f := p], world) == Up(parents, world)[f := Some(p)];
  }

  lemma StartPose<P(!new)>(k: Kinematics<P>, inputs: Inputs, s: seq<Frame>)
    requires |s| > 0
    ensures PathPose(k, inputs, s[..1]) == Some(k.group.zero)
  {
  }

  /** Adding the next frame on the left of what is composed so far. */
  lemma StepPose<P(!new)>(k: Kinematics<P>, inputs: Inputs, s: seq<Frame>, i: nat)
    requires IsGroup(k.group) && i < |s| - 1
    ensures PathPose(k, inputs, s[..i + 2]) == Composed(k, PoseFromPositions(k, s[i], inputs), PathPose(k, inputs, s[..i + 1]))
    ensures PoseFromPositions(k, s[i], inputs).None? ==> PathPose(k, inputs, s).None?
  {
    hide IsGroup, PoseFromPositions;
    var t := s[..i + 2];
    PathPoseSplits(k, inputs, t, i);
    assert t[i..] == [s[i], s[i + 1]] && t[..i + 1] == s[..i + 1];
    assert [s[i], s[i + 1]][1..] == [s[i + 1]];
    if PoseFromPositions(k, s[i], inputs).Some? {
      Neutral(k.group, PoseFromPositions(k, s[i], inputs).value);
    }
    PathPoseSplits(k, inputs, s, i + 1);
    assert s[..i + 1 + 1] == t;
  }
}

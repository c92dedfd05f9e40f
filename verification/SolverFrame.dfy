/** The solver frame: the part of a frame system between a frame to be moved and a goal frame. */
module SolverFrames {
  import opened Forest
  import opened FrameSystems
  import opened FrameTree
  import opened Options
  import opened Poses
  import opened Sequences

  datatype SolverError = System(error: Error) | NoSolveFrame | NoPath | IncorrectInputLength

  datatype Solved<T> = Solution(value: T) | NoSolution(error: SolverError)

  /** `frames` are the frames whose inputs are solved for; `origSeed` has the inputs of the others. */
  datatype SolverFrame = SolverFrame(frames: seq<Frame>, solveFrame: Frame, goalFrame: Frame, worldRooted: bool, origSeed: Inputs)

  // ----- the pivot -----

  ghost predicate NamesFrom(s: seq<Frame>, name: string)
  {
    exists i :: 0 <= i < |s| && s[i].name == name
  }

  /** The first frame of one list whose name occurs in the other. */
  ghost predicate FirstNamedIn(s: seq<Frame>, t: seq<Frame>, p: Frame)
  {
    exists i :: 0 <= i < |s| && s[i] == p && NamesFrom(t, p.name) && forall j :: 0 <= j < i ==> !NamesFrom(t, s[j].name)
  }

  /** Looks for the names of the shorter list in the longer one. */
  method FindPivotFrame(list1: seq<Frame>, list2: seq<Frame>) returns (r: Option<Frame>)
    ensures r.None? <==> !Share(list1, list2)
    ensures r.Some? ==> if |list1| > |list2| then FirstNamedIn(list1, list2, r.value) else FirstNamedIn(list2, list1, r.value)
  {
    ShareBothWays(list1, list2);
    var shortList, longList := list1, list2;
    if |list1| > |list2| {
      shortList, longList := list2, list1;
    }
    var names: set<string> := {};
    for i := 0 to |shortList|
      invariant forall n :: n in names <==> NamesFrom(shortList[..i], n)
    {
      assert shortList[..i + 1] == shortList[..i] + [shortList[i]];
      NamesOneMoreFrom(shortList, i);
      names := names + {shortList[i].name};
    }
    assert shortList[..|shortList|] == shortList;
    for i := 0 to |longList|
      invariant forall j :: 0 <= j < i ==> !NamesFrom(shortList, longList[j].name)
    {
      if longList[i].name in names {
        assert Share(longList, shortList);
        return Some(longList[i]);
      }
    }
    assert !Share(longList, shortList);
    return None;
  }

  lemma NamesOneMoreFrom(s: seq<Frame>, i: nat)
    requires i < |s|
    ensures forall n :: NamesFrom(s[..i + 1], n) <==> NamesFrom(s[..i], n) || n == s[i].name
  {
    forall n | NamesFrom(s[..i], n)
      ensures NamesFrom(s[..i + 1], n)
    {
      var j :| 0 <= j < i && s[..i][j].name == n;
      assert s[..i + 1][j].name == n;
    }
    assert s[..i + 1][i].name == s[i].name;
    forall n | NamesFrom(s[..i + 1], n) && n != s[i].name
      ensures NamesFrom(s[..i], n)
    {
      var j :| 0 <= j < i + 1 && s[..i + 1][j].name == n;
      assert s[..i][j].name == n;
    }
  }

  ghost predicate Share(s: seq<Frame>, t: seq<Frame>)
  {
    exists i :: 0 <= i < |s| && NamesFrom(t, s[i].name)
  }

  lemma ShareBothWays(s: seq<Frame>, t: seq<Frame>)
    ensures Share(s, t) <==> Share(t, s)
  {
    if Share(s, t) {
      var i :| 0 <= i < |s| && NamesFrom(t, s[i].name);
      var j :| 0 <= j < |t| && t[j].name == s[i].name;
      assert NamesFrom(s, t[j].name);
    }
    if Share(t, s) {
      var i :| 0 <= i < |t| && NamesFrom(s, t[i].name);
      var j :| 0 <= j < |s| && s[j].name == t[i].name;
      assert NamesFrom(t, s[j].name);
    }
  }

  /** The frame on both ways to the world below which there is no other. */
  ghost predicate LowestCommon(parents: Parents, world: Frame, x: Frame, y: Frame, p: Frame)
    requires IsTree(parents, world) && (x in parents || x == world) && (y in parents || y == world) && (p in parents || p == world)
  {
    && p in Trace(parents, world, x) && p in Trace(parents, world, y)
    && forall c :: c in Trace(parents, world, x) && c in Trace(parents, world, y) ==> c in Trace(parents, world, p)
  }

  /** The rest of a trace is the trace of the frame it starts with. */
  lemma {:induction false} TraceSuffix(parents: Parents, world: Frame, x: Frame, i: nat)
    requires IsTree(parents, world) && (x in parents || x == world) && i < |Trace(parents, world, x)|
    ensures var p := Trace(parents, world, x)[i];
      (p in parents || p == world) && Trace(parents, world, p) == Trace(parents, world, x)[i..]
    decreases i
  {
    TraceStep(parents, world, x);
    if i > 0 {
      assert Trace(parents, world, x)[i..] == Trace(parents, world, parents[x])[i - 1..];
      TraceSuffix(parents, world, parents[x], i - 1);
    }
  }

  /** In one frame system a frame of a trace is known by its name. */
  lemma TraceNames(frames: map<string, Frame>, parents: Parents, world: Frame, x: Frame, y: Frame, p: Frame)
    requires IsTree(parents, world) && Registered(frames, parents) && world.name == WORLD
    requires (x in parents || x == world) && (y in parents || y == world) && p in Trace(parents, world, x)
    ensures NamesFrom(Trace(parents, world, y), p.name) <==> p in Trace(parents, world, y)
  {
    var t := Trace(parents, world, y);
    TraceInSystem(parents, world, x);
    TraceInSystem(parents, world, y);
    if NamesFrom(t, p.name) {
      var i :| 0 <= i < |t| && t[i].name == p.name;
      assert t[i] in t && t[i] == p;
    }
  }

  /** The first frame of one trace that is named in the other is their lowest common ancestor,
      whichever of the two is searched. */
  lemma PivotIsLowest(frames: map<string, Frame>, parents: Parents, world: Frame, x: Frame, y: Frame, p: Frame)
    requires IsTree(parents, world) && Registered(frames, parents) && world.name == WORLD
    requires (x in parents || x == world) && (y in parents || y == world)
    requires FirstNamedIn(Trace(parents, world, x), Trace(parents, world, y), p)
    ensures p in parents || p == world
    ensures LowestCommon(parents, world, x, y, p) && LowestCommon(parents, world, y, x, p)
  {
    var s, t := Trace(parents, world, x), Trace(parents, world, y);
    var i :| 0 <= i < |s| && s[i] == p && NamesFrom(t, p.name) && forall j :: 0 <= j < i ==> !NamesFrom(t, s[j].name);
    TraceSuffix(parents, world, x, i);
    TraceNames(frames, parents, world, x, y, p);
    forall c | c in s && c in t
      ensures c in Trace(parents, world, p)
    {
      var j :| 0 <= j < |s| && s[j] == c;
      TraceNames(frames, parents, world, x, y, c);
      assert c == s[i..][j - i];
    }
  }

  /** Two traces of one system always meet, at the world if not before. */
  lemma TracesMeet(parents: Parents, world: Frame, x: Frame, y: Frame)
    requires IsTree(parents, world) && (x in parents || x == world) && (y in parents || y == world)
    ensures Share(Trace(parents, world, x), Trace(parents, world, y))
  {
    var s, t := Trace(parents, world, x), Trace(parents, world, y);
    TraceEndsAtWorld(parents, world, s, x);
    TraceEndsAtWorld(parents, world, t, y);
    assert NamesFrom(t, s[|s| - 1].name) by {
      assert t[|t| - 1].name == s[|s| - 1].name;
    }
  }

  // ----- inputs as a slice and as a map -----

  /** The number of inputs of the frames together. */
  function DoF(frames: seq<Frame>): nat
  {
    if frames == [] then 0 else frames[0].dof + DoF(frames[1..])
  }

  /** The inputs of the frames one after the other. */
  ghost function Flattened(frames: seq<Frame>, m: Inputs): Option<seq<real>>
  {
    if frames == [] then Some([])
    else
      var v, rest := GetFrameInputs(frames[0], m), Flattened(frames[1..], m);
      if v.Some? && rest.Some? then Some(v.value + rest.value) else None
  }

  method MapToSlice(frames: seq<Frame>, m: Inputs) returns (r: Option<seq<real>>)
    ensures r == Flattened(frames, m)
  {
    var inputs: seq<real> := [];
    PrefixedNone(Flattened(frames, m));
    assert frames[0..] == frames;
    for i := 0 to |frames|
      invariant Flattened(frames, m) == Prefixed(inputs, Flattened(frames[i..], m))
    {
      var v := GetFrameInputs(frames[i], m);
      assert frames[i..][1..] == frames[i + 1..];
      if v.None? {
        return None;
      }
      PrefixedTwice(inputs, v.value, Flattened(frames[i + 1..], m));
      inputs := inputs + v.value;
    }
    assert inputs + [] == inputs;
    return Some(inputs);
  }

  lemma PrefixedNone(t: Option<seq<real>>)
    ensures Prefixed([], t) == t
  {
    if t.Some? {
      assert [] + t.value == t.value;
    }
  }

  ghost function Prefixed(s: seq<real>, t: Option<seq<real>>): Option<seq<real>>
  {
    if t.Some? then Some(s + t.value) else None
  }

  lemma PrefixedTwice(s: seq<real>, t: seq<real>, u: Option<seq<real>>)
    ensures Prefixed(s, Prefixed(t, u)) == Prefixed(s + t, u)
  {
    if u.Some? {
      assert s + (t + u.value) == s + t + u.value;
    }
  }

  /** The map in which the frames take their inputs from the slice, in turn. */
  ghost function Unflattened(frames: seq<Frame>, s: seq<real>, seed: Inputs): Inputs
    requires |s| == DoF(frames)
  {
    if frames == [] then seed
    else
      var f := frames[0];
      Unflattened(frames[1..], s[f.dof..], seed[f.name := s[..f.dof]])
  }

  method SliceToMap(frames: seq<Frame>, s: seq<real>, seed: Inputs) returns (m: Inputs)
    requires |s| == DoF(frames)
    ensures m == Unflattened(frames, s, seed)
  {
    m := map[];
    var ks := seed.Keys;
    while ks != {}
      invariant ks <= seed.Keys && m.Keys == seed.Keys - ks
      invariant forall k :: k in m ==> m[k] == seed[k]
    {
      var k :| k in ks;
      m := m[k := seed[k]];
      ks := ks - {k};
    }
    assert m == seed;
    var i := 0;
    for j := 0 to |frames|
      invariant 0 <= i <= |s| && |s| - i == DoF(frames[j..])
      invariant Unflattened(frames[j..], s[i..], m) == Unflattened(frames, s, seed)
    {
      assert frames[j..][1..] == frames[j + 1..];
      var end := i + frames[j].dof;
      assert s[i..][..frames[j].dof] == s[i..end] && s[i..][frames[j].dof..] == s[end..];
      m := m[frames[j].name := s[i..end]];
      i := end;
    }
  }

  ghost predicate DistinctNames(frames: seq<Frame>)
  {
    forall i, j :: 0 <= i < j < |frames| ==> frames[i].name != frames[j].name
  }

  /** A name that no frame of the list has keeps its inputs. */
  lemma {:induction false} UnflattenedOther(frames: seq<Frame>, s: seq<real>, seed: Inputs, name: string)
    requires |s| == DoF(frames) && !NamesFrom(frames, name)
    ensures name in Unflattened(frames, s, seed) <==> name in seed
    ensures name in seed ==> Unflattened(frames, s, seed)[name] == seed[name]
    decreases |frames|
  {
    if frames != [] {
      assert frames[0].name != name;
      assert !NamesFrom(frames[1..], name) by {
        assert forall i :: 0 <= i < |frames[1..]| ==> frames[1..][i] == frames[i + 1];
      }
      UnflattenedOther(frames[1..], s[frames[0].dof..], seed[frames[0].name := s[..frames[0].dof]], name);
    }
  }

  /** The inputs a frame of the list gets do not depend on the seed. */
  lemma {:induction false} UnflattenedOwn(frames: seq<Frame>, s: seq<real>, seed: Inputs, seed': Inputs, f: Frame)
    requires |s| == DoF(frames) && f in frames
    ensures f.name in Unflattened(frames, s, seed) && f.name in Unflattened(frames, s, seed')
    ensures Unflattened(frames, s, seed)[f.name] == Unflattened(frames, s, seed')[f.name]
    decreases |frames|
  {
    var g := frames[0];
    var a, b, rest := seed[g.name := s[..g.dof]], seed'[g.name := s[..g.dof]], frames[1..];
    if f in rest {
      UnflattenedOwn(rest, s[g.dof..], a, b, f);
    } else if NamesFrom(rest, f.name) {
      var i :| 0 <= i < |rest| && rest[i].name == f.name;
      UnflattenedOwn(rest, s[g.dof..], a, b, rest[i]);
    } else {
      UnflattenedOther(rest, s[g.dof..], a, f.name);
      UnflattenedOther(rest, s[g.dof..], b, f.name);
    }
  }

  /** Cutting a slice into inputs and joining these again gives the slice. */
  lemma {:induction false} SliceRoundTrip(frames: seq<Frame>, s: seq<real>, seed: Inputs)
    requires |s| == DoF(frames) && DistinctNames(frames)
    ensures Flattened(frames, Unflattened(frames, s, seed)) == Some(s)
    decreases |frames|
  {
    if frames != [] {
      var g, rest := frames[0], frames[1..];
      var a := seed[g.name := s[..g.dof]];
      SliceRoundTrip(rest, s[g.dof..], a);
      assert !NamesFrom(rest, g.name) by {
        assert forall i :: 0 <= i < |rest| ==> rest[i] == frames[i + 1];
      }
      UnflattenedOther(rest, s[g.dof..], a, g.name);
      assert s == s[..g.dof] + s[g.dof..];
    }
  }

  /** Joining the inputs of a map and cutting them again gives every frame its inputs back. */
  lemma {:induction false} MapRoundTrip(frames: seq<Frame>, m: Inputs, seed: Inputs, f: Frame)
    requires DistinctNames(frames) && f in frames
    requires forall g :: g in frames ==> GetFrameInputs(g, m).Some? && |GetFrameInputs(g, m).value| == g.dof
    ensures Flattened(frames, m).Some? && |Flattened(frames, m).value| == DoF(frames)
    ensures GetFrameInputs(f, Unflattened(frames, Flattened(frames, m).value, seed)) == GetFrameInputs(f, m)
    decreases |frames|
  {
    FlattenedLength(frames, m);
    var g, rest := frames[0], frames[1..];
    FlattenedLength(rest, m);
    var v, t := GetFrameInputs(g, m).value, Flattened(rest, m).value;
    assert Flattened(frames, m).value == v + t && (v + t)[..g.dof] == v && (v + t)[g.dof..] == t;
    var a := seed[g.name := v];
    assert forall i :: 0 <= i < |rest| ==> rest[i] == frames[i + 1];
    if f in rest {
      MapRoundTrip(rest, m, a, f);
    } else {
      assert !NamesFrom(rest, g.name);
      UnflattenedOther(rest, t, a, g.name);
    }
  }

  lemma {:induction false} FlattenedLength(frames: seq<Frame>, m: Inputs)
    requires forall g :: g in frames ==> GetFrameInputs(g, m).Some? && |GetFrameInputs(g, m).value| == g.dof
    ensures Flattened(frames, m).Some? && |Flattened(frames, m).value| == DoF(frames)
  {
    if frames != [] {
      FlattenedLength(frames[1..], m);
    }
  }

  /** A frame gets the part of the slice that follows the parts of the frames before it. */
  lemma {:induction false} SlicePart(frames: seq<Frame>, s: seq<real>, seed: Inputs, i: nat)
    requires |s| == DoF(frames) && DistinctNames(frames) && i < |frames|
    ensures DoF(frames[..i]) + frames[i].dof <= |s|
    ensures var at := DoF(frames[..i]);
      && frames[i].name in Unflattened(frames, s, seed)
      && Unflattened(frames, s, seed)[frames[i].name] == s[at..at + frames[i].dof]
    decreases |frames|
  {
    hide Unflattened, DoF;
    var g, rest := frames[0], frames[1..];
    SliceStep(frames, s, seed, i);
    var a, tail := seed[g.name := s[..g.dof]], s[g.dof..];
    assert forall j :: 0 <= j < |rest| ==> rest[j] == frames[j + 1];
    if i == 0 {
      assert !NamesFrom(rest, g.name);
      UnflattenedOther(rest, tail, a, g.name);
    } else {
      SlicePart(rest, tail, a, i - 1);
      var at := DoF(rest[..i - 1]);
      assert tail[at..at + frames[i].dof] == s[g.dof + at..g.dof + at + frames[i].dof];
    }
  }

  lemma SliceStep(frames: seq<Frame>, s: seq<real>, seed: Inputs, i: nat)
    requires |s| == DoF(frames) && i < |frames|
    ensures var g, rest := frames[0], frames[1..];
      && g.dof <= |s| && |s[g.dof..]| == DoF(rest)
      && Unflattened(frames, s, seed) == Unflattened(rest, s[g.dof..], seed[g.name := s[..g.dof]])
      && DoF(frames[..i]) == if i == 0 then 0 else g.dof + DoF(rest[..i - 1])
  {
    if i > 0 {
      assert frames[..i][1..] == frames[1..][..i - 1];
    }
  }

  /** The inputs dropped from the seed are exactly those that the slice overrides. */
  lemma SeedIsEnough(frames: seq<Frame>, s: seq<real>, seed: Inputs)
    requires |s| == DoF(frames)
    ensures Unflattened(frames, s, SeedOfOthers(seed, frames)) == Unflattened(frames, s, seed)
  {
    hide Unflattened;
    var a, b := Unflattened(frames, s, SeedOfOthers(seed, frames)), Unflattened(frames, s, seed);
    forall name
      ensures name in a <==> name in b
      ensures name in a && name in b ==> a[name] == b[name]
    {
      if NamesFrom(frames, name) {
        var i :| 0 <= i < |frames| && frames[i].name == name;
        UnflattenedOwn(frames, s, SeedOfOthers(seed, frames), seed, frames[i]);
      } else {
        UnflattenedOther(frames, s, SeedOfOthers(seed, frames), name);
        UnflattenedOther(frames, s, seed, name);
      }
    }
  }

  // ----- building the solver frame -----

  /** The frames of a list that come before `p`. */
  ghost function Until(s: seq<Frame>, p: Frame): (r: seq<Frame>)
    ensures |r| <= |s| && r == s[..|r|] && (|r| < |s| ==> s[|r|] == p) && p !in r
    ensures p in s ==> |r| < |s|
  {
    if s == [] || s[0] == p then [] else [s[0]] + Until(s[1..], p)
  }

  method TakeUntil(s: seq<Frame>, p: Frame) returns (r: seq<Frame>, dof: nat)
    ensures r == Until(s, p) && dof == DoF(r)
  {
    r, dof := [], 0;
    for i := 0 to |s|
      invariant r == s[..i] && p !in r && dof == DoF(r)
    {
      if s[i] == p {
        UntilIs(s, p, i);
        return;
      }
      DoFConcat(r, [s[i]]);
      dof := dof + s[i].dof;
      r := r + [s[i]];
    }
    UntilIs(s, p, |s|);
  }

  lemma {:induction false} UntilIs(s: seq<Frame>, p: Frame, i: nat)
    requires i <= |s| && p !in s[..i] && (i < |s| ==> s[i] == p)
    ensures Until(s, p) == s[..i]
  {
  }

  lemma {:induction false} DoFConcat(s: seq<Frame>, t: seq<Frame>)
    ensures DoF(s + t) == DoF(s) + DoF(t)
  {
    if s == [] {
      assert s + t == t;
    } else {
      assert (s + t)[1..] == s[1..] + t;
      DoFConcat(s[1..], t);
    }
  }

  /** The first occurrence of each frame. */
  ghost function FirstOnly(s: seq<Frame>): seq<Frame>
  {
    if s == [] then []
    else
      var before, x := s[..|s| - 1], s[|s| - 1];
      FirstOnly(before) + if x in before then [] else [x]
  }

  /** Where a frame occurs first. */
  ghost function FirstAt(s: seq<Frame>, x: Frame): (i: nat)
    requires x in s
    ensures i < |s| && s[i] == x && forall j :: 0 <= j < i ==> s[j] != x
  {
    if s[0] == x then 0 else FirstAt(s[1..], x) + 1
  }

  lemma FirstAtPrefix(s: seq<Frame>, i: nat, x: Frame)
    requires i <= |s| && x in s[..i]
    ensures x in s && FirstAt(s, x) == FirstAt(s[..i], x) < i
  {
    var a, b := FirstAt(s[..i], x), FirstAt(s, x);
    assert s[a] == x && s[..i][a] == s[a];
    assert b <= a && s[..i][b] == s[b];
  }

  /** Each frame once, in the order in which they occur first. */
  lemma {:induction false} FirstOnlyInOrder(s: seq<Frame>)
    ensures Distinct(FirstOnly(s)) && Elements(FirstOnly(s)) == Elements(s)
    ensures forall i, j :: 0 <= i < j < |FirstOnly(s)| ==>
      FirstOnly(s)[i] in s && FirstOnly(s)[j] in s && FirstAt(s, FirstOnly(s)[i]) < FirstAt(s, FirstOnly(s)[j])
  {
    if s != [] {
      var n := |s| - 1;
      var before, x := s[..n], s[n];
      var r := FirstOnly(before);
      FirstOnlyInOrder(before);
      assert s == before + [x];
      FirstOnlyMembers(before);
      if x !in before {
        AppendDistinct(r, x);
        assert Elements(r + [x]) == Elements(r) + {x};
      }
      assert Elements(s) == Elements(before) + {x};
      forall i, j | 0 <= i < j < |FirstOnly(s)|
        ensures FirstOnly(s)[i] in s && FirstOnly(s)[j] in s && FirstAt(s, FirstOnly(s)[i]) < FirstAt(s, FirstOnly(s)[j])
      {
        hide FirstAt;
        FirstAtPrefix(s, n, r[i]);
        if j < |r| {
          FirstAtPrefix(s, n, r[j]);
        } else {
          assert FirstAt(s, x) == n;
        }
      }
    }
  }

  lemma FirstOnlyMembers(s: seq<Frame>)
    requires Elements(FirstOnly(s)) == Elements(s)
    ensures forall x :: x in FirstOnly(s) <==> x in s
  {
    assert forall x :: x in Elements(s) <==> x in s;
    assert forall x :: x in Elements(FirstOnly(s)) <==> x in FirstOnly(s);
  }

  lemma FirstOnlyStep(s: seq<Frame>, x: Frame)
    ensures FirstOnly(s + [x]) == FirstOnly(s) + if x in s then [] else [x]
  {
    assert (s + [x])[..|s|] == s;
  }

  lemma {:induction false} FirstOnlyDistinct(s: seq<Frame>)
    requires Distinct(s)
    ensures FirstOnly(s) == s
  {
    hide FirstOnly;
    if s == [] {
      FirstOnlyNone();
    } else {
      var before, x := s[..|s| - 1], s[|s| - 1];
      FirstOnlyDistinct(before);
      assert s == before + [x] && x !in before;
      FirstOnlyStep(before, x);
    }
  }

  lemma FirstOnlyNone()
    ensures FirstOnly([]) == []
  {
  }

  /** Moves the first occurrence of each frame to the front, in place, and cuts the rest off. */
  method UniqInPlaceSlice(s: seq<Frame>) returns (r: seq<Frame>)
    ensures r == FirstOnly(s)
  {
    r := s;
    var seen: set<Frame> := {};
    var j := 0;
    for i := 0 to |s|
      invariant j <= i && |r| == |s| && r[i..] == s[i..]
      invariant seen == Elements(s[..i]) && r[..j] == FirstOnly(s[..i])
    {
      var v := r[i];
      assert v == r[i..][0] == s[i];
      assert s[..i + 1][..i] == s[..i] && s[..i + 1][i] == v;
      assert Elements(s[..i + 1]) == Elements(s[..i]) + {v};
      assert v in seen <==> v in s[..i];
      assert r[i + 1..] == r[i..][1..] == s[i + 1..];
      if v in seen {
        continue;
      }
      ghost var before := r;
      r := r[j := v];
      assert r[..j + 1] == before[..j] + [v] && r[i + 1..] == before[i + 1..];
      seen := seen + {v};
      j := j + 1;
    }
    assert s[..|s|] == s;
    r := r[..j];
  }

  /** What the solver frame between two frames with the given pivot solves for. */
  ghost predicate SolvesFor(sf: SolverFrame, parents: Parents, world: Frame, x: Frame, y: Frame, pivot: Frame)
    requires IsTree(parents, world) && (x in parents || x == world) && (y in parents || y == world)
  {
    var s, t := Trace(parents, world, x), Trace(parents, world, y);
    var way := Until(s, pivot) + Until(t, pivot);
    && sf.solveFrame == x && sf.goalFrame == y
    && if pivot == world then !sf.worldRooted && sf.frames == s + Until(t, world)
       else if DoF(way) == 0 then sf.worldRooted && sf.frames == s
       else !sf.worldRooted && sf.frames == way
  }

  /** A way up to the world meets no frame twice. */
  lemma {:induction false} TraceDistinct(parents: Parents, world: Frame, x: Frame)
    requires IsTree(parents, world) && (x in parents || x == world)
    ensures Distinct(Trace(parents, world, x))
    decreases |Trace(parents, world, x)|
  {
    hide IsTree;
    TraceStep(parents, world, x);
    if x in parents {
      TraceDistinct(parents, world, parents[x]);
      var rank := TreeRank(parents, world);
      TraceIsBelow(parents, world, rank, parents[x], x);
      if x in Trace(parents, world, parents[x]) {
        BelowRank(Up(parents, world), rank, parents[x], x);
      }
    }
  }

  /** Below the pivot the two ways have no frame in common. */
  lemma WaysApart(parents: Parents, world: Frame, x: Frame, y: Frame, pivot: Frame, c: Frame)
    requires IsTree(parents, world)
    requires (x in parents || x == world) && (y in parents || y == world) && (pivot in parents || pivot == world)
    requires LowestCommon(parents, world, x, y, pivot) && c in Until(Trace(parents, world, x), pivot)
    ensures c !in Until(Trace(parents, world, y), pivot)
  {
    hide IsTree;
    var s, t := Trace(parents, world, x), Trace(parents, world, y);
    var i := |Until(s, pivot)|;
    TraceSuffix(parents, world, x, i);
    TraceDistinct(parents, world, x);
    PartsApart(s, i, c);
    assert c in s;
  }

  lemma PartsApart(s: seq<Frame>, i: nat, c: Frame)
    requires Distinct(s) && i <= |s| && c in s[..i]
    ensures c !in s[i..]
  {
    var j :| 0 <= j < i && s[j] == c;
    assert forall l :: 0 <= l < |s| - i ==> s[i..][l] == s[i + l];
  }

  lemma NamesFromFrames(frames: map<string, Frame>, parents: Parents, world: Frame, fs: seq<Frame>)
    requires Registered(frames, parents) && world.name == WORLD && Distinct(fs)
    requires forall i :: 0 <= i < |fs| ==> fs[i] in parents || fs[i] == world
    ensures DistinctNames(fs)
  {
  }

  lemma TraceInSystem(parents: Parents, world: Frame, x: Frame)
    requires IsTree(parents, world) && (x in parents || x == world)
    ensures forall f :: f in Trace(parents, world, x) ==> f in parents || f == world
  {
    hide IsTree;
    var s := Trace(parents, world, x);
    forall f | f in s
      ensures f in parents || f == world
    {
      var i :| 0 <= i < |s| && s[i] == f;
      TraceSuffix(parents, world, x, i);
    }
  }

  /** Two ways that meet at the world only are, without repetition, the first and the second up to the world. */
  lemma WaysToWorld(parents: Parents, world: Frame, x: Frame, y: Frame)
    requires IsTree(parents, world) && (x in parents || x == world) && (y in parents || y == world)
    requires LowestCommon(parents, world, x, y, world)
    ensures var s, t := Trace(parents, world, x), Trace(parents, world, y);
      FirstOnly(s + t) == s + Until(t, world)
  {
    hide IsTree, LowestCommon;
    var s, t := Trace(parents, world, x), Trace(parents, world, y);
    TraceEndsAtWorld(parents, world, s, x);
    TraceEndsAtWorld(parents, world, t, y);
    TraceDistinct(parents, world, x);
    TraceDistinct(parents, world, y);
    UntilLast(s, world);
    forall c | c in s
      ensures c !in Until(t, world)
    {
      if c in Until(s, world) {
        WaysApart(parents, world, x, y, world, c);
      }
    }
    FirstOnlyJoined(s, t, world);
  }

  lemma FirstOnlyJoined(s: seq<Frame>, t: seq<Frame>, x: Frame)
    requires Distinct(s) && Distinct(t) && |t| > 0 && t[|t| - 1] == x && x in s
    requires forall c :: c in s ==> c !in Until(t, x)
    ensures FirstOnly(s + t) == s + Until(t, x)
  {
    hide FirstOnly, Distinct;
    UntilLast(t, x);
    var u := Until(t, x);
    JoinDistinct(s, u);
    FirstOnlyDistinct(s + u);
    assert s + t == (s + u) + [x];
    FirstOnlyStep(s + u, x);
    assert s + u + [] == s + u;
  }

  lemma UntilLast(s: seq<Frame>, x: Frame)
    requires Distinct(s) && |s| > 0 && s[|s| - 1] == x
    ensures Until(s, x) == s[..|s| - 1] && Distinct(Until(s, x))
    ensures forall c :: c in s ==> c == x || c in Until(s, x)
  {
    UntilIs(s, x, |s| - 1);
  }

  /** The frames that are solved for have different names, whichever of the three cases they come from. */
  lemma SolvedNamesDiffer(registry: map<string, Frame>, sf: SolverFrame, parents: Parents, world: Frame, x: Frame, y: Frame, pivot: Frame)
    requires IsTree(parents, world) && Registered(registry, parents) && world.name == WORLD
    requires (x in parents || x == world) && (y in parents || y == world) && (pivot in parents || pivot == world)
    requires LowestCommon(parents, world, x, y, pivot) && SolvesFor(sf, parents, world, x, y, pivot)
    ensures DistinctNames(sf.frames)
  {
    hide IsTree, Registered, LowestCommon;
    var s, t := Trace(parents, world, x), Trace(parents, world, y);
    TraceInSystem(parents, world, x);
    TraceInSystem(parents, world, y);
    TraceDistinct(parents, world, x);
    TraceDistinct(parents, world, y);
    if pivot == world {
      WaysToWorld(parents, world, x, y);
      FirstOnlyInOrder(s + t);
    } else if DoF(Until(s, pivot) + Until(t, pivot)) != 0 {
      forall c | c in Until(s, pivot)
        ensures c !in Until(t, pivot)
      {
        WaysApart(parents, world, x, y, pivot, c);
      }
      JoinDistinct(Until(s, pivot), Until(t, pivot));
    }
    forall i | 0 <= i < |sf.frames|
      ensures sf.frames[i] in parents || sf.frames[i] == world
    {
      assert sf.frames[i] in Elements(sf.frames);
    }
    NamesFromFrames(registry, parents, world, sf.frames);
  }

  lemma JoinDistinct(s: seq<Frame>, t: seq<Frame>)
    requires Distinct(s) && Distinct(t) && forall c :: c in s ==> c !in t
    ensures Distinct(s + t)
  {
    forall i, j | 0 <= i < j < |s + t|
      ensures (s + t)[i] != (s + t)[j]
    {
      assert i < |s| ==> s[i] in s;
      assert j >= |s| ==> t[j - |s|] in t;
    }
  }

  /** Everything but the inputs of the given frames. */
  ghost function SeedOfOthers(seed: Inputs, frames: seq<Frame>): Inputs
  {
    map n | n in seed && !NamesFrom(frames, n) :: seed[n]
  }

  /** What the solver frame makes of a slice is the seed overridden by the slice, so that it can transform
      whatever could be transformed with these inputs, to the same pose. */
  ghost predicate CompletesWith(sf: SolverFrame, seed: Inputs)
  {
    forall slice: seq<real> :: |slice| == DoF(sf.frames) ==>
      Unflattened(sf.frames, slice, sf.origSeed) == Unflattened(sf.frames, slice, seed)
  }

  lemma Completed(sf: SolverFrame, seed: Inputs)
    requires sf.origSeed == SeedOfOthers(seed, sf.frames)
    ensures CompletesWith(sf, seed)
  {
    forall slice: seq<real> | |slice| == DoF(sf.frames)
      ensures Unflattened(sf.frames, slice, sf.origSeed) == Unflattened(sf.frames, slice, seed)
    {
      SeedIsEnough(sf.frames, slice, seed);
    }
  }

  method DropInputs(seed: Inputs, frames: seq<Frame>) returns (r: Inputs)
    ensures r == SeedOfOthers(seed, frames)
  {
    r := seed;
    for i := 0 to |frames|
      invariant r == SeedOfOthers(seed, frames[..i])
    {
      assert frames[..i + 1] == frames[..i] + [frames[i]];
      NamesOneMoreFrom(frames, i);
      r := r - {frames[i].name};
    }
    assert frames[..|frames|] == frames;
  }

  method NewSolverFrame(fss: FrameSystem, solveFrameList: seq<Frame>, goalFrameName: string, seedMap: Inputs)
    returns (r: Solved<SolverFrame>, ghost pivot: Frame)
    requires fss.Valid()
    requires solveFrameList != [] ==>
      fss.Has(solveFrameList[0]) && solveFrameList == Trace(fss.parents, fss.world, solveFrameList[0])
    ensures r == NoSolution(System(FrameMissing(goalFrameName))) <==> !fss.FrameExists(goalFrameName)
    ensures r == NoSolution(NoSolveFrame) <==> fss.FrameExists(goalFrameName) && solveFrameList == []
    ensures r.Solution? <==> fss.FrameExists(goalFrameName) && solveFrameList != []
    ensures r.Solution? ==> var x, y := solveFrameList[0], fss.FrameNamed(goalFrameName).value;
      && fss.Has(pivot) && LowestCommon(fss.parents, fss.world, x, y, pivot)
      && SolvesFor(r.value, fss.parents, fss.world, x, y, pivot)
      && r.value.origSeed == SeedOfOthers(seedMap, r.value.frames)
    ensures r.Solution? ==> DistinctNames(r.value.frames) && CompletesWith(r.value, seedMap)
  {
    hide IsTree, Registered, LowestCommon, SeedOfOthers, FirstNamedIn, Share, CompletesWith, DistinctNames;
    pivot := fss.world;
    var goalFrame := fss.FrameNamed(goalFrameName);
    if goalFrame.None? {
      return NoSolution(System(FrameMissing(goalFrameName))), pivot;
    }
    var goalTrace := fss.TracebackFrame(goalFrame.value);
    if goalTrace.Failure? {
      assert false;
      return NoSolution(NoPath), pivot;
    }
    if |solveFrameList| == 0 {
      return NoSolution(NoSolveFrame), pivot;
    }
    var goalFrameList, x, y := goalTrace.value, solveFrameList[0], goalFrame.value;
    var found := FindPivotFrame(solveFrameList, goalFrameList);
    TracesMeet(fss.parents, fss.world, x, y);
    if found.None? {
      return NoSolution(NoPath), pivot;
    }
    var pivotFrame := found.value;
    if |solveFrameList| > |goalFrameList| {
      PivotIsLowest(fss.frames, fss.parents, fss.world, x, y, pivotFrame);
    } else {
      PivotIsLowest(fss.frames, fss.parents, fss.world, y, x, pivotFrame);
    }
    pivot := pivotFrame;
    var frames, worldRooted := [], false;
    WorldByName(fss.frames, fss.parents, fss.world, pivotFrame);
    if pivotFrame.name == WORLD {
      frames := UniqInPlaceSlice(solveFrameList + goalFrameList);
      WaysToWorld(fss.parents, fss.world, x, y);
    } else {
      var solvePart, solveDof := TakeUntil(solveFrameList, pivotFrame);
      var goalPart, goalDof := TakeUntil(goalFrameList, pivotFrame);
      DoFConcat(solvePart, goalPart);
      frames := solvePart + goalPart;
      if solveDof + goalDof == 0 {
        worldRooted := true;
        frames := solveFrameList;
      }
    }
    var origSeed := DropInputs(seedMap, frames);
    ghost var sf := SolverFrame(frames, x, y, worldRooted, origSeed);
    SolvedNamesDiffer(fss.frames, sf, fss.parents, fss.world, x, y, pivot);
    Completed(sf, seedMap);
    return Solution(SolverFrame(frames, x, y, worldRooted, origSeed)), pivot;
  }

  lemma WorldByName(frames: map<string, Frame>, parents: Parents, world: Frame, p: Frame)
    requires Registered(frames, parents) && world.name == WORLD && (p in parents || p == world)
    ensures p.name == WORLD <==> p == world
  {
  }

  // ----- transforming -----

  method Transform<P(!new)>(k: Kinematics<P>, fss: FrameSystem, sf: SolverFrame, inputs: seq<real>) returns (r: Solved<P>)
    requires fss.Valid() && IsGroup(k.group) && fss.Has(sf.solveFrame) && fss.Has(sf.goalFrame)
    ensures r == NoSolution(IncorrectInputLength) <==> |inputs| != DoF(sf.frames)
    ensures |inputs| == DoF(sf.frames) ==>
      var dst := if sf.worldRooted then fss.world else sf.goalFrame;
      var t := Transformed(k, Unflattened(sf.frames, inputs, sf.origSeed), fss.parents, fss.world, sf.solveFrame, dst, k.group.zero);
      r == if t.Some? then Solution(t.value) else NoSolution(System(NoPositions))
  {
    if |inputs| != DoF(sf.frames) {
      return NoSolution(IncorrectInputLength);
    }
    hide IsTree, IsGroup, Transformed, Unflattened;
    var solveName := sf.goalFrame.name;
    if sf.worldRooted {
      solveName := WORLD;
    }
    var inputMap := SliceToMap(sf.frames, inputs, sf.origSeed);
    var t := fss.Transform(k, inputMap, sf.solveFrame.name, k.group.zero, solveName);
    if t.Failure? {
      return NoSolution(System(t.error));
    }
    return Solution(t.value);
  }

  /** Solving for the frames below the pivot is enough for the pose between the two ends. */
  lemma PoseFromTheWay<P(!new)>(k: Kinematics<P>, parents: Parents, world: Frame, x: Frame, y: Frame, pivot: Frame,
                                        frames: seq<Frame>, slice: seq<real>, seed: Inputs, seed': Inputs, pose: P)
    requires IsGroup(k.group) && IsTree(parents, world)
    requires (x in parents || x == world) && (y in parents || y == world) && (pivot in parents || pivot == world)
    requires LowestCommon(parents, world, x, y, pivot)
    requires frames == Until(Trace(parents, world, x), pivot) + Until(Trace(parents, world, y), pivot)
    requires |slice| == DoF(frames)
    requires Transformed(k, Unflattened(frames, slice, seed), parents, world, x, y, pose).Some?
    requires Transformed(k, Unflattened(frames, slice, seed'), parents, world, x, y, pose).Some?
    ensures Transformed(k, Unflattened(frames, slice, seed), parents, world, x, y, pose)
         == Transformed(k, Unflattened(frames, slice, seed'), parents, world, x, y, pose)
  {
    hide IsGroup, IsTree, PathPose, Unflattened;
    var m, m' := Unflattened(frames, slice, seed), Unflattened(frames, slice, seed');
    var i, j := |Until(Trace(parents, world, x), pivot)|, |Until(Trace(parents, world, y), pivot)|;
    var s, t := Trace(parents, world, x)[..i + 1], Trace(parents, world, y)[..j + 1];
    forall f | f in frames
      ensures GetFrameInputs(f, m) == GetFrameInputs(f, m')
    {
      UnflattenedOwn(frames, slice, seed, seed', f);
    }
    SamePath(k, m, m', frames, s);
    SamePath(k, m, m', frames, t);
    if x != y {
      PoseBelow(k, m, parents, world, x, pivot, i);
      PoseBelow(k, m', parents, world, x, pivot, i);
      PoseBelow(k, m, parents, world, y, pivot, j);
      PoseBelow(k, m', parents, world, y, pivot, j);
      var a, b := PathPose(k, m, s).value, PathPose(k, m, t).value;
      RelativeCancels(k.group, WorldPose(k, m, parents, world, pivot).value, a, b);
      RelativeCancels(k.group, WorldPose(k, m', parents, world, pivot).value, a, b);
    }
  }

  /** What the solver frame computes does not depend on the inputs of any frame that is not solved for:
      when it solves up to the world never, and when it solves up to a pivot below the world wherever it
      computes a pose at all. */
  lemma TransformIgnoresOthers<P(!new)>(k: Kinematics<P>, sf: SolverFrame, parents: Parents, world: Frame, pivot: Frame,
                                        slice: seq<real>, seed: Inputs, seed': Inputs, pose: P)
    requires IsGroup(k.group) && IsTree(parents, world)
    requires (sf.solveFrame in parents || sf.solveFrame == world) && (sf.goalFrame in parents || sf.goalFrame == world)
    requires (pivot in parents || pivot == world) && LowestCommon(parents, world, sf.solveFrame, sf.goalFrame, pivot)
    requires SolvesFor(sf, parents, world, sf.solveFrame, sf.goalFrame, pivot) && |slice| == DoF(sf.frames)
    ensures var dst := if sf.worldRooted then world else sf.goalFrame;
      var r := Transformed(k, Unflattened(sf.frames, slice, seed), parents, world, sf.solveFrame, dst, pose);
      var r' := Transformed(k, Unflattened(sf.frames, slice, seed'), parents, world, sf.solveFrame, dst, pose);
      if pivot == world || sf.worldRooted then r == r' else r.Some? && r'.Some? ==> r == r'
  {
    hide IsGroup, IsTree, Unflattened, LowestCommon;
    var x, y, m, m' := sf.solveFrame, sf.goalFrame, Unflattened(sf.frames, slice, seed), Unflattened(sf.frames, slice, seed');
    if pivot == world || sf.worldRooted {
      forall f | f in sf.frames
        ensures GetFrameInputs(f, m) == GetFrameInputs(f, m')
      {
        UnflattenedOwn(sf.frames, slice, seed, seed', f);
      }
      SolvedWay(sf, parents, world, pivot);
      SamePath(k, m, m', sf.frames, Trace(parents, world, x));
      if sf.worldRooted {
        WorldPoseStep(k, m, parents, world, world);
        WorldPoseStep(k, m', parents, world, world);
      } else {
        SamePath(k, m, m', sf.frames, Trace(parents, world, y));
      }
    } else {
      if Transformed(k, m, parents, world, x, y, pose).Some? && Transformed(k, m', parents, world, x, y, pose).Some? {
        PoseFromTheWay(k, parents, world, x, y, pivot, sf.frames, slice, seed, seed', pose);
      }
    }
  }

  lemma SolvedWay(sf: SolverFrame, parents: Parents, world: Frame, pivot: Frame)
    requires IsTree(parents, world)
    requires (sf.solveFrame in parents || sf.solveFrame == world) && (sf.goalFrame in parents || sf.goalFrame == world)
    requires SolvesFor(sf, parents, world, sf.solveFrame, sf.goalFrame, pivot)
    ensures pivot == world || sf.worldRooted ==>
      forall f :: f in Trace(parents, world, sf.solveFrame) ==> f in sf.frames
    ensures pivot == world ==> forall f :: f in Trace(parents, world, sf.goalFrame) ==> f in sf.frames
  {
    hide IsTree;
    var s, t := Trace(parents, world, sf.solveFrame), Trace(parents, world, sf.goalFrame);
    if pivot == world {
      TraceEndsAtWorld(parents, world, s, sf.solveFrame);
      TraceEndsAtWorld(parents, world, t, sf.goalFrame);
      TraceDistinct(parents, world, sf.goalFrame);
      UntilLast(t, world);
      assert s[|s| - 1] == world;
    }
  }

  lemma SamePath<P(!new)>(k: Kinematics<P>, m: Inputs, m': Inputs, frames: seq<Frame>, s: seq<Frame>)
    requires forall f :: f in frames ==> GetFrameInputs(f, m) == GetFrameInputs(f, m')
    requires forall i :: 0 <= i < |s| - 1 ==> s[i] in frames
    ensures PathPose(k, m, s) == PathPose(k, m', s)
  {
  }

  lemma PoseBelow<P(!new)>(k: Kinematics<P>, inputs: Inputs, parents: Parents, world: Frame, x: Frame, pivot: Frame, i: nat)
    requires IsGroup(k.group) && IsTree(parents, world) && (x in parents || x == world) && (pivot in parents || pivot == world)
    requires i < |Trace(parents, world, x)| && Trace(parents, world, x)[i] == pivot
    ensures WorldPose(k, inputs, parents, world, x) ==
        Composed(k, WorldPose(k, inputs, parents, world, pivot), PathPose(k, inputs, Trace(parents, world, x)[..i + 1]))
  {
    PathPoseSplits(k, inputs, Trace(parents, world, x), i);
    TraceSuffix(parents, world, x, i);
  }
}

/** Whole runs of the RRT*-Connect planner.

A run is the sequence of pairs of trees that the planning loop goes through, each obtained from the
one before by extending both trees to the next target. What holds of every run is proved of these
sequences, and the loop is proved to produce one.
*/
module RrtRuns {
  import opened Forest
  import opened Options
  import opened PlanCost
  import opened RrtConnect
  import opened RrtStar
  import opened Selection
  import opened Sequences

  /** The planner, the seed, the solutions of the inverse kinematics, and the random samples. */
  datatype Problem = Problem(mp: Planner, seed: Config, solutions: seq<Config>, samples: seq<Config>)

  ghost predicate WellPosed(pb: Problem)
  {
    Metric(pb.mp) && pb.solutions != [] && forall i :: 0 <= i < |pb.solutions| ==> |pb.solutions[i]| == |pb.seed|
  }

  datatype Trees = Trees(s: Parents, sCost: Costs, g: Parents, gCost: Costs)

  // ----- runs -----

  function Halfway(pb: Problem): Config
    requires pb.solutions != [] && |pb.solutions[0]| == |pb.seed|
  {
    Interpolate(pb.seed, pb.solutions[0], 0.5)
  }

  /** The target of the `i`th iteration. */
  function TargetAt(pb: Problem, i: nat): Config
    requires pb.solutions != [] && |pb.solutions[0]| == |pb.seed| && i <= |pb.samples|
  {
    if i == 0 then Halfway(pb) else pb.samples[i - 1]
  }

  /** The number given to the node of the `i`th iteration in the first tree; the one in the second
      tree gets the next. */
  function IdAt(pb: Problem, i: nat): nat
  {
    |pb.solutions| + 1 + 2 * i
  }

  function PairAt(pb: Problem, i: nat): NodePair
    requires pb.solutions != [] && |pb.solutions[0]| == |pb.seed| && i <= |pb.samples|
  {
    NodePair(Node(IdAt(pb, i), TargetAt(pb, i)), Node(IdAt(pb, i) + 1, TargetAt(pb, i)))
  }

  ghost function InitialTrees(pb: Problem): Trees
  {
    var roots, goals := {Node(0, pb.seed)}, Numbered(pb.solutions, |pb.solutions|);
    Trees(AllRoots(roots), NoCosts(roots), AllRoots(goals), NoCosts(goals))
  }

  ghost predicate Grows(pb: Problem, x: Trees, y: Trees, i: nat)
    requires WellPosed(pb) && i <= |pb.samples|
  {
    && Extends(pb.mp, x.s, x.sCost, y.s, y.sCost, TargetAt(pb, i), IdAt(pb, i))
    && Extends(pb.mp, x.g, x.gCost, y.g, y.gCost, TargetAt(pb, i), IdAt(pb, i) + 1)
  }

  ghost predicate IsRun(pb: Problem, states: seq<Trees>)
    requires WellPosed(pb)
  {
    && 0 < |states| <= |pb.samples| + 1
    && states[0] == InitialTrees(pb)
    && forall i :: 0 <= i < |states| - 1 ==> Grows(pb, states[i], states[i + 1], i)
  }

  lemma RunStarts(pb: Problem)
    requires WellPosed(pb)
    ensures IsRun(pb, [InitialTrees(pb)])
  {
  }

  lemma RunGrows(pb: Problem, states: seq<Trees>, y: Trees)
    requires WellPosed(pb) && IsRun(pb, states) && |states| <= |pb.samples|
    requires Grows(pb, states[|states| - 1], y, |states| - 1)
    ensures IsRun(pb, states + [y])
  {
    hide Grows, WellPosed;
  }

  // ----- the invariant of every run -----

  ghost predicate IdsBelow(parent: Parents, next: nat)
  {
    forall n :: n in parent ==> n.id < next
  }

  /** What the two trees are in every state: the invariant holds, and the seed and the solutions are
      the roots. */
  ghost predicate GoodTrees(pb: Problem, x: Trees, i: nat)
  {
    && TreeInv(pb.mp, x.s, x.sCost) && TreeInv(pb.mp, x.g, x.gCost)
    && Roots(x.s) == {Node(0, pb.seed)} && Roots(x.g) == Numbered(pb.solutions, |pb.solutions|)
    && IdsBelow(x.s, IdAt(pb, i)) && IdsBelow(x.g, IdAt(pb, i))
  }

  lemma {:induction false} RunInvariant(pb: Problem, states: seq<Trees>, i: nat)
    requires WellPosed(pb) && IsRun(pb, states) && i < |states|
    ensures GoodTrees(pb, states[i], i)
  {
    hide TreeInv, Metric, Roots, Extends, Numbered;
    if i == 0 {
      InitialTreesGood(pb);
    } else {
      RunInvariant(pb, states, i - 1);
      var x, y, id := states[i - 1], states[i], IdAt(pb, i - 1);
      assert Grows(pb, x, y, i - 1);
      ExtendsKeeps(pb.mp, x.s, x.sCost, y.s, y.sCost, TargetAt(pb, i - 1), id);
      ExtendsKeeps(pb.mp, x.g, x.gCost, y.g, y.gCost, TargetAt(pb, i - 1), id + 1);
    }
  }

  lemma InitialTreesGood(pb: Problem)
    requires WellPosed(pb)
    ensures GoodTrees(pb, InitialTrees(pb), 0)
  {
    hide Numbered;
    RootsGood(pb.mp, {Node(0, pb.seed)});
    RootsGood(pb.mp, Numbered(pb.solutions, |pb.solutions|));
    forall n | n in Numbered(pb.solutions, |pb.solutions|)
      ensures n.id < |pb.solutions| + 1
    {
      NumberedFacts(pb.solutions, n);
    }
  }

  lemma RootsGood(mp: Planner, roots: set<Node>)
    ensures TreeInv(mp, AllRoots(roots), NoCosts(roots)) && Roots(AllRoots(roots)) == roots
  {
    assert Ranked(AllRoots(roots), map n | n in roots :: 0);
  }

  lemma NumberedFacts(solutions: seq<Config>, n: Node)
    requires n in Numbered(solutions, |solutions|)
    ensures n.q in solutions && n.id < |solutions| + 1
  {
  }

  // ----- the shared pairs of a run -----

  /** Both trees were extended to the target of the iteration. */
  ghost predicate Meets(pb: Problem, y: Trees, i: nat)
    requires WellPosed(pb) && i <= |pb.samples|
  {
    PairAt(pb, i).a in y.s && PairAt(pb, i).b in y.g
  }

  /** The pairs found in the first `n` iterations. */
  ghost function Shared(pb: Problem, states: seq<Trees>, n: nat): seq<NodePair>
    requires WellPosed(pb) && n < |states| <= |pb.samples| + 1
  {
    if n == 0 then []
    else Shared(pb, states, n - 1) + (if Meets(pb, states[n], n - 1) then [PairAt(pb, n - 1)] else [])
  }

  lemma {:induction false} SharedPrefix(pb: Problem, states: seq<Trees>, y: Trees, n: nat)
    requires WellPosed(pb) && n < |states| <= |pb.samples|
    ensures Shared(pb, states + [y], n) == Shared(pb, states, n)
  {
    hide Meets, WellPosed;
    if n > 0 {
      SharedPrefix(pb, states, y, n - 1);
    }
  }

  lemma SharedKept(s: Parents, g: Parents, s': Parents, g': Parents, pairs: seq<NodePair>)
    requires AllShared(s, g, pairs)
    requires s.Keys <= s'.Keys && g.Keys <= g'.Keys && Roots(s') == Roots(s) && Roots(g') == Roots(g)
    ensures AllShared(s', g', pairs)
  {
    forall i | 0 <= i < |pairs|
      ensures SharedPair(s', g', pairs[i])
    {
      assert SharedPair(s, g, pairs[i]);
      assert pairs[i].a !in Roots(s') && pairs[i].b !in Roots(g');
    }
  }

  /** Every pair of a run is in both trees of every later state, below a root, with one configuration. */
  lemma {:induction false} SharedStay(pb: Problem, states: seq<Trees>, n: nat)
    requires WellPosed(pb) && IsRun(pb, states) && n < |states|
    ensures AllShared(states[n].s, states[n].g, Shared(pb, states, n))
  {
    hide TreeInv, Metric, Roots, Extends, Numbered, AllShared;
    if n == 0 {
      NoPairs(states[0].s, states[0].g);
    } else {
      SharedStay(pb, states, n - 1);
      RunInvariant(pb, states, n - 1);
      RunInvariant(pb, states, n);
      var x, y := states[n - 1], states[n];
      assert Grows(pb, x, y, n - 1);
      ExtendsKeeps(pb.mp, x.s, x.sCost, y.s, y.sCost, TargetAt(pb, n - 1), IdAt(pb, n - 1));
      ExtendsKeeps(pb.mp, x.g, x.gCost, y.g, y.gCost, TargetAt(pb, n - 1), IdAt(pb, n - 1) + 1);
      SharedKept(x.s, x.g, y.s, y.g, Shared(pb, states, n - 1));
      if Meets(pb, y, n - 1) {
        NewPair(pb, y, n - 1);
        SharedMore(y.s, y.g, Shared(pb, states, n - 1), PairAt(pb, n - 1));
      } else {
        assert Shared(pb, states, n - 1) + [] == Shared(pb, states, n - 1);
      }
    }
  }

  lemma NoPairs(s: Parents, g: Parents)
    ensures AllShared(s, g, [])
  {
  }

  lemma NewPair(pb: Problem, y: Trees, i: nat)
    requires WellPosed(pb) && i <= |pb.samples| && GoodTrees(pb, y, i + 1) && Meets(pb, y, i)
    ensures SharedPair(y.s, y.g, PairAt(pb, i))
  {
    hide TreeInv, Numbered;
    var pair := PairAt(pb, i);
    assert pair.a !in Roots(y.s);
    if pair.b in Roots(y.g) {
      NumberedFacts(pb.solutions, pair.b);
    }
  }

  lemma SharedMore(s: Parents, g: Parents, pairs: seq<NodePair>, pair: NodePair)
    requires AllShared(s, g, pairs) && SharedPair(s, g, pair)
    ensures AllShared(s, g, pairs + [pair])
  {
  }

  // ----- meeting halfway -----

  /** The seed and every solution can be extended to the first target. */
  ghost predicate MeetsHalfway(pb: Problem)
    requires WellPosed(pb)
  {
    && pb.mp.neighborhoodSize > 0 && pb.mp.checkInputs(Halfway(pb)) && pb.mp.checkPath(pb.seed, Halfway(pb))
    && forall i :: 0 <= i < |pb.solutions| ==> pb.mp.checkPath(pb.solutions[i], Halfway(pb))
  }

  lemma SomeNear(mp: Planner, cost: Costs, target: Config, near: seq<Node>)
    requires AreSmallest(Keys(mp, cost, target), mp.neighborhoodSize, near) && mp.neighborhoodSize > 0 && cost.Keys != {}
    requires forall n :: n in cost ==> mp.checkPath(n.q, target)
    ensures exists i :: 0 <= i < |near| && mp.checkPath(near[i].q, target)
  {
    var keys := Keys(mp, cost, target);
    assert keys.Keys == cost.Keys && |keys.Keys| == |keys|;
    assert near[0] in keys;
  }

  /** A tree all of whose nodes can be extended to a target is extended to it. */
  lemma ExtendsWhenAllReach(mp: Planner, parent: Parents, cost: Costs, parent': Parents, cost': Costs, target: Config, id: nat)
    requires Extends(mp, parent, cost, parent', cost', target, id) && mp.neighborhoodSize > 0 && mp.checkInputs(target)
    requires cost.Keys != {} && forall n :: n in cost ==> mp.checkPath(n.q, target)
    ensures Node(id, target) in parent'
  {
    hide AreSmallest;
    var near: seq<Node>, p: nat :| ExtendsVia(mp, parent, cost, parent', cost', target, id, near, p);
    SomeNear(mp, cost, target, near);
  }

  lemma HalfwayMet(pb: Problem, states: seq<Trees>)
    requires WellPosed(pb) && IsRun(pb, states) && |states| > 1 && MeetsHalfway(pb)
    ensures Meets(pb, states[1], 0)
  {
    hide Extends, Numbered;
    var x, y := states[0], states[1];
    assert Grows(pb, x, y, 0);
    SomeNumbered(pb.solutions);
    forall n | n in x.gCost
      ensures pb.mp.checkPath(n.q, Halfway(pb))
    {
      NumberedFacts(pb.solutions, n);
    }
    assert Node(0, pb.seed) in x.sCost;
    ExtendsWhenAllReach(pb.mp, x.s, x.sCost, y.s, y.sCost, Halfway(pb), IdAt(pb, 0));
    ExtendsWhenAllReach(pb.mp, x.g, x.gCost, y.g, y.gCost, Halfway(pb), IdAt(pb, 0) + 1);
  }

  lemma SomeNumbered(solutions: seq<Config>)
    requires solutions != []
    ensures Numbered(solutions, |solutions|) != {}
  {
    assert Node(1, solutions[0]) in Numbered(solutions, |solutions|);
  }

  lemma {:induction false} HalfwayShared(pb: Problem, states: seq<Trees>, n: nat)
    requires WellPosed(pb) && IsRun(pb, states) && 0 < n < |states| && MeetsHalfway(pb)
    ensures Shared(pb, states, n) != []
  {
    hide Meets;
    HalfwayMet(pb, states);
    if n > 1 {
      HalfwayShared(pb, states, n - 1);
    }
  }

  // ----- the planner -----

  /** The plan starts at the seed, ends at a solution, and every step was accepted in one direction. */
  ghost predicate Reaches(mp: Planner, seed: Config, solutions: seq<Config>, steps: seq<Node>)
  {
    && |steps| >= 2
    && steps[0].q == seed
    && steps[|steps| - 1].q in solutions
    && forall i :: 0 < i < |steps| ==>
         mp.checkPath(steps[i - 1].q, steps[i].q) || mp.checkPath(steps[i].q, steps[i - 1].q)
  }

  lemma GoodPlanReaches(mp: Planner, s: Parents, g: Parents, seed: Config, solutions: seq<Config>, steps: seq<Node>, k: nat)
    requires GoodPlan(mp, s, g, steps, k)
    requires forall n :: n in Roots(s) ==> n.q == seed
    requires forall n :: n in Roots(g) ==> n.q in solutions
    ensures Reaches(mp, seed, solutions, steps)
  {
  }

  /** The planner stops before its last iteration with a plan this close to the optimum. */
  ghost predicate CloseEnough(pb: Problem, steps: seq<Node>)
    requires pb.solutions != []
  {
    var optimalCost := pb.mp.dist(pb.seed, pb.solutions[0]);
    |steps| > 1 && Length(pb.mp.dist, Configs(steps)) - optimalCost < OPTIMALITY_THRESHOLD * optimalCost
  }

  /** The plan through the first of the cheapest pairs. */
  ghost predicate IsPlanVia(x: Trees, pairs: seq<NodePair>, steps: seq<Node>, k: nat, up: seq<Node>, down: seq<Node>)
  {
    IsCheapest(x.sCost, x.gCost, pairs, k) && Joins(x.s, x.g, pairs[k].a, pairs[k].b, up, down, steps)
  }

  ghost predicate IsPlanOf(x: Trees, pairs: seq<NodePair>, steps: seq<Node>)
  {
    exists k, up, down :: IsPlanVia(x, pairs, steps, k, up, down)
  }

  lemma PlanIsUnique(x: Trees, pairs: seq<NodePair>, steps: seq<Node>, steps': seq<Node>)
    requires IsPlanOf(x, pairs, steps) && IsPlanOf(x, pairs, steps')
    ensures steps == steps'
  {
    hide IsChain;
    var k: nat, up: seq<Node>, down: seq<Node> :| IsPlanVia(x, pairs, steps, k, up, down);
    var k': nat, up': seq<Node>, down': seq<Node> :| IsPlanVia(x, pairs, steps', k', up', down');
    assert k == k';
    ChainUnique(x.s, up, up', pairs[k].a);
    ChainUnique(x.g, down, down', pairs[k].b);
  }

  /** The plan is looked at after the `n`th iteration: it found a pair, the first, eleventh and so on. */
  ghost predicate IsChecked(pb: Problem, states: seq<Trees>, n: nat)
    requires WellPosed(pb) && n < |states| <= |pb.samples| + 1
  {
    n > 0 && Meets(pb, states[n], n - 1) && (|Shared(pb, states, n)| - 1) % OPTIMALITY_CHECK_ITER == 0
  }

  /** The run ends after the `n`th iteration because the plan is close enough to the optimum. */
  ghost predicate EndsAt(pb: Problem, states: seq<Trees>, n: nat)
    requires WellPosed(pb) && n < |states| <= |pb.samples| + 1
  {
    IsChecked(pb, states, n) && exists steps :: IsPlanOf(states[n], Shared(pb, states, n), steps) && CloseEnough(pb, steps)
  }

  /** The answer that belongs to the run of the given states. */
  ghost predicate Answers(pb: Problem, states: seq<Trees>, r: PlanReturn, planIter: nat, cancelAt: nat)
    requires WellPosed(pb) && 0 < |states| <= |pb.samples| + 1
  {
    var n, last := |states| - 1, states[|states| - 1];
    && n <= planIter && n <= cancelAt
    && (forall m :: 0 <= m < n ==> !EndsAt(pb, states, m))
    && match r
       case Steps(steps) =>
         && Shared(pb, states, n) != [] && IsPlanOf(last, Shared(pb, states, n), steps)
         && Reaches(pb.mp, pb.seed, pb.solutions, steps)
         && NoLongerThan(pb.mp, last.sCost, last.gCost, steps, Shared(pb, states, n))
         && (n == planIter || n == cancelAt || (IsChecked(pb, states, n) && CloseEnough(pb, steps)))
       case PlannerFailed => n == planIter && Shared(pb, states, n) == []
       case Cancelled => n == cancelAt && n < planIter && Shared(pb, states, n) == []
       case IKFailed => false
  }

  /** The plan goes straight to the first of the near-optimal solutions that can be reached directly. */
  ghost predicate IsDirect(pb: Problem, steps: seq<Node>, i: nat)
  {
    && i < |pb.solutions| && NearOptimal(pb.mp, pb.seed, pb.solutions, i)
    && pb.mp.checkPath(pb.seed, pb.solutions[i]) && NoDirectPath(pb.mp, pb.seed, pb.solutions, i)
    && steps == [Node(0, pb.seed), Node(i + 1, pb.solutions[i])]
  }

  /** The planning loop, for any samples and a cancellation at any iteration. Without solutions it fails;
      a near-optimal solution within reach is the plan; otherwise the trees go through a run, and the
      answer is the one that belongs to it. */
  method Run(pb: Problem, planIter: nat, cancelAt: nat) returns (r: PlanReturn, ghost states: seq<Trees>)
    requires Metric(pb.mp) && |pb.samples| >= planIter
    requires forall i :: 0 <= i < |pb.solutions| ==> |pb.solutions[i]| == |pb.seed|
    ensures pb.solutions == [] <==> r == IKFailed
    ensures pb.solutions != [] && !NoDirectPath(pb.mp, pb.seed, pb.solutions, |pb.solutions|) ==>
      r.Steps? && (exists i :: IsDirect(pb, r.steps, i)) && Reaches(pb.mp, pb.seed, pb.solutions, r.steps)
    ensures pb.solutions != [] && NoDirectPath(pb.mp, pb.seed, pb.solutions, |pb.solutions|) ==>
      IsRun(pb, states) && Answers(pb, states, r, planIter, cancelAt)
    ensures pb.solutions != [] && planIter > 0 && cancelAt > 0 && MeetsHalfway(pb) ==> r.Steps?
  {
    hide Metric, NoDirectPath, Answers, IsRun, MeetsHalfway, InitialTrees, TreeInv, Numbered, NearOptimal;
    states := [];
    if pb.solutions == [] {
      return IKFailed, states;
    }
    var direct, start, goal := InitRRTSolutions(pb.mp, pb.seed, pb.solutions);
    if direct.Some? {
      DirectPath(pb, direct.value);
      assert IsDirect(pb, [Node(0, pb.seed), Node(direct.value + 1, pb.solutions[direct.value])], direct.value);
      return Steps([Node(0, pb.seed), Node(direct.value + 1, pb.solutions[direct.value])]), states;
    }
    TreesStart(pb, start, goal);
    r, states := Grow(pb, start, goal, planIter, cancelAt);
  }

  lemma DirectPath(pb: Problem, i: nat)
    requires i < |pb.solutions| && NearOptimal(pb.mp, pb.seed, pb.solutions, i) && pb.mp.checkPath(pb.seed, pb.solutions[i])
    ensures !NoDirectPath(pb.mp, pb.seed, pb.solutions, |pb.solutions|)
    ensures Reaches(pb.mp, pb.seed, pb.solutions, [Node(0, pb.seed), Node(i + 1, pb.solutions[i])])
  {
    hide NearOptimal;
  }

  lemma TreesStart(pb: Problem, start: Tree, goal: Tree)
    requires WellPosed(pb)
    requires start.parent == AllRoots({Node(0, pb.seed)}) && start.cost == NoCosts({Node(0, pb.seed)})
    requires goal.parent == AllRoots(Numbered(pb.solutions, |pb.solutions|))
    requires goal.cost == NoCosts(Numbered(pb.solutions, |pb.solutions|))
    ensures Trees(start.parent, start.cost, goal.parent, goal.cost) == InitialTrees(pb)
  {
    hide AllRoots, NoCosts, Numbered;
  }

  /** The loop of `Run`. */
  method Grow(pb: Problem, start: Tree, goal: Tree, planIter: nat, cancelAt: nat) returns (r: PlanReturn, ghost states: seq<Trees>)
    requires WellPosed(pb) && |pb.samples| >= planIter && start != goal
    requires Trees(start.parent, start.cost, goal.parent, goal.cost) == InitialTrees(pb)
    modifies start, goal
    ensures IsRun(pb, states) && Answers(pb, states, r, planIter, cancelAt) && r != IKFailed
    ensures planIter > 0 && cancelAt > 0 && MeetsHalfway(pb) ==> r.Steps?
  {
    hide WellPosed, IsRun, MeetsHalfway, InitialTrees, Shared, Meets, Reaches, NoLongerThan, Length, Configs, IsPlanOf, EndsAt;
    WellPosedFacts(pb);
    var optimalCost := pb.mp.dist(pb.seed, pb.solutions[0]);
    var target := Halfway(pb);
    var pairs: seq<NodePair> := [];
    states := [InitialTrees(pb)];
    RunStarts(pb);
    SharedStart(pb, states);
    Unchecked(pb, states);
    for i := 0 to planIter
      invariant IsRun(pb, states) && |states| == i + 1 && i <= cancelAt
      invariant states[i] == Trees(start.parent, start.cost, goal.parent, goal.cost)
      invariant target == TargetAt(pb, i) && pairs == Shared(pb, states, i)
      invariant forall m :: 0 <= m <= i ==> !EndsAt(pb, states, m)
    {
      if i == cancelAt {
        if |pairs| > 0 {
          r := BestPlan(pb, start, goal, pairs, states);
          return r, states;
        }
        HalfwayFound(pb, states);
        return Cancelled, states;
      }
      ghost var before := states;
      var pair;
      pair, states := Iterate(pb, start, goal, target, IdAt(pb, i), states);
      SharedStep(pb, before, states[i + 1]);
      EndsEarlier(pb, before, states[i + 1]);
      if pair.Some? {
        pairs := pairs + [pair.value];
        if (|pairs| - 1) % OPTIMALITY_CHECK_ITER == 0 {
          var solution := BestPlan(pb, start, goal, pairs, states);
          var score := EvaluatePlan(Configs(solution.steps), pb.mp.dist);
          ConfigsLength(solution.steps);
          if score.Finite? && score.cost - optimalCost < OPTIMALITY_THRESHOLD * optimalCost {
            return solution, states;
          }
          NotYetClose(pb, states, i + 1, solution.steps);
        }
      }
      target := pb.samples[i];
    }
    HalfwayFound(pb, states);
    if pairs == [] {
      return PlannerFailed, states;
    }
    r := BestPlan(pb, start, goal, pairs, states);
    return r, states;
  }

  lemma WellPosedFacts(pb: Problem)
    requires WellPosed(pb)
    ensures pb.solutions != [] && |pb.solutions[0]| == |pb.seed| && Metric(pb.mp)
  {
  }

  lemma ConfigsLength(s: seq<Node>)
    ensures |Configs(s)| == |s|
  {
  }

  lemma SharedStart(pb: Problem, states: seq<Trees>)
    requires WellPosed(pb) && 0 < |states| <= |pb.samples| + 1
    ensures Shared(pb, states, 0) == []
  {
  }

  lemma SharedStep(pb: Problem, states: seq<Trees>, y: Trees)
    requires WellPosed(pb) && 0 < |states| <= |pb.samples|
    ensures var i := |states| - 1;
      Shared(pb, states + [y], i + 1) == Shared(pb, states, i) + (if Meets(pb, y, i) then [PairAt(pb, i)] else [])
  {
    SharedPrefix(pb, states, y, |states| - 1);
  }

  lemma Unchecked(pb: Problem, states: seq<Trees>)
    requires WellPosed(pb) && 0 < |states| <= |pb.samples| + 1
    ensures !EndsAt(pb, states, 0)
  {
  }

  /** The first states of a longer run end as they did; the new one can only end if it is checked. */
  lemma EndsEarlier(pb: Problem, states: seq<Trees>, y: Trees)
    requires WellPosed(pb) && 0 < |states| <= |pb.samples|
    ensures forall m :: 0 <= m < |states| ==> (EndsAt(pb, states + [y], m) <==> EndsAt(pb, states, m))
    ensures EndsAt(pb, states + [y], |states|) ==> IsChecked(pb, states + [y], |states|)
  {
    hide WellPosed, Shared, Meets, IsPlanOf, CloseEnough;
    forall m | 0 <= m < |states|
      ensures EndsAt(pb, states + [y], m) <==> EndsAt(pb, states, m)
    {
      SharedPrefix(pb, states, y, m);
      assert (states + [y])[m] == states[m];
    }
  }

  lemma NotYetClose(pb: Problem, states: seq<Trees>, n: nat, steps: seq<Node>)
    requires WellPosed(pb) && n < |states| <= |pb.samples| + 1
    requires IsPlanOf(states[n], Shared(pb, states, n), steps) && !CloseEnough(pb, steps)
    ensures !EndsAt(pb, states, n)
  {
    hide WellPosed, Shared, Meets, IsPlanOf, CloseEnough;
    forall other | IsPlanOf(states[n], Shared(pb, states, n), other)
      ensures other == steps
    {
      PlanIsUnique(states[n], Shared(pb, states, n), steps, other);
    }
  }

  lemma RunLength(pb: Problem, states: seq<Trees>)
    requires WellPosed(pb) && IsRun(pb, states)
    ensures 0 < |states| <= |pb.samples| + 1
  {
  }

  lemma HalfwayFound(pb: Problem, states: seq<Trees>)
    requires WellPosed(pb) && IsRun(pb, states)
    ensures |states| > 1 && MeetsHalfway(pb) ==> Shared(pb, states, |states| - 1) != []
  {
    hide IsRun, MeetsHalfway, Shared;
    if |states| > 1 && MeetsHalfway(pb) {
      HalfwayShared(pb, states, |states| - 1);
    }
  }

  /** One iteration: extends both trees to the target, and finds a pair if both reach it. */
  method Iterate(pb: Problem, start: Tree, goal: Tree, target: Config, next: nat, ghost states: seq<Trees>)
    returns (pair: Option<NodePair>, ghost states': seq<Trees>)
    requires WellPosed(pb) && IsRun(pb, states) && |states| <= |pb.samples| && start != goal
    requires states[|states| - 1] == Trees(start.parent, start.cost, goal.parent, goal.cost)
    requires target == TargetAt(pb, |states| - 1) && next == IdAt(pb, |states| - 1)
    modifies start, goal
    ensures states' == states + [Trees(start.parent, start.cost, goal.parent, goal.cost)] && IsRun(pb, states')
    ensures pair == if Meets(pb, states'[|states|], |states| - 1) then Some(PairAt(pb, |states| - 1)) else None
  {
    hide WellPosed, IsRun, TreeInv, Metric, Roots, Rewired, AreSmallest, Keys, ExtendsVia, Extends, Numbered;
    RunLength(pb, states);
    ghost var i := |states| - 1;
    WellPosedFacts(pb);
    RunInvariant(pb, states, i);
    ghost var near, p;
    var reached1, reached2;
    reached1, near, p := Extend(pb.mp, start, target, next);
    Extended(pb.mp, old(start.parent), old(start.cost), start.parent, start.cost, target, next, near, p);
    reached2, near, p := Extend(pb.mp, goal, target, next + 1);
    Extended(pb.mp, old(goal.parent), old(goal.cost), goal.parent, goal.cost, target, next + 1, near, p);
    RunGrows(pb, states, Trees(start.parent, start.cost, goal.parent, goal.cost));
    states' := states + [Trees(start.parent, start.cost, goal.parent, goal.cost)];
    pair := if reached1.Some? && reached2.Some? then Some(NodePair(reached1.value, reached2.value)) else None;
  }

  /** The shortest plan through one of the pairs found so far. */
  method BestPlan(pb: Problem, start: Tree, goal: Tree, pairs: seq<NodePair>, ghost states: seq<Trees>) returns (r: PlanReturn)
    requires WellPosed(pb) && IsRun(pb, states) && pairs != [] && pairs == Shared(pb, states, |states| - 1)
    requires states[|states| - 1] == Trees(start.parent, start.cost, goal.parent, goal.cost)
    ensures r.Steps? && Reaches(pb.mp, pb.seed, pb.solutions, r.steps)
    ensures NoLongerThan(pb.mp, start.cost, goal.cost, r.steps, pairs)
    ensures IsPlanOf(states[|states| - 1], pairs, r.steps)
  {
    hide WellPosed, IsRun, TreeInv, Metric, Numbered, AllShared, GoodPlan, NoLongerThan, Reaches, Shared, Roots, IsCheapest, Joins;
    WellPosedFacts(pb);
    RunLength(pb, states);
    RunInvariant(pb, states, |states| - 1);
    SharedStay(pb, states, |states| - 1);
    ghost var k, best, up, down;
    r, k, best, up, down := ShortestPath(pb.mp, start, goal, pairs);
    assert IsPlanVia(states[|states| - 1], pairs, r.steps, best, up, down);
    forall n | n in Roots(goal.parent)
      ensures n.q in pb.solutions
    {
      NumberedFacts(pb.solutions, n);
    }
    GoodPlanReaches(pb.mp, start.parent, goal.parent, pb.seed, pb.solutions, r.steps, k);
  }
}

/** Whole runs of the Dubins-RRT planner.

A run is the sequence of trees that the planning loop goes through: in each iteration the target is
connected if some option reaches it, and its neighbours are rerouted through it. What holds of every
run is proved of these sequences, and the loop is proved to produce one.
*/
module DubinsRuns {
  import opened DubinsRrt
  import opened Forest
  import opened Options
  import opened PlanCost
  import opened Selection
  import opened Sequences

  /** The path lengths, the path check, the distance of neighbours, the two ends, and the random choices:
      a sample for each iteration, and whether it tries the goal instead. */
  datatype Search = Search(best: BestLength, checkPath: (Config, Config) -> bool, near: Distance,
                           seed: Config, goal: Config, samples: seq<Config>, tryGoal: seq<bool>)

  function SeedNode(sr: Search): Node { Node(0, sr.seed) }

  function GoalNode(sr: Search): Node { Node(1, sr.goal) }

  function TargetAt(sr: Search, i: nat): Node
    requires i < |sr.samples| && i < |sr.tryGoal|
  {
    if i == 0 || sr.tryGoal[i] then GoalNode(sr) else Node(i + 2, sr.samples[i])
  }

  // ----- runs -----

  ghost function SeedTree(sr: Search): State
  {
    State(map[SeedNode(sr) := None], map[SeedNode(sr) := []], map[SeedNode(sr) := 0.0])
  }

  /** One iteration: the options it selects, the tree once the target is connected, and the neighbours
      rerouted with the trees in between. */
  ghost predicate StepVia(sr: Search, x: State, y: State, t: Node, sorted: seq<Node>, mid: State, ns: seq<Node>, xs: seq<State>)
  {
    && AreSmallest(FiniteLengths(sr.best, x.parent.Keys, t), NB_OPTIONS, sorted)
    && Attaches(sr.best, sr.checkPath, x, mid, t, Elements(sorted))
    && if t in mid.parent && t != GoalNode(sr) then
         && AreSmallest(NearKeys(sr.near, mid.parent.Keys, t), NB_NEIGHBORS, ns)
         && ReroutesAll(sr.best, xs, t, ns) && xs[0] == mid && xs[|ns|] == y
       else y == mid
  }

  ghost predicate Steps(sr: Search, x: State, y: State, t: Node)
  {
    exists sorted, mid, ns, xs :: StepVia(sr, x, y, t, sorted, mid, ns, xs)
  }

  /** The planner goes on as long as the goal is not connected. */
  ghost predicate IsRun(sr: Search, states: seq<State>)
  {
    && 0 < |states| && |states| - 1 <= |sr.samples| && |states| - 1 <= |sr.tryGoal|
    && states[0] == SeedTree(sr)
    && forall i :: 0 <= i < |states| - 1 ==>
         GoalNode(sr) !in states[i].parent && Steps(sr, states[i], states[i + 1], TargetAt(sr, i))
  }

  lemma RunStarts(sr: Search)
    ensures IsRun(sr, [SeedTree(sr)])
  {
  }

  lemma RunGrows(sr: Search, states: seq<State>, y: State)
    requires IsRun(sr, states) && |states| <= |sr.samples| && |states| <= |sr.tryGoal|
    requires GoalNode(sr) !in states[|states| - 1].parent
    requires Steps(sr, states[|states| - 1], y, TargetAt(sr, |states| - 1))
    ensures IsRun(sr, states + [y])
  {
    hide Steps;
  }

  // ----- the invariant of every run -----

  ghost predicate IdsBelow(parent: Parents, next: nat)
  {
    forall n :: n in parent ==> n.id < next
  }

  lemma StepKeeps(sr: Search, x: State, y: State, t: Node)
    requires NonNegativeLengths(sr.best) && Good(sr.best, SeedNode(sr), x) && t !in x.parent && Steps(sr, x, y, t)
    ensures Good(sr.best, SeedNode(sr), y)
    ensures y.parent.Keys == x.parent.Keys || y.parent.Keys == x.parent.Keys + {t}
  {
    hide TreeInv, Good, NonNegativeLengths, AreSmallest, Attaches, ReroutesAll;
    var sorted: seq<Node>, mid: State, ns: seq<Node>, xs: seq<State> :| StepVia(sr, x, y, t, sorted, mid, ns, xs);
    AttachesKeeps(sr.best, sr.checkPath, SeedNode(sr), x, mid, t, Elements(sorted));
    if t in mid.parent && t != GoalNode(sr) {
      SmallestAreKeys(NearKeys(sr.near, mid.parent.Keys, t), NB_NEIGHBORS, ns);
      assert forall i :: 0 <= i < |ns| ==> ns[i] in ns;
      ReroutesAllKeeps(sr.best, SeedNode(sr), xs, t, ns, |ns|);
    }
  }

  /** In every state of every run: a tree on the seed, child lists the inverse of the parents, and every
      recorded length exact. */
  lemma {:induction false} RunInvariant(sr: Search, states: seq<State>, i: nat)
    requires NonNegativeLengths(sr.best) && IsRun(sr, states) && i < |states|
    ensures Good(sr.best, SeedNode(sr), states[i]) && IdsBelow(states[i].parent, i + 2)
  {
    hide NonNegativeLengths, Steps, Good;
    if i == 0 {
      SeedTreeGood(sr);
    } else {
      RunInvariant(sr, states, i - 1);
      StepKeeps(sr, states[i - 1], states[i], TargetAt(sr, i - 1));
    }
  }

  lemma SeedTreeGood(sr: Search)
    ensures Good(sr.best, SeedNode(sr), SeedTree(sr))
  {
    var x := SeedTree(sr);
    assert Ranked(x.parent, map[SeedNode(sr) := 0]);
  }

  // ----- the planner -----

  /** The answer that belongs to the run of the given states: a plan exactly if the goal was connected,
      and then the chain above it, as long as the length recorded for it. */
  ghost predicate Answers(sr: Search, states: seq<State>, r: Option<seq<Node>>, iter: nat, cancelAt: nat)
    requires |states| > 0
  {
    var n, last := |states| - 1, states[|states| - 1];
    && n <= iter && n <= cancelAt
    && match r
       case Some(plan) =>
         && GoalNode(sr) in last.len && IsChain(last.parent, Reversed(plan), GoalNode(sr))
         && ExactPlan(sr.best, SeedNode(sr), GoalNode(sr), plan, last.len[GoalNode(sr)])
         && |plan| > 1 && sr.checkPath(plan[|plan| - 2].q, sr.goal)
       case None => GoalNode(sr) !in last.parent && (n == iter || n == cancelAt)
  }

  lemma OnlyOption(best: BestLength, seed: Node, target: Node, sorted: seq<Node>, options: seq<Node>)
    requires AreSmallest(FiniteLengths(best, {seed}, target), NB_OPTIONS, sorted) && Elements(options) == Elements(sorted)
    ensures best(seed.q, target.q).Some? ==> exists i :: 0 <= i < |options| && options[i] == seed
  {
    var keys := FiniteLengths(best, {seed}, target);
    if best(seed.q, target.q).Some? {
      assert keys.Keys == {seed} && |keys.Keys| == |keys|;
      assert sorted[0] in Elements(sorted);
      assert seed in options;
    }
  }

  /** One iteration of the planning loop. */
  method Iterate(sr: Search, tree: Tree, target: Node, ghost states: seq<State>) returns (connected: bool, ghost states': seq<State>)
    requires NonNegativeLengths(sr.best) && IsRun(sr, states) && |states| <= |sr.samples| && |states| <= |sr.tryGoal|
    requires tree.Now() == states[|states| - 1] && GoalNode(sr) !in tree.seedMap && target == TargetAt(sr, |states| - 1)
    modifies tree
    ensures states' == states + [tree.Now()] && IsRun(sr, states')
    ensures connected <==> target in tree.seedMap
    ensures tree.seedMap.Keys <= old(tree.seedMap.Keys) + {target}
    ensures connected && target == GoalNode(sr) ==>
      tree.seedMap[target].Some? && sr.checkPath(tree.seedMap[target].value.q, target.q)
    ensures |states| == 1 && sr.best(sr.seed, sr.goal).Some? && sr.checkPath(sr.seed, sr.goal) ==> connected
  {
    hide IsRun, TreeInv, NonNegativeLengths, AreSmallest, Attaches, ReroutesAll, FiniteLengths, NearKeys, Steps;
    RunLength(sr, states);
    RunInvariant(sr, states, |states| - 1);
    ghost var x := tree.Now();
    var options;
    ghost var sorted;
    options, sorted := tree.SelectOptions(sr.best, SeedNode(sr), target);
    if |states| == 1 {
      FirstTree(sr, states);
      OnlyOption(sr.best, SeedNode(sr), target, sorted, options);
    }
    connected := tree.Connect(sr.best, SeedNode(sr), sr.checkPath, target, options);
    ghost var mid := tree.Now();
    ghost var ns, xs := [], [];
    if connected && target != GoalNode(sr) {
      ns, xs := tree.RerouteNeighbors(sr.best, SeedNode(sr), sr.near, target);
    }
    Stepped(sr, x, tree.Now(), target, sorted, mid, ns, xs);
    RunGrows(sr, states, tree.Now());
    states' := states + [tree.Now()];
  }

  lemma RunLength(sr: Search, states: seq<State>)
    requires IsRun(sr, states)
    ensures 0 < |states| && |states| - 1 <= |sr.samples| && |states| - 1 <= |sr.tryGoal|
  {
  }

  lemma FirstTree(sr: Search, states: seq<State>)
    requires IsRun(sr, states)
    ensures states[0].parent.Keys == {SeedNode(sr)}
  {
  }

  lemma Stepped(sr: Search, x: State, y: State, t: Node, sorted: seq<Node>, mid: State, ns: seq<Node>, xs: seq<State>)
    requires StepVia(sr, x, y, t, sorted, mid, ns, xs)
    ensures Steps(sr, x, y, t)
  {
    hide StepVia;
  }

  /** The planning loop, for any samples, any choice of when to try the goal, and any cancellation: the tree
      goes through a run and the answer is the one that belongs to it. A goal that the seed reaches is found. */
  method PlanRunner(sr: Search, iter: nat, cancelAt: nat) returns (r: Option<seq<Node>>, ghost states: seq<State>)
    requires NonNegativeLengths(sr.best) && |sr.samples| >= iter && |sr.tryGoal| >= iter
    ensures IsRun(sr, states) && Answers(sr, states, r, iter, cancelAt)
    ensures iter > 0 && cancelAt > 0 && sr.best(sr.seed, sr.goal).Some? && sr.checkPath(sr.seed, sr.goal) ==> r.Some?
  {
    hide IsRun, TreeInv, NonNegativeLengths, ExactPlan, IsChain, IdsBelow;
    var tree := new Tree(SeedNode(sr), sr.best);
    states := [tree.Now()];
    RunStarts(sr);
    for i := 0 to iter
      invariant IsRun(sr, states) && |states| == i + 1 && states[i] == tree.Now() && i <= cancelAt
      invariant GoalNode(sr) !in tree.seedMap
      invariant i > 0 ==> !(sr.best(sr.seed, sr.goal).Some? && sr.checkPath(sr.seed, sr.goal))
    {
      if i == cancelAt {
        return None, states;
      }
      var target := TargetAt(sr, i);
      var connected;
      connected, states := Iterate(sr, tree, target, states);
      RunInvariant(sr, states, i + 1);
      if connected && target == GoalNode(sr) {
        var plan := PathTo(sr.best, SeedNode(sr), tree, target);
        return Some(plan), states;
      }
    }
    return None, states;
  }

  /** Reads the plan off the tree. */
  method PathTo(best: BestLength, ghost seed: Node, tree: Tree, goal: Node) returns (plan: seq<Node>)
    requires tree.Valid(best, seed) && goal in tree.seedMap && goal != seed
    ensures goal in tree.pathLen && IsChain(tree.seedMap, Reversed(plan), goal)
    ensures ExactPlan(best, seed, goal, plan, tree.pathLen[goal])
    ensures |plan| > 1 && tree.seedMap[goal] == Some(plan[|plan| - 2])
  {
    hide TreeInv, IsForest, Roots, Inverse, IsChain, ExactPlan;
    TreeFacts(best, seed, tree.seedMap, tree.childMap, tree.pathLen);
    var steps := Climb(tree.seedMap, Some(goal));
    PlanIsExact(best, seed, tree.seedMap, tree.childMap, tree.pathLen, steps, goal);
    ReversedTwice(steps);
    PlanLength(best, seed, goal, Reversed(steps), tree.pathLen[goal]);
    plan := Reverse(steps);
  }

  lemma PlanLength(best: BestLength, seed: Node, goal: Node, plan: seq<Node>, recorded: real)
    requires ExactPlan(best, seed, goal, plan, recorded)
    ensures |plan| > 1
  {
  }
}

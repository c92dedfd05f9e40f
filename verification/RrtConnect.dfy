/** The RRT*-Connect planner: two trees grown towards shared targets, and the plan read off them. */
module RrtConnect {
  import opened Forest
  import opened Options
  import opened PlanCost
  import opened RrtStar
  import opened Selection
  import opened Sequences

  /** The two nodes, one in each tree, that carry the same target. */
  datatype NodePair = NodePair(a: Node, b: Node)

  datatype PlanReturn = Steps(steps: seq<Node>) | IKFailed | PlannerFailed | Cancelled

  const OPTIMALITY_MULTIPLE := 2.0
  const OPTIMALITY_THRESHOLD := 1.05
  const OPTIMALITY_CHECK_ITER := 10

  // ----- reading a path off the trees -----

  /** `path` runs from the root above `a` down to `a`, and on from the parent of `b` up to its root. */
  ghost predicate Joins(start: Parents, goal: Parents, a: Node, b: Node, up: seq<Node>, down: seq<Node>, path: seq<Node>)
  {
    IsChain(start, up, a) && IsChain(goal, down, b) && path == Reversed(up) + down[1..]
  }

  /** The path through a pair. The second node of the pair is skipped: it repeats the first. */
  method ExtractPath(start: Parents, goal: Parents, pair: NodePair)
    returns (path: seq<Node>, ghost up: seq<Node>, ghost down: seq<Node>)
    requires IsForest(start) && IsForest(goal)
    requires if pair.a in start then pair.b in goal else pair.b in start && pair.a in goal
    ensures if pair.a in start then Joins(start, goal, pair.a, pair.b, up, down, path)
            else Joins(start, goal, pair.b, pair.a, up, down, path)
    ensures |path| > 0 && path[0] in Roots(start)
  {
    var startReached, goalReached := pair.a, pair.b;
    if pair.a !in start {
      startReached, goalReached := pair.b, pair.a;
    }
    var toSeed := Climb(start, Some(startReached));
    path := Reverse(toSeed);
    var toGoal := Climb(goal, goal[goalReached]);
    path := path + toGoal;
    up := toSeed;
    ghost var rank :| Ranked(goal, rank);
    down := ChainExists(goal, rank, goalReached);
    ChainHead(goal, down, goalReached);
    if goal[goalReached].Some? {
      ChainTail(goal, down, goalReached);
      ChainUnique(goal, down[1..], toGoal, down[1]);
    }
  }

  /** The real length of the path through a pair is at most the sum of the two recorded costs. */
  lemma PathLength(mp: Planner, s: Parents, sCost: Costs, g: Parents, gCost: Costs, a: Node, b: Node,
                   up: seq<Node>, down: seq<Node>, path: seq<Node>)
    requires Metric(mp) && TreeInv(mp, s, sCost) && TreeInv(mp, g, gCost)
    requires a.q == b.q && Joins(s, g, a, b, up, down, path)
    ensures Length(mp.dist, Configs(path)) <= sCost[a] + gCost[b]
  {
    ChainLength(mp, s, sCost, up, a);
    ChainLength(mp, g, gCost, down, b);
    LengthReversed(mp.dist, Configs(up));
    ConfigsReversed(up);
    ConfigsConcat(Reversed(up), down[1..]);
    assert Configs(path) == Reversed(Configs(up)) + Configs(down[1..]);
    if |down| > 1 {
      LengthConcat(mp.dist, Reversed(Configs(up)), Configs(down[1..]));
      LengthConcat(mp.dist, Configs([b]), Configs(down[1..]));
      assert down == [b] + down[1..];
      ConfigsConcat([b], down[1..]);
    } else {
      assert Configs(path) == Reversed(Configs(up));
    }
  }

  lemma ConfigsReversed(s: seq<Node>)
    ensures Configs(Reversed(s)) == Reversed(Configs(s))
  {
  }

  /** A plan whose first `k` steps go down the start tree and whose other steps go up the goal tree.
      The steps down were accepted in the direction of travel, those up in the opposite one. */
  ghost predicate GoodPlan(mp: Planner, s: Parents, g: Parents, path: seq<Node>, k: nat)
  {
    && 1 < k < |path|
    && path[0] in Roots(s) && path[|path| - 1] in Roots(g)
    && (forall i :: 0 <= i < k ==> path[i] in s)
    && (forall i :: k <= i < |path| ==> path[i] in g)
    && (forall i :: 0 < i < k ==> s[path[i]] == Some(path[i - 1]) && mp.checkPath(path[i - 1].q, path[i].q))
    && (forall i :: k <= i < |path| ==> mp.checkPath(path[i].q, path[i - 1].q))
    && (forall i :: k < i < |path| ==> g[path[i - 1]] == Some(path[i]))
  }

  lemma PathIsGood(mp: Planner, s: Parents, sCost: Costs, g: Parents, gCost: Costs, a: Node, b: Node,
                   up: seq<Node>, down: seq<Node>, path: seq<Node>)
    requires TreeInv(mp, s, sCost) && TreeInv(mp, g, gCost)
    requires a.q == b.q && Joins(s, g, a, b, up, down, path)
    requires s[a].Some? && g[b].Some?
    ensures GoodPlan(mp, s, g, path, |up|)
  {
  }

  // ----- the pairs shared by the two trees -----

  ghost predicate SharedPair(s: Parents, g: Parents, pair: NodePair)
  {
    && pair.a in s && s[pair.a].Some?
    && pair.b in g && g[pair.b].Some?
    && pair.a.q == pair.b.q
  }

  ghost predicate AllShared(s: Parents, g: Parents, pairs: seq<NodePair>)
  {
    forall i :: 0 <= i < |pairs| ==> SharedPair(s, g, pairs[i])
  }

  function SumCosts(sCost: Costs, gCost: Costs, pair: NodePair): real
    requires pair.a in sCost && pair.b in gCost
  {
    sCost[pair.a] + gCost[pair.b]
  }

  /** The plan is no longer than the recorded cost sum of any of the pairs. */
  ghost predicate NoLongerThan(mp: Planner, sCost: Costs, gCost: Costs, steps: seq<Node>, pairs: seq<NodePair>)
  {
    forall i :: 0 <= i < |pairs| ==>
      && pairs[i].a in sCost && pairs[i].b in gCost
      && Length(mp.dist, Configs(steps)) <= sCost[pairs[i].a] + gCost[pairs[i].b]
  }

  /** The `k`th is the first of the pairs with the smallest recorded sum. */
  ghost predicate IsCheapest(sCost: Costs, gCost: Costs, pairs: seq<NodePair>, k: nat)
  {
    && k < |pairs| && (forall i :: 0 <= i < |pairs| ==> pairs[i].a in sCost && pairs[i].b in gCost)
    && (forall i :: 0 <= i < |pairs| ==> sCost[pairs[k].a] + gCost[pairs[k].b] <= sCost[pairs[i].a] + gCost[pairs[i].b])
    && (forall i :: 0 <= i < k ==> sCost[pairs[k].a] + gCost[pairs[k].b] < sCost[pairs[i].a] + gCost[pairs[i].b])
  }

  /** The path through the pair with the smallest recorded sum. */
  method ShortestPath(mp: Planner, start: Tree, goal: Tree, pairs: seq<NodePair>)
    returns (r: PlanReturn, ghost k: nat, ghost best: nat, ghost up: seq<Node>, ghost down: seq<Node>)
    requires Metric(mp) && start.Valid(mp) && goal.Valid(mp)
    requires AllShared(start.parent, goal.parent, pairs)
    ensures r == PlannerFailed <==> pairs == []
    ensures pairs != [] ==> r.Steps? && GoodPlan(mp, start.parent, goal.parent, r.steps, k)
    ensures pairs != [] ==> NoLongerThan(mp, start.cost, goal.cost, r.steps, pairs)
    ensures pairs != [] ==> IsCheapest(start.cost, goal.cost, pairs, best)
    ensures pairs != [] ==> Joins(start.parent, goal.parent, pairs[best].a, pairs[best].b, up, down, r.steps)
  {
    hide TreeInv, Metric, Length, Configs, GoodPlan, IsForest, IsChain, Joins;
    k, best, up, down := 0, 0, [], [];
    if pairs == [] {
      return PlannerFailed, k, best, up, down;
    }
    TreeFacts(mp, start.parent, start.cost);
    TreeFacts(mp, goal.parent, goal.cost);
    assert forall i :: 0 <= i < |pairs| ==> SharedPair(start.parent, goal.parent, pairs[i]);
    var minIdx, minDist := 0, SumCosts(start.cost, goal.cost, pairs[0]);
    for i := 1 to |pairs|
      invariant 0 <= minIdx < |pairs| && minDist == SumCosts(start.cost, goal.cost, pairs[minIdx])
      invariant forall j :: 0 <= j < i ==> minDist <= SumCosts(start.cost, goal.cost, pairs[j])
      invariant forall j :: 0 <= j < minIdx ==> minDist < SumCosts(start.cost, goal.cost, pairs[j])
    {
      var d := SumCosts(start.cost, goal.cost, pairs[i]);
      if d < minDist {
        minDist, minIdx := d, i;
      }
    }
    best := minIdx;
    var pair := pairs[minIdx];
    var path;
    path, up, down := ExtractPath(start.parent, goal.parent, pair);
    PathLength(mp, start.parent, start.cost, goal.parent, goal.cost, pair.a, pair.b, up, down, path);
    PathIsGood(mp, start.parent, start.cost, goal.parent, goal.cost, pair.a, pair.b, up, down, path);
    return Steps(path), |up|, best, up, down;
  }

  // ----- setting up -----

  /** The solutions up to the `i`th all lie within the multiple of the optimal cost. */
  ghost predicate NearOptimal(mp: Planner, seed: Config, solutions: seq<Config>, i: int)
    requires i < |solutions| && solutions != []
  {
    forall j :: 0 <= j <= i ==> mp.dist(seed, solutions[j]) < mp.dist(seed, solutions[0]) * OPTIMALITY_MULTIPLE
  }

  /** None of the first `n` solutions, as long as they are near the optimum, can be reached directly. */
  ghost predicate NoDirectPath(mp: Planner, seed: Config, solutions: seq<Config>, n: nat)
    requires n <= |solutions| && solutions != []
  {
    forall i :: 0 <= i < n && NearOptimal(mp, seed, solutions, i) ==> !mp.checkPath(seed, solutions[i])
  }

  /** The two trees: the seed is the only root of the first, the solutions are the roots of the second.
      A solution near the optimum that can be reached directly ends the planning at once. */
  method InitRRTSolutions(mp: Planner, seed: Config, solutions: seq<Config>)
    returns (direct: Option<nat>, start: Tree, goal: Tree)
    requires solutions != []
    ensures fresh(start) && fresh(goal) && start != goal
    ensures start.Valid(mp) && goal.Valid(mp)
    ensures start.parent == AllRoots({Node(0, seed)}) && start.cost == NoCosts({Node(0, seed)})
    ensures direct.Some? ==> direct.value < |solutions| && NearOptimal(mp, seed, solutions, direct.value)
    ensures direct.Some? ==> mp.checkPath(seed, solutions[direct.value]) && NoDirectPath(mp, seed, solutions, direct.value)
    ensures direct.None? ==> NoDirectPath(mp, seed, solutions, |solutions|)
    ensures direct.None? ==> goal.parent == AllRoots(Numbered(solutions, |solutions|))
    ensures direct.None? ==> goal.cost == NoCosts(Numbered(solutions, |solutions|))
  {
    hide TreeInv, NearOptimal, NoDirectPath, Numbered;
    start := new Tree({Node(0, seed)}, mp);
    var roots;
    direct, roots := ScanSolutions(mp, seed, solutions);
    goal := new Tree(roots, mp);
  }

  /** The first `k` solutions as nodes, numbered from one. */
  ghost function Numbered(solutions: seq<Config>, k: nat): set<Node>
    requires k <= |solutions|
  {
    set i | 0 <= i < k :: Node(i + 1, solutions[i])
  }

  lemma NumberedStep(solutions: seq<Config>)
    ensures Numbered(solutions, 0) == {}
    ensures forall k {:trigger Numbered(solutions, k + 1)} :: 0 <= k < |solutions| ==>
      Numbered(solutions, k + 1) == Numbered(solutions, k) + {Node(k + 1, solutions[k])}
  {
  }

  /** The loop of `InitRRTSolutions`. */
  method ScanSolutions(mp: Planner, seed: Config, solutions: seq<Config>) returns (direct: Option<nat>, roots: set<Node>)
    requires solutions != []
    ensures direct.Some? ==> direct.value < |solutions| && NearOptimal(mp, seed, solutions, direct.value)
    ensures direct.Some? ==> mp.checkPath(seed, solutions[direct.value]) && NoDirectPath(mp, seed, solutions, direct.value)
    ensures direct.None? ==> NoDirectPath(mp, seed, solutions, |solutions|)
    ensures direct.None? ==> roots == Numbered(solutions, |solutions|)
  {
    hide Numbered;
    NumberedStep(solutions);
    var optimalCost := mp.dist(seed, solutions[0]);
    var canInterp := true;
    roots := {};
    for i := 0 to |solutions|
      invariant roots == Numbered(solutions, i)
      invariant canInterp <==> NearOptimal(mp, seed, solutions, i - 1)
      invariant NoDirectPath(mp, seed, solutions, i)
    {
      if canInterp {
        if mp.dist(seed, solutions[i]) < optimalCost * OPTIMALITY_MULTIPLE {
          if mp.checkPath(seed, solutions[i]) {
            return Some(i), roots;
          }
        } else {
          canInterp := false;
        }
      }
      roots := roots + {Node(i + 1, solutions[i])};
    }
    return None, roots;
  }
}

/** The tree kept by the RRT*-Connect planner.

Each node records a cost. When a node is rewired to a cheaper parent its own cost is updated, but
the costs of the nodes below it are not: they go stale. `TreeInv` is what survives every step all
the same: a recorded cost is never less than the recorded cost of the parent plus the distance
to it, so it always bounds the real length of the way from the root.
*/
module RrtStar {
  import opened Forest
  import opened Options
  import opened PlanCost
  import opened Selection
  import opened Sequences

  type Parents = map<Node, Option<Node>>

  type Costs = map<Node, real>

  /** What the planner is given: the distance, the two collision checks, and how many neighbours to try. */
  datatype Planner = Planner(
    dist: Distance,
    checkPath: (Config, Config) -> bool,
    checkInputs: Config -> bool,
    neighborhoodSize: nat)

  ghost predicate Metric(mp: Planner)
  {
    NonNegative(mp.dist) && Symmetric(mp.dist)
  }

  // ----- the invariant -----

  /** The link from `n` to its parent was accepted from parent to child, and the recorded costs bound it. */
  ghost predicate GoodLink(mp: Planner, cost: Costs, p: Node, n: Node)
  {
    && p in cost && n in cost
    && mp.checkPath(p.q, n.q)
    && cost[p] + mp.dist(p.q, n.q) <= cost[n]
  }

  ghost predicate TreeInv(mp: Planner, parent: Parents, cost: Costs)
  {
    && cost.Keys == parent.Keys
    && IsForest(parent)
    && (forall n :: n in cost ==> cost[n] >= 0.0)
    && (forall n :: n in Roots(parent) ==> cost[n] == 0.0)
    && (forall n :: n in parent && parent[n].Some? ==> GoodLink(mp, cost, parent[n].value, n))
  }

  /** A node attached below `p` at the cost of `p` plus the distance. */
  lemma AttachKeeps(mp: Planner, parent: Parents, cost: Costs, p: Node, t: Node)
    requires Metric(mp) && TreeInv(mp, parent, cost)
    requires p in parent && t !in parent && mp.checkPath(p.q, t.q)
    ensures TreeInv(mp, parent[t := Some(p)], cost[t := cost[p] + mp.dist(t.q, p.q)])
    ensures Roots(parent[t := Some(p)]) == Roots(parent)
  {
    AddLeaf(parent, t, p);
  }

  /** Rewiring `n` below `t`, when that is cheaper than the recorded cost of `n`, keeps the
      invariant although everything below `n` keeps its old recorded cost, and never moves a root. */
  lemma RewireKeeps(mp: Planner, parent: Parents, cost: Costs, n: Node, t: Node)
    requires Metric(mp) && TreeInv(mp, parent, cost)
    requires n in parent && t in parent && mp.checkPath(t.q, n.q)
    requires mp.dist(n.q, t.q) + cost[t] < cost[n]
    ensures TreeInv(mp, parent[n := Some(t)], cost[n := mp.dist(n.q, t.q) + cost[t]])
    ensures Roots(parent[n := Some(t)]) == Roots(parent)
  {
    hide IsForest, Metric;
    CostsRise(mp, parent, cost);
    SameDistance(mp, n, t);
    Relink(parent, cost, n, t);
    var parent', cost' := parent[n := Some(t)], cost[n := mp.dist(n.q, t.q) + cost[t]];
    forall x | x in parent' && parent'[x].Some?
      ensures GoodLink(mp, cost', parent'[x].value, x)
    {
      assert x != n ==> GoodLink(mp, cost, parent[x].value, x);
    }
  }

  lemma CostsRise(mp: Planner, parent: Parents, cost: Costs)
    requires Metric(mp) && TreeInv(mp, parent, cost)
    ensures forall x :: x in parent && parent[x].Some? ==> parent[x].value in parent && cost[parent[x].value] <= cost[x]
  {
  }

  lemma SameDistance(mp: Planner, n: Node, t: Node)
    requires Metric(mp)
    ensures mp.dist(n.q, t.q) == mp.dist(t.q, n.q) && mp.dist(n.q, t.q) >= 0.0
  {
  }

  // ----- what the recorded costs mean -----

  function Configs(s: seq<Node>): seq<Config>
  {
    seq(|s|, i requires 0 <= i < |s| => s[i].q)
  }

  lemma ConfigsConcat(s: seq<Node>, t: seq<Node>)
    ensures Configs(s + t) == Configs(s) + Configs(t)
  {
  }

  /** The way from a node to its root is no longer than the recorded cost of the node. */
  lemma {:induction false} ChainLength(mp: Planner, parent: Parents, cost: Costs, s: seq<Node>, n: Node)
    requires Metric(mp) && TreeInv(mp, parent, cost) && IsChain(parent, s, n)
    ensures Length(mp.dist, Configs(s)) <= cost[n]
  {
    ChainHead(parent, s, n);
    if |s| > 1 {
      ChainTail(parent, s, n);
      ChainLength(mp, parent, cost, s[1..], s[1]);
      assert Configs(s)[1..] == Configs(s[1..]);
      assert GoodLink(mp, cost, s[1], n);
    }
  }

  ghost function AllRoots(roots: set<Node>): Parents
  {
    map n | n in roots :: None
  }

  ghost function NoCosts(roots: set<Node>): Costs
  {
    map n | n in roots :: 0.0
  }

  class Tree {
    var parent: Parents
    var cost: Costs

    ghost predicate Valid(mp: Planner)
      reads this
    {
      TreeInv(mp, parent, cost)
    }

    /** A tree whose nodes are all roots of cost 0. */
    constructor (roots: set<Node>, ghost mp: Planner)
      ensures Valid(mp)
      ensures parent == AllRoots(roots) && cost == NoCosts(roots)
      ensures parent.Keys == roots && Roots(parent) == roots
    {
      parent := map n | n in roots :: None;
      cost := map n | n in roots :: 0.0;
      new;
      assert Ranked(parent, map n | n in roots :: 0);
    }
  }

  // ----- neighbours -----

  /** For each node, the cost of reaching the target through it. */
  ghost function Keys(mp: Planner, cost: Costs, target: Config): map<Node, real>
  {
    map n | n in cost :: mp.dist(target, n.q) + cost[n]
  }

  /** The nodes through which the target is reached most cheaply, whatever order the tree is iterated in. */
  method KNearestNeighbors(mp: Planner, tree: Tree, target: Config) returns (near: seq<Node>)
    requires tree.Valid(mp)
    ensures AreSmallest(Keys(mp, tree.cost, target), mp.neighborhoodSize, near)
  {
    hide TreeInv, AreSmallest;
    TreeFacts(mp, tree.parent, tree.cost);
    var keys: map<Node, real> := map[];
    var ns := tree.parent.Keys;
    while ns != {}
      invariant ns <= tree.cost.Keys && keys.Keys == tree.cost.Keys - ns
      invariant forall n :: n in keys ==> keys[n] == Keys(mp, tree.cost, target)[n]
    {
      var n :| n in ns;
      keys := keys[n := mp.dist(target, n.q) + tree.cost[n]];
      ns := ns - {n};
    }
    assert keys == Keys(mp, tree.cost, target);
    near := Smallest(keys, mp.neighborhoodSize);
  }

  lemma TreeFacts(mp: Planner, parent: Parents, cost: Costs)
    requires TreeInv(mp, parent, cost)
    ensures cost.Keys == parent.Keys && IsForest(parent)
  {
  }

  lemma SmallestFacts(key: map<Node, real>, k: nat, s: seq<Node>)
    requires AreSmallest(key, k, s)
    ensures (forall n :: n in s ==> n in key) && Distinct(s) && SortedBy(key, s)
  {
  }

  /** The neighbours are those of least recorded cost plus distance. */
  lemma NearestByCost(mp: Planner, cost: Costs, target: Config, near: seq<Node>, n: Node, m: Node)
    requires AreSmallest(Keys(mp, cost, target), mp.neighborhoodSize, near) && n in near && m in cost && m !in near
    ensures n in cost && mp.dist(target, n.q) + cost[n] <= mp.dist(target, m.q) + cost[m]
  {
    var i :| 0 <= i < |near| && near[i] == n;
  }

  // ----- extending the tree -----

  /** Rewiring `n` below the new node is cheaper than its recorded cost, and accepted. */
  predicate Improves(mp: Planner, cost: Costs, n: Node, t: Node)
    requires n in cost && t in cost
  {
    mp.dist(n.q, t.q) + cost[t] < cost[n] && mp.checkPath(t.q, n.q)
  }

  /** `n` is one of the first `k` neighbours, not the parent of `t`, and better off below `t`. */
  ghost predicate ToRewire(mp: Planner, cost: Costs, near: seq<Node>, k: nat, p: nat, t: Node, n: Node)
    requires t in cost && n in cost
  {
    Improves(mp, cost, n, t) && exists i :: 0 <= i < k && i < |near| && i != p && near[i] == n
  }

  /** From one tree to the next exactly the neighbours that are better off below `t` have moved there. */
  ghost predicate Rewired(mp: Planner, parent: Parents, cost: Costs, parent': Parents, cost': Costs,
                          near: seq<Node>, k: nat, p: nat, t: Node)
  {
    && parent.Keys == cost.Keys == parent'.Keys == cost'.Keys && t in cost
    && forall n :: n in cost ==>
         if ToRewire(mp, cost, near, k, p, t, n) then
           parent'[n] == Some(t) && cost'[n] == mp.dist(n.q, t.q) + cost[t]
         else
           parent'[n] == parent[n] && cost'[n] == cost[n]
  }

  lemma RewiredNone(mp: Planner, parent: Parents, cost: Costs, near: seq<Node>, p: nat, t: Node)
    requires parent.Keys == cost.Keys && t in cost
    ensures Rewired(mp, parent, cost, parent, cost, near, 0, p, t)
  {
  }

  /** One round of the rewiring loop. */
  lemma RewiredStep(mp: Planner, parent: Parents, cost: Costs, parent': Parents, cost': Costs,
                    near: seq<Node>, k: nat, p: nat, t: Node)
    requires Rewired(mp, parent, cost, parent', cost', near, k, p, t)
    requires Distinct(near) && k < |near| && near[k] in cost
    requires forall i :: 0 <= i < |near| ==> near[i] != t
    ensures var n := near[k];
      && n in cost' && t in cost' && t in parent' && cost'[t] == cost[t]
      && (if k != p && Improves(mp, cost', n, t) then
            Rewired(mp, parent, cost, parent'[n := Some(t)], cost'[n := mp.dist(n.q, t.q) + cost'[t]], near, k + 1, p, t)
          else
            Rewired(mp, parent, cost, parent', cost', near, k + 1, p, t))
  {
  }

  /** Rewiring keeps the invariant: the neighbours are moved one after the other. */
  lemma {:induction false} RewiredKeeps(mp: Planner, parent: Parents, cost: Costs, parent': Parents, cost': Costs,
                                        near: seq<Node>, k: nat, p: nat, t: Node)
    requires Metric(mp) && TreeInv(mp, parent, cost) && Rewired(mp, parent, cost, parent', cost', near, k, p, t)
    requires Distinct(near) && k <= |near| && forall i :: 0 <= i < |near| ==> near[i] in cost && near[i] != t
    ensures TreeInv(mp, parent', cost') && Roots(parent') == Roots(parent)
    decreases k
  {
    hide TreeInv, Metric, Roots, Distinct;
    if k == 0 {
      RewiredNothing(mp, parent, cost, parent', cost', near, p, t);
    } else {
      var n := near[k - 1];
      var back, backCost := parent'[n := parent[n]], cost'[n := cost[n]];
      RewiredBack(mp, parent, cost, parent', cost', near, k, p, t);
      RewiredKeeps(mp, parent, cost, back, backCost, near, k - 1, p, t);
      if k - 1 != p && Improves(mp, cost, n, t) {
        RewireKeeps(mp, back, backCost, n, t);
      }
    }
  }

  lemma RewiredNothing(mp: Planner, parent: Parents, cost: Costs, parent': Parents, cost': Costs, near: seq<Node>, p: nat, t: Node)
    requires Rewired(mp, parent, cost, parent', cost', near, 0, p, t)
    ensures parent' == parent && cost' == cost
  {
  }

  lemma RewiredBack(mp: Planner, parent: Parents, cost: Costs, parent': Parents, cost': Costs,
                    near: seq<Node>, k: nat, p: nat, t: Node)
    requires Rewired(mp, parent, cost, parent', cost', near, k, p, t) && 0 < k <= |near|
    requires Distinct(near) && forall i :: 0 <= i < |near| ==> near[i] in cost && near[i] != t
    ensures var n := near[k - 1];
      var back, backCost := parent'[n := parent[n]], cost'[n := cost[n]];
      && Rewired(mp, parent, cost, back, backCost, near, k - 1, p, t)
      && t in back && n in back && backCost[t] == cost[t]
      && if k - 1 != p && Improves(mp, cost, n, t) then
           parent' == back[n := Some(t)] && cost' == backCost[n := mp.dist(n.q, t.q) + cost[t]]
         else parent' == back && cost' == backCost
  {
    hide Improves;
    var n := near[k - 1];
    forall x | x in cost
      ensures x != n ==> (ToRewire(mp, cost, near, k, p, t, x) <==> ToRewire(mp, cost, near, k - 1, p, t, x))
      ensures x == n ==> !ToRewire(mp, cost, near, k - 1, p, t, x)
      ensures x == n ==> (ToRewire(mp, cost, near, k, p, t, x) <==> k - 1 != p && Improves(mp, cost, n, t))
    {
    }
  }

  /** One call of `Extend` on a tree: the neighbours it considers, the parent it chooses, and what
      becomes of the tree. */
  ghost predicate ExtendsVia(mp: Planner, parent: Parents, cost: Costs, parent': Parents, cost': Costs,
                             target: Config, id: nat, near: seq<Node>, p: nat)
  {
    && AreSmallest(Keys(mp, cost, target), mp.neighborhoodSize, near)
    && if !mp.checkInputs(target) || forall i :: 0 <= i < |near| ==> !mp.checkPath(near[i].q, target) then
         parent' == parent && cost' == cost
       else
         var keys, t := Keys(mp, cost, target), Node(id, target);
         && p < |near| && mp.checkPath(near[p].q, target)
         && (forall i :: 0 <= i < |near| && mp.checkPath(near[i].q, target) ==> keys[near[p]] <= keys[near[i]])
         && Rewired(mp, parent[t := Some(near[p])], cost[t := keys[near[p]]], parent', cost', near, |near|, p, t)
  }

  ghost predicate Extends(mp: Planner, parent: Parents, cost: Costs, parent': Parents, cost': Costs, target: Config, id: nat)
  {
    exists near, p :: ExtendsVia(mp, parent, cost, parent', cost', target, id, near, p)
  }

  /** A target that is added hangs below a neighbour that reaches it, at exactly the recorded cost of that
      neighbour plus the distance. */
  lemma ExtendsCost(mp: Planner, parent: Parents, cost: Costs, parent': Parents, cost': Costs,
                    target: Config, id: nat, near: seq<Node>, p: nat)
    requires ExtendsVia(mp, parent, cost, parent', cost', target, id, near, p)
    requires Node(id, target) !in parent && Node(id, target) !in cost
    ensures var t := Node(id, target);
      t in parent' ==>
        && p < |near| && near[p] in cost && t in cost' && mp.checkPath(near[p].q, target)
        && parent'[t] == Some(near[p]) && cost'[t] == cost[near[p]] + mp.dist(target, near[p].q)
  {
    hide AreSmallest, Distinct, SortedBy;
    SmallestFacts(Keys(mp, cost, target), mp.neighborhoodSize, near);
    assert p < |near| ==> near[p] in near;
  }

  /** Every way to extend a tree keeps the invariant and the roots. */
  lemma ExtendsKeeps(mp: Planner, parent: Parents, cost: Costs, parent': Parents, cost': Costs, target: Config, id: nat)
    requires Metric(mp) && TreeInv(mp, parent, cost) && Extends(mp, parent, cost, parent', cost', target, id)
    requires forall n :: n in parent ==> n.id != id
    ensures TreeInv(mp, parent', cost') && Roots(parent') == Roots(parent)
    ensures parent'.Keys == parent.Keys || parent'.Keys == parent.Keys + {Node(id, target)}
  {
    hide TreeInv, Metric, Roots, Rewired, AreSmallest, Distinct, SortedBy;
    var near: seq<Node>, p: nat :| ExtendsVia(mp, parent, cost, parent', cost', target, id, near, p);
    SmallestFacts(Keys(mp, cost, target), mp.neighborhoodSize, near);
    TreeFacts(mp, parent, cost);
    if mp.checkInputs(target) && exists i :: 0 <= i < |near| && mp.checkPath(near[i].q, target) {
      var t := Node(id, target);
      assert forall i :: 0 <= i < |near| ==> near[i] in near;
      AttachKeeps(mp, parent, cost, near[p], t);
      SameDistance(mp, near[p], t);
      var mid, midCost := parent[t := Some(near[p])], cost[t := Keys(mp, cost, target)[near[p]]];
      RewiredKeeps(mp, mid, midCost, parent', cost', near, |near|, p, t);
      RewiredShape(mp, mid, midCost, parent', cost', near, |near|, p, t);
    }
  }

  lemma RewiredShape(mp: Planner, parent: Parents, cost: Costs, parent': Parents, cost': Costs,
                     near: seq<Node>, k: nat, p: nat, t: Node)
    requires Rewired(mp, parent, cost, parent', cost', near, k, p, t)
    ensures parent'.Keys == parent.Keys
  {
  }

  /** The first neighbour from which the target can be reached; neighbours come cheapest first. */
  method ChooseParent(mp: Planner, ghost keys: map<Node, real>, near: seq<Node>, target: Config) returns (p: Option<nat>)
    requires (forall n :: n in near ==> n in keys) && SortedBy(keys, near)
    ensures p.None? <==> forall i :: 0 <= i < |near| ==> !mp.checkPath(near[i].q, target)
    ensures p.Some? ==> p.value < |near| && mp.checkPath(near[p.value].q, target)
    ensures p.Some? ==> forall i :: 0 <= i < |near| && mp.checkPath(near[i].q, target) ==>
        keys[near[p.value]] <= keys[near[i]]
  {
    for i := 0 to |near|
      invariant forall j :: 0 <= j < i ==> !mp.checkPath(near[j].q, target)
    {
      if mp.checkPath(near[i].q, target) {
        return Some(i);
      }
    }
    return None;
  }

  /** Rewires in place every neighbour that is better off below `t`. */
  method RewireAll(mp: Planner, tree: Tree, near: seq<Node>, p: nat, t: Node)
    requires Metric(mp) && tree.Valid(mp) && t in tree.parent && Distinct(near)
    requires forall i :: 0 <= i < |near| ==> near[i] in tree.parent && near[i] != t
    modifies tree
    ensures tree.Valid(mp) && Roots(tree.parent) == old(Roots(tree.parent))
    ensures Rewired(mp, old(tree.parent), old(tree.cost), tree.parent, tree.cost, near, |near|, p, t)
    ensures tree.parent.Keys == old(tree.parent.Keys)
  {
    hide TreeInv, Metric, Rewired, ToRewire, Distinct, IsForest, Roots;
    TreeFacts(mp, tree.parent, tree.cost);
    RewiredNone(mp, tree.parent, tree.cost, near, p, t);
    for i := 0 to |near|
      invariant tree.Valid(mp) && Roots(tree.parent) == old(Roots(tree.parent))
      invariant Rewired(mp, old(tree.parent), old(tree.cost), tree.parent, tree.cost, near, i, p, t)
      invariant tree.parent.Keys == old(tree.parent.Keys)
    {
      var n := near[i];
      TreeFacts(mp, tree.parent, tree.cost);
      RewiredStep(mp, old(tree.parent), old(tree.cost), tree.parent, tree.cost, near, i, p, t);
      if i == p {
        continue;
      }
      var c := mp.dist(n.q, t.q) + tree.cost[t];
      if c < tree.cost[n] && mp.checkPath(t.q, n.q) {
        RewireKeeps(mp, tree.parent, tree.cost, n, t);
        tree.cost := tree.cost[n := c];
        tree.parent := tree.parent[n := Some(t)];
      }
    }
  }

  lemma Extended(mp: Planner, parent: Parents, cost: Costs, parent': Parents, cost': Costs,
                 target: Config, id: nat, near: seq<Node>, p: nat)
    requires ExtendsVia(mp, parent, cost, parent', cost', target, id, near, p)
    ensures Extends(mp, parent, cost, parent', cost', target, id)
  {
    hide ExtendsVia;
  }

  /** Connects the target to the tree through its cheapest reachable neighbour, and then rewires the
      other neighbours through it. `near` are the neighbours it considers and `p` is the one it
      chooses. */
  method Extend(mp: Planner, tree: Tree, target: Config, id: nat)
    returns (r: Option<Node>, ghost near: seq<Node>, ghost p: nat)
    requires Metric(mp) && tree.Valid(mp)
    requires forall n :: n in tree.parent ==> n.id != id
    modifies tree
    ensures tree.Valid(mp)
    ensures Roots(tree.parent) == old(Roots(tree.parent))
    ensures AreSmallest(Keys(mp, old(tree.cost), target), mp.neighborhoodSize, near)
    ensures r.None? <==> !mp.checkInputs(target) || forall i :: 0 <= i < |near| ==> !mp.checkPath(near[i].q, target)
    ensures r.Some? ==> r.value == Node(id, target)
    ensures tree.parent.Keys == old(tree.parent.Keys) + (if r.Some? then {r.value} else {})
    ensures ExtendsVia(mp, old(tree.parent), old(tree.cost), tree.parent, tree.cost, target, id, near, p)
  {
    hide TreeInv, Metric, Rewired, AreSmallest, Distinct, SortedBy, IsForest, Roots;
    var neighbors := KNearestNeighbors(mp, tree, target);
    near, p := neighbors, 0;
    SmallestFacts(Keys(mp, tree.cost, target), mp.neighborhoodSize, near);
    assert forall i :: 0 <= i < |neighbors| ==> neighbors[i] in neighbors;
    if !mp.checkInputs(target) {
      return None, near, p;
    }
    var choice := ChooseParent(mp, Keys(mp, tree.cost, target), neighbors, target);
    if choice.None? {
      return None, near, p;
    }
    p := choice.value;
    var from := neighbors[choice.value];
    var t := Node(id, target);
    TreeFacts(mp, tree.parent, tree.cost);
    AttachKeeps(mp, tree.parent, tree.cost, from, t);
    tree.cost := tree.cost[t := tree.cost[from] + mp.dist(target, from.q)];
    tree.parent := tree.parent[t := Some(from)];
    RewireAll(mp, tree, neighbors, choice.value, t);
    return Some(t), near, p;
  }
}

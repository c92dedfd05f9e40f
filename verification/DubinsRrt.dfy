/** The tree kept by the Dubins-RRT planner.

Unlike RRT*-Connect it passes every improvement on to the nodes below, so the recorded length of a
node is exactly the length of the way from the seed to it. The child lists that make this possible
stay the inverse of the parent map through every reroute.
*/
module DubinsRrt {
  import opened Forest
  import opened Options
  import opened PlanCost
  import opened Selection
  import opened Sequences

  type Parents = map<Node, Option<Node>>

  type Children = map<Node, seq<Node>>

  type Lengths = map<Node, real>

  /** The length of the best Dubins path between two configurations; `None` is an infinite length. */
  type BestLength = (Config, Config) -> Option<real>

  ghost predicate NonNegativeLengths(best: BestLength)
  {
    forall a, b :: best(a, b).Some? ==> best(a, b).value >= 0.0
  }

  // ----- the invariant -----

  /** The child lists are the inverse of the parent map, without repetition. */
  ghost predicate Inverse(parent: Parents, children: Children)
  {
    && children.Keys == parent.Keys
    && (forall p, c :: p in children ==> (c in children[p] <==> c in parent && parent[c] == Some(p)))
    && (forall p :: p in children ==> Distinct(children[p]))
  }

  /** The recorded length of `n` is that of its parent plus the link between them. */
  ghost predicate ExactLink(best: BestLength, len: Lengths, p: Node, n: Node)
  {
    && p in len && n in len && best(p.q, n.q).Some?
    && len[n] == len[p] + best(p.q, n.q).value
  }

  ghost predicate TreeInv(best: BestLength, seed: Node, parent: Parents, children: Children, len: Lengths)
  {
    && len.Keys == parent.Keys
    && IsForest(parent)
    && Inverse(parent, children)
    && Roots(parent) == {seed}
    && len[seed] == 0.0
    && (forall n :: n in parent && parent[n].Some? ==> ExactLink(best, len, parent[n].value, n))
  }

  /** The sum of the link lengths along a chain from a node up to the seed. */
  ghost function ChainSum(best: BestLength, s: seq<Node>): real
  {
    if |s| < 2 then 0.0
    else (if best(s[1].q, s[0].q).Some? then best(s[1].q, s[0].q).value else 0.0) + ChainSum(best, s[1..])
  }

  /** The recorded length is exactly the length of the way to the seed. */
  lemma {:induction false} RecordedIsExact(best: BestLength, seed: Node, parent: Parents, children: Children, len: Lengths,
                                          s: seq<Node>, n: Node)
    requires TreeInv(best, seed, parent, children, len) && IsChain(parent, s, n)
    ensures s[|s| - 1] == seed
    ensures len[n] == ChainSum(best, s)
    ensures forall i :: 0 <= i < |s| - 1 ==> best(s[i + 1].q, s[i].q).Some?
  {
    ChainHead(parent, s, n);
    if |s| > 1 {
      ChainTail(parent, s, n);
      assert ExactLink(best, len, s[1], n);
      RecordedIsExact(best, seed, parent, children, len, s[1..], s[1]);
      forall i | 0 <= i < |s| - 1
        ensures best(s[i + 1].q, s[i].q).Some?
      {
        assert i > 0 ==> s[i + 1] == s[1..][i - 1 + 1] && s[i] == s[1..][i - 1];
      }
    } else {
      assert n in Roots(parent);
    }
  }

  // ----- lowering what is below a node -----

  /** `x` lies below one of the first `k` listed nodes. */
  ghost predicate BelowSome(parent: Parents, rank: map<Node, nat>, x: Node, cs: seq<Node>, k: nat)
    requires Ranked(parent, rank) && x in parent && k <= |cs|
  {
    exists i :: 0 <= i < k && Below(parent, rank, x, cs[i])
  }

  /** What lies below a node is the node and what lies below its children. */
  lemma BelowSplits(parent: Parents, rank: map<Node, nat>, children: Children, n: Node, x: Node)
    requires Ranked(parent, rank) && Inverse(parent, children) && n in parent && x in parent
    ensures Below(parent, rank, x, n) <==> x == n || BelowSome(parent, rank, x, children[n], |children[n]|)
  {
    var cs := children[n];
    if Below(parent, rank, x, n) && x != n {
      var c := BelowChild(parent, rank, x, n);
      assert c in cs;
    }
    if BelowSome(parent, rank, x, cs, |cs|) {
      var i :| 0 <= i < |cs| && Below(parent, rank, x, cs[i]);
      assert cs[i] in cs;
      assert parent[cs[i]] == Some(n) && Below(parent, rank, n, n);
      BelowTransitive(parent, rank, x, cs[i], n);
    }
  }

  /** What lies below one child is neither the node nor below an earlier child. */
  lemma BelowApart(parent: Parents, rank: map<Node, nat>, children: Children, n: Node, x: Node, k: nat)
    requires Ranked(parent, rank) && Inverse(parent, children) && n in parent && x in parent
    requires k < |children[n]| && Below(parent, rank, x, children[n][k])
    ensures x != n && !BelowSome(parent, rank, x, children[n], k)
  {
    var cs := children[n];
    BelowRank(parent, rank, x, cs[k]);
    assert cs[k] in cs;
    forall i | 0 <= i < k
      ensures !Below(parent, rank, x, cs[i])
    {
      assert cs[i] in cs && cs[i] != cs[k];
      ChildrenApart(parent, rank, n, x, cs[i], cs[k]);
    }
  }

  // ----- rerouting -----

  /** The lengths with `diff` taken off everything below `n`. */
  ghost function Lowered(parent: Parents, rank: map<Node, nat>, len: Lengths, n: Node, diff: real): Lengths
    requires Ranked(parent, rank) && len.Keys == parent.Keys
  {
    map x | x in len :: if Below(parent, rank, x, n) then len[x] - diff else len[x]
  }

  /** The lengths when the node and the first `k` of its children have been updated. */
  ghost predicate PartlyLowered(parent: Parents, rank: map<Node, nat>, was: Lengths, len: Lengths,
                                n: Node, cs: seq<Node>, k: nat, diff: real)
    requires Ranked(parent, rank) && was.Keys == parent.Keys && k <= |cs|
  {
    && len.Keys == was.Keys
    && forall x :: x in was ==>
         len[x] == if x == n || BelowSome(parent, rank, x, cs, k) then was[x] - diff else was[x]
  }

  lemma PartlyLoweredStep(parent: Parents, rank: map<Node, nat>, children: Children, was: Lengths, len: Lengths,
                          n: Node, k: nat, diff: real)
    requires Ranked(parent, rank) && Inverse(parent, children) && was.Keys == parent.Keys && n in parent
    requires k < |children[n]| && children[n][k] in parent
    requires PartlyLowered(parent, rank, was, len, n, children[n], k, diff)
    ensures PartlyLowered(parent, rank, was, Lowered(parent, rank, len, children[n][k], diff), n, children[n], k + 1, diff)
  {
    hide Below, BelowSome;
    forall x | x in was
      ensures BelowSome(parent, rank, x, children[n], k + 1) <==>
          BelowSome(parent, rank, x, children[n], k) || Below(parent, rank, x, children[n][k])
      ensures Below(parent, rank, x, children[n][k]) ==> x != n && !BelowSome(parent, rank, x, children[n], k)
    {
      BelowOneMore(parent, rank, x, children[n], k);
      if Below(parent, rank, x, children[n][k]) {
        BelowApart(parent, rank, children, n, x, k);
      }
    }
  }

  lemma BelowOneMore(parent: Parents, rank: map<Node, nat>, x: Node, cs: seq<Node>, k: nat)
    requires Ranked(parent, rank) && x in parent && k < |cs|
    ensures BelowSome(parent, rank, x, cs, k + 1) <==> BelowSome(parent, rank, x, cs, k) || Below(parent, rank, x, cs[k])
  {
  }

  lemma PartlyLoweredEnd(parent: Parents, rank: map<Node, nat>, children: Children, was: Lengths, len: Lengths, n: Node, diff: real)
    requires Ranked(parent, rank) && Inverse(parent, children) && was.Keys == parent.Keys && n in parent
    requires PartlyLowered(parent, rank, was, len, n, children[n], |children[n]|, diff)
    ensures len == Lowered(parent, rank, was, n, diff)
  {
    hide Below, BelowSome;
    forall x | x in was
      ensures Below(parent, rank, x, n) <==> x == n || BelowSome(parent, rank, x, children[n], |children[n]|)
    {
      BelowSplits(parent, rank, children, n, x);
    }
  }

  lemma {:induction false} RankBound(rank: map<Node, nat>, nodes: set<Node>) returns (bound: nat)
    requires nodes <= rank.Keys
    ensures forall x :: x in nodes ==> rank[x] <= bound
  {
    if nodes == {} {
      bound := 0;
    } else {
      var y :| y in nodes;
      var b := RankBound(rank, nodes - {y});
      bound := if b < rank[y] then rank[y] else b;
    }
  }

  /** A child list without one child: its last element moves into the gap. */
  /** `r` is `s` with one occurrence of `n` taken out, in any order. */
  ghost predicate OneLess(s: seq<Node>, r: seq<Node>, n: Node)
  {
    multiset(s) == multiset(r) + multiset{n}
  }

  lemma OneLessElements(s: seq<Node>, r: seq<Node>, n: Node)
    requires Distinct(s) && OneLess(s, r, n)
    ensures Distinct(r) && forall x :: x in r <==> x in s && x != n
  {
    DistinctMultiset(s);
    DistinctMultiset(r);
    forall x
      ensures multiset(r)[x] <= 1 && (x in r <==> x in s && x != n)
    {
      assert multiset(s)[x] == multiset(r)[x] + multiset{n}[x];
      assert x in s <==> x in multiset(s);
      assert x in r <==> x in multiset(r);
    }
  }

  ghost function Relinked(parent: Parents, children: Children, n: Node, t: Node, rest: seq<Node>): Children
    requires n in parent && parent[n].Some? && parent[n].value in children && t in children
  {
    var c := children[parent[n].value := rest];
    c[t := c[t] + [n]]
  }

  lemma RelinkedInverse(parent: Parents, children: Children, n: Node, t: Node, rest: seq<Node>)
    requires Inverse(parent, children) && n in parent && t in parent && n != t
    requires parent[n].Some? && parent[n].value in parent && parent[n].value != t
    requires OneLess(children[parent[n].value], rest, n)
    ensures Inverse(parent[n := Some(t)], Relinked(parent, children, n, t, rest))
  {
    hide OneLess;
    OneLessElements(children[parent[n].value], rest, n);
  }

  /** A reroute that makes the way to `n` shorter moves no root and closes no cycle. */
  lemma RerouteForest(best: BestLength, seed: Node, parent: Parents, children: Children, len: Lengths, n: Node, t: Node)
    requires NonNegativeLengths(best) && TreeInv(best, seed, parent, children, len)
    requires n in parent && t in parent && best(t.q, n.q).Some?
    requires len[t] + best(t.q, n.q).value < len[n]
    ensures n != t && n != seed && parent[n].Some? && parent[n].value != t
    ensures parent[n].value in parent && parent[n].value in children && n in children[parent[n].value]
    ensures IsForest(parent[n := Some(t)])
  {
    RootIsShortest(best, seed, parent, children, len, t);
    assert n != seed && n !in Roots(parent);
    Relink(parent, len, n, t);
  }

  /** Lowering everything below `n` by the gain makes every recorded length exact again. */
  lemma RerouteKeeps(best: BestLength, seed: Node, parent: Parents, children: Children, len: Lengths, n: Node, t: Node,
                     rest: seq<Node>, rank: map<Node, nat>)
    requires TreeInv(best, seed, parent, children, len)
    requires n in parent && t in parent && n != t && n != seed && best(t.q, n.q).Some?
    requires parent[n].Some? && parent[n].value in parent && parent[n].value != t
    requires OneLess(children[parent[n].value], rest, n)
    requires Ranked(parent[n := Some(t)], rank)
    ensures TreeInv(best, seed, parent[n := Some(t)], Relinked(parent, children, n, t, rest),
                Lowered(parent[n := Some(t)], rank, len, n, len[n] - (len[t] + best(t.q, n.q).value)))
    ensures Lowered(parent[n := Some(t)], rank, len, n, len[n] - (len[t] + best(t.q, n.q).value))[t] == len[t]
  {
    hide OneLess;
    RelinkedInverse(parent, children, n, t, rest);
    LoweredIsExact(best, seed, parent, children, len, n, t, rank);
  }

  lemma RootIsShortest(best: BestLength, seed: Node, parent: Parents, children: Children, len: Lengths, n: Node)
    requires NonNegativeLengths(best) && TreeInv(best, seed, parent, children, len) && n in parent
    ensures len[n] >= 0.0
  {
    var rank :| Ranked(parent, rank);
    LengthsNonNegative(best, seed, parent, children, len, rank, n);
  }

  lemma {:induction false} LengthsNonNegative(best: BestLength, seed: Node, parent: Parents, children: Children, len: Lengths,
                                             rank: map<Node, nat>, n: Node)
    requires NonNegativeLengths(best) && TreeInv(best, seed, parent, children, len) && n in parent
    requires Ranked(parent, rank)
    ensures len[n] >= 0.0
    decreases rank[n]
  {
    if parent[n].Some? {
      assert ExactLink(best, len, parent[n].value, n);
      LengthsNonNegative(best, seed, parent, children, len, rank, parent[n].value);
    } else {
      assert n in Roots(parent);
    }
  }

  lemma LoweredIsExact(best: BestLength, seed: Node, parent: Parents, children: Children, len: Lengths,
                       n: Node, t: Node, rank: map<Node, nat>)
    requires TreeInv(best, seed, parent, children, len) && n in parent && t in parent && n != seed
    requires best(t.q, n.q).Some? && Ranked(parent[n := Some(t)], rank)
    ensures var parent', diff := parent[n := Some(t)], len[n] - (len[t] + best(t.q, n.q).value);
      var len' := Lowered(parent', rank, len, n, diff);
      && Roots(parent') == {seed} && len'[seed] == 0.0 && len'[t] == len[t]
      && forall x :: x in parent' && parent'[x].Some? ==> ExactLink(best, len', parent'[x].value, x)
  {
    var parent' := parent[n := Some(t)];
    var diff := len[n] - (len[t] + best(t.q, n.q).value);
    var len' := Lowered(parent', rank, len, n, diff);
    assert seed in Roots(parent) && n !in Roots(parent);
    assert Roots(parent') == Roots(parent);
    assert !Below(parent', rank, seed, n);
    assert !Below(parent', rank, t, n) by {
      if Below(parent', rank, t, n) {
        BelowRank(parent', rank, t, n);
      }
    }
    forall x | x in parent' && parent'[x].Some?
      ensures ExactLink(best, len', parent'[x].value, x)
    {
      assert x != n ==> ExactLink(best, len, parent[x].value, x);
    }
  }

  /** A new node at the end of an accepted path from `p`. */
  lemma ConnectKeeps(best: BestLength, seed: Node, parent: Parents, children: Children, len: Lengths, p: Node, t: Node)
    requires TreeInv(best, seed, parent, children, len)
    requires p in parent && t !in parent && best(p.q, t.q).Some?
    ensures TreeInv(best, seed, parent[t := Some(p)], children[p := children[p] + [t]][t := []],
                    len[t := len[p] + best(p.q, t.q).value])
  {
    hide IsForest, Inverse;
    AddLeaf(parent, t, p);
    var parent', len' := parent[t := Some(p)], len[t := len[p] + best(p.q, t.q).value];
    forall x | x in parent' && parent'[x].Some?
      ensures ExactLink(best, len', parent'[x].value, x)
    {
      assert x != t ==> ExactLink(best, len, parent[x].value, x);
    }
    assert forall x :: x in parent && parent[x].Some? ==> ExactLink(best, len, parent[x].value, x);
    ConnectInverse(parent, children, p, t);
  }

  lemma ConnectInverse(parent: Parents, children: Children, p: Node, t: Node)
    requires Inverse(parent, children) && p in parent && t !in parent
    requires forall x :: x in parent ==> parent[x] != Some(t)
    ensures Inverse(parent[t := Some(p)], children[p := children[p] + [t]][t := []])
  {
  }

  lemma TreeFacts(best: BestLength, seed: Node, parent: Parents, children: Children, len: Lengths)
    requires TreeInv(best, seed, parent, children, len)
    ensures len.Keys == parent.Keys == children.Keys && IsForest(parent) && seed in parent && Roots(parent) == {seed}
    ensures Inverse(parent, children)
  {
  }

  // ----- the steps of the planner -----

  datatype State = State(parent: Parents, children: Children, len: Lengths)

  ghost predicate Good(best: BestLength, seed: Node, x: State)
  {
    TreeInv(best, seed, x.parent, x.children, x.len)
  }

  ghost predicate AttachedBelow(best: BestLength, x: State, y: State, p: Node, t: Node)
  {
    && p in x.parent && p in x.children && p in x.len && best(p.q, t.q).Some?
    && y == State(x.parent[t := Some(p)], x.children[p := x.children[p] + [t]][t := []],
                  x.len[t := x.len[p] + best(p.q, t.q).value])
  }

  /** The target is attached below some option from which it can be reached, if there is one. */
  ghost predicate Attaches(best: BestLength, checkPath: (Config, Config) -> bool, x: State, y: State, t: Node, options: set<Node>)
  {
    if exists n :: n in options && checkPath(n.q, t.q) then
      exists p :: p in options && checkPath(p.q, t.q) && AttachedBelow(best, x, y, p, t)
    else y == x
  }

  ghost predicate ReroutedVia(best: BestLength, x: State, y: State, t: Node, n: Node, rest: seq<Node>, rank: map<Node, nat>)
  {
    && n in x.parent && x.parent[n].Some? && x.parent[n].value in x.children && t in x.children
    && n in x.len && t in x.len && x.len.Keys == x.parent.Keys && best(t.q, n.q).Some?
    && OneLess(x.children[x.parent[n].value], rest, n)
    && var parent := x.parent[n := Some(t)];
       && Ranked(parent, rank) && parent.Keys == x.len.Keys
       && y == State(parent, Relinked(x.parent, x.children, n, t, rest),
                     Lowered(parent, rank, x.len, n, x.len[n] - (x.len[t] + best(t.q, n.q).value)))
  }

  /** `n` is moved below the target, with everything below it lowered, if that is shorter. */
  ghost predicate Reroutes(best: BestLength, x: State, y: State, t: Node, n: Node)
  {
    && t in x.len && n in x.len
    && if best(t.q, n.q).None? || x.len[t] + best(t.q, n.q).value >= x.len[n] then y == x
       else exists rest, rank :: ReroutedVia(best, x, y, t, n, rest, rank)
  }

  /** The states while the listed nodes are rerouted one after the other. */
  ghost predicate ReroutesAll(best: BestLength, xs: seq<State>, t: Node, ns: seq<Node>)
  {
    |xs| == |ns| + 1 && forall i :: 0 <= i < |ns| ==> Reroutes(best, xs[i], xs[i + 1], t, ns[i])
  }

  lemma AttachesKeeps(best: BestLength, checkPath: (Config, Config) -> bool, seed: Node, x: State, y: State, t: Node, options: set<Node>)
    requires Good(best, seed, x) && t !in x.parent && Attaches(best, checkPath, x, y, t, options)
    ensures Good(best, seed, y)
    ensures y == x || y.parent.Keys == x.parent.Keys + {t}
  {
    hide TreeInv;
    if exists n :: n in options && checkPath(n.q, t.q) {
      var p :| p in options && checkPath(p.q, t.q) && AttachedBelow(best, x, y, p, t);
      ConnectKeeps(best, seed, x.parent, x.children, x.len, p, t);
    }
  }

  lemma ReroutesKeeps(best: BestLength, seed: Node, x: State, y: State, t: Node, n: Node)
    requires NonNegativeLengths(best) && Good(best, seed, x) && t in x.parent && n in x.parent && Reroutes(best, x, y, t, n)
    ensures Good(best, seed, y) && y.parent.Keys == x.parent.Keys
  {
    hide TreeInv, NonNegativeLengths, OneLess, Lowered, Relinked, Ranked;
    if !(best(t.q, n.q).None? || x.len[t] + best(t.q, n.q).value >= x.len[n]) {
      var rest, rank :| ReroutedVia(best, x, y, t, n, rest, rank);
      RerouteForest(best, seed, x.parent, x.children, x.len, n, t);
      RerouteKeeps(best, seed, x.parent, x.children, x.len, n, t, rest, rank);
    }
  }

  lemma {:induction false} ReroutesAllKeeps(best: BestLength, seed: Node, xs: seq<State>, t: Node, ns: seq<Node>, k: nat)
    requires NonNegativeLengths(best) && ReroutesAll(best, xs, t, ns) && Good(best, seed, xs[0]) && t in xs[0].parent
    requires k <= |ns| && forall i :: 0 <= i < |ns| ==> ns[i] in xs[0].parent
    ensures Good(best, seed, xs[k]) && xs[k].parent.Keys == xs[0].parent.Keys
  {
    hide Good, NonNegativeLengths, Reroutes;
    if k > 0 {
      ReroutesAllKeeps(best, seed, xs, t, ns, k - 1);
      ReroutesKeeps(best, seed, xs[k - 1], xs[k], t, ns[k - 1]);
    }
  }

  // ----- the tree -----

  const NB_OPTIONS := 10
  const NB_NEIGHBORS := 10

  class Tree {
    var seedMap: Parents
    var childMap: Children
    var pathLen: Lengths

    ghost predicate Valid(best: BestLength, seed: Node)
      reads this
    {
      TreeInv(best, seed, seedMap, childMap, pathLen)
    }

    ghost function Now(): State
      reads this
    {
      State(seedMap, childMap, pathLen)
    }

    constructor (seed: Node, ghost best: BestLength)
      ensures Valid(best, seed) && Now() == State(map[seed := None], map[seed := []], map[seed := 0.0])
    {
      seedMap, childMap, pathLen := map[seed := None], map[seed := []], map[seed := 0.0];
      new;
      assert Ranked(seedMap, map[seed := 0]);
    }

    /** Takes `diff` off the length of a node and, child list by child list, off everything below it. */
    method UpdateChildren(n: Node, diff: real, ghost rank: map<Node, nat>, ghost bound: nat)
      requires Ranked(seedMap, rank) && Inverse(seedMap, childMap) && pathLen.Keys == seedMap.Keys && n in seedMap
      requires forall x :: x in rank ==> rank[x] <= bound
      modifies this`pathLen
      ensures pathLen == Lowered(seedMap, rank, old(pathLen), n, diff)
      decreases bound - rank[n]
    {
      hide Ranked, Inverse, Below, BelowSome, Lowered, PartlyLowered;
      InverseKeys(seedMap, childMap);
      pathLen := pathLen[n := pathLen[n] - diff];
      var cs := childMap[n];
      PartlyLoweredStart(seedMap, rank, old(pathLen), n, cs, diff);
      for i := 0 to |cs|
        invariant pathLen.Keys == seedMap.Keys
        invariant PartlyLowered(seedMap, rank, old(pathLen), pathLen, n, cs, i, diff)
      {
        ChildIsHigher(seedMap, rank, childMap, n, i);
        PartlyLoweredStep(seedMap, rank, childMap, old(pathLen), pathLen, n, i, diff);
        LoweredKeys(seedMap, rank, pathLen, cs[i], diff);
        UpdateChildren(cs[i], diff, rank, bound);
      }
      PartlyLoweredEnd(seedMap, rank, childMap, old(pathLen), pathLen, n, diff);
    }

    /** Connects the target through the first option from which it can be reached. */
    method Connect(best: BestLength, ghost seed: Node, checkPath: (Config, Config) -> bool, target: Node, options: seq<Node>)
      returns (connected: bool)
      requires Valid(best, seed) && target !in seedMap
      requires forall i :: 0 <= i < |options| ==> options[i] in seedMap && best(options[i].q, target.q).Some?
      modifies this
      ensures Valid(best, seed)
      ensures connected <==> exists i :: 0 <= i < |options| && checkPath(options[i].q, target.q)
      ensures seedMap.Keys == old(seedMap.Keys) + (if connected then {target} else {})
      ensures connected ==> seedMap[target].Some? && checkPath(seedMap[target].value.q, target.q)
      ensures forall x :: x in old(seedMap) ==> x in seedMap && seedMap[x] == old(seedMap[x])
      ensures Attaches(best, checkPath, old(Now()), Now(), target, Elements(options))
    {
      hide TreeInv, Inverse, Distinct, IsForest, Roots, Attaches, AttachedBelow;
      TreeFacts(best, seed, seedMap, childMap, pathLen);
      for i := 0 to |options|
        invariant unchanged(this)
        invariant forall j :: 0 <= j < i ==> !checkPath(options[j].q, target.q)
      {
        var n := options[i];
        if checkPath(n.q, target.q) {
          Attach(best, seed, n, target);
          AttachesOption(best, checkPath, old(Now()), Now(), target, options, i);
          return true;
        }
      }
      AttachesNone(best, checkPath, Now(), target, options);
      return false;
    }

    /** The updates that connect the target below `n`. */
    method Attach(best: BestLength, ghost seed: Node, n: Node, target: Node)
      requires Valid(best, seed) && n in seedMap && target !in seedMap && best(n.q, target.q).Some?
      modifies this
      ensures Valid(best, seed) && AttachedBelow(best, old(Now()), Now(), n, target)
      ensures seedMap == old(seedMap)[target := Some(n)]
    {
      hide TreeInv, Inverse, IsForest, Roots;
      TreeFacts(best, seed, seedMap, childMap, pathLen);
      ConnectKeeps(best, seed, seedMap, childMap, pathLen, n, target);
      seedMap := seedMap[target := Some(n)];
      pathLen := pathLen[target := pathLen[n] + best(n.q, target.q).value];
      childMap := childMap[n := childMap[n] + [target]];
      childMap := childMap[target := []];
    }

    /** Moves `n` below the target when that shortens the way to it. */
    method Reroute(best: BestLength, ghost seed: Node, target: Node, n: Node)
      requires NonNegativeLengths(best) && Valid(best, seed) && target in seedMap && n in seedMap
      modifies this
      ensures Valid(best, seed)
      ensures seedMap == old(seedMap) || (n != seed && seedMap == old(seedMap)[n := Some(target)])
      ensures n in pathLen && target in pathLen && pathLen[target] == old(pathLen)[target]
      ensures best(target.q, n.q).Some? ==> pathLen[n] <= pathLen[target] + best(target.q, n.q).value
      ensures pathLen[n] <= old(pathLen)[n]
      ensures Reroutes(best, old(Now()), Now(), target, n)
    {
      hide Reroutes, TreeInv, NonNegativeLengths, IsForest, Roots, Inverse;
      TreeFacts(best, seed, seedMap, childMap, pathLen);
      var link := best(target.q, n.q);
      ReroutesNot(best, Now(), target, n);
      if link.None? || pathLen[target] + link.value >= pathLen[n] {
        return;
      }
      Move(best, seed, target, n, link.value);
    }

    /** The body of the innermost `if`. */
    method Move(best: BestLength, ghost seed: Node, target: Node, n: Node, link: real)
      requires NonNegativeLengths(best) && Valid(best, seed) && target in seedMap && n in seedMap
      requires target in pathLen && n in pathLen && best(target.q, n.q) == Some(link) && pathLen[target] + link < pathLen[n]
      modifies this
      ensures Valid(best, seed) && n != seed && seedMap == old(seedMap)[n := Some(target)]
      ensures n in pathLen && target in pathLen && pathLen[target] == old(pathLen)[target] && pathLen[n] == pathLen[target] + link
      ensures Reroutes(best, old(Now()), Now(), target, n)
    {
      hide Reroutes, TreeInv, NonNegativeLengths, Lowered, OneLess, Inverse, Ranked, IsForest, Distinct, Roots;
      TreeFacts(best, seed, seedMap, childMap, pathLen);
      RerouteForest(best, seed, seedMap, childMap, pathLen, n, target);
      ghost var rank, bound := SomeRank(seedMap[n := Some(target)]);
      var p := seedMap[n].value;
      var list := RemoveChild(childMap[p], n);
      MoveKeeps(best, seed, Now(), target, n, p, list, rank);
      childMap := childMap[p := list];
      childMap := childMap[target := childMap[target] + [n]];
      seedMap := seedMap[n := Some(target)];
      UpdateChildren(n, pathLen[n] - (pathLen[target] + link), rank, bound);
    }

    /** The nodes with the shortest paths to the target, in the arbitrary order of a map. */
    method SelectOptions(best: BestLength, ghost seed: Node, target: Node) returns (options: seq<Node>, ghost sorted: seq<Node>)
      requires Valid(best, seed)
      ensures AreSmallest(FiniteLengths(best, seedMap.Keys, target), NB_OPTIONS, sorted)
      ensures Elements(options) == Elements(sorted)
      ensures forall i :: 0 <= i < |options| ==> options[i] in seedMap && best(options[i].q, target.q).Some?
    {
      hide TreeInv, AreSmallest;
      var keys: map<Node, real> := map[];
      var ns := seedMap.Keys;
      while ns != {}
        invariant ns <= seedMap.Keys
        invariant keys.Keys == set n | n in seedMap.Keys - ns && best(n.q, target.q).Some?
        invariant forall n :: n in keys ==> best(n.q, target.q) == Some(keys[n])
      {
        var n :| n in ns;
        if best(n.q, target.q).Some? {
          keys := keys[n := best(n.q, target.q).value];
        }
        ns := ns - {n};
      }
      assert keys == FiniteLengths(best, seedMap.Keys, target);
      var list := Smallest(keys, NB_OPTIONS);
      sorted := list;
      SmallestAreKeys(keys, NB_OPTIONS, list);
      options := [];
      var left := set n | n in list;
      while left != {}
        invariant left <= Elements(sorted) && Elements(options) == Elements(sorted) - left
      {
        var n :| n in left;
        assert Elements(options + [n]) == Elements(options) + {n};
        options := options + [n];
        left := left - {n};
      }
      forall i | 0 <= i < |options|
        ensures options[i] in seedMap && best(options[i].q, target.q).Some?
      {
        assert options[i] in Elements(options);
      }
    }

    /** The nodes nearest to the target, the target itself excepted. */
    method FindNearNeighbors(near: Distance, target: Node) returns (neighbors: seq<Node>)
      ensures AreSmallest(NearKeys(near, seedMap.Keys, target), NB_NEIGHBORS, neighbors)
    {
      var keys: map<Node, real> := map[];
      var ns := seedMap.Keys - {target};
      while ns != {}
        invariant ns <= seedMap.Keys - {target} && keys.Keys == seedMap.Keys - {target} - ns
        invariant forall n :: n in keys ==> keys[n] == near(n.q, target.q)
      {
        var n :| n in ns;
        keys := keys[n := near(n.q, target.q)];
        ns := ns - {n};
      }
      assert keys == NearKeys(near, seedMap.Keys, target);
      neighbors := Smallest(keys, NB_NEIGHBORS);
    }

    /** Reroutes the near neighbours of a newly connected node through it. */
    method RerouteNeighbors(best: BestLength, ghost seed: Node, near: Distance, target: Node) returns (ghost ns: seq<Node>, ghost xs: seq<State>)
      requires NonNegativeLengths(best) && Valid(best, seed) && target in seedMap
      modifies this
      ensures Valid(best, seed) && seedMap.Keys == old(seedMap.Keys)
      ensures forall n :: n in seedMap ==> seedMap[n] == old(seedMap)[n] || seedMap[n] == Some(target)
      ensures AreSmallest(NearKeys(near, old(seedMap.Keys), target), NB_NEIGHBORS, ns)
      ensures ReroutesAll(best, xs, target, ns) && xs[0] == old(Now()) && xs[|ns|] == Now()
    {
      hide TreeInv, NonNegativeLengths, AreSmallest, Reroutes, NearKeys;
      NearNodes(near, seedMap.Keys, target);
      var neighbors := FindNearNeighbors(near, target);
      SmallestAreKeys(NearKeys(near, seedMap.Keys, target), NB_NEIGHBORS, neighbors);
      ns, xs := neighbors, [Now()];
      for i := 0 to |neighbors|
        invariant ReroutesAll(best, xs, target, neighbors[..i]) && xs[0] == old(Now()) && xs[i] == Now()
        invariant Valid(best, seed) && seedMap.Keys == old(seedMap.Keys)
        invariant forall n :: n in seedMap ==> seedMap[n] == old(seedMap)[n] || seedMap[n] == Some(target)
      {
        assert neighbors[i] in neighbors;
        Reroute(best, seed, target, neighbors[i]);
        xs := xs + [Now()];
      }
      assert neighbors[..|neighbors|] == neighbors;
    }
  }

  ghost function FiniteLengths(best: BestLength, nodes: set<Node>, target: Node): map<Node, real>
  {
    map n | n in nodes && best(n.q, target.q).Some? :: best(n.q, target.q).value
  }

  ghost function NearKeys(near: Distance, nodes: set<Node>, target: Node): map<Node, real>
  {
    map n | n in nodes && n != target :: near(n.q, target.q)
  }

  /** The options are those with the shortest paths to the target. */
  lemma OptionsAreShortest(best: BestLength, nodes: set<Node>, target: Node, sorted: seq<Node>, n: Node, m: Node)
    requires AreSmallest(FiniteLengths(best, nodes, target), NB_OPTIONS, sorted) && n in sorted
    requires m in nodes && m !in sorted && best(m.q, target.q).Some?
    ensures n in nodes && best(n.q, target.q).Some? && best(n.q, target.q).value <= best(m.q, target.q).value
  {
    var i :| 0 <= i < |sorted| && sorted[i] == n;
  }

  /** The neighbours are the nearest nodes other than the target. */
  lemma NeighborsAreNearest(near: Distance, nodes: set<Node>, target: Node, ns: seq<Node>, n: Node, m: Node)
    requires AreSmallest(NearKeys(near, nodes, target), NB_NEIGHBORS, ns) && n in ns
    requires m in nodes && m !in ns && m != target
    ensures n in nodes && n != target && near(n.q, target.q) <= near(m.q, target.q)
  {
    var i :| 0 <= i < |ns| && ns[i] == n;
  }

  lemma NearNodes(near: Distance, nodes: set<Node>, target: Node)
    ensures NearKeys(near, nodes, target).Keys == nodes - {target}
  {
  }

  lemma AttachesOption(best: BestLength, checkPath: (Config, Config) -> bool, x: State, y: State, t: Node, options: seq<Node>, i: nat)
    requires i < |options| && checkPath(options[i].q, t.q) && AttachedBelow(best, x, y, options[i], t)
    ensures Attaches(best, checkPath, x, y, t, Elements(options))
  {
    hide AttachedBelow;
    assert options[i] in Elements(options);
  }

  lemma AttachesNone(best: BestLength, checkPath: (Config, Config) -> bool, x: State, t: Node, options: seq<Node>)
    requires forall i :: 0 <= i < |options| ==> !checkPath(options[i].q, t.q)
    ensures Attaches(best, checkPath, x, x, t, Elements(options))
  {
  }

  lemma ReroutesNot(best: BestLength, x: State, t: Node, n: Node)
    requires t in x.len && n in x.len
    ensures best(t.q, n.q).None? || x.len[t] + best(t.q, n.q).value >= x.len[n] ==> Reroutes(best, x, x, t, n)
  {
  }

  /** Everything a move does to the tree. */
  lemma MoveKeeps(best: BestLength, seed: Node, x: State, t: Node, n: Node, p: Node, rest: seq<Node>, rank: map<Node, nat>)
    requires NonNegativeLengths(best) && Good(best, seed, x) && x.len.Keys == x.parent.Keys == x.children.Keys
    requires t in x.parent && n in x.parent && x.parent[n] == Some(p) && p in x.children
    requires best(t.q, n.q).Some? && x.len[t] + best(t.q, n.q).value < x.len[n]
    requires OneLess(x.children[p], rest, n) && Ranked(x.parent[n := Some(t)], rank)
    ensures p != t && x.parent[n := Some(t)].Keys == x.len.Keys
    ensures var diff := x.len[n] - (x.len[t] + best(t.q, n.q).value);
      var y := State(x.parent[n := Some(t)], x.children[p := rest][t := x.children[t] + [n]],
                     Lowered(x.parent[n := Some(t)], rank, x.len, n, diff));
      && Good(best, seed, y) && Inverse(y.parent, y.children) && Reroutes(best, x, y, t, n)
      && y.len.Keys == x.len.Keys && y.len[t] == x.len[t] && y.len[n] == x.len[t] + best(t.q, n.q).value
  {
    hide NonNegativeLengths, OneLess, Ranked, Lowered, TreeInv, Inverse, IsForest, Roots;
    RerouteForest(best, seed, x.parent, x.children, x.len, n, t);
    RerouteKeeps(best, seed, x.parent, x.children, x.len, n, t, rest, rank);
    var link := best(t.q, n.q).value;
    var diff := x.len[n] - (x.len[t] + link);
    RerouteShape(x.parent, x.children, x.len, n, t, rest, rank, link);
    var parent' := x.parent[n := Some(t)];
    LoweredKeys(parent', rank, x.len, n, diff);
    var y := State(parent', Relinked(x.parent, x.children, n, t, rest), Lowered(parent', rank, x.len, n, diff));
    TreeFacts(best, seed, y.parent, y.children, y.len);
    assert ReroutedVia(best, x, y, t, n, rest, rank);
  }

  lemma SmallestAreKeys(key: map<Node, real>, k: nat, s: seq<Node>)
    requires AreSmallest(key, k, s)
    ensures forall n :: n in s ==> n in key
  {
  }

  /** A plan from the seed to the goal, with the length the tree recorded for the goal. */
  ghost predicate ExactPlan(best: BestLength, seed: Node, goal: Node, plan: seq<Node>, recorded: real)
  {
    && |plan| > 1 && plan[0] == seed && plan[|plan| - 1] == goal
    && (forall i :: 0 <= i < |plan| - 1 ==> best(plan[i].q, plan[i + 1].q).Some?)
    && recorded == ChainSum(best, Reversed(plan))
  }

  lemma PlanIsExact(best: BestLength, seed: Node, parent: Parents, children: Children, len: Lengths, s: seq<Node>, goal: Node)
    requires TreeInv(best, seed, parent, children, len) && goal in parent && goal != seed && IsChain(parent, s, goal)
    ensures ExactPlan(best, seed, goal, Reversed(s), len[goal])
    ensures parent[goal] == Some(Reversed(s)[|s| - 2])
  {
    RecordedIsExact(best, seed, parent, children, len, s, goal);
    ReversedTwice(s);
    var plan := Reversed(s);
    forall i | 0 <= i < |plan| - 1
      ensures best(plan[i].q, plan[i + 1].q).Some?
    {
      var j := |s| - 2 - i;
      assert plan[i] == s[j + 1] && plan[i + 1] == s[j];
    }
  }

  lemma SomeRank(parent: Parents) returns (rank: map<Node, nat>, bound: nat)
    requires IsForest(parent)
    ensures Ranked(parent, rank) && forall x :: x in rank ==> rank[x] <= bound
  {
    rank :| Ranked(parent, rank);
    bound := RankBound(rank, rank.Keys);
  }

  lemma LoweredKeys(parent: Parents, rank: map<Node, nat>, len: Lengths, n: Node, diff: real)
    requires Ranked(parent, rank) && len.Keys == parent.Keys
    ensures Lowered(parent, rank, len, n, diff).Keys == len.Keys
  {
  }

  lemma InverseKeys(parent: Parents, children: Children)
    requires Inverse(parent, children)
    ensures children.Keys == parent.Keys
  {
  }

  lemma ChildIsHigher(parent: Parents, rank: map<Node, nat>, children: Children, n: Node, i: nat)
    requires Ranked(parent, rank) && Inverse(parent, children) && n in children && i < |children[n]|
    ensures children[n][i] in parent && rank.Keys == parent.Keys && rank[n] < rank[children[n][i]]
  {
  }

  lemma PartlyLoweredStart(parent: Parents, rank: map<Node, nat>, was: Lengths, n: Node, cs: seq<Node>, diff: real)
    requires Ranked(parent, rank) && was.Keys == parent.Keys && n in parent
    ensures PartlyLowered(parent, rank, was, was[n := was[n] - diff], n, cs, 0, diff)
  {
  }

  /** What a reroute does to the child lists and to the length of the node itself. */
  lemma RerouteShape(parent: Parents, children: Children, len: Lengths, n: Node, t: Node, rest: seq<Node>, rank: map<Node, nat>, link: real)
    requires n in parent && parent[n].Some? && t in children && parent[n].value in children && parent[n].value != t
    requires t in parent && len.Keys == parent.Keys
    requires Ranked(parent[n := Some(t)], rank)
    ensures Relinked(parent, children, n, t, rest) == children[parent[n].value := rest][t := children[t] + [n]]
    ensures Lowered(parent[n := Some(t)], rank, len, n, len[n] - (len[t] + link))[n] == len[t] + link
  {
  }

  /** Takes a node out of a child list: the last entry is put in its place and the list is cut. */
  method RemoveChild(list: seq<Node>, n: Node) returns (r: seq<Node>)
    requires n in list
    ensures OneLess(list, r, n)
  {
    hide OneLess;
    for i := 0 to |list|
      invariant n !in list[..i]
    {
      if list[i] == n {
        r := list[i := list[|list| - 1]];
        r := r[..|r| - 1];
        SwapRemovesOne(list, r, i);
        return;
      }
    }
    assert false;
  }

  lemma SwapRemovesOne(s: seq<Node>, r: seq<Node>, i: nat)
    requires i < |s| && r == s[i := s[|s| - 1]][..|s| - 1]
    ensures OneLess(s, r, s[i])
  {
    var last := |s| - 1;
    if i < last {
      Around(s, i, s[i + 1..last]);
      assert r == s[..i] + [s[last]] + s[i + 1..last];
    } else {
      assert s == r + [s[i]];
    }
  }

  lemma Around(s: seq<Node>, i: nat, middle: seq<Node>)
    requires i < |s| - 1 && middle == s[i + 1..|s| - 1]
    ensures multiset(s) == multiset(s[..i]) + multiset{s[i]} + multiset(middle) + multiset{s[|s| - 1]}
  {
    var last := |s| - 1;
    assert s[..i + 1] == s[..i] + [s[i]];
    assert s[..last] == s[..i + 1] + middle;
    assert s == s[..last] + [s[last]];
  }
}

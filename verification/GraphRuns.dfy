/** Whole runs of the resource graph, against a graph that is only a map and a set of edges. */
module GraphRuns {
  import opened DependencyPaths
  import opened ResourceGraph

  /** A graph as its nodes and its edges. */
  datatype Plain = Plain(nodes: map<Name, Value>, edges: set<Edge>)

  datatype Call =
    | AddNode(node: Name, value: Value)
    | AddChildren(child: Name, parent: Name)
    | RemoveChildren(child: Name, parent: Name)
    | Remove(node: Name)
    | Rename(from: Name, to: Name)
    | MergeRemove(other: Plain)
    | MergeAdd(other: Plain)

  /** The calls that keep the invariant: a child that is linked is a node, and two nodes that are
      unlinked were linked. */
  ghost predicate Admissible(g: Plain, call: Call)
  {
    match call
    case AddChildren(c, p) => c in g.nodes || c == p
    case RemoveChildren(c, p) => (c, p) in g.edges || !(c in g.nodes && p in g.nodes)
    case _ => true
  }

  /** What one call does; for `MergeAdd`, what it does when it succeeds. */
  ghost function After(g: Plain, call: Call): Plain
  {
    match call
    case AddNode(n, v) => g.(nodes := g.nodes[n := v])
    case AddChildren(c, p) =>
      if Acyclic(g.edges + {(c, p)}) then
        Plain(if p in g.nodes then g.nodes else g.nodes[p := Nil], g.edges + {(c, p)})
      else g
    case RemoveChildren(c, p) => g.(edges := g.edges - {(c, p)})
    case Remove(n) => Plain(g.nodes - {n}, Induced(g.edges, g.nodes.Keys - {n}))
    case Rename(a, b) =>
      if a in g.nodes && b !in g.nodes then
        Plain(g.nodes[b := g.nodes[a]] - {a}, RenamedEdges(a, b, g.edges))
      else g
    case MergeRemove(o) => Plain(g.nodes - o.nodes.Keys, Induced(g.edges, g.nodes.Keys - o.nodes.Keys))
    case MergeAdd(o) => Plain(g.nodes + o.nodes, Avoiding(g.edges, Reassigned(g.nodes, o.nodes)) + o.edges)
  }

  /** Merged in the given order, the nodes of the other graph meet a cycle. */
  ghost predicate Blocked(g: Plain, other: Plain, order: seq<Name>)
  {
    && TopologicallySorted(other.edges, other.nodes.Keys, order)
    && !NeverCyclic(g.nodes, g.edges, other.edges, order, |order|)
  }

  /** `g'` can come out of the call. Only a merge that meets a cycle in some topological order of its
      nodes can stop halfway. */
  ghost predicate Follows(g: Plain, call: Call, g': Plain)
  {
    || g' == After(g, call)
    || (call.MergeAdd? && (exists order :: Blocked(g, call.other, order))
        && PartlyMerged(g.nodes, call.other.nodes, g'.nodes) && g'.edges <= g.edges + call.other.edges)
  }

  /** The states that a run goes through. */
  ghost predicate IsRun(states: seq<Plain>, calls: seq<Call>)
  {
    && |states| == |calls| + 1
    && forall i :: 0 <= i < |calls| ==> Admissible(states[i], calls[i]) && Follows(states[i], calls[i], states[i + 1])
  }

  lemma RunGrows(states: seq<Plain>, calls: seq<Call>, call: Call, g: Plain)
    requires IsRun(states, calls) && Admissible(states[|calls|], call) && Follows(states[|calls|], call, g)
    ensures IsRun(states + [g], calls + [call])
  {
  }

  /** The graph that a merge is given is the one that the call names. */
  ghost predicate Matches(call: Call, other: Graph)
    reads other
  {
    call.MergeRemove? || call.MergeAdd? ==> other.Valid() && call.other == Plain(other.nodes, other.Edges())
  }

  /** One call on the real graph. */
  method Step(g: Graph, call: Call, other: Graph)
    requires g.Valid() && other != g && Matches(call, other) && Admissible(Plain(g.nodes, g.Edges()), call)
    modifies g
    ensures g.Valid()
    ensures Follows(Plain(old(g.nodes), old(g.Edges())), call, Plain(g.nodes, g.Edges()))
  {
    hide Consistent, EdgesOf, Acyclic, Induced, RenamedEdges, Avoiding, Reassigned, PartlyMerged, NeverCyclic, TopologicallySorted;
    EdgeViews(g.nodes.Keys, g.children, g.parents, g.matrix);
    match call
    case AddNode(n, v) => g.AddNode(n, v);
    case AddChildren(c, p) => var r := g.AddChildren(c, p);
    case RemoveChildren(c, p) => g.RemoveChildren(c, p);
    case Remove(n) => g.Remove(n);
    case Rename(a, b) => var r := g.RenameNode(a, b);
    case MergeRemove(o) => g.MergeRemove(other);
    case MergeAdd(o) =>
      ghost var was := Plain(g.nodes, g.Edges());
      ghost var order;
      var r;
      r, order := g.MergeAdd(other);
      assert r.Err? ==> Blocked(was, o, order);
  }

  /** Carries out the calls up to the first that is not admissible. The graph goes through a run of the
      plain graph and, being valid, every entry of its matrix is the exact number of paths along the
      edges; no other graph changes. */
  method Run(g: Graph, calls: seq<Call>, others: seq<Graph>) returns (done: nat, ghost states: seq<Plain>)
    requires g.Valid() && |others| == |calls|
    requires forall i :: 0 <= i < |calls| ==> others[i] != g && Matches(calls[i], others[i])
    modifies g
    ensures g.Valid()
    ensures done <= |calls| && IsRun(states, calls[..done])
    ensures states[0] == Plain(old(g.nodes), old(g.Edges())) && states[done] == Plain(g.nodes, g.Edges())
    ensures done < |calls| ==> !Admissible(states[done], calls[done])
  {
    hide Consistent, EdgesOf, Follows;
    states := [Plain(g.nodes, g.Edges())];
    done := 0;
    while done < |calls|
      invariant g.Valid() && done <= |calls| && IsRun(states, calls[..done])
      invariant states[0] == Plain(old(g.nodes), old(g.Edges())) && states[done] == Plain(g.nodes, g.Edges())
      invariant forall i :: 0 <= i < |calls| ==> Matches(calls[i], others[i])
    {
      var ok := IsAdmissible(g, calls[done]);
      if !ok {
        return;
      }
      Step(g, calls[done], others[done]);
      assert calls[..done + 1] == calls[..done] + [calls[done]];
      RunGrows(states, calls[..done], calls[done], Plain(g.nodes, g.Edges()));
      states := states + [Plain(g.nodes, g.Edges())];
      done := done + 1;
    }
  }

  method IsAdmissible(g: Graph, call: Call) returns (b: bool)
    requires g.Valid()
    ensures b <==> Admissible(Plain(g.nodes, g.Edges()), call)
  {
    hide Consistent, EdgesOf, Acyclic;
    EdgeViews(g.nodes.Keys, g.children, g.parents, g.matrix);
    match call
    case AddChildren(c, p) => b := c in g.nodes || c == p;
    case RemoveChildren(c, p) => b := p in Row(g.parents, c) || !(c in g.nodes && p in g.nodes);
    case _ => b := true;
  }
}

/** How wide the matrix entries have to be.

The source keeps path counts in 64-bit integers, while `ResourceGraph` counts without bound. Sums
and products wrap consistently, so the 64-bit matrix is the exact matrix reduced to 64 bits, until
an edge is accepted that closes a cycle. That happens exactly if the number of paths from its
parent to its child is a positive multiple of 2^64; and counts grow exponentially, so a chain of 64
diamonds already is a graph on which it does.
*/
module IntegerWidth {
  import opened DependencyPaths
  import opened GraphRuns
  import opened ResourceGraph
  import opened Words

  /** The test of a 64-bit entry against zero is right exactly when the count is not a positive
      multiple of 2^64. */
  lemma EntryTestRight(e: set<Edge>, u: Name, v: Name, n: int)
    requires Counts(e, u, v, n)
    ensures (Wrap(n) != 0 <==> Reaches(e, u, v)) <==> (n == 0 || n % WORD != 0)
    ensures n < WORD ==> (Wrap(n) != 0 <==> Reaches(e, u, v))
  {
    CountsPositive(e, u, v, n);
  }

  // ----- runs of a 64-bit graph -----

  /** The calls on which a 64-bit graph does what the exact one does; renaming and merging are made
      of these. */
  ghost predicate Safe(counts: Matrix, call: Call)
  {
    match call
    case AddNode(_, _) => true
    case AddChildren(c, p) => var n := Entry(counts, p, c); c == p || n == 0 || n % WORD != 0
    case RemoveChildren(c, p) => true
    case Remove(_) => true
    case _ => false
  }

  /** The 64-bit cycle check accepts exactly the edges that keep the graph acyclic, as long as no
      positive multiple of 2^64 is among the counts it reads. */
  lemma CheckIsRight(names: set<Name>, children: Dependencies, parents: Dependencies, counts: Matrix, c: Name, p: Name)
    requires Consistent(names, children, parents, counts)
    ensures var n := Entry(counts, p, c);
      ((c != p && Wrap(n) == 0) <==> Acyclic(EdgesOf(children) + {(c, p)})) <==> (c == p || n == 0 || n % WORD != 0)
  {
    hide Acyclic, Reaches, EdgesOf;
    CycleCheck(names, children, parents, counts, c, p);
  }

  /** One call on a graph with 64-bit entries. */
  method Step64(g: Graph, call: Call, ghost counts: Matrix) returns (ghost counts': Matrix)
    requires g.Represents(Bits64, counts) && Admissible(Plain(g.nodes, g.Edges()), call)
    requires Safe(counts, call)
    modifies g
    ensures g.Represents(Bits64, counts')
    ensures Plain(g.nodes, g.Edges()) == After(Plain(old(g.nodes), old(g.Edges())), call)
  {
    hide Consistent, EdgesOf, Acyclic, Induced, Image, Wrap;
    match call
    case AddNode(n, v) =>
      counts' := g.AddCounted(n, v, Bits64, counts);
    case AddChildren(c, p) =>
      CheckIsRight(g.nodes.Keys, g.children, g.parents, counts, c, p);
      var r;
      r, counts' := g.Link(c, p, Bits64, counts);
    case RemoveChildren(c, p) =>
      counts' := g.Unlink(c, p, Bits64, counts);
    case Remove(n) =>
      counts' := g.Erase(n, Bits64, counts);
  }

  /** No call of the run links two nodes between which a positive multiple of 2^64 paths lead back. */
  ghost predicate SafeRun(states: seq<Plain>, calls: seq<Call>)
    requires IsRun(states, calls)
  {
    forall i :: 0 <= i < |calls| ==> SafeCall(states[i], calls[i])
  }

  ghost predicate SafeCall(g: Plain, call: Call)
  {
    match call
    case AddChildren(c, p) => c == p || forall n :: Counts(g.edges, p, c, n) ==> n == 0 || n % WORD != 0
    case Rename(_, _) => false
    case MergeRemove(_) => false
    case MergeAdd(_) => false
    case _ => true
  }

  lemma SafeCounts(g: Graph, counts: Matrix, call: Call)
    requires g.Represents(Bits64, counts) && SafeCall(Plain(g.nodes, g.Edges()), call)
    ensures Safe(counts, call)
  {
    hide Consistent, EdgesOf, Counts, Image;
    if call.AddChildren? {
      ConsistentFacts(g.nodes.Keys, g.children, g.parents, counts);
      if call.parent in counts {
        EntryCounts(g.Edges(), counts, call.parent, call.child);
      }
    }
  }

  /** In every such run a 64-bit graph does what the plain graph does, and its matrix is the exact
      matrix reduced to 64 bits. */
  method Run64(g: Graph, calls: seq<Call>, ghost counts: Matrix, ghost states: seq<Plain>) returns (ghost counts': Matrix)
    requires g.Represents(Bits64, counts)
    requires IsRun(states, calls) && SafeRun(states, calls) && states[0] == Plain(g.nodes, g.Edges())
    modifies g
    ensures g.Represents(Bits64, counts') && Plain(g.nodes, g.Edges()) == states[|calls|]
  {
    hide Consistent, EdgesOf, Image, Counts, Acyclic;
    counts' := counts;
    for i := 0 to |calls|
      invariant g.Represents(Bits64, counts') && Plain(g.nodes, g.Edges()) == states[i]
    {
      assert SafeCall(states[i], calls[i]) && Admissible(states[i], calls[i]) && Follows(states[i], calls[i], states[i + 1]);
      SafeCounts(g, counts', calls[i]);
      counts' := Step64(g, calls[i], counts');
    }
  }

  // ----- a chain of diamonds -----

  function Unary(i: nat): string
  {
    seq(i, _ => 'i')
  }

  function Hub(i: nat): Name { Name("", "", "", "hub", Unary(i)) }

  function Left(i: nat): Name { Name("", "", "", "left", Unary(i)) }

  function Right(i: nat): Name { Name("", "", "", "right", Unary(i)) }

  /** Each hub depends on the hub before it in two ways. */
  function Diamonds(k: nat): set<Edge>
  {
    if k == 0 then {}
    else
      Diamonds(k - 1) + {(Left(k - 1), Hub(k - 1))} + {(Right(k - 1), Hub(k - 1))} + {(Hub(k), Left(k - 1))} + {(Hub(k), Right(k - 1))}
  }

  /** The names of the first `k` diamonds. */
  predicate Early(x: Name, k: nat)
  {
    if x.remote == "hub" then |x.name| <= k else |x.name| < k
  }

  lemma {:induction false} DiamondsEarly(k: nat, x: Name, y: Name)
    requires (x, y) in Diamonds(k)
    ensures Early(x, k) && Early(y, k)
  {
    hide Early, Hub, Left, Right;
    EarlyNames(k);
    if k > 0 && (x, y) in Diamonds(k - 1) {
      DiamondsEarly(k - 1, x, y);
      EarlyGrows(x, k);
      EarlyGrows(y, k);
    }
  }

  lemma EarlyNames(k: nat)
    ensures k > 0 ==> Early(Left(k - 1), k) && Early(Right(k - 1), k) && Early(Hub(k - 1), k) && Early(Hub(k), k)
  {
  }

  lemma EarlyGrows(x: Name, k: nat)
    requires k > 0 && Early(x, k - 1)
    ensures Early(x, k)
  {
  }

  function Pow2(k: nat): nat
  {
    if k == 0 then 1 else 2 * Pow2(k - 1)
  }

  lemma NoWayIn(e: set<Edge>, u: Name, x: Name)
    requires forall y :: (y, x) !in e
    ensures u != x ==> Counts(e, u, x, 0)
    ensures Counts(e, x, x, 1)
  {
    forall w, s | IsPath(e, s, w, x)
      ensures |s| == 1
    {
      if |s| > 1 {
        EndEdges(e, s, w, x);
      }
    }
    CountsSelf(e, x);
    if u != x {
      assert !Reaches(e, u, x);
      CountsZero(e, u, x);
    }
  }

  lemma NoWayOut(e: set<Edge>, x: Name, v: Name)
    requires x != v && forall y :: (x, y) !in e
    ensures Counts(e, x, v, 0)
  {
    if Reaches(e, x, v) {
      var s :| IsPath(e, s, x, v);
      EndEdges(e, s, x, v);
    }
    CountsZero(e, x, v);
  }

  /** An edge from a name that nothing leads to: that name takes over the paths of its new parent,
      and the paths between other names stay. */
  lemma HangOn(e: set<Edge>, c: Name, p: Name, z: Name, had: int, n: int, u: Name, m: int)
    requires c != p && (c, p) !in e && forall y :: (y, c) !in e
    requires Counts(e, c, z, had) && Counts(e, p, z, n) && Counts(e, u, z, m) && u != c
    ensures Counts(e + {(c, p)}, c, z, had + n)
    ensures Counts(e + {(c, p)}, u, z, m)
  {
    NoWayIn(e, p, c);
    NoWayIn(e, u, c);
    CountsAddEdge(e, c, z, c, p, had, 1, n);
    CountsAddEdge(e, u, z, c, p, m, 0, n);
  }

  /** There are 2^k ways down a chain of `k` diamonds. */
  lemma {:induction false} DiamondsCount(k: nat)
    ensures Counts(Diamonds(k), Hub(k), Hub(0), Pow2(k))
  {
    hide Counts, Early, Untouched, Hub, Left, Right;
    if k == 0 {
      NoWayIn({}, Hub(0), Hub(0));
    } else {
      LateNames(k);
      DiamondsCount(k - 1);
      NotYet(k, Left(k - 1));
      NotYet(k, Right(k - 1));
      NotYet(k, Hub(k));
      OneDiamond(Diamonds(k - 1), Hub(k - 1), Left(k - 1), Right(k - 1), Hub(k), Hub(0), Pow2(k - 1));
    }
  }

  ghost predicate Untouched(e: set<Edge>, x: Name)
  {
    forall y :: (y, x) !in e && (x, y) !in e
  }

  /** Hanging one more diamond on `h` doubles the number of ways to `z`. */
  lemma OneDiamond(e: set<Edge>, h: Name, l: Name, r: Name, t: Name, z: Name, n: int)
    requires Untouched(e, l) && Untouched(e, r) && Untouched(e, t)
    requires l != r && l != t && r != t && h != l && h != r && h != t && z != l && z != r && z != t
    requires Counts(e, h, z, n)
    ensures Counts(e + {(l, h)} + {(r, h)} + {(t, l)} + {(t, r)}, t, z, 2 * n)
  {
    hide Counts;
    NoWayOut(e, l, z);
    HangOn(e, l, h, z, 0, n, h, n);
    var e1 := e + {(l, h)};
    NoWayOut(e1, r, z);
    HangOn(e1, r, h, z, 0, n, l, n);
    var e2 := e1 + {(r, h)};
    NoWayOut(e2, t, z);
    HangOn(e2, t, l, z, 0, n, r, n);
    HangOn(e2 + {(t, l)}, t, r, z, n, n, r, n);
  }

  lemma LateNames(k: nat)
    requires k > 0
    ensures !Early(Left(k - 1), k - 1) && !Early(Right(k - 1), k - 1) && !Early(Hub(k), k - 1)
    ensures Hub(k) != Hub(0) && Hub(k) != Hub(k - 1)
    ensures var l, r := Left(k - 1), Right(k - 1);
      l != r && forall i: nat :: Hub(i) != l && Hub(i) != r
  {
  }

  lemma NotYet(k: nat, x: Name)
    requires k > 0 && !Early(x, k - 1)
    ensures Untouched(Diamonds(k - 1), x)
  {
    forall y
      ensures (y, x) !in Diamonds(k - 1) && (x, y) !in Diamonds(k - 1)
    {
      if (y, x) in Diamonds(k - 1) {
        DiamondsEarly(k - 1, y, x);
      }
      if (x, y) in Diamonds(k - 1) {
        DiamondsEarly(k - 1, x, y);
      }
    }
  }

  lemma {:induction false} Pow2Add(a: nat, b: nat)
    ensures Pow2(a + b) == Pow2(a) * Pow2(b)
  {
    if a > 0 {
      Pow2Add(a - 1, b);
      Doubled(Pow2(a - 1), Pow2(b));
      assert Pow2(a + b) == 2 * Pow2(a - 1 + b);
    }
  }

  lemma Doubled(x: int, y: int)
    ensures 2 * (x * y) == (2 * x) * y
  {
  }

  lemma Pow2Word(k: nat)
    requires k == 64
    ensures Pow2(k) == WORD
  {
    hide Pow2;
    var a, b := k / 2, k / 4;
    Pow2Byte(k / 8);
    Pow2Add(k / 8, k / 8);
    Pow2Add(b, b);
    Pow2Add(a, a);
  }

  lemma Pow2Byte(k: nat)
    requires k == 8
    ensures Pow2(k) == 256
  {
  }

  /** A chain of diamonds has no cycle. */
  lemma {:induction false} DiamondsAcyclic(k: nat)
    ensures Acyclic(Diamonds(k))
  {
    hide Acyclic, Early, Untouched, Hub, Left, Right;
    if k == 0 {
      NoEdgesAcyclic();
    } else {
      LateNames(k);
      DiamondsAcyclic(k - 1);
      NotYet(k, Left(k - 1));
      NotYet(k, Right(k - 1));
      NotYet(k, Hub(k));
      OneDiamondAcyclic(Diamonds(k - 1), Hub(k - 1), Left(k - 1), Right(k - 1), Hub(k));
    }
  }

  lemma NoEdgesAcyclic()
    ensures Acyclic({})
  {
    forall s, u | IsPath({}, s, u, u)
      ensures |s| == 1
    {
      if |s| > 1 {
        EndEdges({}, s, u, u);
      }
    }
  }

  /** Each of the four edges of a diamond keeps the graph acyclic. */
  lemma OneDiamondAcyclic(e: set<Edge>, h: Name, l: Name, r: Name, t: Name)
    requires Acyclic(e) && Untouched(e, l) && Untouched(e, r) && Untouched(e, t)
    requires l != r && l != t && r != t && h != l && h != r && h != t
    ensures Acyclic(e + {(l, h)}) && Acyclic(e + {(l, h)} + {(r, h)}) && Acyclic(e + {(l, h)} + {(r, h)} + {(t, l)})
    ensures Acyclic(e + {(l, h)} + {(r, h)} + {(t, l)} + {(t, r)})
  {
    hide Acyclic;
    HangAcyclic(e, l, h);
    HangAcyclic(e + {(l, h)}, r, h);
    HangAcyclic(e + {(l, h)} + {(r, h)}, t, l);
    HangAcyclic(e + {(l, h)} + {(r, h)} + {(t, l)}, t, r);
  }

  lemma HangAcyclic(e: set<Edge>, c: Name, p: Name)
    requires Acyclic(e) && c != p && forall y :: (y, c) !in e
    ensures Acyclic(e + {(c, p)})
  {
    hide Acyclic, Reaches, Counts;
    AcyclicAddEdge(e, c, p);
    NoWayIn(e, p, c);
    CountsPositive(e, p, c, 0);
  }

  /** Builds a chain of `k` diamonds call by call in a 64-bit graph. */
  method BuildDiamonds(k: nat) returns (g: Graph, ghost counts: Matrix)
    ensures fresh(g) && g.Represents(Bits64, counts)
    ensures g.Edges() == Diamonds(k) && Hub(0) in g.nodes && Hub(k) in g.nodes
  {
    hide Consistent, EdgesOf, Image, Acyclic, Early, Untouched, WithNode;
    g := new Graph();
    counts := g.matrix;
    EmptyImage(counts);
    NoEdgesAcyclic();
    counts := g.AddCounted(Hub(0), Nil, Bits64, counts);
    for i := 0 to k
      invariant g.Represents(Bits64, counts) && fresh(g)
      invariant g.Edges() == Diamonds(i) && Hub(0) in g.nodes && Hub(i) in g.nodes
    {
      counts := AddDiamond(g, counts, i);
    }
  }

  lemma EmptyImage(m: Matrix)
    requires m == map[]
    ensures Image(Bits64, m) == m
  {
  }

  method AddDiamond(g: Graph, ghost counts: Matrix, i: nat) returns (ghost counts': Matrix)
    requires g.Represents(Bits64, counts) && g.Edges() == Diamonds(i) && Hub(i) in g.nodes
    modifies g
    ensures g.Represents(Bits64, counts') && g.Edges() == Diamonds(i + 1)
    ensures old(g.nodes).Keys <= g.nodes.Keys && Hub(i + 1) in g.nodes
  {
    hide Consistent, EdgesOf, Image, Acyclic, Early, Untouched, WithNode;
    var h, l, r, t := Hub(i), Left(i), Right(i), Hub(i + 1);
    LateNames(i + 1);
    DiamondsAcyclic(i);
    NotYet(i + 1, l);
    NotYet(i + 1, r);
    NotYet(i + 1, t);
    OneDiamondAcyclic(Diamonds(i), h, l, r, t);
    counts' := g.AddCounted(l, Nil, Bits64, counts);
    counts' := g.AddCounted(r, Nil, Bits64, counts');
    counts' := g.AddCounted(t, Nil, Bits64, counts');
    counts' := LinkSafely(g, counts', l, h);
    counts' := LinkSafely(g, counts', r, h);
    counts' := LinkSafely(g, counts', t, l);
    counts' := LinkSafely(g, counts', t, r);
  }

  /** An edge that keeps the graph acyclic is always accepted. */
  method LinkSafely(g: Graph, ghost counts: Matrix, c: Name, p: Name) returns (ghost counts': Matrix)
    requires g.Represents(Bits64, counts) && c in g.nodes && p in g.nodes && Acyclic(g.Edges() + {(c, p)})
    modifies g
    ensures g.Represents(Bits64, counts') && g.Edges() == old(g.Edges()) + {(c, p)} && g.nodes == old(g.nodes)
  {
    hide Consistent, EdgesOf, Image, Acyclic, Reaches;
    CycleCheck(g.nodes.Keys, g.children, g.parents, counts, c, p);
    var r;
    r, counts' := g.Link(c, p, Bits64, counts);
  }

  /** After 64 diamonds the 64-bit graph accepts an edge that closes a cycle. */
  method CycleAccepted(k: nat) returns (g: Graph, r: Outcome)
    requires k == 64
    ensures r == Ok && !Acyclic(g.Edges())
  {
    hide Consistent, EdgesOf, Image, Acyclic, Reaches, Counts, Wrap;
    ghost var counts;
    g, counts := BuildDiamonds(k);
    WayBack(g, counts, k);
    r, counts := g.Link(Hub(0), Hub(k), Bits64, counts);
  }

  lemma WayBack(g: Graph, counts: Matrix, k: nat)
    requires k == 64 && g.Represents(Bits64, counts) && g.Edges() == Diamonds(k) && Hub(k) in g.nodes
    ensures Hub(0) != Hub(k) && Entry(counts, Hub(k), Hub(0)) == WORD && Wrap(WORD) == 0
    ensures !Acyclic(g.Edges() + {(Hub(0), Hub(k))})
  {
    hide Consistent, EdgesOf, Image, Acyclic, Reaches, Counts;
    LateNames(k);
    ConsistentFacts(g.nodes.Keys, g.children, g.parents, counts);
    EntryCounts(g.Edges(), counts, Hub(k), Hub(0));
    DiamondsCount(k);
    Pow2Word(k);
    CountsUnique(g.Edges(), Hub(k), Hub(0), Entry(counts, Hub(k), Hub(0)), WORD);
    CountsPositive(g.Edges(), Hub(k), Hub(0), WORD);
    AcyclicAddEdge(g.Edges(), Hub(0), Hub(k));
  }
}

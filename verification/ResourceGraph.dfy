/** The resource dependency graph.

`Graph` keeps a set of named nodes, two mirrored adjacency maps, and a "transitive closure
matrix". `Valid` says what the matrix is: each entry is the exact number of dependency paths
between its two names. Every operation keeps `Valid`, for any order in which the maps are
iterated, so it holds in every state that any sequence of operations can produce.
*/
module ResourceGraph {
  import opened DependencyPaths
  import opened Sequences
  import opened Words

  /** The value attached to a node; `Nil` is the nil interface. */
  datatype Value = Nil | Iface(id: int)

  datatype Error = SelfDependency | CircularDependency | OldNodeMissing | NewNodeExists | NodeMissing

  datatype Outcome = Ok | Err(error: Error)

  type Dependencies = map<Name, set<Name>>

  type Matrix = map<Name, map<Name, int>>

  // ----- the maps -----

  /** Go's reading of a missing key in a map of sets. */
  function Row(d: Dependencies, k: Name): set<Name>
  {
    if k in d then d[k] else {}
  }

  /** Go's reading of the matrix: a missing row or column reads as zero. */
  function Entry(m: Matrix, u: Name, v: Name): int
  {
    if u in m && v in m[u] then m[u][v] else 0
  }

  ghost function EdgesOf(children: Dependencies): set<Edge>
  {
    set p, c | p in children && c in children[p] :: (c, p)
  }

  ghost predicate NoEmptySet(d: Dependencies)
  {
    forall k :: k in d ==> d[k] != {}
  }

  ghost predicate Mirrored(children: Dependencies, parents: Dependencies)
  {
    forall c, p :: c in Row(children, p) <==> p in Row(parents, c)
  }

  ghost predicate Within(e: set<Edge>, names: set<Name>)
  {
    forall c, p :: (c, p) in e ==> c in names && p in names
  }

  /** Every row has a column for every row name. */
  ghost predicate CoversRows(m: Matrix)
  {
    forall u, v :: u in m && v in m ==> v in m[u]
  }

  /** Every entry, including those in columns left behind by deleted nodes, is the number of paths. */
  ghost predicate Exact(e: set<Edge>, m: Matrix)
  {
    forall u, v :: u in m && v in m[u] ==> Counts(e, u, v, m[u][v])
  }

  ghost predicate MatrixFits(e: set<Edge>, m: Matrix)
  {
    && Within(e, m.Keys)
    && Acyclic(e)
    && CoversRows(m)
    && Exact(e, m)
  }

  /** The matrix after `k` times the product of the child's column and the parent's row is added,
      every entry computed from the matrix as it was before. */
  ghost function Shifted(m: Matrix, c: Name, p: Name, k: int): Matrix
  {
    map u | u in m :: map v | v in m[u] :: m[u][v] + k * (Entry(m, u, c) * Entry(m, p, v))
  }

  // ----- entries of any width -----

  /** The matrix with every entry reduced to a width. */
  ghost function Image(w: Width, m: Matrix): Matrix
  {
    map u | u in m :: map v | v in m[u] :: Reduce(w, m[u][v])
  }

  /** Every entry has the right width. */
  ghost predicate Stable(w: Width, m: Matrix)
  {
    forall u, v :: u in m && v in m[u] ==> Reduce(w, m[u][v]) == m[u][v]
  }

  /** `Shifted` in the arithmetic of the entries. */
  ghost function ShiftedBy(w: Width, m: Matrix, c: Name, p: Name, k: int): Matrix
  {
    map u | u in m :: map v | v in m[u] :: Update(w, m[u][v], Entry(m, u, c), Entry(m, p, v), k)
  }

  ghost predicate SameShape(m: Matrix, m': Matrix)
  {
    m'.Keys == m.Keys && forall u :: u in m ==> m'[u].Keys == m[u].Keys
  }

  lemma SameMatrix(m: Matrix, m': Matrix)
    requires SameShape(m, m') && forall u, v :: u in m && v in m[u] ==> m'[u][v] == m[u][v]
    ensures m' == m
  {
    assert forall u :: u in m ==> m'[u] == m[u];
  }

  /** What the in-place loop makes of the matrix, whatever its order: the same shape; what `ShiftedBy`
      says if the parent does not depend on the child; and in any case the entry between these two
      computed from itself. */
  ghost predicate ShiftedInPlace(w: Width, m: Matrix, m': Matrix, c: Name, p: Name, k: int)
  {
    && SameShape(m, m')
    && (Entry(m, p, c) == 0 ==> m' == ShiftedBy(w, m, c, p, k))
    && (p in m && c in m[p] ==> m'[p][c] == Update(w, m[p][c], m[p][c], m[p][c], k))
  }

  lemma ShiftedByAt(w: Width, m: Matrix, c: Name, p: Name, k: int)
    ensures SameShape(m, ShiftedBy(w, m, c, p, k))
    ensures forall u, v :: u in m && v in m[u] ==>
      ShiftedBy(w, m, c, p, k)[u][v] == Update(w, m[u][v], Entry(m, u, c), Entry(m, p, v), k)
  {
    hide Update;
  }

  lemma ShiftedAt(m: Matrix, c: Name, p: Name, k: int)
    ensures SameShape(m, Shifted(m, c, p, k))
    ensures forall u, v :: u in m && v in m[u] ==>
      Shifted(m, c, p, k)[u][v] == m[u][v] + k * (Entry(m, u, c) * Entry(m, p, v))
  {
  }

  lemma ImageAt(w: Width, m: Matrix)
    ensures SameShape(m, Image(w, m))
    ensures forall u, v :: u in m && v in m[u] ==> Image(w, m)[u][v] == Reduce(w, m[u][v])
  {
    hide Reduce;
  }

  lemma ImageEntry(w: Width, m: Matrix, u: Name, v: Name)
    ensures Entry(Image(w, m), u, v) == Reduce(w, Entry(m, u, v))
  {
    hide Reduce;
    ReduceSmall(w);
  }

  lemma ImageStable(w: Width, m: Matrix)
    ensures Stable(w, Image(w, m)) && Image(w, m).Keys == m.Keys
  {
    hide Reduce;
    forall u, v | u in m && v in m[u]
      ensures Reduce(w, Reduce(w, m[u][v])) == Reduce(w, m[u][v])
    {
      ReduceTwice(w, m[u][v]);
    }
  }

  /** While a row is updated, what the next step reads is still as it was. */
  lemma RowSoFar(w: Width, was: Matrix, m: Matrix, u: Name, vs: set<Name>, c: Name, p: Name, k: int)
    requires Stable(w, was) && u in was && u in m && m[u].Keys == was[u].Keys && vs <= was[u].Keys
    requires forall v :: v in vs ==> m[u][v] == was[u][v]
    requires Entry(was, p, c) == 0 ==> forall v :: v in was[u] && v !in vs ==>
      m[u][v] == Update(w, was[u][v], Entry(was, u, c), Entry(was, p, v), k)
    requires Entry(was, p, c) == 0 && p != u ==> forall v :: Entry(m, p, v) == Entry(was, p, v)
    ensures Entry(was, p, c) == 0 ==> Entry(m, u, c) == Entry(was, u, c) && forall v :: Entry(m, p, v) == Entry(was, p, v)
  {
    hide Update, Reduce;
    if Entry(was, p, c) == 0 {
      forall v | v in was[u] && (v == c || p == u)
        ensures m[u][v] == was[u][v]
      {
        UpdateNone(w, was[u][v], if p == u then 0 else Entry(was, u, c), if p == u then Entry(was, p, v) else 0, k);
      }
    }
  }

  lemma UnlimitedFits(m: Matrix)
    ensures Stable(Unlimited, m) && Image(Unlimited, m) == m
  {
    SameMatrix(m, Image(Unlimited, m));
  }

  lemma ShiftedUnlimited(m: Matrix, c: Name, p: Name, k: int)
    ensures ShiftedBy(Unlimited, m, c, p, k) == Shifted(m, c, p, k)
  {
    hide ShiftedBy, Shifted, Entry, Update;
    ShiftedByAt(Unlimited, m, c, p, k);
    ShiftedAt(m, c, p, k);
    var a, b := Shifted(m, c, p, k), ShiftedBy(Unlimited, m, c, p, k);
    forall u, v | u in a && v in a[u]
      ensures b[u][v] == a[u][v]
    {
      UpdateUnlimited(m[u][v], Entry(m, u, c), Entry(m, p, v), k);
    }
    SameMatrix(a, b);
  }

  lemma ParentRowKept(w: Width, m: Matrix, c: Name, p: Name, k: int)
    requires Stable(w, m)
    ensures ShiftedBy(w, m, c, p, k).Keys == m.Keys
    ensures Entry(m, p, c) == 0 && p in m ==> ShiftedBy(w, m, c, p, k)[p] == m[p]
  {
    hide ShiftedBy, Update, Reduce;
    ShiftedByAt(w, m, c, p, k);
    if Entry(m, p, c) == 0 && p in m {
      forall v | v in m[p]
        ensures ShiftedBy(w, m, c, p, k)[p][v] == m[p][v]
      {
        UpdateNone(w, m[p][v], 0, Entry(m, p, v), k);
      }
    }
  }

  /** The update of the reduced matrix is the reduced update of the matrix. */
  lemma ImageShifts(w: Width, m: Matrix, c: Name, p: Name, k: int)
    requires k == 1 || k == -1
    ensures ShiftedBy(w, Image(w, m), c, p, k) == Image(w, Shifted(m, c, p, k))
  {
    hide ShiftedBy, Shifted, Image, Entry, Reduce, Update;
    ShiftedAt(m, c, p, k);
    ImageAt(w, m);
    ImageAt(w, Shifted(m, c, p, k));
    ShiftedByAt(w, Image(w, m), c, p, k);
    forall u, v | u in m && v in m[u]
      ensures ShiftedBy(w, Image(w, m), c, p, k)[u][v] == Image(w, Shifted(m, c, p, k))[u][v]
    {
      ImageEntry(w, m, u, c);
      ImageEntry(w, m, p, v);
      UpdateReduces(w, m[u][v], Entry(m, u, c), Entry(m, p, v), k);
    }
    SameMatrix(Image(w, Shifted(m, c, p, k)), ShiftedBy(w, Image(w, m), c, p, k));
  }

  lemma WithNodeKeys(m: Matrix, node: Name, u: Name)
    ensures WithNode(m, node).Keys == m.Keys + {node}
    ensures u in WithNode(m, node) ==>
      WithNode(m, node)[u].Keys == (if u in m then m[u].Keys else {}) + m.Keys + {node}
  {
  }

  lemma WithNodeAt(m: Matrix, node: Name, u: Name, v: Name)
    requires u in WithNode(m, node) && v in WithNode(m, node)[u]
    ensures WithNode(m, node)[u][v] == if u == node && v == node then 1 else Entry(m, u, v)
  {
  }

  lemma ImageWithNode(w: Width, m: Matrix, node: Name)
    ensures WithNode(Image(w, m), node) == Image(w, WithNode(m, node))
  {
    hide WithNode, Image, Entry, Reduce;
    ReduceSmall(w);
    ImageAt(w, m);
    ImageAt(w, WithNode(m, node));
    var a, b := WithNode(Image(w, m), node), Image(w, WithNode(m, node));
    WithNodeKeys(m, node, node);
    WithNodeKeys(Image(w, m), node, node);
    forall u | u in b
      ensures a[u].Keys == b[u].Keys
    {
      WithNodeKeys(m, node, u);
      WithNodeKeys(Image(w, m), node, u);
    }
    forall u, v | u in b && v in b[u]
      ensures a[u][v] == b[u][v]
    {
      WithNodeAt(m, node, u, v);
      WithNodeAt(Image(w, m), node, u, v);
      ImageEntry(w, m, u, v);
    }
    SameMatrix(b, a);
  }

  lemma ImageWithoutRow(w: Width, m: Matrix, node: Name)
    ensures Image(w, m) - {node} == Image(w, m - {node})
  {
    hide Reduce;
  }

  // ----- the matrix under a change of one edge -----

  /** An entry read from the matrix is the number of paths, whether or not it is present. */
  lemma EntryCounts(e: set<Edge>, m: Matrix, u: Name, v: Name)
    requires MatrixFits(e, m) && u in m
    ensures Counts(e, u, v, Entry(m, u, v))
  {
    if v !in m[u] {
      if Reaches(e, u, v) {
        var s :| IsPath(e, s, u, v);
        if |s| > 1 {
          EndEdges(e, s, u, v);
        }
      }
      CountsZero(e, u, v);
    }
  }

  lemma EntryDecides(e: set<Edge>, m: Matrix, u: Name, v: Name)
    requires MatrixFits(e, m) && u in m
    ensures Entry(m, u, v) != 0 <==> Reaches(e, u, v)
  {
    EntryCounts(e, m, u, v);
    CountsPositive(e, u, v, Entry(m, u, v));
  }

  lemma AddedEntry(e: set<Edge>, m: Matrix, c: Name, p: Name, u: Name, v: Name)
    requires MatrixFits(e, m) && c in m && p in m && u in m && v in m[u]
    requires (c, p) !in e && Counts(e, p, c, 0)
    ensures Counts(e + {(c, p)}, u, v, m[u][v] + Entry(m, u, c) * Entry(m, p, v))
  {
    EntryCounts(e, m, u, c);
    EntryCounts(e, m, p, v);
    CountsAddEdge(e, u, v, c, p, m[u][v], Entry(m, u, c), Entry(m, p, v));
  }

  lemma RemovedEntry(e: set<Edge>, m: Matrix, c: Name, p: Name, u: Name, v: Name)
    requires MatrixFits(e, m) && c in m && p in m && u in m && v in m[u]
    requires (c, p) in e && Counts(e, p, c, 0)
    ensures Counts(e - {(c, p)}, u, v, m[u][v] - Entry(m, u, c) * Entry(m, p, v))
  {
    EntryCounts(e, m, u, c);
    EntryCounts(e, m, p, v);
    CountsRemoveEdge(e, u, v, c, p, m[u][v], Entry(m, u, c), Entry(m, p, v));
  }

  /** Adding the product turns the exact matrix into the exact matrix with the edge. */
  lemma ShiftedAddsEdge(e: set<Edge>, m: Matrix, c: Name, p: Name)
    requires MatrixFits(e, m) && c in m && p in m
    requires (c, p) !in e && !Reaches(e, p, c)
    ensures MatrixFits(e + {(c, p)}, Shifted(m, c, p, 1))
    ensures Shifted(m, c, p, 1).Keys == m.Keys
  {
    hide Counts, Acyclic, Reaches;
    AcyclicAddEdge(e, c, p);
    CountsZero(e, p, c);
    var e', m' := e + {(c, p)}, Shifted(m, c, p, 1);
    assert Exact(e', m') by {
      forall u, v | u in m' && v in m'[u]
        ensures Counts(e', u, v, m'[u][v])
      {
        AddedEntry(e, m, c, p, u, v);
      }
    }
  }

  /** Subtracting the product turns it into the exact matrix without the edge. */
  lemma ShiftedRemovesEdge(e: set<Edge>, m: Matrix, c: Name, p: Name)
    requires MatrixFits(e, m) && (c, p) in e
    ensures Entry(m, p, c) == 0
    ensures MatrixFits(e - {(c, p)}, Shifted(m, c, p, -1))
    ensures Shifted(m, c, p, -1).Keys == m.Keys
  {
    hide Counts, Acyclic, Reaches;
    AcyclicSubset(e - {(c, p)}, e);
    EdgeExcludesReturn(e, c, p);
    CountsZero(e, p, c);
    EntryDecides(e, m, p, c);
    var e', m' := e - {(c, p)}, Shifted(m, c, p, -1);
    assert Exact(e', m') by {
      forall u, v | u in m' && v in m'[u]
        ensures Counts(e', u, v, m'[u][v])
      {
        RemovedEntry(e, m, c, p, u, v);
      }
    }
  }

  /** Taking away the paths through an edge that is not there leaves the matrix exact if and only if
      one of the two names is not a node; otherwise an entry comes out wrong in every order. */
  lemma RemovingAbsentEdge(e: set<Edge>, m: Matrix, m': Matrix, c: Name, p: Name)
    requires MatrixFits(e, m) && (c, p) !in e && ShiftedInPlace(Unlimited, m, m', c, p, -1)
    ensures MatrixFits(e, m') <==> !(c in m && p in m)
  {
    hide Counts, Acyclic, Reaches, ShiftedBy, Shifted, Update;
    if c in m && p in m {
      if Entry(m, p, c) == 0 {
        ShiftedUnlimited(m, c, p, -1);
        ShiftedAt(m, c, p, -1);
        SelfEntry(e, m, c);
        SelfEntry(e, m, p);
        OtherCount(e, c, p, m[c][p], m'[c][p]);
      } else {
        UpdateUnlimited(m[p][c], m[p][c], m[p][c], -1);
        NotItsSquare(m[p][c]);
        OtherCount(e, p, c, m[p][c], m'[p][c]);
      }
    } else {
      NothingSubtracted(e, m, c, p);
    }
  }

  lemma NothingSubtracted(e: set<Edge>, m: Matrix, c: Name, p: Name)
    requires MatrixFits(e, m) && !(c in m && p in m)
    ensures Entry(m, p, c) == 0 && ShiftedBy(Unlimited, m, c, p, -1) == m
  {
    hide MatrixFits, ShiftedBy, Shifted, Update, Reduce;
    ShiftedByAt(Unlimited, m, c, p, -1);
    UnlimitedFits(m);
    if c !in m && p in m {
      StrangerEntry(e, m, p, c);
    }
    forall u, v | u in m && v in m[u]
      ensures ShiftedBy(Unlimited, m, c, p, -1)[u][v] == m[u][v]
    {
      if c !in m {
        StrangerEntry(e, m, u, c);
      }
      UpdateNone(Unlimited, m[u][v], Entry(m, u, c), Entry(m, p, v), -1);
    }
    SameMatrix(m, ShiftedBy(Unlimited, m, c, p, -1));
  }

  lemma OtherCount(e: set<Edge>, u: Name, v: Name, n: int, n': int)
    requires Counts(e, u, v, n) && n != n'
    ensures !Counts(e, u, v, n')
  {
    if Counts(e, u, v, n') {
      CountsUnique(e, u, v, n, n');
    }
  }

  lemma NotItsSquare(k: int)
    requires k != 0
    ensures k - k * k != k
  {
  }

  lemma SelfEntry(e: set<Edge>, m: Matrix, u: Name)
    requires MatrixFits(e, m) && u in m
    ensures Entry(m, u, u) == 1
  {
    CountsSelf(e, u);
    CountsUnique(e, u, u, m[u][u], 1);
  }

  lemma StrangerEntry(e: set<Edge>, m: Matrix, u: Name, v: Name)
    requires MatrixFits(e, m) && u in m && v !in m
    ensures Entry(m, u, v) == 0
  {
    EntryDecides(e, m, u, v);
    if Reaches(e, u, v) {
      var s :| IsPath(e, s, u, v);
      EndEdges(e, s, u, v);
    }
  }

  lemma EdgeExcludesReturn(e: set<Edge>, c: Name, p: Name)
    requires Acyclic(e) && (c, p) in e
    ensures !Reaches(e, p, c) && c != p
  {
    assert IsPath(e, [c, p], c, p);
    if Reaches(e, p, c) {
      var s :| IsPath(e, s, p, c);
      JoinPaths(e, [c, p], s, c, p, c);
    }
  }

  // ----- adding and dropping a row -----

  /** Every row completed with a zero for each row name it lacks. */
  ghost function Filled(m: Matrix): Matrix
  {
    map u | u in m :: map v | v in m[u].Keys + m.Keys :: Entry(m, u, v)
  }

  lemma FilledKeys(m: Matrix)
    ensures Filled(m).Keys == m.Keys
  {
  }

  ghost function WithRow(m: Matrix, node: Name): Matrix
  {
    if node in m then m else m[node := map[]]
  }

  ghost function WithNode(m: Matrix, node: Name): Matrix
  {
    var f := Filled(WithRow(m, node));
    f[node := f[node][node := 1]]
  }

  /** A new node has a fresh row, and every stale column it takes over already holds the count. */
  lemma WithNodeFits(e: set<Edge>, m: Matrix, node: Name)
    requires MatrixFits(e, m)
    ensures MatrixFits(e, WithNode(m, node))
  {
    var m' := WithNode(m, node);
    forall u, v | u in m' && v in m'[u]
      ensures Counts(e, u, v, m'[u][v])
    {
      if u == node && v == node {
        CountsSelf(e, node);
      } else if u in m {
        EntryCounts(e, m, u, v);
      } else {
        if Reaches(e, u, v) {
          var s :| IsPath(e, s, u, v);
          if |s| > 1 {
            EndEdges(e, s, u, v);
          }
        }
        CountsZero(e, u, v);
      }
    }
  }

  /** Dropping the row of a name without edges leaves its column behind, holding zeros. */
  lemma WithoutRowFits(e: set<Edge>, m: Matrix, node: Name)
    requires MatrixFits(e, m)
    requires Within(e, m.Keys - {node})
    ensures MatrixFits(e, m - {node})
  {
  }

  // ----- the adjacency maps under a change of one edge -----

  function WithRes(d: Dependencies, key: Name, node: Name): Dependencies
  {
    d[key := Row(d, key) + {node}]
  }

  function WithoutRes(d: Dependencies, key: Name, node: Name): Dependencies
  {
    if key in d then
      if d[key] - {node} == {} then d - {key} else d[key := d[key] - {node}]
    else d
  }

  lemma WithResRows(d: Dependencies, key: Name, node: Name)
    requires NoEmptySet(d)
    ensures NoEmptySet(WithRes(d, key, node))
    ensures forall k, x :: x in Row(WithRes(d, key, node), k) <==> x in Row(d, k) || (k == key && x == node)
  {
  }

  lemma WithoutResRows(d: Dependencies, key: Name, node: Name)
    requires NoEmptySet(d)
    ensures NoEmptySet(WithoutRes(d, key, node))
    ensures forall k, x :: x in Row(WithoutRes(d, key, node), k) <==> x in Row(d, k) && !(k == key && x == node)
  {
  }

  lemma EdgesAreRows(d: Dependencies)
    ensures forall c, p :: (c, p) in EdgesOf(d) <==> c in Row(d, p)
  {
  }

  lemma WithResEdges(d: Dependencies, parent: Name, child: Name)
    requires NoEmptySet(d)
    ensures EdgesOf(WithRes(d, parent, child)) == EdgesOf(d) + {(child, parent)}
  {
  }

  lemma WithoutResEdges(d: Dependencies, parent: Name, child: Name)
    requires NoEmptySet(d)
    ensures EdgesOf(WithoutRes(d, parent, child)) == EdgesOf(d) - {(child, parent)}
  {
    WithoutResRows(d, parent, child);
    EdgesAreRows(d);
    EdgesAreRows(WithoutRes(d, parent, child));
  }

  /** `node` taken out of every set, and every set this empties taken out of the map. */
  ghost function Stripped(d: Dependencies, node: Name): Dependencies
  {
    map k | k in d && d[k] != {node} :: d[k] - {node}
  }

  lemma StrippedRows(d: Dependencies, node: Name)
    requires NoEmptySet(d)
    ensures NoEmptySet(Stripped(d, node) - {node})
    ensures forall k, x :: x in Row(Stripped(d, node) - {node}, k) <==> x in Row(d, k) && x != node && k != node
  {
  }

  lemma StrippedEdges(d: Dependencies, node: Name, names: set<Name>)
    requires NoEmptySet(d) && Within(EdgesOf(d), names)
    ensures EdgesOf(Stripped(d, node) - {node}) == Induced(EdgesOf(d), names - {node})
  {
  }

  // ----- the whole state under each change -----

  ghost predicate Consistent(names: set<Name>, children: Dependencies, parents: Dependencies, m: Matrix)
  {
    && m.Keys == names
    && NoEmptySet(children) && NoEmptySet(parents)
    && Mirrored(children, parents)
    && MatrixFits(EdgesOf(children), m)
  }

  lemma LinkConsistent(names: set<Name>, children: Dependencies, parents: Dependencies, m: Matrix, c: Name, p: Name)
    requires Consistent(names, children, parents, m) && c in names && p in names
    requires p !in Row(parents, c) && Entry(m, p, c) == 0
    ensures Consistent(names, WithRes(children, p, c), WithRes(parents, c, p), Shifted(m, c, p, 1))
    ensures EdgesOf(WithRes(children, p, c)) == EdgesOf(children) + {(c, p)}
  {
    hide MatrixFits, Shifted, EdgesOf, WithRes;
    EdgesAreRows(children);
    EntryDecides(EdgesOf(children), m, p, c);
    ShiftedAddsEdge(EdgesOf(children), m, c, p);
    WithResEdges(children, p, c);
    WithResRows(children, p, c);
    WithResRows(parents, c, p);
  }

  lemma UnlinkConsistent(names: set<Name>, children: Dependencies, parents: Dependencies, m: Matrix, c: Name, p: Name)
    requires Consistent(names, children, parents, m) && (c, p) in EdgesOf(children)
    ensures Entry(m, p, c) == 0
    ensures Consistent(names, WithoutRes(children, p, c), WithoutRes(parents, c, p), Shifted(m, c, p, -1))
    ensures EdgesOf(WithoutRes(children, p, c)) == EdgesOf(children) - {(c, p)}
  {
    hide MatrixFits, Shifted, EdgesOf, WithoutRes;
    ShiftedRemovesEdge(EdgesOf(children), m, c, p);
    WithoutResEdges(children, p, c);
    WithoutResRows(children, p, c);
    WithoutResRows(parents, c, p);
  }

  lemma AddNodeConsistent(names: set<Name>, children: Dependencies, parents: Dependencies, m: Matrix, node: Name)
    requires Consistent(names, children, parents, m)
    ensures m.Keys == names
    ensures Consistent(names + {node}, children, parents, WithNode(m, node))
  {
    WithNodeFits(EdgesOf(children), m, node);
  }

  lemma DropConsistent(names: set<Name>, children: Dependencies, parents: Dependencies, m: Matrix, m': Matrix, node: Name)
    requires Consistent(names, children, parents, m)
    requires m'.Keys == names && MatrixFits(Induced(EdgesOf(children), names - {node}), m')
    ensures Consistent(names - {node}, Stripped(children, node) - {node}, Stripped(parents, node) - {node}, m' - {node})
    ensures EdgesOf(Stripped(children, node) - {node}) == Induced(EdgesOf(children), names - {node})
  {
    WithoutRowFits(Induced(EdgesOf(children), names - {node}), m', node);
    StrippedRows(children, node);
    StrippedRows(parents, node);
    StrippedEdges(children, node, names);
  }

  class Graph {
    var nodes: map<Name, Value>
    var children: Dependencies
    var parents: Dependencies
    var matrix: Matrix

    ghost function Edges(): set<Edge>
      reads this
    {
      EdgesOf(children)
    }

    ghost predicate Valid()
      reads this
    {
      Consistent(nodes.Keys, children, parents, matrix)
    }

    constructor ()
      ensures Valid() && nodes == map[] && matrix == map[] && Edges() == {}
    {
      nodes, children, parents, matrix := map[], map[], map[], map[];
      new;
      assert Edges() == {};
      forall s, u | IsPath({}, s, u, u)
        ensures |s| == 1
      {
        if |s| > 1 {
          EndEdges({}, s, u, u);
        }
      }
    }

    /** The matrix holds the path counts of the edges, reduced to a width. */
    ghost predicate Represents(w: Width, counts: Matrix)
      reads this
    {
      Consistent(nodes.Keys, children, parents, counts) && matrix == Image(w, counts)
    }

    /** `matrix[u][v] += k * matrix[u][child] * matrix[parent][v]` for all `u` and `v`, in place
        and in any order. */
    method ShiftClosure(child: Name, parent: Name, k: int, w: Width)
      requires Stable(w, matrix)
      modifies this`matrix
      ensures ShiftedInPlace(w, old(matrix), matrix, child, parent, k)
    {
      hide ShiftedBy, Stable, Update;
      ghost var was := matrix;
      ghost var goal := ShiftedBy(w, was, child, parent, k);
      var us := matrix.Keys;
      ParentRowKept(w, was, child, parent, k);
      while us != {}
        invariant us <= was.Keys && matrix.Keys == was.Keys
        invariant forall u :: u in was ==> matrix[u].Keys == was[u].Keys
        invariant forall u :: u in us ==> matrix[u] == was[u]
        invariant Entry(was, parent, child) == 0 ==> forall u :: u in was && u !in us ==> matrix[u] == goal[u]
        invariant parent in was && child in was[parent] && parent !in us ==>
          matrix[parent][child] == Update(w, was[parent][child], was[parent][child], was[parent][child], k)
      {
        var u :| u in us;
        ShiftRow(was, u, child, parent, k, w);
        us := us - {u};
      }
    }

    /** The inner loop of `ShiftClosure`. */
    method ShiftRow(ghost was: Matrix, u: Name, child: Name, parent: Name, k: int, w: Width)
      requires u in matrix && u in was && matrix[u] == was[u] && Stable(w, was)
      requires Entry(was, parent, child) == 0 ==> forall v :: Entry(matrix, parent, v) == Entry(was, parent, v)
      modifies this`matrix
      ensures u in matrix && matrix == old(matrix)[u := matrix[u]] && matrix[u].Keys == was[u].Keys
      ensures Entry(was, parent, child) == 0 ==> matrix[u] == ShiftedBy(w, was, child, parent, k)[u]
      ensures u == parent && child in was[u] ==>
        matrix[u][child] == Update(w, was[u][child], was[u][child], was[u][child], k)
    {
      hide ShiftedBy, Stable, Update, Reduce;
      ShiftedByAt(w, was, child, parent, k);
      ghost var goal := ShiftedBy(w, was, child, parent, k)[u];
      var vs := matrix[u].Keys;
      while vs != {}
        invariant vs <= was[u].Keys && u in matrix && matrix == old(matrix)[u := matrix[u]]
        invariant matrix[u].Keys == was[u].Keys
        invariant forall v :: v in vs ==> matrix[u][v] == was[u][v]
        invariant Entry(was, parent, child) == 0 ==> forall v :: v in was[u] && v !in vs ==> matrix[u][v] == goal[v]
        invariant u == parent && child in was[u] && child !in vs ==>
          matrix[u][child] == Update(w, was[u][child], was[u][child], was[u][child], k)
      {
        var v :| v in vs;
        RowSoFar(w, was, matrix, u, vs, child, parent, k);
        matrix := matrix[u := matrix[u][v := Update(w, matrix[u][v], Entry(matrix, u, child), Entry(matrix, parent, v), k)]];
        vs := vs - {v};
      }
      assert Entry(was, parent, child) == 0 ==> matrix[u] == goal;
    }

    /** Adds the paths through a new edge. */
    method AddTransitiveClosure(child: Name, parent: Name, w: Width)
      requires Stable(w, matrix)
      modifies this`matrix
      ensures ShiftedInPlace(w, old(matrix), matrix, child, parent, 1)
    {
      ShiftClosure(child, parent, 1, w);
    }

    /** Takes away the paths through an edge. */
    method RemoveTransitiveClosure(child: Name, parent: Name, w: Width)
      requires Stable(w, matrix)
      modifies this`matrix
      ensures ShiftedInPlace(w, old(matrix), matrix, child, parent, -1)
    {
      ShiftClosure(child, parent, -1, w);
    }

    method FillRows()
      requires matrix.Keys == nodes.Keys
      modifies this`matrix
      ensures matrix == Filled(old(matrix)) && matrix.Keys == old(matrix.Keys)
    {
      hide Filled, Entry;
      ghost var was := matrix;
      FilledKeys(was);
      var ns := nodes.Keys;
      while ns != {}
        invariant ns <= was.Keys && matrix.Keys == was.Keys
        invariant forall u :: u in was ==> matrix[u] == if u in ns then was[u] else Filled(was)[u]
      {
        var n :| n in ns;
        FillRow(was, n);
        ns := ns - {n};
      }
    }

    /** The inner loop of `FillRows`. */
    method FillRow(ghost was: Matrix, n: Name)
      requires n in matrix && matrix.Keys == was.Keys && matrix[n] == was[n]
      modifies this`matrix
      ensures matrix == old(matrix)[n := Filled(was)[n]]
    {
      var row, vs := matrix[n], matrix.Keys;
      while vs != {}
        invariant vs <= was.Keys && row.Keys == was[n].Keys + (was.Keys - vs)
        invariant forall v :: v in row ==> row[v] == Entry(was, n, v)
      {
        var v :| v in vs;
        if v !in row {
          row := row[v := 0];
        }
        vs := vs - {v};
      }
      assert row == Filled(was)[n];
      matrix := matrix[n := row];
    }

    /** Adds a node, or replaces the value of the node that has this name. */
    method AddNode(node: Name, value: Value)
      requires Valid() || matrix.Keys == nodes.Keys
      modifies this`nodes, this`matrix
      ensures old(Valid()) ==> Valid()
      ensures nodes == old(nodes)[node := value] && matrix == WithNode(old(matrix), node)
    {
      hide Consistent, Filled;
      if Valid() {
        AddNodeConsistent(nodes.Keys, children, parents, matrix, node);
      }
      nodes := nodes[node := value];
      assert nodes.Keys == old(nodes.Keys) + {node};
      if node !in matrix {
        matrix := matrix[node := map[]];
      }
      FillRows();
      matrix := matrix[node := matrix[node][node := 1]];
    }

    /** Makes `child` depend on `parent`; refuses exactly the edges that would close a cycle. Only for
        a child that is not a node the invariant is lost. */
    method AddChildren(child: Name, parent: Name) returns (r: Outcome)
      requires Valid()
      modifies this
      ensures child in old(nodes) || r.Err? ==> Valid()
      ensures child !in old(nodes) && r.Ok? ==> !Valid()
      ensures r == Err(SelfDependency) <==> child == parent
      ensures r == Err(CircularDependency) <==> child != parent && Reaches(old(Edges()), parent, child)
      ensures r.Ok? <==> child != parent && !Reaches(old(Edges()), parent, child)
      ensures r.Ok? <==> Acyclic(old(Edges()) + {(child, parent)})
      ensures r.Err? ==> unchanged(this)
      ensures r.Ok? ==> Edges() == old(Edges()) + {(child, parent)}
      ensures r.Ok? ==> nodes == if parent in old(nodes) then old(nodes) else old(nodes)[parent := Nil]
    {
      hide Consistent, Reaches, Acyclic, EdgesOf, Stable, Image, ShiftedInPlace;
      CycleCheck(nodes.Keys, children, parents, matrix, child, parent);
      UnlimitedFits(matrix);
      ghost var counts;
      r, counts := Link(child, parent, Unlimited, matrix);
      UnlimitedFits(counts);
      if child !in old(nodes) && r.Ok? && Valid() {
        EdgesWithin(nodes.Keys, children, parents, matrix);
      }
    }

    /** The body of `AddChildren`, for entries of any width. */
    method Link(child: Name, parent: Name, w: Width, ghost counts: Matrix) returns (r: Outcome, ghost counts': Matrix)
      requires Represents(w, counts)
      modifies this
      ensures r == Err(SelfDependency) <==> child == parent
      ensures r == Err(CircularDependency) <==> child != parent && Reduce(w, Entry(counts, parent, child)) != 0
      ensures r.Ok? || r == Err(SelfDependency) || r == Err(CircularDependency)
      ensures r.Err? ==> unchanged(this) && counts' == counts
      ensures r.Ok? ==> Edges() == old(Edges()) + {(child, parent)}
      ensures r.Ok? ==> nodes == if parent in old(nodes) then old(nodes) else old(nodes)[parent := Nil]
      ensures r.Ok? && child in old(nodes) && Acyclic(old(Edges()) + {(child, parent)}) ==> Represents(w, counts')
    {
      hide Consistent, Acyclic, EdgesOf, Stable, Image, WithNode, Entry, Reduce, NoEmptySet, Mirrored;
      counts' := counts;
      ImageEntry(w, counts, parent, child);
      if child == parent {
        return Err(SelfDependency), counts';
      }
      if parent !in nodes {
        AbsentRow(w, nodes.Keys, children, parents, counts, parent, child);
        counts' := AddCounted(parent, Nil, w, counts);
      } else {
        if Entry(matrix, parent, child) != 0 {
          return Err(CircularDependency), counts';
        }
      }
      LinkedBefore(nodes.Keys, children, parents, counts', child, parent);
      if parent in Row(parents, child) {
        return Ok, counts';
      }
      counts' := Connect(child, parent, w, counts');
      return Ok, counts';
    }

    /** The call of `AddNode`, for entries of any width. */
    method AddCounted(node: Name, value: Value, w: Width, ghost counts: Matrix) returns (ghost counts': Matrix)
      requires Represents(w, counts)
      modifies this`nodes, this`matrix
      ensures Represents(w, counts') && counts' == WithNode(counts, node)
      ensures nodes == old(nodes)[node := value]
    {
      hide Consistent, Image, WithNode;
      ShapeFacts(nodes.Keys, children, parents, counts);
      ImageStable(w, counts);
      AddNodeConsistent(nodes.Keys, children, parents, counts, node);
      ImageWithNode(w, counts, node);
      counts' := WithNode(counts, node);
      AddNode(node, value);
      assert nodes.Keys == old(nodes.Keys) + {node};
    }

    /** The last three lines of `AddChildren`. */
    method Connect(child: Name, parent: Name, w: Width, ghost counts: Matrix) returns (ghost counts': Matrix)
      requires Represents(w, counts) && parent in nodes && parent !in Row(parents, child)
      requires Entry(matrix, parent, child) == 0
      modifies this`children, this`parents, this`matrix
      ensures Edges() == old(Edges()) + {(child, parent)}
      ensures child in nodes && Acyclic(old(Edges()) + {(child, parent)}) ==> Represents(w, counts')
    {
      hide Consistent, Shifted, ShiftedBy, Acyclic, EdgesOf, WithRes, Stable, Image, Entry, NoEmptySet, Reduce, Update;
      counts' := counts;
      ShapeFacts(nodes.Keys, children, parents, counts);
      ImageStable(w, counts);
      if child in nodes && Acyclic(Edges() + {(child, parent)}) {
        LinkFits(nodes.Keys, children, parents, counts, child, parent);
        ImageShifts(w, counts, child, parent, 1);
        counts' := Shifted(counts, child, parent, 1);
      }
      WithResEdges(children, parent, child);
      children := WithRes(children, parent, child);
      parents := WithRes(parents, child, parent);
      AddTransitiveClosure(child, parent, w);
    }

    /** Takes a dependency away. For two nodes that are not linked the invariant is lost. */
    method RemoveChildren(child: Name, parent: Name)
      requires Valid()
      modifies this`children, this`parents, this`matrix
      ensures Valid() <==> (child, parent) in old(Edges()) || !(child in nodes && parent in nodes)
      ensures Edges() == old(Edges()) - {(child, parent)}
    {
      hide Consistent, MatrixFits, Shifted, ShiftedBy, EdgesOf, WithoutRes, Stable, Image, NoEmptySet, Mirrored, ShiftedInPlace;
      UnlimitedFits(matrix);
      ghost var counts := Unlink(child, parent, Unlimited, matrix);
      UnlimitedFits(counts);
      if (child, parent) !in old(Edges()) {
        ConsistentFacts(nodes.Keys, old(children), old(parents), old(matrix));
        NothingUnlinked(old(children), old(parents), child, parent);
        RemovingAbsentEdge(Edges(), old(matrix), matrix, child, parent);
        SameKeys(old(matrix), matrix, child, parent);
        SameMaps(nodes.Keys, children, parents, old(matrix), matrix);
      }
    }

    /** The body of `RemoveChildren`, for entries of any width. */
    method Unlink(child: Name, parent: Name, w: Width, ghost counts: Matrix) returns (ghost counts': Matrix)
      requires Represents(w, counts)
      modifies this`children, this`parents, this`matrix
      ensures children == WithoutRes(old(children), parent, child) && parents == WithoutRes(old(parents), child, parent)
      ensures Edges() == old(Edges()) - {(child, parent)}
      ensures ShiftedInPlace(w, old(matrix), matrix, child, parent, -1)
      ensures (child, parent) in old(Edges()) || !(child in nodes && parent in nodes) ==> Represents(w, counts')
    {
      hide Consistent, Shifted, ShiftedBy, EdgesOf, WithoutRes, Stable, Image, Entry, NoEmptySet, Reduce, Update;
      counts' := counts;
      ImageStable(w, counts);
      ImageEntry(w, counts, parent, child);
      ReduceSmall(w);
      ShapeFacts(nodes.Keys, children, parents, counts);
      WithoutResEdges(children, parent, child);
      if (child, parent) in Edges() {
        UnlinkConsistent(nodes.Keys, children, parents, counts, child, parent);
        ImageShifts(w, counts, child, parent, -1);
        counts' := Shifted(counts, child, parent, -1);
      } else if !(child in nodes && parent in nodes) {
        NothingLost(nodes.Keys, children, parents, counts, child, parent);
        ImageShifts(w, counts, child, parent, -1);
      }
      children := WithoutRes(children, parent, child);
      parents := WithoutRes(parents, child, parent);
      RemoveTransitiveClosure(child, parent, w);
    }

    /** Removes a node with all its dependencies; removing a name that is not there changes nothing. */
    method Remove(node: Name)
      requires Valid()
      modifies this
      ensures Valid()
      ensures nodes == old(nodes) - {node}
      ensures Edges() == Induced(old(Edges()), old(nodes).Keys - {node})
    {
      hide Consistent, EdgesOf, Stable, Image, Induced;
      UnlimitedFits(matrix);
      ghost var counts := Erase(node, Unlimited, matrix);
      UnlimitedFits(counts);
    }

    /** The body of `Remove`, for entries of any width. */
    method Erase(node: Name, w: Width, ghost counts: Matrix) returns (ghost counts': Matrix)
      requires Represents(w, counts)
      modifies this
      ensures Represents(w, counts')
      ensures nodes == old(nodes) - {node}
      ensures Edges() == Induced(old(Edges()), old(nodes).Keys - {node})
    {
      hide Consistent, MatrixFits, EdgesOf, Stripped, Image, Induced;
      counts' := RemoveClosureOf(node, w, counts);
      DropConsistent(nodes.Keys, children, parents, counts, counts', node);
      ImageWithoutRow(w, counts', node);
      children := StripAll(children, node);
      parents := StripAll(parents, node);
      matrix := matrix - {node};
      counts' := counts' - {node};
      parents := parents - {node};
      children := children - {node};
      nodes := nodes - {node};
    }

    /** The two loops of `Remove` that take the paths through a node's edges out of the matrix
        while the adjacency maps still hold those edges. */
    method RemoveClosureOf(node: Name, w: Width, ghost counts: Matrix) returns (ghost counts': Matrix)
      requires Represents(w, counts)
      modifies this`matrix
      ensures matrix == Image(w, counts') && counts'.Keys == nodes.Keys
      ensures MatrixFits(Induced(Edges(), nodes.Keys - {node}), counts')
    {
      hide Consistent, MatrixFits, EdgesOf, Image, Induced, Star;
      ShapeFacts(nodes.Keys, children, parents, counts);
      StarsOf(nodes.Keys, children, parents, counts, node);
      ghost var e := Edges();
      counts' := CutEdges(e, counts, node, Row(parents, node), true, w);
      counts' := CutEdges(e - Star(node, Row(parents, node), true), counts', node, Row(children, node), false, w);
    }

    /** The loop over one of the two sets of edges of a node. */
    method CutEdges(ghost e: set<Edge>, ghost counts: Matrix, node: Name, names: set<Name>, up: bool, w: Width)
      returns (ghost counts': Matrix)
      requires matrix == Image(w, counts) && MatrixFits(e, counts) && Star(node, names, up) <= e
      modifies this`matrix
      ensures matrix == Image(w, counts') && counts'.Keys == counts.Keys && MatrixFits(e - Star(node, names, up), counts')
    {
      hide MatrixFits, Image;
      counts' := counts;
      ghost var rest := e;
      var ks := names;
      assert Star(node, names - ks, up) == {};
      while ks != {}
        invariant ks <= names && rest == e - Star(node, names - ks, up)
        invariant MatrixFits(rest, counts') && counts'.Keys == counts.Keys && matrix == Image(w, counts')
      {
        var k :| k in ks;
        StarStep(e, node, names, ks, k, up);
        if up {
          counts' := CutEdge(rest, counts', node, k, w);
        } else {
          counts' := CutEdge(rest, counts', k, node, w);
        }
        ks := ks - {k};
        rest := e - Star(node, names - ks, up);
      }
      assert names - ks == names;
    }

    /** One round of either loop. */
    method CutEdge(ghost e: set<Edge>, ghost counts: Matrix, child: Name, parent: Name, w: Width)
      returns (ghost counts': Matrix)
      requires matrix == Image(w, counts) && MatrixFits(e, counts) && (child, parent) in e
      modifies this`matrix
      ensures matrix == Image(w, counts') && counts'.Keys == counts.Keys && MatrixFits(e - {(child, parent)}, counts')
    {
      hide MatrixFits, Shifted, ShiftedBy, Image, Stable, Entry, Reduce, Update;
      ImageStable(w, counts);
      ImageEntry(w, counts, parent, child);
      ReduceSmall(w);
      ShiftedRemovesEdge(e, counts, child, parent);
      ImageShifts(w, counts, child, parent, -1);
      counts' := Shifted(counts, child, parent, -1);
      RemoveTransitiveClosure(child, parent, w);
    }

    /** The loop that takes a node out of every set of an adjacency map. */
    static method StripAll(d: Dependencies, node: Name) returns (r: Dependencies)
      ensures r == Stripped(d, node)
    {
      r := d;
      var ks := d.Keys;
      while ks != {}
        invariant ks <= d.Keys
        invariant r.Keys == ks + Stripped(d, node).Keys
        invariant forall k :: k in r ==> r[k] == if k in ks then d[k] else d[k] - {node}
      {
        var k :| k in ks;
        if node in r[k] {
          OnlyElement(r[k], node);
          if |r[k]| == 1 {
            r := r - {k};
          } else {
            r := r[k := r[k] - {node}];
          }
        }
        ks := ks - {k};
      }
    }

    /** Everything that depends directly on `node`, found by scanning the parents map. */
    method GetAllChildrenOf(node: Name) returns (out: set<Name>)
      requires Valid()
      ensures forall c :: c in out <==> (c, node) in Edges()
    {
      hide Consistent, EdgesOf;
      EdgeViews(nodes.Keys, children, parents, matrix);
      out := {};
      if node !in nodes {
        return;
      }
      var ks := parents.Keys;
      while ks != {}
        invariant ks <= parents.Keys
        invariant forall c :: c in out <==> c in parents.Keys - ks && node in parents[c]
      {
        var k :| k in ks;
        if node in parents[k] {
          out := out + {k};
        }
        ks := ks - {k};
      }
    }

    /** Everything `node` depends on directly, found by scanning the children map. */
    method GetAllParentOf(node: Name) returns (out: set<Name>)
      requires Valid()
      ensures forall p :: p in out <==> (node, p) in Edges()
    {
      hide Consistent, EdgesOf;
      EdgeViews(nodes.Keys, children, parents, matrix);
      out := {};
      if node !in nodes {
        return;
      }
      var ks := children.Keys;
      while ks != {}
        invariant ks <= children.Keys
        invariant forall p :: p in out <==> p in children.Keys - ks && node in children[p]
      {
        var k :| k in ks;
        if node in children[k] {
          out := out + {k};
        }
        ks := ks - {k};
      }
    }

    /** A deep copy. */
    method Clone() returns (g: Graph)
      requires Valid()
      ensures fresh(g) && g.Valid()
      ensures g.nodes == nodes && g.Edges() == Edges()
    {
      g := new Graph();
      g.nodes, g.children, g.parents, g.matrix := nodes, children, parents, matrix;
    }

    /** Whether `child` is `node` or depends on it, directly or not. */
    method IsNodeDependingOn(node: Name, child: Name) returns (b: bool)
      requires Valid()
      ensures b <==> node in nodes && child in nodes && Reaches(Edges(), child, node)
    {
      if node !in nodes || child !in nodes {
        return false;
      }
      EntryDecides(Edges(), matrix, child, node);
      return Entry(matrix, child, node) != 0;
    }

    /** The nodes on which nothing depends, in any order. */
    method Leaves() returns (leaves: seq<Name>)
      requires Valid()
      ensures Distinct(leaves)
      ensures forall x :: x in leaves <==> x in nodes && forall c :: (c, x) !in Edges()
      ensures leaves == [] ==> nodes == map[]
    {
      hide Consistent, EdgesOf;
      EdgeViews(nodes.Keys, children, parents, matrix);
      leaves := [];
      var ns := nodes.Keys;
      while ns != {}
        invariant ns <= nodes.Keys
        invariant Distinct(leaves)
        invariant forall x :: x in leaves <==> x in nodes.Keys - ns && x !in children
      {
        var n :| n in ns;
        if n !in children {
          leaves := leaves + [n];
        }
        ns := ns - {n};
      }
      if nodes != map[] {
        var u :| u in nodes;
        var leaf := SomeLeaf(Edges(), nodes.Keys, u);
        assert leaf in leaves;
      }
    }

    /** The nodes, dependents before what they depend on. */
    method TopologicalSort() returns (ordered: seq<Name>)
      requires Valid()
      ensures TopologicallySorted(Edges(), nodes.Keys, ordered)
    {
      hide Consistent, EdgesOf;
      EdgeViews(nodes.Keys, children, parents, matrix);
      ordered := [];
      var temp := Clone();
      assert Edges() == Induced(Edges(), nodes.Keys);
      while true
        invariant temp.Valid()
        invariant temp.nodes.Keys == nodes.Keys - Elements(ordered)
        invariant temp.Edges() == Induced(Edges(), temp.nodes.Keys)
        invariant Distinct(ordered) && Elements(ordered) <= nodes.Keys
        invariant DependentsFirst(Edges(), ordered)
        decreases temp.nodes.Keys
      {
        var leaves := temp.Leaves();
        if leaves == [] {
          break;
        }
        AppendLeaves(Edges(), nodes.Keys, temp.nodes.Keys, ordered, leaves);
        ghost var before := temp.nodes.Keys;
        ordered := ordered + leaves;
        RemoveAll(temp, leaves);
        assert leaves[0] in before && leaves[0] !in temp.nodes;
        InducedTwice(Edges(), before, temp.nodes.Keys);
      }
    }

    /** Removes the listed nodes one after the other. */
    static method RemoveAll(g: Graph, names: seq<Name>)
      requires g.Valid()
      modifies g
      ensures g.Valid()
      ensures g.nodes == old(g.nodes) - Elements(names)
      ensures g.Edges() == Induced(old(g.Edges()), g.nodes.Keys)
    {
      hide Consistent, EdgesOf;
      EdgeViews(g.nodes.Keys, g.children, g.parents, g.matrix);
      for i := 0 to |names|
        invariant g.Valid()
        invariant g.nodes == old(g.nodes) - Elements(names[..i])
        invariant g.Edges() == Induced(old(g.Edges()), g.nodes.Keys)
      {
        InducedTwice(old(g.Edges()), g.nodes.Keys, g.nodes.Keys - {names[i]});
        g.Remove(names[i]);
      }
      assert names[..|names|] == names;
    }

    /** The nodes, what is depended on before its dependents. */
    method ReverseTopologicalSort() returns (ordered: seq<Name>)
      requires Valid()
      ensures TopologicallySorted(Edges(), nodes.Keys, Reversed(ordered))
      ensures Elements(ordered) == nodes.Keys && Distinct(ordered)
    {
      hide Consistent, EdgesOf;
      var sorted := TopologicalSort();
      ordered := Reverse(sorted);
      ReversedTwice(sorted);
      ReversedElements(sorted);
    }

    /** The sub-graph of everything that depends on `node`. */
    method SubGraphFrom(node: Name) returns (r: Outcome, sub: Graph?)
      requires Valid()
      ensures r == if node in nodes then Ok else Err(NodeMissing)
      ensures r.Err? <==> sub == null
      ensures r.Ok? ==> fresh(sub) && sub.Valid()
      ensures r.Ok? ==> sub.nodes == map x | x in nodes && Reaches(Edges(), x, node) :: nodes[x]
      ensures r.Ok? ==> sub.Edges() == Induced(Edges(), sub.nodes.Keys)
    {
      hide Consistent, EdgesOf, Reaches, Induced, Dismantled, TopologicallySorted, Distinct;
      if node !in nodes {
        return Err(NodeMissing), null;
      }
      EdgeViews(nodes.Keys, children, parents, matrix);
      var g := Clone();
      var sorted := g.ReverseTopologicalSort();
      ghost var e := Edges();
      NothingDismantled(e, nodes.Keys, node);
      for i := 0 to |sorted|
        invariant g.Valid()
        invariant g.nodes == nodes - (nodes.Keys - Dismantled(e, nodes.Keys, sorted[..i], node))
        invariant g.Edges() == Induced(e, Dismantled(e, nodes.Keys, sorted[..i], node))
      {
        var n := sorted[i];
        DismantleStep(e, nodes.Keys, sorted, i, node);
        assert g.nodes.Keys == Dismantled(e, nodes.Keys, sorted[..i], node);
        var depends := g.IsNodeDependingOn(node, n);
        if !depends {
          g.Remove(n);
        }
      }
      AllDismantled(e, nodes.Keys, sorted, node);
      return Ok, g;
    }

    /** Gives a node a new name, keeping its value and all its dependencies. Past the two checks on
        the names it cannot fail. */
    method RenameNode(oldName: Name, newName: Name) returns (r: Outcome)
      requires Valid()
      modifies this
      ensures Valid()
      ensures r == Err(OldNodeMissing) <==> oldName !in old(nodes)
      ensures r == Err(NewNodeExists) <==> oldName in old(nodes) && newName in old(nodes)
      ensures r.Ok? <==> oldName in old(nodes) && newName !in old(nodes)
      ensures r.Err? ==> unchanged(this)
      ensures r.Ok? ==> nodes == old(nodes)[newName := old(nodes)[oldName]] - {oldName}
      ensures r.Ok? ==> Edges() == RenamedEdges(oldName, newName, old(Edges()))
      ensures r.Ok? ==> SameCounts(old(matrix), matrix, oldName, newName)
    {
      hide Consistent, EdgesOf, Reaches, Acyclic, Induced, RenamedEdges;
      if oldName !in nodes {
        return Err(OldNodeMissing);
      }
      if newName in nodes {
        return Err(NewNodeExists);
      }
      ghost var e := Edges();
      EdgeViews(nodes.Keys, children, parents, matrix);
      var ps := GetAllParentOf(oldName);
      var cs := GetAllChildrenOf(oldName);
      AddNode(newName, nodes[oldName]);
      ghost var names := nodes;
      while ps != {}
        invariant Valid() && nodes == names
        invariant forall p :: p in ps ==> (oldName, p) in e
        invariant MovedUp(e, Edges(), oldName, newName, ps)
      {
        var p :| p in ps;
        MoveUp(e, Edges(), oldName, newName, ps, p);
        RemoveChildren(oldName, p);
        var a := AddChildren(newName, p);
        if a.Err? {
          assert false;
          return a;
        }
        ps := ps - {p};
      }
      MovedUpAll(e, Edges(), oldName, newName, cs);
      while cs != {}
        invariant Valid() && nodes == names
        invariant forall c :: c in cs ==> (c, oldName) in e
        invariant MovedDown(e, Edges(), oldName, newName, cs)
      {
        var c :| c in cs;
        MoveDown(e, Edges(), oldName, newName, cs, c);
        RemoveChildren(c, oldName);
        var a := AddChildren(c, newName);
        if a.Err? {
          assert false;
          return a;
        }
        cs := cs - {c};
      }
      MovedAll(e, Edges(), nodes.Keys, oldName, newName);
      Remove(oldName);
      RenamedMatrix(old(nodes.Keys), old(children), old(parents), old(matrix),
                    nodes.Keys, children, parents, matrix, oldName, newName);
      return Ok;
    }

    /** Removes every node of this graph that the other graph also has. */
    method MergeRemove(toRemove: Graph)
      requires Valid() && toRemove.Valid() && toRemove != this
      modifies this
      ensures Valid()
      ensures nodes == old(nodes) - toRemove.nodes.Keys
      ensures Edges() == Induced(old(Edges()), nodes.Keys)
    {
      hide Consistent, EdgesOf;
      EdgeViews(nodes.Keys, children, parents, matrix);
      var ks := toRemove.nodes.Keys;
      while ks != {}
        invariant Valid() && ks <= toRemove.nodes.Keys
        invariant nodes == old(nodes) - (toRemove.nodes.Keys - ks)
        invariant Edges() == Induced(old(Edges()), nodes.Keys)
      {
        var k :| k in ks;
        InducedTwice(old(Edges()), nodes.Keys, nodes.Keys - {k});
        Remove(k);
        ks := ks - {k};
      }
    }

    /** Adds every node of the other graph with its value and all its dependencies. A node of this
        graph with the same name is replaced, and loses its own dependencies, unless it was only a
        placeholder. */
    method MergeAdd(toAdd: Graph) returns (r: Outcome, ghost order: seq<Name>)
      requires Valid() && toAdd.Valid() && toAdd != this
      modifies this
      ensures Valid()
      ensures r.Ok? ==> nodes == old(nodes) + toAdd.nodes
      ensures r.Ok? ==> Edges() == Avoiding(old(Edges()), Reassigned(old(nodes), toAdd.nodes)) + toAdd.Edges()
      ensures r.Err? ==> r == Err(CircularDependency) && !Acyclic(old(Edges()) + toAdd.Edges())
      ensures r.Err? ==> PartlyMerged(old(nodes), toAdd.nodes, nodes) && Edges() <= old(Edges()) + toAdd.Edges()
      ensures TopologicallySorted(toAdd.Edges(), toAdd.nodes.Keys, order)
      ensures r.Ok? <==> NeverCyclic(old(nodes), old(Edges()), toAdd.Edges(), order, |order|)
      ensures toAdd.nodes.Keys <= Reassigned(old(nodes), toAdd.nodes) ==> r.Ok?
      ensures Reassigned(old(nodes), toAdd.nodes) == {} ==> (r.Ok? <==> Acyclic(old(Edges()) + toAdd.Edges()))
    {
      hide Consistent, Reaches, Acyclic, Avoiding, Into, TopologicallySorted, Within, Distinct, EdgesOf, Replaced, Picked, Reassigned;
      ghost var was, e, f := nodes, Edges(), toAdd.Edges();
      EdgesWithin(toAdd.nodes.Keys, toAdd.children, toAdd.parents, toAdd.matrix);
      StaysAcyclic(nodes.Keys, children, parents, matrix);
      StaysAcyclic(toAdd.nodes.Keys, toAdd.children, toAdd.parents, toAdd.matrix);
      var sorted := toAdd.TopologicalSort();
      order := sorted;
      MergeStart(was, toAdd.nodes, e, f);
      for i := 0 to |sorted|
        invariant Valid()
        invariant nodes == was + Picked(toAdd.nodes, sorted[..i])
        invariant Edges() == Avoiding(e, Replaced(was, sorted[..i])) + Into(f, sorted[..i])
        invariant NeverCyclic(was, e, f, sorted, i)
      {
        var node := sorted[i];
        MergeStepNodes(was, toAdd.nodes, f, sorted, i);
        MergeStepEdges(e, f, toAdd.nodes.Keys, sorted, i, Replaced(was, sorted[..i]), Replaced(nodes, [node]));
        r := MergeNode(node, toAdd);
        StaysAcyclic(nodes.Keys, children, parents, matrix);
        if r.Err? {
          MergeBlocks(was, toAdd.nodes, e, f, sorted, i);
          MergeFails(e, f, Replaced(was, sorted[..i + 1]), sorted[..i + 1]);
          MergeStops(was, toAdd.nodes, e, f, Replaced(was, sorted[..i + 1]), sorted[..i + 1]);
          return;
        }
      }
      MergeEnd(was, toAdd.nodes, f, sorted);
      NoneAvoided(e);
      StaysAcyclic(nodes.Keys, children, parents, matrix);
      return Ok, order;
    }

    /** One step of `MergeAdd`. */
    method MergeNode(node: Name, toAdd: Graph) returns (r: Outcome)
      requires Valid() && toAdd.Valid() && toAdd != this && node in toAdd.nodes
      requires forall c :: (c, node) in toAdd.Edges() ==> c in nodes && c != node
      modifies this
      ensures Valid()
      ensures nodes == old(nodes)[node := toAdd.nodes[node]]
      ensures r.Ok? ==> Edges() == Avoiding(old(Edges()), Replaced(old(nodes), [node])) + Into(toAdd.Edges(), [node])
      ensures r.Err? ==> r == Err(CircularDependency)
      ensures r.Err? ==> !Acyclic(Avoiding(old(Edges()), Replaced(old(nodes), [node])) + Into(toAdd.Edges(), [node]))
      ensures r.Err? ==> Edges() <= Avoiding(old(Edges()), Replaced(old(nodes), [node])) + Into(toAdd.Edges(), [node])
    {
      hide Consistent, EdgesOf, Reaches, Acyclic, Into;
      EdgesWithin(nodes.Keys, children, parents, matrix);
      assert forall x :: x in Edges() ==> (x.0, x.1) in Edges();
      if node in nodes && nodes[node] != Nil {
        Remove(node);
      }
      assert Edges() == Avoiding(old(Edges()), Replaced(old(nodes), [node]));
      AddNode(node, toAdd.nodes[node]);
      r := AddAllChildren(node, toAdd);
    }

    /** The inner loop of `MergeAdd`: links everything that depends on `node` in the other graph. */
    method AddAllChildren(node: Name, toAdd: Graph) returns (r: Outcome)
      requires Valid() && toAdd.Valid() && toAdd != this && node in nodes
      requires forall c :: (c, node) in toAdd.Edges() ==> c in nodes
      modifies this
      ensures Valid()
      ensures nodes == old(nodes)
      ensures r.Ok? ==> Edges() == old(Edges()) + Into(toAdd.Edges(), [node])
      ensures r.Err? ==> r == Err(CircularDependency)
      ensures r.Err? ==> !Acyclic(old(Edges()) + Into(toAdd.Edges(), [node]))
      ensures r.Err? ==> Edges() <= old(Edges()) + Into(toAdd.Edges(), [node])
    {
      hide Consistent, EdgesOf, Reaches, Acyclic;
      ghost var all := Into(toAdd.Edges(), [node]);
      var cs := toAdd.GetAllChildrenOf(node);
      EdgeViews(toAdd.nodes.Keys, toAdd.children, toAdd.parents, toAdd.matrix);
      while cs != {}
        invariant Valid() && nodes == old(nodes)
        invariant forall c :: c in cs ==> (c, node) in toAdd.Edges()
        invariant Edges() == old(Edges()) + (set x | x in all && x.0 !in cs)
      {
        var c :| c in cs;
        EdgeExcludesReturn(toAdd.Edges(), c, node);
        ghost var e := Edges();
        r := AddChildren(c, node);
        if r.Err? {
          assert e + {(c, node)} <= old(Edges()) + all;
          CyclicSuperset(e + {(c, node)}, old(Edges()) + all);
          return;
        }
        cs := cs - {c};
      }
      return Ok;
    }
  }

  // ----- merging -----

  /** The nodes that both graphs have and that are more than a placeholder in the first. */
  ghost function Reassigned(nodes: map<Name, Value>, added: map<Name, Value>): set<Name>
  {
    set x | x in nodes && x in added && nodes[x] != Nil
  }

  /** The listed nodes that are more than a placeholder. */
  ghost function Replaced(nodes: map<Name, Value>, s: seq<Name>): set<Name>
  {
    set x | x in nodes && x in s && nodes[x] != Nil
  }

  ghost function Picked(added: map<Name, Value>, s: seq<Name>): map<Name, Value>
  {
    map x | x in added && x in s :: added[x]
  }

  /** The edges that touch none of the names. */
  ghost function Avoiding(e: set<Edge>, names: set<Name>): set<Edge>
  {
    set x | x in e && x.0 !in names && x.1 !in names
  }

  /** The edges that end at one of the listed names. */
  ghost function Into(e: set<Edge>, s: seq<Name>): set<Edge>
  {
    set x | x in e && x.1 in s
  }

  lemma ConsistentFacts(names: set<Name>, children: Dependencies, parents: Dependencies, m: Matrix)
    requires Consistent(names, children, parents, m)
    ensures m.Keys == names && NoEmptySet(children) && NoEmptySet(parents) && Mirrored(children, parents)
    ensures MatrixFits(EdgesOf(children), m) && Acyclic(EdgesOf(children))
    ensures forall c, p :: p in Row(parents, c) <==> (c, p) in EdgesOf(children)
  {
    hide MatrixFits, Acyclic, EdgesOf;
    EdgeViews(names, children, parents, m);
  }

  lemma ShapeFacts(names: set<Name>, children: Dependencies, parents: Dependencies, m: Matrix)
    requires Consistent(names, children, parents, m)
    ensures m.Keys == names && NoEmptySet(children) && NoEmptySet(parents)
  {
  }

  lemma LinkedBefore(names: set<Name>, children: Dependencies, parents: Dependencies, m: Matrix, c: Name, p: Name)
    requires Consistent(names, children, parents, m)
    ensures m.Keys == names
    ensures p in Row(parents, c) ==> EdgesOf(children) + {(c, p)} == EdgesOf(children)
  {
    EdgesAreRows(children);
  }

  lemma AbsentRow(w: Width, names: set<Name>, children: Dependencies, parents: Dependencies, m: Matrix, p: Name, c: Name)
    requires Consistent(names, children, parents, m) && p !in names && c != p
    ensures Reduce(w, Entry(m, p, c)) == 0 && Entry(Image(w, WithNode(m, p)), p, c) == 0
  {
    hide Reduce;
    ReduceSmall(w);
    ImageEntry(w, WithNode(m, p), p, c);
  }

  lemma LinkFits(names: set<Name>, children: Dependencies, parents: Dependencies, m: Matrix, c: Name, p: Name)
    requires Consistent(names, children, parents, m) && c in names && p in names
    requires p !in Row(parents, c) && Acyclic(EdgesOf(children) + {(c, p)})
    ensures Entry(m, p, c) == 0
    ensures Consistent(names, WithRes(children, p, c), WithRes(parents, c, p), Shifted(m, c, p, 1))
  {
    hide MatrixFits, Shifted, EdgesOf, WithRes, Acyclic, Reaches;
    ConsistentFacts(names, children, parents, m);
    AcyclicAddEdge(EdgesOf(children), c, p);
    EntryDecides(EdgesOf(children), m, p, c);
    LinkConsistent(names, children, parents, m, c, p);
  }

  lemma NothingUnlinked(children: Dependencies, parents: Dependencies, c: Name, p: Name)
    requires NoEmptySet(children) && NoEmptySet(parents) && Mirrored(children, parents)
    requires (c, p) !in EdgesOf(children)
    ensures WithoutRes(children, p, c) == children && WithoutRes(parents, c, p) == parents
  {
    assert c !in Row(children, p);
    assert p !in Row(parents, c);
    assert p in children ==> children[p] - {c} == children[p];
    assert c in parents ==> parents[c] - {p} == parents[c];
  }

  lemma NothingLost(names: set<Name>, children: Dependencies, parents: Dependencies, m: Matrix, c: Name, p: Name)
    requires Consistent(names, children, parents, m) && (c, p) !in EdgesOf(children) && !(c in names && p in names)
    ensures Entry(m, p, c) == 0 && Shifted(m, c, p, -1) == m
    ensures WithoutRes(children, p, c) == children && WithoutRes(parents, c, p) == parents
  {
    hide MatrixFits, EdgesOf, WithoutRes, Shifted, ShiftedBy;
    NothingSubtracted(EdgesOf(children), m, c, p);
    ShiftedUnlimited(m, c, p, -1);
    NothingUnlinked(children, parents, c, p);
  }

  lemma SameKeys(m: Matrix, m': Matrix, c: Name, p: Name)
    requires ShiftedInPlace(Unlimited, m, m', c, p, -1)
    ensures m'.Keys == m.Keys
  {
  }

  lemma SameMaps(names: set<Name>, children: Dependencies, parents: Dependencies, m: Matrix, m': Matrix)
    requires Consistent(names, children, parents, m) && m'.Keys == m.Keys
    ensures Consistent(names, children, parents, m') <==> MatrixFits(EdgesOf(children), m')
  {
  }

  /** The edges between a node and some names, from it or to it. */
  ghost function Star(node: Name, names: set<Name>, up: bool): set<Edge>
  {
    set k | k in names :: if up then (node, k) else (k, node)
  }

  lemma StarStep(e: set<Edge>, node: Name, names: set<Name>, ks: set<Name>, k: Name, up: bool)
    requires ks <= names && k in ks && Star(node, names, up) <= e
    ensures var edge := if up then (node, k) else (k, node);
      && edge in e - Star(node, names - ks, up)
      && e - Star(node, names - (ks - {k}), up) == e - Star(node, names - ks, up) - {edge}
  {
    var edge := if up then (node, k) else (k, node);
    assert edge in Star(node, names, up);
    assert names - (ks - {k}) == (names - ks) + {k};
    assert Star(node, (names - ks) + {k}, up) == Star(node, names - ks, up) + {edge};
  }

  lemma StarsOf(names: set<Name>, children: Dependencies, parents: Dependencies, m: Matrix, node: Name)
    requires Consistent(names, children, parents, m)
    ensures var e, ups, downs := EdgesOf(children), Star(node, Row(parents, node), true), Star(node, Row(children, node), false);
      ups <= e && downs <= e - ups && e - ups - downs == Induced(e, names - {node}) && MatrixFits(e, m)
  {
    hide MatrixFits, EdgesOf, Acyclic, NoEmptySet, Mirrored, CoversRows, Exact, Row;
    EdgeViews(names, children, parents, m);
    NodesOfEdges(EdgesOf(children), m);
    forall x | x in EdgesOf(children)
      ensures x in Star(node, Row(parents, node), true) <==> x.0 == node
      ensures x in Star(node, Row(children, node), false) <==> x.1 == node
    {
      assert x.0 == node ==> x == (node, x.1);
      assert x.1 == node ==> x == (x.0, node);
    }
  }

  lemma EdgesWithin(names: set<Name>, children: Dependencies, parents: Dependencies, m: Matrix)
    requires Consistent(names, children, parents, m)
    ensures Within(EdgesOf(children), names)
  {
  }

  lemma CyclicSuperset(e: set<Edge>, e': set<Edge>)
    requires e <= e' && !Acyclic(e)
    ensures !Acyclic(e')
  {
    if Acyclic(e') {
      AcyclicSubset(e, e');
    }
  }

  lemma MergeStart(was: map<Name, Value>, added: map<Name, Value>, e: set<Edge>, f: set<Edge>)
    ensures was + Picked(added, []) == was
    ensures Avoiding(e, Replaced(was, [])) + Into(f, []) == e
  {
  }

  lemma NoneAvoided(e: set<Edge>)
    ensures Avoiding(e, {}) == e
  {
  }

  /** Every node is an old one or an added one, and no old name is missing. */
  ghost predicate PartlyMerged(was: map<Name, Value>, added: map<Name, Value>, now: map<Name, Value>)
  {
    && was.Keys <= now.Keys
    && forall x :: x in now ==> (x in added && now[x] == added[x]) || (x in was && now[x] == was[x])
  }

  lemma MergeStops(was: map<Name, Value>, added: map<Name, Value>, e: set<Edge>, f: set<Edge>, gone: set<Name>, s: seq<Name>)
    ensures PartlyMerged(was, added, was + Picked(added, s))
    ensures Avoiding(e, gone) + Into(f, s) <= e + f
  {
  }

  /** The edges when the first `i` nodes have been merged. */
  ghost function MergedSoFar(was: map<Name, Value>, e: set<Edge>, f: set<Edge>, s: seq<Name>, i: nat): set<Edge>
    requires i <= |s|
  {
    Avoiding(e, Replaced(was, s[..i])) + Into(f, s[..i])
  }

  /** None of the first `n` steps of a merge meets a cycle. */
  ghost predicate NeverCyclic(was: map<Name, Value>, e: set<Edge>, f: set<Edge>, s: seq<Name>, n: nat)
    requires n <= |s|
  {
    forall i :: 0 <= i <= n ==> Acyclic(MergedSoFar(was, e, f, s, i))
  }

  lemma StaysAcyclic(names: set<Name>, children: Dependencies, parents: Dependencies, m: Matrix)
    requires Consistent(names, children, parents, m)
    ensures Acyclic(EdgesOf(children))
  {
  }

  /** A merge that is refused met a cycle, and not all its nodes replace old ones. */
  lemma MergeBlocks(was: map<Name, Value>, added: map<Name, Value>, e: set<Edge>, f: set<Edge>, s: seq<Name>, i: nat)
    requires Acyclic(e) && Acyclic(f) && TopologicallySorted(f, added.Keys, s) && i < |s|
    requires !Acyclic(Avoiding(e, Replaced(was, s[..i + 1])) + Into(f, s[..i + 1]))
    ensures !NeverCyclic(was, e, f, s, |s|)
    ensures !(added.Keys <= Reassigned(was, added))
  {
    hide Acyclic, Avoiding, Into, Replaced, Reassigned, TopologicallySorted;
    assert !Acyclic(MergedSoFar(was, e, f, s, i + 1));
    if added.Keys <= Reassigned(was, added) {
      AllReplaced(was, added, e, f, s, i + 1);
    }
  }

  /** While every node merged so far has replaced an old one, old and new edges do not touch. */
  lemma AllReplaced(was: map<Name, Value>, added: map<Name, Value>, e: set<Edge>, f: set<Edge>, s: seq<Name>, i: nat)
    requires Acyclic(e) && Acyclic(f) && TopologicallySorted(f, added.Keys, s) && i <= |s|
    requires added.Keys <= Reassigned(was, added)
    ensures Acyclic(MergedSoFar(was, e, f, s, i))
  {
    hide Acyclic;
    var kept, linked := Avoiding(e, Replaced(was, s[..i])), Into(f, s[..i]);
    forall x | x in s[..i]
      ensures x in Replaced(was, s[..i])
    {
      assert x in s && x in Elements(s);
    }
    forall x | x in linked
      ensures x.0 in s[..i] && x.1 in s[..i]
    {
      var j :| 0 <= j < i && s[j] == x.1;
      assert (x.0, s[j]) in f;
      assert x.0 in s[..j];
    }
    AcyclicSubset(kept, e);
    AcyclicSubset(linked, f);
    ApartAcyclic(kept, linked, Elements(s[..i]));
  }

  /** Two acyclic graphs on different names are acyclic together. */
  lemma ApartAcyclic(e: set<Edge>, f: set<Edge>, names: set<Name>)
    requires Acyclic(e) && Acyclic(f)
    requires forall x :: x in e ==> x.0 !in names && x.1 !in names
    requires forall x :: x in f ==> x.0 in names && x.1 in names
    ensures Acyclic(e + f)
  {
    forall s, u | IsPath(e + f, s, u, u)
      ensures |s| == 1
    {
      OnOneSide(e, f, names, s, u, u);
    }
  }

  lemma {:induction false} OnOneSide(e: set<Edge>, f: set<Edge>, names: set<Name>, s: seq<Name>, u: Name, v: Name)
    requires IsPath(e + f, s, u, v)
    requires forall x :: x in e ==> x.0 !in names && x.1 !in names
    requires forall x :: x in f ==> x.0 in names && x.1 in names
    ensures if u in names then v in names && IsPath(f, s, u, v) else v !in names && IsPath(e, s, u, v)
    decreases |s|
  {
    if |s| > 1 {
      var t, w := s[..|s| - 1], s[|s| - 2];
      OnOneSide(e, f, names, t, u, w);
      assert s == t + [v];
    }
  }

  lemma MergeFails(e: set<Edge>, f: set<Edge>, gone: set<Name>, s: seq<Name>)
    requires !Acyclic(Avoiding(e, gone) + Into(f, s))
    ensures !Acyclic(e + f)
  {
    CyclicSuperset(Avoiding(e, gone) + Into(f, s), e + f);
  }

  lemma MergeEnd(was: map<Name, Value>, added: map<Name, Value>, f: set<Edge>, s: seq<Name>)
    requires Within(f, added.Keys) && TopologicallySorted(f, added.Keys, s)
    ensures s[..|s|] == s && Into(f, s) == f
    ensures Picked(added, s) == added && Replaced(was, s) == Reassigned(was, added)
  {
  }

  /** Because nodes arrive after their dependents, replacing one loses no edge added before. */
  lemma MergeStepEdges(e: set<Edge>, f: set<Edge>, names: set<Name>, s: seq<Name>, i: nat, gone: set<Name>, now: set<Name>)
    requires TopologicallySorted(f, names, s) && i < |s| && now <= {s[i]}
    ensures Avoiding(Avoiding(e, gone) + Into(f, s[..i]), now) + Into(f, [s[i]])
         == Avoiding(e, gone + now) + Into(f, s[..i + 1])
  {
  }

  lemma MergeStepNodes(was: map<Name, Value>, added: map<Name, Value>, f: set<Edge>, s: seq<Name>, i: nat)
    requires TopologicallySorted(f, added.Keys, s) && i < |s|
    ensures s[i] in added
    ensures forall c :: (c, s[i]) in f ==> c in was + Picked(added, s[..i]) && c != s[i]
    ensures (was + Picked(added, s[..i]))[s[i] := added[s[i]]] == was + Picked(added, s[..i + 1])
    ensures Replaced(was, s[..i + 1]) == Replaced(was, s[..i]) + Replaced(was + Picked(added, s[..i]), [s[i]])
    ensures Replaced(was + Picked(added, s[..i]), [s[i]]) <= {s[i]}
  {
    var n := s[i];
    assert s[..i + 1] == s[..i] + [n];
    assert n in Elements(s) && n !in s[..i];
    forall c | (c, n) in f
      ensures c in s[..i] && c in added
    {
      assert c in Elements(s);
    }
  }

  // ----- renaming, edge by edge -----

  /** Every entry is found again under the new name. */
  ghost predicate SameCounts(m: Matrix, m': Matrix, a: Name, b: Name)
  {
    forall u, v :: u in m && v in m ==> Entry(m', Renamed(a, b, u), Renamed(a, b, v)) == Entry(m, u, v)
  }

  lemma RenamedMatrix(names: set<Name>, children: Dependencies, parents: Dependencies, m: Matrix,
                      names': set<Name>, children': Dependencies, parents': Dependencies, m': Matrix, a: Name, b: Name)
    requires Consistent(names, children, parents, m) && Consistent(names', children', parents', m')
    requires a in names && b !in names && names' == names + {b} - {a}
    requires EdgesOf(children') == RenamedEdges(a, b, EdgesOf(children))
    ensures SameCounts(m, m', a, b)
  {
    hide MatrixFits, EdgesOf, Counts, RenamedEdges;
    var e := EdgesOf(children);
    MatrixEdges(e, m);
    forall u, v | u in m && v in m
      ensures Entry(m', Renamed(a, b, u), Renamed(a, b, v)) == Entry(m, u, v)
    {
      EntryCounts(e, m, u, v);
      EntryCounts(EdgesOf(children'), m', Renamed(a, b, u), Renamed(a, b, v));
      CountsRenamed(e, u, v, a, b, Entry(m, u, v));
      CountsUnique(EdgesOf(children'), Renamed(a, b, u), Renamed(a, b, v),
                   Entry(m, u, v), Entry(m', Renamed(a, b, u), Renamed(a, b, v)));
    }
  }

  lemma MatrixEdges(e: set<Edge>, m: Matrix)
    requires MatrixFits(e, m)
    ensures Within(e, m.Keys)
  {
  }

  /** The edges from `a`, except those to the parents still in `left`, start at `b` instead. */
  ghost predicate MovedUp(e: set<Edge>, e': set<Edge>, a: Name, b: Name, left: set<Name>)
  {
    forall c, p :: (c, p) in e' <==>
      || ((c, p) in e && (c == a ==> p in left))
      || (c == b && (a, p) in e && p !in left)
  }

  /** Moreover the edges to `a`, except those from the children still in `left`, end at `b` instead. */
  ghost predicate MovedDown(e: set<Edge>, e': set<Edge>, a: Name, b: Name, left: set<Name>)
  {
    forall c, p :: (c, p) in e' <==>
      || ((c, p) in e && c != a && (p == a ==> c in left))
      || (c == b && (a, p) in e)
      || (p == b && (c, a) in e && c !in left)
  }

  /** Whatever is reached along partly moved edges is reached, under the old name, along the original ones. */
  lemma ReachesBack(e: set<Edge>, e': set<Edge>, a: Name, b: Name, u: Name, v: Name)
    requires forall c, p :: (c, p) in e' ==> (Renamed(b, a, c), Renamed(b, a, p)) in e
    requires Reaches(e', u, v)
    ensures Reaches(e, Renamed(b, a, u), Renamed(b, a, v))
  {
    var s :| IsPath(e', s, u, v);
    assert forall x :: x in e' ==> (x.0, x.1) in e';
    RenamedIsPath(e', e, s, u, v, b, a);
  }

  lemma MoveUp(e: set<Edge>, e': set<Edge>, a: Name, b: Name, left: set<Name>, p: Name)
    requires Acyclic(e) && (forall x :: (b, x) !in e && (x, b) !in e) && a != b
    requires MovedUp(e, e', a, b, left) && p in left && (a, p) in e
    ensures (a, p) in e' && b != p
    ensures !Reaches(e' - {(a, p)}, p, b)
    ensures MovedUp(e, e' - {(a, p)} + {(b, p)}, a, b, left - {p})
  {
    var e'' := e' - {(a, p)};
    EdgeExcludesReturn(e, a, p);
    if Reaches(e'', p, b) {
      ReachesBack(e, e'', a, b, p, b);
    }
  }

  lemma MovedUpAll(e: set<Edge>, e': set<Edge>, a: Name, b: Name, cs: set<Name>)
    requires MovedUp(e, e', a, b, {}) && Acyclic(e)
    requires forall x :: (b, x) !in e && (x, b) !in e
    requires forall c :: c in cs <==> (c, a) in e
    ensures MovedDown(e, e', a, b, cs)
  {
  }

  lemma MoveDown(e: set<Edge>, e': set<Edge>, a: Name, b: Name, left: set<Name>, c: Name)
    requires Acyclic(e) && (forall x :: (b, x) !in e && (x, b) !in e) && a != b
    requires MovedDown(e, e', a, b, left) && c in left && (c, a) in e
    ensures (c, a) in e' && b != c
    ensures !Reaches(e' - {(c, a)}, b, c)
    ensures MovedDown(e, e' - {(c, a)} + {(c, b)}, a, b, left - {c})
  {
    var e'' := e' - {(c, a)};
    EdgeExcludesReturn(e, c, a);
    assert MovedDown(e, e' - {(c, a)} + {(c, b)}, a, b, left - {c}) by {
      if (a, a) in e {
        EdgeExcludesReturn(e, a, a);
      }
    }
    if Reaches(e'', b, c) {
      ReachesBack(e, e'', a, b, b, c);
    }
  }

  lemma MovedAll(e: set<Edge>, e': set<Edge>, names: set<Name>, a: Name, b: Name)
    requires Acyclic(e) && Within(e', names) && MovedDown(e, e', a, b, {}) && a != b
    ensures Induced(e', names - {a}) == RenamedEdges(a, b, e)
  {
    assert forall x :: x in e ==> (x.0, x.1) in e;
    assert forall x :: x in e' ==> (x.0, x.1) in e';
    if (a, a) in e {
      EdgeExcludesReturn(e, a, a);
    }
    forall c, p | (c, p) in Induced(e', names - {a})
      ensures (c, p) in RenamedEdges(a, b, e)
    {
      var x := if (c, p) in e then (c, p) else if c == b && (a, p) in e then (a, p) else (c, a);
      assert x in e && (c, p) == (Renamed(a, b, x.0), Renamed(a, b, x.1));
    }
  }

  // ----- orders -----

  /** Everything that depends directly on a listed name is listed before it. */
  ghost predicate DependentsFirst(e: set<Edge>, s: seq<Name>)
  {
    forall c, j :: 0 <= j < |s| && (c, s[j]) in e ==> c in s[..j]
  }

  ghost predicate TopologicallySorted(e: set<Edge>, names: set<Name>, s: seq<Name>)
  {
    && Distinct(s)
    && Elements(s) == names
    && DependentsFirst(e, s)
  }

  /** In a topological order every name comes after everything that depends on it, however indirectly. */
  lemma {:induction false} SortedByReach(e: set<Edge>, names: set<Name>, s: seq<Name>, p: seq<Name>, i: nat, j: nat)
    requires TopologicallySorted(e, names, s)
    requires i < |s| && j < |s| && IsPath(e, p, s[i], s[j])
    ensures i <= j
    decreases |p|
  {
    if |p| > 1 {
      EndEdges(e, p, s[i], s[j]);
      var k :| 0 <= k < j && s[k] == p[|p| - 2];
      SubPath(e, p, s[i], s[j], 0, |p| - 2);
      SortedByReach(e, names, s, p[0..|p| - 1], i, k);
    }
  }

  lemma InducedTwice(e: set<Edge>, a: set<Name>, b: set<Name>)
    requires b <= a
    ensures Induced(Induced(e, a), b) == Induced(e, b)
  {
  }

  lemma AppendLeaves(e: set<Edge>, names: set<Name>, left: set<Name>, ordered: seq<Name>, leaves: seq<Name>)
    requires Within(e, names) && left == names - Elements(ordered)
    requires Distinct(ordered) && Distinct(leaves) && DependentsFirst(e, ordered)
    requires forall x :: x in leaves ==> x in left && forall c :: (c, x) !in Induced(e, left)
    ensures Distinct(ordered + leaves) && DependentsFirst(e, ordered + leaves)
    ensures left - Elements(leaves) == names - Elements(ordered + leaves)
  {
    var s := ordered + leaves;
    forall i, j | 0 <= i < j < |s|
      ensures s[i] != s[j]
    {
      assert i < |ordered| ==> s[i] in Elements(ordered);
      assert j >= |ordered| ==> s[j] in leaves;
    }
    forall c, j | 0 <= j < |s| && (c, s[j]) in e
      ensures c in s[..j]
    {
      if j < |ordered| {
        assert s[..j] == ordered[..j];
      } else {
        assert s[j] in leaves;
        assert (c, s[j]) !in Induced(e, left);
        assert c in ordered;
        assert s[..j] == ordered + leaves[..j - |ordered|];
      }
    }
  }

  /** Reaching `node` is unaffected by the removal of names that do not reach it. */
  lemma ReachesInInduced(e: set<Edge>, names: set<Name>, kept: set<Name>, n: Name, node: Name)
    requires Within(e, names) && kept <= names && n in names
    requires forall x :: x in names && Reaches(e, x, node) ==> x in kept
    ensures Reaches(Induced(e, kept), n, node) <==> Reaches(e, n, node)
  {
    if Reaches(e, n, node) {
      InducedReaches(e, kept, n, node);
    }
    if Reaches(Induced(e, kept), n, node) {
      var s :| IsPath(Induced(e, kept), s, n, node);
      PathGrows(Induced(e, kept), e, s, n, node);
    }
  }

  /** What is left when, of the names seen so far, those that do not depend on `node` are removed. */
  ghost function Dismantled(e: set<Edge>, names: set<Name>, seen: seq<Name>, node: Name): set<Name>
  {
    set x | x in names && (x in seen ==> Reaches(e, x, node))
  }

  lemma NothingDismantled(e: set<Edge>, names: set<Name>, node: Name)
    requires Within(e, names)
    ensures Dismantled(e, names, [], node) == names
    ensures Induced(e, names) == e
  {
  }

  /** The test made on the partly dismantled copy gives the answer of the original graph. */
  lemma DismantleStep(e: set<Edge>, names: set<Name>, s: seq<Name>, i: nat, node: Name)
    requires Within(e, names) && i < |s| && Distinct(s) && Elements(s) == names && node in names
    ensures var left, n := Dismantled(e, names, s[..i], node), s[i];
      && left <= names && n in left && node in left
      && (Reaches(Induced(e, left), n, node) <==> Reaches(e, n, node))
      && Dismantled(e, names, s[..i + 1], node) == (if Reaches(e, n, node) then left else left - {n})
      && Induced(Induced(e, left), left - {n}) == Induced(e, left - {n})
  {
    var left, n := Dismantled(e, names, s[..i], node), s[i];
    assert s[..i + 1] == s[..i] + [n];
    assert n in Elements(s) && n !in s[..i];
    SelfReaches(e, node);
    ReachesInInduced(e, names, left, n, node);
    InducedTwice(e, left, left - {n});
  }

  lemma AllDismantled(e: set<Edge>, names: set<Name>, s: seq<Name>, node: Name)
    requires Elements(s) == names
    ensures s[..|s|] == s
    ensures Dismantled(e, names, s, node) == set x | x in names && Reaches(e, x, node)
  {
  }

  /** An edge, seen from the children map and from the parents map. */
  lemma EdgeViews(names: set<Name>, children: Dependencies, parents: Dependencies, m: Matrix)
    requires Consistent(names, children, parents, m)
    ensures Within(EdgesOf(children), names) && Acyclic(EdgesOf(children))
    ensures forall c, p :: (c, p) in EdgesOf(children) <==> c in Row(children, p)
    ensures forall c, p :: (c, p) in EdgesOf(children) <==> p in Row(parents, c)
    ensures forall p :: p in children <==> exists c :: (c, p) in EdgesOf(children)
  {
    EdgesAreRows(children);
    forall p | p in children
      ensures exists c :: (c, p) in EdgesOf(children)
    {
      var c :| c in children[p];
      assert c in Row(children, p);
    }
  }

  lemma NodesOfEdges(e: set<Edge>, m: Matrix)
    requires MatrixFits(e, m)
    ensures forall x :: x in e ==> x.0 in m && x.1 in m && x.0 != x.1
  {
    forall x | x in e
      ensures x.0 in m && x.1 in m && x.0 != x.1
    {
      assert (x.0, x.1) in e;
      EdgeExcludesReturn(e, x.0, x.1);
    }
  }

  lemma OnlyElement(s: set<Name>, x: Name)
    requires x in s
    ensures |s| == 1 <==> s == {x}
  {
    if |s| == 1 {
      assert |s - {x}| == 0;
    }
  }

  /** What the matrix tells `AddChildren` about the edge it is asked to add. */
  lemma CycleCheck(names: set<Name>, children: Dependencies, parents: Dependencies, m: Matrix, c: Name, p: Name)
    requires Consistent(names, children, parents, m)
    ensures Acyclic(EdgesOf(children) + {(c, p)}) <==> !Reaches(EdgesOf(children), p, c)
    ensures c == p ==> Reaches(EdgesOf(children), p, c)
    ensures c != p ==> (Reaches(EdgesOf(children), p, c) <==> Entry(m, p, c) != 0)
    ensures c != p && p !in names ==> !Reaches(EdgesOf(children), p, c)
    ensures p in Row(parents, c) ==> EdgesOf(children) + {(c, p)} == EdgesOf(children)
  {
    hide EdgesOf, Reaches, Acyclic;
    var e := EdgesOf(children);
    AcyclicAddEdge(e, c, p);
    SelfReaches(e, c);
    EdgesAreRows(children);
    if p in m {
      EntryDecides(e, m, p, c);
    } else if c != p {
      NoEdgesFromStranger(e, names, p, c);
    }
  }

  lemma NoEdgesFromStranger(e: set<Edge>, names: set<Name>, u: Name, v: Name)
    requires Within(e, names) && u !in names && u != v
    ensures !Reaches(e, u, v)
  {
    if Reaches(e, u, v) {
      var s :| IsPath(e, s, u, v);
      EndEdges(e, s, u, v);
    }
  }
}

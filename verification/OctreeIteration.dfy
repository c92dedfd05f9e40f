/** Batched iteration over the octree.

A batch is a range of positions. Subtrees outside the range are skipped by their size. Sizes that
are too large only leave gaps between the positions: as long as they cover what is below them, each
point still falls into exactly one batch. With exact sizes the positions are those of the traversal.
*/
module OctreeIteration {
  import opened OctreeModel
  import opened OctreeRuns

  type Stored = (Point, Data)

  /** `s[a..b]` with both bounds moved into the sequence. */
  function Clip<T>(s: seq<T>, a: int, b: int): seq<T>
  {
    var lo := if a < 0 then 0 else if a > |s| then |s| else a;
    var hi := if b < lo then lo else if b > |s| then |s| else b;
    s[lo..hi]
  }

  /** The points up to and including the first on which the callback says stop. */
  function UpTo(s: seq<Stored>, fn: (Point, Data) -> bool): seq<Stored>
  {
    if s == [] then []
    else if fn(s[0].0, s[0].1) then [s[0]] + UpTo(s[1..], fn)
    else [s[0]]
  }

  ghost predicate AllGoOn(s: seq<Stored>, fn: (Point, Data) -> bool)
  {
    forall i :: 0 <= i < |s| ==> fn(s[i].0, s[i].1)
  }

  lemma GoOnConcat(s: seq<Stored>, t: seq<Stored>, fn: (Point, Data) -> bool)
    ensures AllGoOn(s + t, fn) <==> AllGoOn(s, fn) && AllGoOn(t, fn)
  {
    if AllGoOn(s + t, fn) {
      assert forall i :: 0 <= i < |s| ==> s[i] == (s + t)[i];
      assert forall i :: 0 <= i < |t| ==> t[i] == (s + t)[|s| + i];
    }
  }

  lemma {:induction false} UpToConcat(s: seq<Stored>, t: seq<Stored>, fn: (Point, Data) -> bool)
    ensures UpTo(s + t, fn) == if AllGoOn(s, fn) then s + UpTo(t, fn) else UpTo(s, fn)
    ensures AllGoOn(s, fn) ==> UpTo(s, fn) == s
    ensures AllGoOn(s + t, fn) <==> AllGoOn(s, fn) && AllGoOn(t, fn)
  {
    hide AllGoOn;
    GoOnConcat(s, t, fn);
    if s == [] {
      assert s + t == t;
      NothingStops(fn);
    } else {
      UpToConcat(s[1..], t, fn);
      assert (s + t)[1..] == s[1..] + t && (s + t)[0] == s[0];
      GoOnFirst(s, fn);
      assert AllGoOn(s, fn) ==> [s[0]] + (s[1..] + UpTo(t, fn)) == s + UpTo(t, fn);
      assert AllGoOn(s, fn) ==> [s[0]] + s[1..] == s;
    }
  }

  lemma GoOnFirst(s: seq<Stored>, fn: (Point, Data) -> bool)
    requires s != []
    ensures AllGoOn(s, fn) <==> fn(s[0].0, s[0].1) && AllGoOn(s[1..], fn)
  {
    assert forall i :: 0 < i < |s| ==> s[i] == s[1..][i - 1];
  }

  /** A walk visits a prefix: up to the first point at which the callback says stop, that one included, or
      all if it never does. */
  lemma {:induction false} UpToIsPrefix(s: seq<Stored>, fn: (Point, Data) -> bool)
    ensures var r := UpTo(s, fn);
      && r <= s
      && (forall i :: 0 <= i < |r| - 1 ==> fn(r[i].0, r[i].1))
      && (r == s || (|r| > 0 && !fn(r[|r| - 1].0, r[|r| - 1].1)))
  {
    if s != [] && fn(s[0].0, s[0].1) {
      UpToIsPrefix(s[1..], fn);
      assert s == [s[0]] + s[1..];
    }
  }

  /** Points are met octant by octant, in the order of the octants. */
  lemma {:induction false} PointsSplit(cs: seq<Octree>, k: nat)
    requires k <= |cs|
    ensures PointsIn(cs) == PointsIn(cs[..k]) + PointsIn(cs[k..])
  {
    if k > 0 {
      assert cs[1..][..k - 1] == cs[..k][1..] && cs[1..][k - 1..] == cs[k..];
      PointsSplit(cs[1..], k - 1);
    } else {
      assert cs[..0] == [] && cs[0..] == cs;
    }
  }

  // ----- one batch -----

  /** The points that lie in a batch, found by skipping subtrees by size; `idx` is the position of
      the first point of the subtree. */
  function InBatch(t: Octree, lower: int, upper: int, idx: int): seq<Stored>
    decreases t, 1
  {
    match t.node
    case Internal(cs) => InBatchOf(cs, lower, upper, idx)
    case Filled(p, d) => [(p, d)]
    case Empty => []
  }

  function InBatchOf(cs: seq<Octree>, lower: int, upper: int, idx: int): seq<Stored>
    decreases cs, 0
  {
    if cs == [] then []
    else
      (if idx + cs[0].size > lower && idx < upper then InBatch(cs[0], lower, upper, idx) else [])
      + InBatchOf(cs[1..], lower, upper, idx + cs[0].size)
  }

  /** What a range takes from one child. */
  function FromChild(c: Octree, lower: int, upper: int, idx: int): seq<Stored>
  {
    if idx + c.size > lower && idx < upper then InBatch(c, lower, upper, idx) else []
  }

  lemma FirstChild(cs: seq<Octree>, lower: int, upper: int, idx: int)
    requires cs != []
    ensures InBatchOf(cs, lower, upper, idx)
        == FromChild(cs[0], lower, upper, idx) + InBatchOf(cs[1..], lower, upper, idx + cs[0].size)
  {
  }

  lemma NothingClipped(a: int, b: int)
    ensures Clip<Stored>([], a, b) == []
  {
  }

  lemma ClipConcat<T>(s: seq<T>, t: seq<T>, a: int, b: int)
    ensures Clip(s + t, a, b) == Clip(s, a, b) + Clip(t, a - |s|, b - |s|)
  {
  }

  /** With exact sizes, the skipping walk visits exactly the range of positions asked for. */
  lemma {:induction false} BatchIsClip(cs: seq<Octree>, lower: int, upper: int, idx: int)
    requires forall k :: 0 <= k < |cs| ==> SizesExact(cs[k])
    ensures InBatchOf(cs, lower, upper, idx) == Clip(PointsIn(cs), lower - idx, upper - idx)
    decreases cs, 0
  {
    hide Clip;
    if cs == [] {
      NothingClipped(lower - idx, upper - idx);
    } else {
      ChildInBatch(cs[0], lower, upper, idx);
      BatchIsClip(cs[1..], lower, upper, idx + cs[0].size);
      ClipConcat(Points(cs[0]), PointsIn(cs[1..]), lower - idx, upper - idx);
    }
  }

  lemma {:induction false} ChildInBatch(c: Octree, lower: int, upper: int, idx: int)
    requires SizesExact(c)
    ensures FromChild(c, lower, upper, idx) == Clip(Points(c), lower - idx, upper - idx)
    decreases c, 1
  {
    if c.node.Internal? {
      BatchIsClip(c.node.children, lower, upper, idx);
    }
  }

  // ----- the walk -----

  /** One round of the loop over the children. */
  lemma WalkStep(cs: seq<Octree>, k: nat, lower: int, upper: int, pos: int, fn: (Point, Data) -> bool)
    requires k < |cs|
    ensures var now, later := InBatchOf(cs[k..], lower, upper, pos), InBatchOf(cs[k + 1..], lower, upper, pos + cs[k].size);
      if pos + cs[k].size > lower && pos < upper then
        var here := InBatch(cs[k], lower, upper, pos);
        && (AllGoOn(now, fn) <==> AllGoOn(here, fn) && AllGoOn(later, fn))
        && UpTo(now, fn) == UpTo(here, fn) + (if AllGoOn(here, fn) then UpTo(later, fn) else [])
      else now == later
  {
    hide InBatch, InBatchOf, UpTo, AllGoOn;
    assert cs[k..][1..] == cs[k + 1..] && cs[k..][0] == cs[k];
    FirstChild(cs[k..], lower, upper, pos);
    var later := InBatchOf(cs[k + 1..], lower, upper, pos + cs[k].size);
    assert [] + later == later;
    UpToConcat(InBatch(cs[k], lower, upper, pos), later, fn);
    Prefixed(InBatch(cs[k], lower, upper, pos), later, fn);
  }

  lemma Prefixed(s: seq<Stored>, t: seq<Stored>, fn: (Point, Data) -> bool)
    ensures UpTo(s + t, fn) == UpTo(s, fn) + (if AllGoOn(s, fn) then UpTo(t, fn) else [])
  {
    hide UpTo, AllGoOn;
    UpToConcat(s, t, fn);
    assert UpTo(s, fn) + [] == UpTo(s, fn);
  }

  lemma NothingStops(fn: (Point, Data) -> bool)
    ensures AllGoOn([], fn) && UpTo([], fn) == []
  {
  }

  lemma OneStops(p: Point, d: Data, fn: (Point, Data) -> bool)
    ensures AllGoOn([(p, d)], fn) <==> fn(p, d)
    ensures UpTo([(p, d)], fn) == [(p, d)]
  {
  }

  // ----- all the batches -----

  predicate ValidBatch(numBatches: int, currentBatch: int)
  {
    !(numBatches < 0 || currentBatch < 0 || (numBatches > 0 && currentBatch >= numBatches))
  }

  function BatchSize(size: nat, numBatches: int): nat
    requires numBatches > 0
  {
    (size + numBatches - 1) / numBatches
  }

  function LowerBound(size: nat, numBatches: int, currentBatch: nat): int
    requires numBatches >= 0
  {
    if numBatches > 0 then currentBatch * BatchSize(size, numBatches) else 0
  }

  function UpperBound(size: nat, numBatches: int, currentBatch: nat): int
    requires numBatches >= 0
  {
    var u := if numBatches > 0 then (currentBatch + 1) * BatchSize(size, numBatches) else size;
    if u > size then size else u
  }

  /** What one call of `Iterate` visits when the callback never stops it. */
  function Batch(t: Octree, numBatches: int, currentBatch: int): seq<Stored>
  {
    if !ValidBatch(numBatches, currentBatch) || t.size < 0 then []
    else InBatch(t, LowerBound(t.size, numBatches, currentBatch), UpperBound(t.size, numBatches, currentBatch), 0)
  }

  /** The first `n` batches one after the other. */
  function Batches(t: Octree, numBatches: int, n: nat): seq<Stored>
  {
    if n == 0 then [] else Batches(t, numBatches, n - 1) + Batch(t, numBatches, n - 1)
  }

  // ----- ranges of positions -----

  /** A range takes nothing from children that lie outside it. */
  lemma {:induction false} OutOfRange(cs: seq<Octree>, lower: int, upper: int, idx: int)
    requires forall k :: 0 <= k < |cs| ==> SizesCover(cs[k])
    requires idx + SumSizes(cs) <= lower || upper <= idx
    ensures InBatchOf(cs, lower, upper, idx) == []
  {
    if cs != [] {
      CoverNonNegative(cs[0]);
      forall k | 0 <= k < |cs[1..]|
        ensures cs[1..][k].size >= 0
      {
        CoverNonNegative(cs[k + 1]);
      }
      SumNonNegative(cs[1..]);
      OutOfRange(cs[1..], lower, upper, idx + cs[0].size);
    }
  }

  lemma ChildOfInner(c: Octree, lower: int, upper: int, idx: int)
    requires SizesCover(c) && c.node.Internal?
    ensures FromChild(c, lower, upper, idx) == InBatchOf(c.node.children, lower, upper, idx)
  {
    if !(idx + c.size > lower && idx < upper) {
      OutOfRange(c.node.children, lower, upper, idx);
    }
  }

  /** Two adjacent ranges take together what the whole range takes, in the same order. */
  lemma {:induction false} RangesJoin(cs: seq<Octree>, lower: int, middle: int, upper: int, idx: int)
    requires forall k :: 0 <= k < |cs| ==> SizesCover(cs[k])
    requires lower <= middle <= upper
    ensures InBatchOf(cs, lower, middle, idx) + InBatchOf(cs, middle, upper, idx) == InBatchOf(cs, lower, upper, idx)
    decreases cs, 0
  {
    hide SizesCover, InBatchOf, FromChild;
    if cs == [] {
      NoChildren(idx, lower, middle, upper);
    } else {
      var next := idx + cs[0].size;
      FirstChild(cs, lower, middle, idx);
      FirstChild(cs, middle, upper, idx);
      FirstChild(cs, lower, upper, idx);
      ChildRangesJoin(cs[0], lower, middle, upper, idx);
      RangesJoin(cs[1..], lower, middle, upper, next);
      if next >= middle {
        OutOfRange(cs[1..], lower, middle, next);
      } else {
        ChildBefore(cs[0], middle, upper, idx);
      }
      Interleaved(FromChild(cs[0], lower, middle, idx), InBatchOf(cs[1..], lower, middle, next),
                  FromChild(cs[0], middle, upper, idx), InBatchOf(cs[1..], middle, upper, next));
    }
  }

  lemma NoChildren(idx: int, lower: int, middle: int, upper: int)
    ensures InBatchOf([], lower, middle, idx) == InBatchOf([], middle, upper, idx) == InBatchOf([], lower, upper, idx) == []
  {
  }

  lemma ChildBefore(c: Octree, lower: int, upper: int, idx: int)
    requires idx + c.size <= lower
    ensures FromChild(c, lower, upper, idx) == []
  {
  }

  lemma Interleaved(a: seq<Stored>, b: seq<Stored>, c: seq<Stored>, d: seq<Stored>)
    requires b == [] || c == []
    ensures (a + b) + (c + d) == (a + c) + (b + d)
  {
  }

  lemma {:induction false} ChildRangesJoin(c: Octree, lower: int, middle: int, upper: int, idx: int)
    requires SizesCover(c) && lower <= middle <= upper
    ensures FromChild(c, lower, middle, idx) + FromChild(c, middle, upper, idx) == FromChild(c, lower, upper, idx)
    decreases c, 1
  {
    if c.node.Internal? {
      ChildOfInner(c, lower, middle, idx);
      ChildOfInner(c, middle, upper, idx);
      ChildOfInner(c, lower, upper, idx);
      RangesJoin(c.node.children, lower, middle, upper, idx);
    }
  }

  /** A range that is wide enough takes everything. */
  lemma {:induction false} WholeRange(cs: seq<Octree>, lower: int, upper: int, idx: int)
    requires forall k :: 0 <= k < |cs| ==> SizesCover(cs[k])
    requires lower <= idx && idx + SumSizes(cs) <= upper
    ensures InBatchOf(cs, lower, upper, idx) == PointsIn(cs)
    decreases cs, 0
  {
    if cs != [] {
      CoverNonNegative(cs[0]);
      forall k | 0 <= k < |cs[1..]|
        ensures cs[1..][k].size >= 0
      {
        CoverNonNegative(cs[k + 1]);
      }
      SumNonNegative(cs[1..]);
      WholeChild(cs[0], lower, upper, idx);
      WholeRange(cs[1..], lower, upper, idx + cs[0].size);
    }
  }

  lemma {:induction false} WholeChild(c: Octree, lower: int, upper: int, idx: int)
    requires SizesCover(c) && lower <= idx && idx + c.size <= upper
    ensures FromChild(c, lower, upper, idx) == Points(c)
    decreases c, 1
  {
    if c.node.Internal? {
      ChildOfInner(c, lower, upper, idx);
      WholeRange(c.node.children, lower, upper, idx);
    }
  }

  /** How many positions two ranges have in common. */
  function Overlap(lower: int, upper: int, from: int, to: int): nat
  {
    var a, b := if lower > from then lower else from, if upper < to then upper else to;
    if a < b then b - a else 0
  }

  /** A range takes no more points than it has positions. */
  lemma {:induction false} RangeIsSmall(cs: seq<Octree>, lower: int, upper: int, idx: int)
    requires forall k :: 0 <= k < |cs| ==> SizesCover(cs[k])
    ensures |InBatchOf(cs, lower, upper, idx)| <= Overlap(lower, upper, idx, idx + SumSizes(cs))
    decreases cs, 0
  {
    if cs != [] {
      CoverNonNegative(cs[0]);
      forall k | 0 <= k < |cs[1..]|
        ensures cs[1..][k].size >= 0
      {
        CoverNonNegative(cs[k + 1]);
      }
      SumNonNegative(cs[1..]);
      ChildIsSmall(cs[0], lower, upper, idx);
      RangeIsSmall(cs[1..], lower, upper, idx + cs[0].size);
    }
  }

  lemma {:induction false} ChildIsSmall(c: Octree, lower: int, upper: int, idx: int)
    requires SizesCover(c)
    ensures |FromChild(c, lower, upper, idx)| <= Overlap(lower, upper, idx, idx + c.size)
    decreases c, 1
  {
    if c.node.Internal? {
      ChildOfInner(c, lower, upper, idx);
      RangeIsSmall(c.node.children, lower, upper, idx);
    }
  }

  // ----- the batches together -----

  lemma {:induction false} BatchesAreRange(t: Octree, numBatches: int, n: nat)
    requires SizesCover(t) && t.node.Internal? && 0 < numBatches && n <= numBatches && t.size >= 0
    ensures Batches(t, numBatches, n) == InBatchOf(t.node.children, 0, n * BatchSize(t.size, numBatches), 0)
  {
    hide BatchSize, SizesCover;
    InnerCovers(t);
    var b, cs := BatchSize(t.size, numBatches), t.node.children;
    if n > 0 {
      BatchesAreRange(t, numBatches, n - 1);
      var m, u := (n - 1) * b, n * b;
      assert u == m + b;
      RangesJoin(cs, 0, m, u, 0);
      if u > t.size {
        UpperBoundMoved(cs, m, t.size, u);
      }
    } else {
      OutOfRange(cs, 0, 0, 0);
    }
  }

  lemma InnerCovers(t: Octree)
    requires SizesCover(t) && t.node.Internal?
    ensures SumSizes(t.node.children) <= t.size && forall k :: 0 <= k < |t.node.children| ==> SizesCover(t.node.children[k])
  {
  }

  lemma UpperBoundMoved(cs: seq<Octree>, lower: int, end: int, upper: int)
    requires forall k :: 0 <= k < |cs| ==> SizesCover(cs[k])
    requires SumSizes(cs) <= end <= upper
    ensures InBatchOf(cs, lower, end, 0) == InBatchOf(cs, lower, upper, 0)
  {
    hide SizesCover;
    if lower <= end {
      RangesJoin(cs, lower, end, upper, 0);
      OutOfRange(cs, end, upper, 0);
    } else {
      OutOfRange(cs, lower, end, 0);
      OutOfRange(cs, lower, upper, 0);
    }
  }

  /** The size of a batch is the least with which so many batches hold all points. */
  lemma BatchSizeIs(size: nat, numBatches: int, b: nat)
    requires numBatches > 0 && size > 0 && numBatches * b >= size && numBatches * (b - 1) < size
    ensures BatchSize(size, numBatches) == b
  {
    var c := BatchSize(size, numBatches);
    LastBatchEnds(size, numBatches);
    BatchSizeLeast(size, numBatches);
    if c < b {
      Scaled(numBatches, c, b - 1);
    } else if b < c {
      Scaled(numBatches, b, c - 1);
    }
  }

  lemma BatchSizeLeast(size: nat, numBatches: int)
    requires numBatches > 0 && size > 0
    ensures numBatches * (BatchSize(size, numBatches) - 1) < size
  {
    var q := (size + numBatches - 1) / numBatches;
    assert numBatches * q <= size + numBatches - 1;
    assert numBatches * (q - 1) == numBatches * q - numBatches;
  }

  lemma Scaled(n: int, x: int, y: int)
    requires n > 0 && x <= y
    ensures n * x <= n * y
  {
  }

  function Cut(x: int, size: nat): nat
  {
    if x < 0 then 0 else if x > size then size else x
  }

  /** After overwriting, too, a batch holds no more points than its size. */
  lemma BatchIsSmall(t: Octree, numBatches: int, i: nat)
    requires SizesCover(t) && t.node.Internal? && i < numBatches
    ensures t.size >= 0 && |Batch(t, numBatches, i)| <= BatchSize(t.size, numBatches)
  {
    hide BatchSize;
    CoverNonNegative(t);
    var b := BatchSize(t.size, numBatches);
    assert (i + 1) * b == i * b + b;
    RangeIsSmall(t.node.children, i * b, if (i + 1) * b > t.size then t.size else (i + 1) * b, 0);
  }

  /** With exact sizes a batch holds the stored points from its first position up to that of the next
      batch, where `b` is the least number with which so many batches hold all points. */
  lemma BatchHolds(t: Octree, numBatches: int, i: nat, b: nat)
    requires SizesExact(t) && t.node.Internal? && i < numBatches
    requires numBatches * b >= t.size && (t.size > 0 ==> numBatches * (b - 1) < t.size)
    ensures Cut(i * b, |Points(t)|) <= Cut((i + 1) * b, |Points(t)|)
    ensures Batch(t, numBatches, i) == Points(t)[Cut(i * b, |Points(t)|)..Cut((i + 1) * b, |Points(t)|)]
  {
    hide BatchSize, InBatchOf;
    assert (i + 1) * b == i * b + b;
    var size := t.size;
    if size > 0 {
      BatchSizeIs(size, numBatches, b);
    }
    var c := BatchSize(size, numBatches);
    var lower, upper := i * c, if (i + 1) * c > size then size else (i + 1) * c;
    assert (i + 1) * c == i * c + c;
    BatchIsClip(t.node.children, lower, upper, 0);
  }

  lemma LastBatchEnds(size: nat, numBatches: int)
    requires numBatches > 0
    ensures numBatches * BatchSize(size, numBatches) >= size
  {
  }

  lemma {:induction false} LeafBatches(t: Octree, numBatches: int, n: nat)
    requires t.node.Filled? && t.size == 1 && n <= numBatches
    ensures |Batches(t, numBatches, n)| == n && (n == 1 ==> Batches(t, numBatches, n) == Points(t))
  {
    if n > 0 {
      LeafBatches(t, numBatches, n - 1);
    }
  }

  lemma {:induction false} EmptyBatches(t: Octree, numBatches: int, n: nat)
    requires t.node.Empty?
    ensures Batches(t, numBatches, n) == []
  {
    if n > 0 {
      EmptyBatches(t, numBatches, n - 1);
    }
  }

  /** The batches 0 to `numBatches` - 1 together visit every stored point exactly once and in
      traversal order, overwritten points included, unless the root is a single filled leaf, which
      every batch visits. */
  lemma BatchesCoverOnce(t: Octree, numBatches: int)
    requires SizesCover(t) && numBatches > 0
    ensures Batches(t, numBatches, numBatches) == Points(t) <==> !t.node.Filled? || numBatches == 1
  {
    match t.node
    case Internal(cs) =>
      CoverNonNegative(t);
      BatchesAreRange(t, numBatches, numBatches);
      LastBatchEnds(t.size, numBatches);
      WholeRange(cs, 0, numBatches * BatchSize(t.size, numBatches), 0);
    case Filled(_, _) => LeafBatches(t, numBatches, numBatches);
    case Empty => EmptyBatches(t, numBatches, numBatches);
  }

  /** Without batching every stored point is visited once. */
  lemma UnbatchedVisitsAll(t: Octree, currentBatch: nat)
    requires SizesCover(t)
    ensures Batch(t, 0, currentBatch) == Points(t)
  {
    CoverNonNegative(t);
    if t.node.Internal? {
      WholeRange(t.node.children, 0, t.size, 0);
    }
  }

  /** After any sequence of calls of `Set` on an empty tree, whatever they overwrite and however many
      fail, the batches cover what the tree stores exactly once. */
  lemma RunCoveredOnce(center: Point, side: real, calls: seq<Call>, numBatches: int)
    requires side > 0.0 && numBatches > 0
    ensures var t := SetAll(Octree(Empty, center, side, 0), calls);
      && Batch(t, 0, 0) == Points(t)
      && (Batches(t, numBatches, numBatches) == Points(t) <==> !t.node.Filled? || numBatches == 1)
  {
    var empty := Octree(Empty, center, side, 0);
    assert Agrees(empty, map[]);
    RunAgrees(empty, map[], calls);
    BatchesCoverOnce(SetAll(empty, calls), numBatches);
    UnbatchedVisitsAll(SetAll(empty, calls), 0);
  }
}

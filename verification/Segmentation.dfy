/** Segmentation of a black and white image into its connected white regions.

The search marks a pixel as visited when it is queued as a neighbour, so the seed of a region is
marked only if one of its neighbours queues it a second time. The regions are the connected
components all the same. The scan for seeds runs from (0, 0) over the width and height of the
image whatever its bounds are, so on an image whose bounds do not start at the origin it finds
exactly the components that reach into that window.
*/
module Segmentation {
  import opened Sequences

  datatype Pixel = Pixel(x: int, y: int)

  /** The bounds of an image, the upper ones excluded, and its non-zero pixels. */
  datatype Image = Image(min: Pixel, max: Pixel, white: set<Pixel>)

  predicate InBounds(img: Image, p: Pixel)
  {
    img.min.x <= p.x < img.max.x && img.min.y <= p.y < img.max.y
  }

  ghost predicate ValidImage(img: Image)
  {
    && img.min.x <= img.max.x && img.min.y <= img.max.y
    && forall p :: p in img.white ==> InBounds(img, p)
  }

  // ----- connected pixels -----

  predicate Adjacent(p: Pixel, q: Pixel)
  {
    || (p.x == q.x && (q.y == p.y + 1 || q.y == p.y - 1))
    || (p.y == q.y && (q.x == p.x + 1 || q.x == p.x - 1))
  }

  /** A way from `p` to `q` over white pixels, each next to the one before. */
  ghost predicate IsWay(img: Image, s: seq<Pixel>, p: Pixel, q: Pixel)
  {
    && |s| > 0 && s[0] == p && s[|s| - 1] == q
    && (forall i :: 0 <= i < |s| ==> s[i] in img.white)
    && (forall i :: 0 < i < |s| ==> Adjacent(s[i - 1], s[i]))
  }

  ghost predicate Connected(img: Image, p: Pixel, q: Pixel)
  {
    exists s :: IsWay(img, s, p, q)
  }

  ghost function Component(img: Image, p: Pixel): set<Pixel>
  {
    set q | q in img.white && Connected(img, p, q)
  }

  lemma ConnectedSelf(img: Image, p: Pixel)
    requires p in img.white
    ensures Connected(img, p, p)
  {
    assert IsWay(img, [p], p, p);
  }

  lemma ConnectedStep(img: Image, p: Pixel, q: Pixel, r: Pixel)
    requires Connected(img, p, q) && r in img.white && Adjacent(q, r)
    ensures Connected(img, p, r)
  {
    var s :| IsWay(img, s, p, q);
    assert IsWay(img, s + [r], p, r);
  }

  lemma ConnectedSymmetric(img: Image, p: Pixel, q: Pixel)
    requires Connected(img, p, q)
    ensures Connected(img, q, p)
  {
    var s :| IsWay(img, s, p, q);
    assert IsWay(img, Reversed(s), q, p);
  }

  lemma ConnectedTransitive(img: Image, p: Pixel, q: Pixel, r: Pixel)
    requires Connected(img, p, q) && Connected(img, q, r)
    ensures Connected(img, p, r)
  {
    var s :| IsWay(img, s, p, q);
    var t :| IsWay(img, t, q, r);
    assert IsWay(img, s + t[1..], p, r);
  }

  /** Two components are the same or have no pixel in common. */
  lemma ComponentsApart(img: Image, p: Pixel, q: Pixel, r: Pixel)
    requires r in Component(img, p) && r in Component(img, q)
    ensures Component(img, p) == Component(img, q)
  {
    ComponentInside(img, p, q, r);
    ComponentInside(img, q, p, r);
  }

  lemma ComponentInside(img: Image, p: Pixel, q: Pixel, r: Pixel)
    requires Connected(img, p, r) && Connected(img, q, r)
    ensures Component(img, p) <= Component(img, q)
  {
    forall x | x in Component(img, p)
      ensures Connected(img, q, x)
    {
      ConnectedSymmetric(img, p, r);
      ConnectedTransitive(img, q, r, p);
      ConnectedTransitive(img, q, p, x);
    }
  }

  /** A set of white pixels that holds `p` and with each pixel its white neighbours holds the whole component. */
  lemma {:induction false} ClosedHoldsComponent(img: Image, held: set<Pixel>, s: seq<Pixel>, p: Pixel, q: Pixel)
    requires IsWay(img, s, p, q) && p in held
    requires forall u, v :: u in held && v in img.white && Adjacent(u, v) ==> v in held
    ensures q in held
    ensures |s| > 1 ==> exists u :: u in held && Adjacent(u, q)
    decreases |s|
  {
    if |s| > 1 {
      var n := |s| - 1;
      assert IsWay(img, s[..n], p, s[n - 1]);
      ClosedHoldsComponent(img, held, s[..n], p, s[n - 1]);
      assert Adjacent(s[n - 1], s[n]);
    }
  }

  // ----- one region -----

  /** The white neighbours of a pixel not visited before; they count as visited from here on. */
  method GetValidNeighbors(pt: Pixel, img: Image, visited: set<Pixel>) returns (neighbors: seq<Pixel>, visited': set<Pixel>)
    requires ValidImage(img)
    ensures forall q :: q in neighbors <==> Adjacent(pt, q) && q in img.white && q !in visited
    ensures visited' == visited + Elements(neighbors)
  {
    neighbors, visited' := [], visited;
    var directions := [(0, 1), (0, -1), (-1, 0), (1, 0)];
    for i := 0 to 4
      invariant visited' == visited + Elements(neighbors)
      invariant forall q :: q in neighbors <==>
          && q in img.white && q !in visited
          && exists j :: 0 <= j < i && q == Pixel(pt.x + directions[j].0, pt.y + directions[j].1)
    {
      var q := Pixel(pt.x + directions[i].0, pt.y + directions[i].1);
      if InBounds(img, q) && q !in visited' && q in img.white {
        neighbors := neighbors + [q];
        visited' := visited' + {q};
      }
    }
    assert directions[0] == (0, 1) && directions[1] == (0, -1) && directions[2] == (-1, 0) && directions[3] == (1, 0);
    forall q | Adjacent(pt, q)
      ensures exists j :: 0 <= j < 4 && q == Pixel(pt.x + directions[j].0, pt.y + directions[j].1)
    {
      var j := if q.y == pt.y + 1 then 0 else if q.y == pt.y - 1 then 1 else if q.x == pt.x - 1 then 2 else 3;
      assert q == Pixel(pt.x + directions[j].0, pt.y + directions[j].1);
    }
  }

  /** The breadth-first search from a seed that is not in any region yet. */
  method Flood(img: Image, seed: Pixel, visited: set<Pixel>) returns (segment: set<Pixel>, visited': set<Pixel>)
    requires ValidImage(img) && seed in img.white && visited <= img.white
    requires visited !! Component(img, seed)
    ensures segment == Component(img, seed)
    ensures visited <= visited' <= visited + segment
    ensures segment - {seed} <= visited'
  {
    hide Connected, Adjacent;
    var queue := [seed];
    segment, visited' := {}, visited;
    ConnectedSelf(img, seed);
    while |queue| != 0
      invariant forall q :: q in queue ==> q in Component(img, seed)
      invariant segment <= Component(img, seed)
      invariant seed in segment || seed in queue
      invariant visited <= visited' <= img.white
      invariant forall q :: q in visited' && q !in visited ==> q in segment || q in queue
      invariant forall u, v :: u in segment && v in img.white && Adjacent(u, v) ==> v in visited'
      decreases |img.white - visited'|, |queue|
    {
      var point := queue[0];
      assert point in queue;
      segment := segment + {point};
      queue := queue[1..];
      var neighbors, now := GetValidNeighbors(point, img, visited');
      forall q | q in neighbors
        ensures q in Component(img, seed)
      {
        ConnectedStep(img, seed, point, q);
      }
      FewerLeft(img.white, visited', now, neighbors);
      visited' := now;
      queue := queue + neighbors;
    }
    SegmentIsComponent(img, seed, visited, visited', segment);
  }

  lemma FewerLeft(white: set<Pixel>, visited: set<Pixel>, now: set<Pixel>, neighbors: seq<Pixel>)
    requires now == visited + Elements(neighbors)
    requires forall q :: q in neighbors ==> q in white && q !in visited
    ensures if neighbors == [] then now == visited else |white - now| < |white - visited|
  {
    if neighbors != [] {
      assert neighbors[0] in neighbors;
      var x := neighbors[0];
      assert white - now <= white - visited - {x};
      SubsetSize(white - now, white - visited - {x});
    }
  }

  /** When the queue has run empty: the search has reached the whole component and marked all of it, the seed
      perhaps excepted. */
  lemma SegmentIsComponent(img: Image, seed: Pixel, visited: set<Pixel>, visited': set<Pixel>, segment: set<Pixel>)
    requires seed in segment && segment <= Component(img, seed) && visited !! Component(img, seed)
    requires forall q :: q in visited' && q !in visited ==> q in segment
    requires forall u, v :: u in segment && v in img.white && Adjacent(u, v) ==> v in visited'
    ensures segment == Component(img, seed)
    ensures segment - {seed} <= visited'
  {
    forall u, v | u in segment && v in img.white && Adjacent(u, v)
      ensures v in segment
    {
      ConnectedStep(img, seed, u, v);
      assert v in Component(img, seed);
    }
    forall q | q in Component(img, seed)
      ensures q in segment && (q != seed ==> q in visited')
    {
      var s :| IsWay(img, s, seed, q);
      ClosedHoldsComponent(img, segment, s, seed, q);
    }
  }

  // ----- the whole image -----

  /** The pixels the scan for seeds looks at. */
  predicate InScan(img: Image, p: Pixel)
  {
    0 <= p.x < img.max.x - img.min.x && 0 <= p.y < img.max.y - img.min.y
  }

  /** The scan has passed the pixel when it stands at column `x` of row `y`. */
  predicate Passed(p: Pixel, x: int, y: int)
  {
    p.y < y || (p.y == y && p.x < x)
  }

  ghost predicate InRegions(regions: map<int, set<Pixel>>, p: Pixel)
  {
    exists i :: i in regions && p in regions[i]
  }

  /** The regions are numbered from 0, each is the component of a scanned seed, and none meets another. */
  ghost predicate AreComponents(img: Image, regions: map<int, set<Pixel>>, n: nat)
  {
    && (forall i :: i in regions <==> 0 <= i < n)
    && (forall i :: 0 <= i < n ==> exists p :: p in img.white && InScan(img, p) && regions[i] == Component(img, p))
    && (forall i, j :: 0 <= i < j < n ==> regions[i] !! regions[j])
  }

  /** What holds between two pixels of the scan. */
  ghost predicate ScanInv(img: Image, regions: map<int, set<Pixel>>, n: nat, visited: set<Pixel>, x: int, y: int)
  {
    && AreComponents(img, regions, n)
    && visited <= img.white
    && (forall p :: p in visited ==> InRegions(regions, p))
    && (forall p :: InRegions(regions, p) ==> p in visited || Passed(p, x, y))
    && (forall p :: p in img.white && InScan(img, p) && Passed(p, x, y) ==> InRegions(regions, p))
  }

  lemma OverlapTouches(img: Image, regions: map<int, set<Pixel>>, n: nat, p: Pixel, i: nat)
    requires AreComponents(img, regions, n) && p in img.white && i < n
    ensures regions[i] !! Component(img, p) || InRegions(regions, p)
  {
    var s :| s in img.white && regions[i] == Component(img, s);
    if r :| r in regions[i] && r in Component(img, p) {
      ComponentsApart(img, s, p, r);
      ConnectedSelf(img, p);
      assert p in regions[i];
    }
  }

  /** A white pixel that the scan meets and that is not visited belongs to no region yet. */
  lemma FreshSeed(img: Image, regions: map<int, set<Pixel>>, n: nat, visited: set<Pixel>, p: Pixel)
    requires ScanInv(img, regions, n, visited, p.x, p.y) && p in img.white && p !in visited
    ensures visited !! Component(img, p)
    ensures forall i :: 0 <= i < n ==> regions[i] !! Component(img, p)
  {
    hide Component;
    assert !InRegions(regions, p);
    forall i | 0 <= i < n
      ensures regions[i] !! Component(img, p)
    {
      OverlapTouches(img, regions, n, p, i);
    }
  }

  lemma NewComponent(img: Image, regions: map<int, set<Pixel>>, n: nat, p: Pixel)
    requires AreComponents(img, regions, n) && p in img.white && InScan(img, p)
    requires forall i :: 0 <= i < n ==> regions[i] !! Component(img, p)
    ensures AreComponents(img, regions[n := Component(img, p)], n + 1)
  {
  }

  lemma InMoreRegions(regions: map<int, set<Pixel>>, n: nat, region: set<Pixel>, q: Pixel)
    requires n !in regions
    ensures InRegions(regions[n := region], q) <==> InRegions(regions, q) || q in region
  {
    if InRegions(regions, q) {
      var i :| i in regions && q in regions[i];
      assert i in regions[n := region] && q in regions[n := region][i];
    }
    if q in region {
      assert q in regions[n := region][n];
    }
  }

  lemma NewRegion(img: Image, regions: map<int, set<Pixel>>, n: nat, visited: set<Pixel>, visited': set<Pixel>, p: Pixel)
    requires ScanInv(img, regions, n, visited, p.x, p.y) && p in img.white && p !in visited && InScan(img, p)
    requires visited <= visited' <= visited + Component(img, p) && Component(img, p) - {p} <= visited'
    ensures ScanInv(img, regions[n := Component(img, p)], n + 1, visited', p.x + 1, p.y)
  {
    ComponentFacts(img, p);
    FreshSeed(img, regions, n, visited, p);
    NewComponent(img, regions, n, p);
    hide Component, AreComponents, InRegions;
    assert n !in regions by { NextNumber(img, regions, n); }
    forall q
      ensures InRegions(regions[n := Component(img, p)], q) <==> InRegions(regions, q) || q in Component(img, p)
    {
      InMoreRegions(regions, n, Component(img, p), q);
    }
  }

  lemma NextNumber(img: Image, regions: map<int, set<Pixel>>, n: nat)
    requires AreComponents(img, regions, n)
    ensures n !in regions
  {
  }

  lemma ComponentFacts(img: Image, p: Pixel)
    requires p in img.white
    ensures p in Component(img, p) && Component(img, p) <= img.white
  {
    ConnectedSelf(img, p);
  }

  lemma NextPixel(img: Image, regions: map<int, set<Pixel>>, n: nat, visited: set<Pixel>, x: int, y: int)
    requires ScanInv(img, regions, n, visited, x, y) && (Pixel(x, y) in visited || Pixel(x, y) !in img.white)
    ensures ScanInv(img, regions, n, visited, x + 1, y)
  {
  }

  lemma NextRow(img: Image, regions: map<int, set<Pixel>>, n: nat, visited: set<Pixel>, y: int)
    requires ScanInv(img, regions, n, visited, img.max.x - img.min.x, y)
    ensures ScanInv(img, regions, n, visited, 0, y + 1)
  {
  }

  /** The regions are pairwise disjoint connected components, and a white pixel is in one of them
      exactly when it is connected to a pixel of the scanned window. */
  method SegmentBinaryImage(img: Image) returns (regions: map<int, set<Pixel>>)
    requires ValidImage(img)
    ensures AreComponents(img, regions, |regions|)
    ensures forall p :: InRegions(regions, p) <==> exists s :: s in img.white && InScan(img, s) && Connected(img, s, p)
    ensures img.min == Pixel(0, 0) ==> forall p :: InRegions(regions, p) <==> p in img.white
  {
    hide ScanInv, Connected, AreComponents, InRegions, Component;
    regions := map[];
    var visited: set<Pixel> := {};
    var region := 0;
    var height, width := img.max.y - img.min.y, img.max.x - img.min.x;
    NothingScanned(img);
    for y := 0 to height
      invariant ScanInv(img, regions, region, visited, 0, y)
    {
      for x := 0 to width
        invariant ScanInv(img, regions, region, visited, x, y)
      {
        var p := Pixel(x, y);
        if p in visited || p !in img.white {
          NextPixel(img, regions, region, visited, x, y);
          continue;
        }
        VisitedIsWhite(img, regions, region, visited, p);
        var segment, now := Flood(img, p, visited);
        NewRegion(img, regions, region, visited, now, p);
        visited := now;
        regions := regions[region := segment];
        region := region + 1;
      }
      NextRow(img, regions, region, visited, y);
    }
    ScanEnds(img, regions, region, visited);
  }

  lemma NothingScanned(img: Image)
    ensures ScanInv(img, map[], 0, {}, 0, 0)
  {
  }

  lemma VisitedIsWhite(img: Image, regions: map<int, set<Pixel>>, n: nat, visited: set<Pixel>, p: Pixel)
    requires ScanInv(img, regions, n, visited, p.x, p.y) && p in img.white && p !in visited
    ensures visited <= img.white && visited !! Component(img, p)
  {
    FreshSeed(img, regions, n, visited, p);
  }

  lemma ScanEnds(img: Image, regions: map<int, set<Pixel>>, n: nat, visited: set<Pixel>)
    requires ValidImage(img) && ScanInv(img, regions, n, visited, 0, img.max.y - img.min.y)
    ensures AreComponents(img, regions, |regions|)
    ensures forall p :: InRegions(regions, p) <==> exists s :: s in img.white && InScan(img, s) && Connected(img, s, p)
    ensures img.min == Pixel(0, 0) ==> forall p :: InRegions(regions, p) <==> p in img.white
  {
    assert regions.Keys == Range(n) && |regions.Keys| == |regions|;
    forall p
      ensures InRegions(regions, p) <==> exists s :: s in img.white && InScan(img, s) && Connected(img, s, p)
      ensures InRegions(regions, p) ==> p in img.white
    {
      if InRegions(regions, p) {
        var i :| i in regions && p in regions[i];
        var s :| s in img.white && InScan(img, s) && regions[i] == Component(img, s);
        assert Connected(img, s, p);
      }
      if s :| s in img.white && InScan(img, s) && Connected(img, s, p) {
        Covered(img, regions, n, s, p);
      }
    }
    forall p | img.min == Pixel(0, 0) && p in img.white
      ensures InRegions(regions, p)
    {
      assert InScan(img, p);
    }
  }

  lemma Covered(img: Image, regions: map<int, set<Pixel>>, n: nat, s: Pixel, p: Pixel)
    requires AreComponents(img, regions, n) && InRegions(regions, s) && Connected(img, s, p)
    ensures InRegions(regions, p)
  {
    var i :| i in regions && s in regions[i];
    var t :| t in img.white && InScan(img, t) && regions[i] == Component(img, t);
    ConnectedTransitive(img, t, s, p);
    var w :| IsWay(img, w, s, p);
    assert p in regions[i];
  }

  ghost function Range(n: nat): (r: set<int>)
    ensures |r| == n
    ensures forall i :: i in r <==> 0 <= i < n
  {
    if n == 0 then {} else Range(n - 1) + {n - 1}
  }

  /** An image whose bounds do not start at the origin can have white pixels in no region. */
  lemma OffsetImageMisses()
    ensures var img := Image(Pixel(1, 0), Pixel(2, 1), {Pixel(1, 0)});
      ValidImage(img) && !exists s :: s in img.white && InScan(img, s) && Connected(img, s, Pixel(1, 0))
  {
  }
}

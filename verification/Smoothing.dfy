/** The random shortcut smoother run on finished plans. */
module Smoothing {
  import opened PlanCost

  type Relation = (Config, Config) -> bool

  ghost predicate SameDim(path: seq<Config>, dim: nat)
  {
    forall i :: 0 <= i < |path| ==> |path[i]| == dim
  }

  ghost predicate Triangle(dist: Distance, dim: nat)
  {
    forall a, b, c :: |a| == |b| == |c| == dim ==> dist(a, c) <= dist(a, b) + dist(b, c)
  }

  /** The distance adds up along an interpolated segment. */
  ghost predicate Additive(dist: Distance, dim: nat)
  {
    forall a: Config, b: Config, t: real :: |a| == |b| == dim && 0.0 <= t <= 1.0 ==>
      dist(a, Interpolate(a, b, t)) + dist(Interpolate(a, b, t), b) == dist(a, b)
  }

  /** Parts of a safe segment are safe. */
  ghost predicate ClosedUnderCutting(safe: Relation, dim: nat)
  {
    forall a: Config, b: Config, t: real :: |a| == |b| == dim && 0.0 <= t <= 1.0 && safe(a, b) ==>
      safe(a, Interpolate(a, b, t)) && safe(Interpolate(a, b, t), b)
  }

  ghost predicate AllSafe(safe: Relation, path: seq<Config>)
  {
    forall i :: 0 < i < |path| ==> safe(path[i - 1], path[i])
  }

  // ----- one shortcut -----

  function Shortcut(path: seq<Config>, first: nat, second: nat, w1: Config, w2: Config): seq<Config>
    requires first < second < |path|
  {
    path[..first + 1] + [w1, w2] + path[second + 1..]
  }

  /** A path is no shorter than the distance between its ends. */
  lemma {:induction false} DistanceBound(dist: Distance, dim: nat, s: seq<Config>)
    requires NonNegative(dist) && Triangle(dist, dim) && SameDim(s, dim) && |s| > 1
    ensures dist(s[0], s[|s| - 1]) <= Length(dist, s)
  {
    if |s| > 2 {
      DistanceBound(dist, dim, s[1..]);
    } else {
      assert Length(dist, s[1..]) == 0.0;
    }
  }

  /** Going from `a` to `b` directly is no longer than going through the steps of `mid`. */
  lemma Detour(dist: Distance, dim: nat, a: Config, b: Config, mid: seq<Config>)
    requires NonNegative(dist) && Triangle(dist, dim) && SameDim(mid, dim) && |mid| > 0 && |a| == |b| == dim
    ensures dist(a, b) <= dist(a, mid[0]) + Length(dist, mid) + dist(mid[|mid| - 1], b)
  {
  }

  lemma ShortcutLength(dist: Distance, dim: nat, path: seq<Config>, first: nat, second: nat, t1: real, t2: real)
    requires NonNegative(dist) && Triangle(dist, dim) && Additive(dist, dim) && SameDim(path, dim)
    requires first < second < |path| - 1 && 0.0 <= t1 <= 1.0 && 0.0 <= t2 <= 1.0
    ensures var w1, w2 := Interpolate(path[first], path[first + 1], t1), Interpolate(path[second], path[second + 1], t2);
      Length(dist, Shortcut(path, first, second, w1, w2)) <= Length(dist, path)
  {
    hide Interpolate, Triangle;
    var w1, w2 := Interpolate(path[first], path[first + 1], t1), Interpolate(path[second], path[second + 1], t2);
    var head, mid, tail := path[..first + 1], path[first + 1..second + 1], path[second + 1..];
    assert path == head + (mid + tail);
    LengthConcat(dist, mid, tail);
    LengthConcat(dist, head, mid + tail);
    assert Shortcut(path, first, second, w1, w2) == head + ([w1, w2] + tail);
    LengthConcat(dist, [w1, w2], tail);
    LengthConcat(dist, head, [w1, w2] + tail);
    assert Length(dist, [w1, w2]) == dist(w1, w2) by {
      assert [w1, w2][1..] == [w2];
    }
    Detour(dist, dim, w1, w2, mid);
  }

  lemma ShortcutSafe(safe: Relation, dim: nat, path: seq<Config>, first: nat, second: nat, t1: real, t2: real)
    requires ClosedUnderCutting(safe, dim) && SameDim(path, dim) && AllSafe(safe, path)
    requires first < second < |path| - 1 && 0.0 <= t1 <= 1.0 && 0.0 <= t2 <= 1.0
    requires safe(Interpolate(path[first], path[first + 1], t1), Interpolate(path[second], path[second + 1], t2))
    ensures var w1, w2 := Interpolate(path[first], path[first + 1], t1), Interpolate(path[second], path[second + 1], t2);
      AllSafe(safe, Shortcut(path, first, second, w1, w2))
  {
  }

  // ----- the smoother -----

  /** One iteration with the given choices: two waypoints on two edges, and the shortcut between them if
      it is accepted. */
  ghost predicate StepVia(checkPath: Relation, p: seq<Config>, p': seq<Config>, first: nat, second: nat, t1: real, t2: real)
  {
    && first < second < |p| - 1 && t1 in {0.25, 0.5, 0.75} && t2 in {0.25, 0.5, 0.75}
    && |p[first]| <= |p[first + 1]| && |p[second]| <= |p[second + 1]|
    && var w1, w2 := Interpolate(p[first], p[first + 1], t1), Interpolate(p[second], p[second + 1], t2);
       p' == if checkPath(w1, w2) then Shortcut(p, first, second, w1, w2) else p
  }

  ghost predicate Smooths(checkPath: Relation, p: seq<Config>, p': seq<Config>)
  {
    exists first, second, t1, t2 :: StepVia(checkPath, p, p', first, second, t1, t2)
  }

  /** The paths that the iterations go through. */
  ghost predicate IsSmoothing(checkPath: Relation, chain: seq<seq<Config>>)
  {
    forall i :: 0 <= i < |chain| - 1 ==> Smooths(checkPath, chain[i], chain[i + 1])
  }

  lemma SmoothingGrows(checkPath: Relation, chain: seq<seq<Config>>, p: seq<Config>, first: nat, second: nat, t1: real, t2: real)
    requires |chain| > 0 && IsSmoothing(checkPath, chain)
    requires StepVia(checkPath, chain[|chain| - 1], p, first, second, t1, t2)
    ensures IsSmoothing(checkPath, chain + [p])
  {
    hide StepVia;
    assert Smooths(checkPath, chain[|chain| - 1], p);
  }

  /** For every random choice and every number of iterations: the two ends stay, at least three
      steps stay, the plan never becomes longer, and what was safe stays safe. `safe` is any
      relation that holds of the accepted segments and of every part of a segment it holds of. */
  method SmoothPath(path: seq<Config>, smoothIter: nat, cancelAt: nat, dist: Distance, checkPath: Relation, ghost safe: Relation, ghost dim: nat)
    returns (r: seq<Config>, ghost chain: seq<seq<Config>>)
    requires NonNegative(dist) && Triangle(dist, dim) && Additive(dist, dim) && SameDim(path, dim)
    requires ClosedUnderCutting(safe, dim) && forall a, b :: checkPath(a, b) ==> safe(a, b)
    ensures |path| <= 2 ==> r == path
    ensures |path| > 2 ==> |r| > 2 && r[0] == path[0] && r[|r| - 1] == path[|path| - 1]
    ensures Length(dist, r) <= Length(dist, path)
    ensures SameDim(r, dim)
    ensures AllSafe(safe, path) ==> AllSafe(safe, r)
    ensures |chain| == 1 + if |path| <= 2 then 0 else if cancelAt < smoothIter then cancelAt else smoothIter
    ensures chain[0] == path && chain[|chain| - 1] == r && IsSmoothing(checkPath, chain)
  {
    hide Triangle, Additive, ClosedUnderCutting, Interpolate, AllSafe, IsSmoothing, Length;
    r, chain := path, [path];
    SmoothingStarts(checkPath, path);
    if |path| <= 2 {
      return;
    }
    var waypoints := [0.25, 0.5, 0.75];
    for i := 0 to smoothIter
      invariant |r| > 2 && SameDim(r, dim)
      invariant r[0] == path[0] && r[|r| - 1] == path[|path| - 1]
      invariant Length(dist, r) <= Length(dist, path)
      invariant AllSafe(safe, path) ==> AllSafe(safe, r)
      invariant |chain| == i + 1 && i <= cancelAt && chain[0] == path && chain[i] == r && IsSmoothing(checkPath, chain)
    {
      if i == cancelAt {
        return;
      }
      var first :| 0 <= first < |r| - 2;
      var step :| 0 <= step < |r| - 2 - first;
      var second := first + 1 + step;
      var k1 :| 0 <= k1 < 3;
      var k2 :| 0 <= k2 < 3;
      var w1 := Interpolate(r[first], r[first + 1], waypoints[k1]);
      var w2 := Interpolate(r[second], r[second + 1], waypoints[k2]);
      if checkPath(w1, w2) {
        ShortcutLength(dist, dim, r, first, second, waypoints[k1], waypoints[k2]);
        if AllSafe(safe, r) {
          ShortcutSafe(safe, dim, r, first, second, waypoints[k1], waypoints[k2]);
        }
        r := Shortcut(r, first, second, w1, w2);
      }
      SmoothingGrows(checkPath, chain, r, first, second, waypoints[k1], waypoints[k2]);
      chain := chain + [r];
    }
  }

  lemma SmoothingStarts(checkPath: Relation, path: seq<Config>)
    ensures IsSmoothing(checkPath, [path])
  {
  }
}

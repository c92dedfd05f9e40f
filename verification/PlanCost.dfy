/** Configurations, distances between them, and the cost of a plan. */
module PlanCost {
  import opened Sequences

  /** A configuration: one input per degree of freedom. */
  type Config = seq<real>

  /** A node of a planner's tree. The identity stands for the address of the source's node. */
  datatype Node = Node(id: nat, q: Config)

  /** The configuration a fraction `t` of the way from one to the other. */
  function Interpolate(a: Config, b: Config, t: real): (r: Config)
    requires |a| <= |b|
    ensures |r| == |a|
  {
    seq(|a|, i requires 0 <= i < |a| => a[i] + (b[i] - a[i]) * t)
  }

  type Distance = (Config, Config) -> real

  ghost predicate NonNegative(dist: Distance)
  {
    forall a, b :: dist(a, b) >= 0.0
  }

  ghost predicate Symmetric(dist: Distance)
  {
    forall a, b :: dist(a, b) == dist(b, a)
  }

  /** `Infinite` is the score of a plan with fewer than two steps. */
  datatype Score = Infinite | Finite(cost: real)

  /** The sum of the distances between consecutive steps. */
  ghost function Length(dist: Distance, plan: seq<Config>): real
  {
    if |plan| < 2 then 0.0 else dist(plan[0], plan[1]) + Length(dist, plan[1..])
  }

  method EvaluatePlan(plan: seq<Config>, dist: Distance) returns (r: Score)
    ensures r == if |plan| < 2 then Infinite else Finite(Length(dist, plan))
  {
    if |plan| < 2 {
      return Infinite;
    }
    var total := 0.0;
    for i := 0 to |plan| - 1
      invariant total + Length(dist, plan[i..]) == Length(dist, plan)
    {
      assert plan[i..][1..] == plan[i + 1..];
      total := total + dist(plan[i], plan[i + 1]);
    }
    return Finite(total);
  }

  lemma {:induction false} LengthNonNegative(dist: Distance, plan: seq<Config>)
    requires NonNegative(dist)
    ensures Length(dist, plan) >= 0.0
  {
    if |plan| >= 2 {
      LengthNonNegative(dist, plan[1..]);
    }
  }

  lemma {:induction false} LengthConcat(dist: Distance, s: seq<Config>, t: seq<Config>)
    requires |s| > 0 && |t| > 0
    ensures Length(dist, s + t) == Length(dist, s) + dist(s[|s| - 1], t[0]) + Length(dist, t)
  {
    if |s| == 1 {
      assert (s + t)[1..] == t;
    } else {
      assert (s + t)[1..] == s[1..] + t;
      LengthConcat(dist, s[1..], t);
    }
  }

  lemma {:induction false} LengthReversed(dist: Distance, s: seq<Config>)
    requires Symmetric(dist)
    ensures Length(dist, Reversed(s)) == Length(dist, s)
  {
    if |s| >= 2 {
      LengthReversed(dist, s[1..]);
      assert Reversed(s) == Reversed(s[1..]) + [s[0]];
      LengthConcat(dist, Reversed(s[1..]), [s[0]]);
    } else {
      assert Reversed(s) == s;
    }
  }
}

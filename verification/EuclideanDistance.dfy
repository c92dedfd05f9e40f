/** The planner's default distance, the Euclidean norm of the difference, has the properties that
    the planner and the smoother rely on. */
module EuclideanDistance {
  import opened PlanCost
  import opened Smoothing

  ghost function Times(x: real, y: real): real
  {
    x * y
  }

  ghost function Square(x: real): real
  {
    Times(x, x)
  }

  /** The sum of the squared differences. */
  ghost function SumSquares(a: Config, b: Config): real
    requires |a| == |b|
  {
    if a == [] then 0.0 else Square(a[0] - b[0]) + SumSquares(a[1..], b[1..])
  }

  /** The square of the distance is the sum of the squared differences. Of configurations of
      different sizes, which the source does not compare, only the sign and symmetry are asked. */
  ghost predicate IsEuclidean(dist: Distance)
  {
    && NonNegative(dist)
    && (forall a, b :: |a| == |b| ==> Square(dist(a, b)) == SumSquares(a, b))
    && (forall a, b :: |a| != |b| ==> dist(a, b) == dist(b, a))
  }

  // ----- squares -----

  lemma SquareOrder(x: real, y: real)
    requires y >= 0.0 && x * x <= y * y
    ensures x <= y
  {
    if x > y {
      SquareExpands(y, x - y);
      ProductSign(x - y, y);
    }
  }

  lemma SquareExpands(y: real, d: real)
    ensures (y + d) * (y + d) == y * y + 2.0 * (d * y) + d * d
    ensures d > 0.0 ==> d * d > 0.0
  {
  }

  lemma ProductSign(x: real, y: real)
    requires x >= 0.0 && y >= 0.0
    ensures x * y >= 0.0
  {
  }

  lemma SquareEqual(x: real, y: real)
    requires x >= 0.0 && y >= 0.0 && x * x == y * y
    ensures x == y
  {
    SquareOrder(x, y);
    SquareOrder(y, x);
  }

  lemma {:induction false} SumSquaresNonNegative(a: Config, b: Config)
    requires |a| == |b|
    ensures SumSquares(a, b) >= 0.0
  {
    if a != [] {
      SumSquaresNonNegative(a[1..], b[1..]);
    }
  }

  lemma {:induction false} SumSquaresSymmetric(a: Config, b: Config)
    requires |a| == |b|
    ensures SumSquares(a, b) == SumSquares(b, a)
  {
    if a != [] {
      SumSquaresSymmetric(a[1..], b[1..]);
    }
  }

  // ----- the triangle inequality -----

  ghost function Dot(a: Config, b: Config, c: Config): real
    requires |a| == |b| == |c|
  {
    if a == [] then 0.0 else Times(a[0] - b[0], b[0] - c[0]) + Dot(a[1..], b[1..], c[1..])
  }

  lemma {:induction false} SumSquaresSplits(a: Config, b: Config, c: Config)
    requires |a| == |b| == |c|
    ensures SumSquares(a, c) == SumSquares(a, b) + SumSquares(b, c) + 2.0 * Dot(a, b, c)
  {
    if a != [] {
      SumSquaresSplits(a[1..], b[1..], c[1..]);
      OneSplits(a[0], b[0], c[0]);
    }
  }

  lemma OneSplits(x: real, y: real, z: real)
    ensures Square(x - z) == Square(x - y) + Square(y - z) + 2.0 * Times(x - y, y - z)
  {
  }

  /** Twice a product is at most the sum of the factors of a product that bounds its square. */
  lemma MeanBound(u: real, v: real, w: real)
    requires u >= 0.0 && v >= 0.0 && w * w <= u * v
    ensures 2.0 * w <= u + v
  {
    assert (u - v) * (u - v) >= 0.0;
    assert (u + v) * (u + v) == (u - v) * (u - v) + 4.0 * (u * v);
    SquareOrder(2.0 * w, u + v);
  }

  lemma CauchyStep(d: real, p: real, q: real, x: real, y: real, d': real, p': real, q': real)
    requires p >= 0.0 && q >= 0.0 && Square(d) <= Times(p, q)
    requires d' == Times(x, y) + d && p' == Square(x) + p && q' == Square(y) + q
    ensures Square(d') <= Times(p', q')
  {
    CauchyParts(d, p, q, x, y);
    assert d' * d' == (x * y + d) * (x * y + d);
    assert p' * q' == (x * x + p) * (y * y + q);
  }

  lemma CauchyParts(d: real, p: real, q: real, x: real, y: real)
    requires p >= 0.0 && q >= 0.0 && d * d <= p * q
    ensures (x * y + d) * (x * y + d) <= (x * x + p) * (y * y + q)
  {
    var u, v, w := p * (y * y), q * (x * x), d * (x * y);
    Product(p, q, d, x * x, y * y, x * y);
    MeanBound(u, v, w);
    assert (x * y + d) * (x * y + d) == (x * y) * (x * y) + 2.0 * w + d * d;
    assert (x * x + p) * (y * y + q) == (x * x) * (y * y) + (x * x) * q + p * (y * y) + p * q;
    Regroup(x, y);
  }

  lemma Regroup(x: real, y: real)
    ensures (x * y) * (x * y) == (x * x) * (y * y)
  {
  }

  lemma Product(p: real, q: real, d: real, xx: real, yy: real, xy: real)
    requires p >= 0.0 && q >= 0.0 && d * d <= p * q && xx >= 0.0 && yy >= 0.0 && xy * xy == xx * yy
    ensures p * yy >= 0.0 && q * xx >= 0.0
    ensures (d * xy) * (d * xy) <= (p * yy) * (q * xx)
  {
  }

  lemma {:induction false} Cauchy(a: Config, b: Config, c: Config)
    requires |a| == |b| == |c|
    ensures Square(Dot(a, b, c)) <= Times(SumSquares(a, b), SumSquares(b, c))
  {
    if a == [] {
      assert Square(0.0) == Times(0.0, 0.0) == 0.0;
    } else {
      hide Times, Square;
      Cauchy(a[1..], b[1..], c[1..]);
      SumSquaresNonNegative(a[1..], b[1..]);
      SumSquaresNonNegative(b[1..], c[1..]);
      CauchyStep(Dot(a[1..], b[1..], c[1..]), SumSquares(a[1..], b[1..]), SumSquares(b[1..], c[1..]), a[0] - b[0], b[0] - c[0],
                 Dot(a, b, c), SumSquares(a, b), SumSquares(b, c));
    }
  }

  lemma TriangleAt(dist: Distance, a: Config, b: Config, c: Config)
    requires IsEuclidean(dist) && |a| == |b| == |c|
    ensures dist(a, c) <= dist(a, b) + dist(b, c)
  {
    hide Times, Square;
    var p, q, r, d := dist(a, b), dist(b, c), dist(a, c), Dot(a, b, c);
    SumSquaresSplits(a, b, c);
    Cauchy(a, b, c);
    Bound(p, q, r, d, SumSquares(a, b), SumSquares(b, c), SumSquares(a, c));
  }

  lemma Bound(p: real, q: real, r: real, d: real, pp: real, qq: real, rr: real)
    requires p >= 0.0 && q >= 0.0 && Square(p) == pp && Square(q) == qq && Square(r) == rr
    requires rr == pp + qq + 2.0 * d && Square(d) <= Times(pp, qq)
    ensures r <= p + q
  {
    assert pp * qq == (p * q) * (p * q) by { Regroup(p, q); }
    SquareOrder(d, p * q);
    assert (p + q) * (p + q) == pp + qq + 2.0 * (p * q);
    SquareOrder(r, p + q);
  }

  // ----- interpolated segments -----

  lemma {:induction false} SumSquaresInterpolated(a: Config, b: Config, t: real)
    requires |a| == |b|
    ensures SumSquares(a, Interpolate(a, b, t)) == Times(Square(t), SumSquares(a, b))
    ensures SumSquares(Interpolate(a, b, t), b) == Times(Square(1.0 - t), SumSquares(a, b))
  {
    if a != [] {
      hide Times, Square;
      var i := Interpolate(a, b, t);
      InterpolateTail(a, b, t);
      SumSquaresInterpolated(a[1..], b[1..], t);
      hide Interpolate;
      OneInterpolated(a[0], b[0], i[0], t, SumSquares(a[1..], b[1..]), SumSquares(a[1..], i[1..]), SumSquares(i[1..], b[1..]));
    }
  }

  lemma InterpolateTail(a: Config, b: Config, t: real)
    requires |a| == |b| > 0
    ensures Interpolate(a, b, t)[0] == a[0] + Times(b[0] - a[0], t)
    ensures Interpolate(a, b, t)[1..] == Interpolate(a[1..], b[1..], t)
  {
    var u, v := Interpolate(a, b, t)[1..], Interpolate(a[1..], b[1..], t);
    forall k | 0 <= k < |u|
      ensures u[k] == v[k]
    {
      assert a[1..][k] == a[k + 1] && b[1..][k] == b[k + 1];
    }
  }

  lemma OneInterpolated(x: real, y: real, i: real, t: real, rest: real, left: real, right: real)
    requires i == x + Times(y - x, t) && left == Times(Square(t), rest) && right == Times(Square(1.0 - t), rest)
    ensures Square(x - i) + left == Times(Square(t), Square(x - y) + rest)
    ensures Square(i - y) + right == Times(Square(1.0 - t), Square(x - y) + rest)
  {
  }

  lemma ScaledLength(x: real, d: real, xx: real, dd: real, t: real)
    requires x >= 0.0 && d >= 0.0 && t >= 0.0 && Square(x) == xx && Square(d) == dd && xx == Times(Square(t), dd)
    ensures x == Times(t, d)
  {
    Regroup(t, d);
    ProductSign(t, d);
    SquareEqual(x, t * d);
  }

  lemma Parts(t: real, d: real)
    ensures Times(t, d) + Times(1.0 - t, d) == d
  {
  }

  lemma AdditiveAt(dist: Distance, a: Config, b: Config, t: real)
    requires IsEuclidean(dist) && |a| == |b| && 0.0 <= t <= 1.0
    ensures dist(a, Interpolate(a, b, t)) + dist(Interpolate(a, b, t), b) == dist(a, b)
  {
    var i, d := Interpolate(a, b, t), dist(a, b);
    SumSquaresInterpolated(a, b, t);
    hide SumSquares, Interpolate, Square, Times;
    ScaledLength(dist(a, i), d, SumSquares(a, i), SumSquares(a, b), t);
    ScaledLength(dist(i, b), d, SumSquares(i, b), SumSquares(a, b), 1.0 - t);
    Parts(t, d);
  }

  /** The Euclidean distance is all that the planner and the smoother ask of a distance. */
  lemma EuclideanFits(dist: Distance, dim: nat)
    requires IsEuclidean(dist)
    ensures NonNegative(dist) && Symmetric(dist) && Triangle(dist, dim) && Additive(dist, dim)
  {
    hide SumSquares;
    forall a: Config, b: Config
      ensures dist(a, b) == dist(b, a)
    {
      if |a| == |b| {
        SumSquaresSymmetric(a, b);
        SquareEqual(dist(a, b), dist(b, a));
      }
    }
    forall a: Config, b: Config, c: Config | |a| == |b| == |c| == dim
      ensures dist(a, c) <= dist(a, b) + dist(b, c)
    {
      TriangleAt(dist, a, b, c);
    }
    forall a: Config, b: Config, t: real | |a| == |b| == dim && 0.0 <= t <= 1.0
      ensures dist(a, Interpolate(a, b, t)) + dist(Interpolate(a, b, t), b) == dist(a, b)
    {
      AdditiveAt(dist, a, b, t);
    }
  }
}

/** The similarity of two embedding vectors, over the reals. */
module Numerics {

  const ROUNDS: nat := 20

  /** The product under a name: equal factors then give equal products without nonlinear reasoning. */
  function Times(x: real, y: real): real {
    x * y
  }

  // --- Square root -----------------------------------------------------------------------------

  /** One Newton round. */
  function Step(v: real, z: real): real {
    if z == 0.0 then 0.0 else (z + v / z) / 2.0
  }

  /** The estimate after n rounds, starting from v itself. */
  function Estimate(v: real, n: nat): real {
    if n == 0 then v else Step(v, Estimate(v, n - 1))
  }

  function Sqrt(v: real): real {
    Estimate(v, ROUNDS)
  }

  lemma {:induction false} ZeroStays(v: real, m: nat, n: nat)
    requires m <= n && Estimate(v, m) == 0.0
    ensures Estimate(v, n) == 0.0
  {
    if m < n { ZeroStays(v, m, n - 1); }
  }

  method ComputeSqrt(v: real) returns (z: real)
    ensures z == Sqrt(v)
  {
    z := v;
    for i := 0 to ROUNDS
      invariant z == Estimate(v, i)
    {
      if z == 0.0 {
        ZeroStays(v, i, ROUNDS);
        return 0.0;
      }
      z := (z + v / z) / 2.0;
    }
  }

  lemma SquareNonNegative(x: real)
    ensures Times(x, x) >= 0.0
  {
    if x < 0.0 { assert (-x) * (-x) >= 0.0; }
  }

  lemma PositiveProduct(x: real, y: real)
    requires x > 0.0 && y > 0.0
    ensures Times(x, y) > 0.0
  {
  }

  lemma SelfQuotient(v: real)
    requires v != 0.0
    ensures v / v == 1.0
  {
  }

  /** Every round after the start is positive and over-estimates. */
  lemma StepOverestimates(v: real, z: real)
    requires v > 0.0 && z > 0.0
    ensures Step(v, z) > 0.0 && Times(Step(v, z), Step(v, z)) >= v
  {
    var w := v / z;
    assert w * z == v && w > 0.0;
    var d := (z - w) / 2.0;
    SquareNonNegative(d);
    assert Step(v, z) * Step(v, z) - w * z == d * d;
  }

  /** For positive input no round divides by zero, and the result is at least the root. */
  lemma {:induction false} EstimateOverestimates(v: real, n: nat)
    requires v > 0.0
    ensures Estimate(v, n) > 0.0
    ensures n > 0 ==> Times(Estimate(v, n), Estimate(v, n)) >= v
  {
    if n > 0 {
      EstimateOverestimates(v, n - 1);
      StepOverestimates(v, Estimate(v, n - 1));
    }
  }

  function Pow2(n: nat): (r: real)
    ensures r >= 1.0
  {
    if n == 0 then 1.0 else 2.0 * Pow2(n - 1)
  }

  lemma FirstStep(v: real, s: real)
    requires s > 0.0 && v == Times(s, s)
    ensures Step(v, v) - s == (1.0 - s) * (1.0 - s) / 2.0
  {
    PositiveProduct(s, s);
    SelfQuotient(v);
  }

  lemma ProductOrder(a: real, b: real, z: real)
    requires z > 0.0 && a * z <= b * z
    ensures a <= b
  {
    assert (b - a) * z >= 0.0;
  }

  /** From above the root, a round at least halves the error and stays above. */
  lemma StepHalvesError(v: real, s: real, z: real)
    requires s > 0.0 && v == Times(s, s) && z >= s
    ensures 0.0 <= Step(v, z) - s <= (z - s) / 2.0
  {
    var w := v / z;
    assert w * z == s * s;
    assert (z - s) * s >= 0.0;
    assert s * z - s * s == (z - s) * s;
    ProductOrder(w, s, z);
    SquareNonNegative(z - s);
    assert (z + w - 2.0 * s) * z == (z - s) * (z - s);
    ProductOrder(0.0, z + w - 2.0 * s, z);
  }

  lemma {:induction false} EstimateError(v: real, s: real, n: nat)
    requires s > 0.0 && v == Times(s, s) && n > 0
    ensures 0.0 <= Estimate(v, n) - s <= (1.0 - s) * (1.0 - s) / Pow2(n)
  {
    if n == 1 {
      assert Estimate(v, 0) == v && Estimate(v, 1) == Step(v, v);
      FirstStep(v, s);
      assert Pow2(1) == 2.0 * Pow2(0);
      SquareNonNegative(1.0 - s);
    } else {
      EstimateError(v, s, n - 1);
      StepHalvesError(v, s, Estimate(v, n - 1));
      HalfOfQuotient((1.0 - s) * (1.0 - s), Pow2(n - 1));
    }
  }

  lemma HalfOfQuotient(e: real, p: real)
    requires p > 0.0
    ensures e / p / 2.0 == e / (2.0 * p)
  {
    var q := e / p;
    assert q * p == e;
    assert q / 2.0 * (2.0 * p) == e;
  }

  /** The root is never under-estimated and is off by at most (1 - s)^2 / 2^20. */
  lemma SqrtIsAccurate(v: real, s: real)
    requires s > 0.0 && v == Times(s, s)
    ensures 0.0 <= Sqrt(v) - s <= (1.0 - s) * (1.0 - s) / 1048576.0
  {
    EstimateError(v, s, ROUNDS);
    assert Pow2(5) == 32.0;
    assert Pow2(10) == 32.0 * Pow2(5);
    assert Pow2(15) == 32.0 * Pow2(10);
    assert Pow2(20) == 32.0 * Pow2(15);
  }

  /** Each round at most halves the estimate, so no result lies below (1 + v) / 2^20. */
  lemma {:induction false} EstimateFloor(v: real, n: nat)
    requires v > 0.0 && n > 0
    ensures Times(Estimate(v, n), Pow2(n)) >= 1.0 + v
  {
    if n == 1 {
      assert v / v == 1.0;
      assert Estimate(v, 1) == Step(v, Estimate(v, 0));
      assert Pow2(1) == 2.0 * Pow2(0);
    } else {
      EstimateFloor(v, n - 1);
      EstimateOverestimates(v, n - 1);
      var z, p := Estimate(v, n - 1), Pow2(n - 1);
      assert v / z > 0.0;
      assert Estimate(v, n) - z / 2.0 > 0.0;
      assert (Estimate(v, n) - z / 2.0) * (2.0 * p) > 0.0;
      assert z / 2.0 * (2.0 * p) == z * p;
    }
  }

  // --- Cosine ----------------------------------------------------------------------------------

  type Vector = seq<real>

  function Dot(a: Vector, b: Vector): real
    requires |a| == |b|
  {
    if a == [] then 0.0 else Dot(a[..|a| - 1], b[..|b| - 1]) + Times(a[|a| - 1], b[|b| - 1])
  }

  lemma DotNext(a: Vector, b: Vector, i: nat)
    requires i < |a| == |b|
    ensures Dot(a[..i + 1], b[..i + 1]) == Dot(a[..i], b[..i]) + Times(a[i], b[i])
  {
    assert a[..i + 1][..i] == a[..i] && b[..i + 1][..i] == b[..i];
  }

  /** The norm with its root estimated by n rounds. */
  function Norm(a: Vector, n: nat): real {
    Estimate(Dot(a, a), n)
  }

  /**
   The similarity with roots estimated by n rounds; the product of the norms is never zero there, as
   NormsBoundDot shows.
   */
  function CosineAfter(a: Vector, b: Vector, n: nat): real {
    if a == [] || |a| != |b| then 0.0
    else if Dot(a, a) == 0.0 || Dot(b, b) == 0.0 || Times(Norm(a, n), Norm(b, n)) == 0.0 then 0.0
    else Dot(a, b) / (Times(Norm(a, n), Norm(b, n)))
  }

  function Cosine(a: Vector, b: Vector): real {
    CosineAfter(a, b, ROUNDS)
  }

  lemma {:induction false} NormNonNegative(a: Vector)
    ensures Dot(a, a) >= 0.0
  {
    if a != [] {
      NormNonNegative(a[..|a| - 1]);
      SquareNonNegative(a[|a| - 1]);
    }
  }

  lemma SquareIsZero(x: real)
    ensures Times(x, x) == 0.0 <==> x == 0.0
  {
    if x > 0.0 { PositiveProduct(x, x); }
    if x < 0.0 { PositiveProduct(-x, -x); }
    assert (-x) * (-x) == x * x;
  }

  lemma {:induction false} DotSymmetric(a: Vector, b: Vector)
    requires |a| == |b|
    ensures Dot(a, b) == Dot(b, a)
  {
    if a != [] { DotSymmetric(a[..|a| - 1], b[..|b| - 1]); }
  }

  lemma CauchySchwarzStep(d: real, p: real, q: real, x: real, y: real)
    requires Times(d, d) <= Times(p, q) && p >= 0.0 && q >= 0.0
    ensures Times(d + Times(x, y), d + Times(x, y)) <= Times(p + Times(x, x), q + Times(y, y))
  {
    ExpandedStep(d, p, q, x, y);
    assert Times(x, y) == x * y && Times(x, x) == x * x && Times(y, y) == y * y;
  }

  lemma ExpandedStep(d: real, p: real, q: real, x: real, y: real)
    requires Times(d, d) <= Times(p, q) && p >= 0.0 && q >= 0.0
    ensures Times(d + x * y, d + x * y) <= Times(p + x * x, q + y * y)
  {
    var s, t := p * (y * y), q * (x * x);
    var m := d * (x * y);
    SquareNonNegative(x);
    SquareNonNegative(y);
    SquareNonNegative(s - t);
    var xy := (x * x) * (y * y);
    assert xy >= 0.0;
    assert (p * q - d * d) * xy >= 0.0;
    assert m * m == d * d * xy;
    assert s * t == p * q * xy;
    assert (s + t) * (s + t) - (2.0 * m) * (2.0 * m) == (s - t) * (s - t) + 4.0 * (s * t - m * m);
    SquareOrder(2.0 * m, s + t);
    assert (d + x * y) * (d + x * y) == d * d + 2.0 * m + xy;
    assert (p + x * x) * (q + y * y) == p * q + s + t + xy;
  }

  lemma SquareOrder(a: real, b: real)
    requires Times(a, a) <= Times(b, b) && b >= 0.0
    ensures -b <= a <= b
  {
    assert (a - b) * (a + b) == a * a - b * b;
    if a > b { PositiveProduct(a - b, a + b); }
    if a < -b { PositiveProduct(b - a, -a - b); }
  }

  lemma {:induction false} CauchySchwarz(a: Vector, b: Vector)
    requires |a| == |b|
    ensures Times(Dot(a, b), Dot(a, b)) <= Times(Dot(a, a), Dot(b, b))
  {
    if a != [] {
      var n := |a| - 1;
      CauchySchwarz(a[..n], b[..n]);
      NormNonNegative(a[..n]);
      NormNonNegative(b[..n]);
      CauchySchwarzStep(Dot(a[..n], b[..n]), Dot(a[..n], a[..n]), Dot(b[..n], b[..n]), a[n], b[n]);
    }
  }

  /** The product of the two norms is over-estimated, so it bounds the inner product. */
  lemma NormsBoundDot(a: Vector, b: Vector, n: nat)
    requires |a| == |b| && Dot(a, a) != 0.0 && Dot(b, b) != 0.0 && n > 0
    ensures var m := Times(Norm(a, n), Norm(b, n)); m > 0.0 && -m <= Dot(a, b) <= m
  {
    NormNonNegative(a);
    NormNonNegative(b);
    CauchySchwarz(a, b);
    EstimateOverestimates(Dot(a, a), n);
    EstimateOverestimates(Dot(b, b), n);
    ProductBounds(Dot(a, a), Dot(b, b), Norm(a, n), Norm(b, n), Dot(a, b));
  }

  lemma ProductBounds(p: real, q: real, y: real, z: real, d: real)
    requires Times(d, d) <= Times(p, q) && 0.0 <= p <= Times(y, y) && 0.0 <= q <= Times(z, z) && y > 0.0 && z > 0.0
    ensures Times(y, z) > 0.0 && -Times(y, z) <= d <= Times(y, z)
  {
    ProductMonotone(p, q, y * y, z * z);
    PositiveProduct(y, z);
    assert (y * z) * (y * z) == (y * y) * (z * z);
    SquareOrder(d, y * z);
  }

  lemma QuotientBounds(d: real, m: real)
    requires m > 0.0 && -m <= d <= m
    ensures -1.0 <= d / m <= 1.0
  {
    var c := d / m;
    assert c * m == d;
    ProductOrder(c, 1.0, m);
    ProductOrder(-1.0, c, m);
  }

  lemma QuotientSign(d: real, m: real)
    requires m > 0.0
    ensures (d / m > 0.0 <==> d > 0.0) && (d / m == 0.0 <==> d == 0.0)
  {
    var c := d / m;
    assert c * m == d;
    if c > 0.0 { PositiveProduct(c, m); }
    if c < 0.0 { PositiveProduct(-c, m); }
  }

  lemma TinyQuotient(v: real, z: real, p: real)
    requires v > 0.0 && z > 0.0 && Times(z, p) >= 1.0
    ensures Times(z, z) > 0.0 && v / Times(z, z) <= Times(v, Times(p, p))
  {
    var m := z * z;
    PositiveProduct(z, z);
    var c := v / m;
    ProductMonotone(1.0, 1.0, z * p, z * p);
    var k := m * (p * p);
    assert k == (z * p) * (z * p) && k >= 1.0;
    ProductMonotone(v, 1.0, v, k);
    assert v * k == (v * p * p) * m;
    assert c * m == v;
    ProductOrder(c, v * p * p, m);
  }

  lemma ProductMonotone(p: real, q: real, r: real, s: real)
    requires 0.0 <= p <= r && 0.0 <= q <= s
    ensures Times(p, q) <= Times(r, s)
  {
    assert (r - p) * q >= 0.0 && r * (s - q) >= 0.0;
  }

  /** The loop: three sums in one pass, and no division by zero. */
  method ComputeCosine(a: Vector, b: Vector) returns (c: real)
    ensures c == Cosine(a, b)
  {
    if |a| == 0 || |a| != |b| {
      return 0.0;
    }
    var dot, aa, bb := 0.0, 0.0, 0.0;
    for i := 0 to |a|
      invariant dot == Dot(a[..i], b[..i]) && aa == Dot(a[..i], a[..i]) && bb == Dot(b[..i], b[..i])
    {
      DotNext(a, b, i);
      DotNext(a, a, i);
      DotNext(b, b, i);
      dot := dot + a[i] * b[i];
      aa := aa + a[i] * a[i];
      bb := bb + b[i] * b[i];
    }
    assert a[..|a|] == a && b[..|b|] == b;
    if aa == 0.0 || bb == 0.0 {
      return 0.0;
    }
    var y := ComputeSqrt(aa);
    var z := ComputeSqrt(bb);
    NormsBoundDot(a, b, ROUNDS);
    return dot / (y * z);
  }

  lemma CosineAfterIsBoundedAndSymmetric(a: Vector, b: Vector, n: nat)
    requires n > 0
    ensures -1.0 <= CosineAfter(a, b, n) <= 1.0
    ensures CosineAfter(a, b, n) == CosineAfter(b, a, n)
  {
    if a != [] && |a| == |b| && Dot(a, a) != 0.0 && Dot(b, b) != 0.0 {
      NormsBoundDot(a, b, n);
      DotSymmetric(a, b);
      QuotientBounds(Dot(a, b), Times(Norm(a, n), Norm(b, n)));
    }
  }

  /** The similarity lies in [-1, 1] and does not depend on the order of its arguments. */
  lemma CosineIsBoundedAndSymmetric(a: Vector, b: Vector)
    ensures -1.0 <= Cosine(a, b) <= 1.0
    ensures Cosine(a, b) == Cosine(b, a)
  {
    CosineAfterIsBoundedAndSymmetric(a, b, ROUNDS);
  }

  lemma CosineAfterSign(a: Vector, b: Vector, n: nat)
    requires |a| == |b| && n > 0
    ensures CosineAfter(a, b, n) > 0.0 <==> Dot(a, b) > 0.0
    ensures CosineAfter(a, b, n) == 0.0 <==> Dot(a, b) == 0.0
  {
    if Dot(a, a) == 0.0 || Dot(b, b) == 0.0 {
      CauchySchwarz(a, b);
      SquareIsZero(Dot(a, b));
      SquareNonNegative(Dot(a, b));
    } else {
      NormsBoundDot(a, b, n);
      QuotientSign(Dot(a, b), Times(Norm(a, n), Norm(b, n)));
    }
  }

  /** For vectors of one length it has exactly the sign of the inner product. */
  lemma CosineSign(a: Vector, b: Vector)
    requires |a| == |b|
    ensures Cosine(a, b) > 0.0 <==> Dot(a, b) > 0.0
    ensures Cosine(a, b) == 0.0 <==> Dot(a, b) == 0.0
  {
    CosineAfterSign(a, b, ROUNDS);
  }

  lemma {:induction false} EstimateOfOne(n: nat)
    ensures Estimate(1.0, n) == 1.0
  {
    if n > 0 { EstimateOfOne(n - 1); }
  }

  /** On unit vectors the similarity is exactly the inner product. */
  lemma UnitVectorsAreExact(a: Vector, b: Vector)
    requires |a| == |b| && Dot(a, a) == 1.0 && Dot(b, b) == 1.0
    ensures Cosine(a, b) == Dot(a, b)
  {
    EstimateOfOne(ROUNDS);
  }

  lemma TinyVectorsAfter(a: Vector, n: nat)
    requires n > 0
    ensures CosineAfter(a, a, n) <= Times(Dot(a, a), Times(Pow2(n), Pow2(n)))
  {
    NormNonNegative(a);
    if Dot(a, a) != 0.0 {
      EstimateOverestimates(Dot(a, a), n);
      EstimateFloor(Dot(a, a), n);
      TinyQuotient(Dot(a, a), Norm(a, n), Pow2(n));
    }
  }

  /** Twenty rounds do not reach the root of a tiny norm: even a vector and itself then look unrelated. */
  lemma TinyVectorsLookUnrelated(a: Vector)
    ensures Cosine(a, a) <= Times(Dot(a, a), Times(Pow2(ROUNDS), Pow2(ROUNDS)))
  {
    TinyVectorsAfter(a, ROUNDS);
  }

  lemma TinyExample()
    ensures Dot([0.000000001], [0.000000001]) == 0.000000000000000001
    ensures Times(Pow2(ROUNDS), Pow2(ROUNDS)) == 1099511627776.0
  {
    assert [0.000000001][..0] == [];
    assert Pow2(5) == 32.0;
    assert Pow2(10) == 32.0 * Pow2(5);
    assert Pow2(15) == 32.0 * Pow2(10);
    assert Pow2(20) == 32.0 * Pow2(15);
  }

  /** A vector of length 10^-9 is as good as orthogonal to itself. */
  lemma TinyVectorIsUnlikeItself()
    ensures Cosine([0.000000001], [0.000000001]) < 0.00001
  {
    TinyExample();
    TinyVectorsLookUnrelated([0.000000001]);
  }

  // --- When a vector is fully similar to itself --------------------------------------------------

  /** A round hits the root only from the root. */
  lemma RootOnlyFromRoot(v: real, z: real)
    requires v > 0.0 && z > 0.0 && Times(Step(v, z), Step(v, z)) == v
    ensures Times(z, z) == v
  {
    var w := v / z;
    assert w * z == v;
    var d := (z - w) / 2.0;
    assert Times(Step(v, z), Step(v, z)) - w * z == d * d;
    SquareIsZero(d);
    assert z == w;
  }

  lemma {:induction false} RootIsHitOnlyAtOne(v: real, n: nat)
    requires v > 0.0 && Times(Estimate(v, n), Estimate(v, n)) == v
    ensures v == 1.0
  {
    if n == 0 {
      SelfProduct(v);
    } else {
      EstimateOverestimates(v, n - 1);
      RootOnlyFromRoot(v, Estimate(v, n - 1));
      RootIsHitOnlyAtOne(v, n - 1);
    }
  }

  lemma SelfProduct(v: real)
    requires v > 0.0 && Times(v, v) == v
    ensures v == 1.0
  {
    assert Times(v, v) - v == v * (v - 1.0);
    if v > 1.0 { PositiveProduct(v, v - 1.0); }
    if v < 1.0 { PositiveProduct(v, 1.0 - v); }
  }

  lemma QuotientIsOne(d: real, m: real)
    requires m > 0.0
    ensures d / m == 1.0 <==> d == m
  {
    assert d / m * m == d;
    SelfQuotient(m);
  }

  lemma SelfSimilarityAfter(a: Vector, n: nat)
    requires n > 0
    ensures CosineAfter(a, a, n) == 1.0 <==> Dot(a, a) == 1.0
  {
    NormNonNegative(a);
    var v := Dot(a, a);
    if v != 0.0 {
      NormsBoundDot(a, a, n);
      QuotientIsOne(v, Times(Norm(a, n), Norm(a, n)));
      if Times(Norm(a, n), Norm(a, n)) == v { RootIsHitOnlyAtOne(v, n); }
      if v == 1.0 { EstimateOfOne(n); }
    }
  }

  /** A vector is fully similar to itself exactly when it has length one; every other similarity falls short. */
  lemma FullSelfSimilarityExactly(a: Vector)
    ensures Cosine(a, a) == 1.0 <==> Dot(a, a) == 1.0
    ensures Cosine(a, a) <= 1.0
  {
    SelfSimilarityAfter(a, ROUNDS);
    CosineIsBoundedAndSymmetric(a, a);
  }

  // --- Against the true cosine -------------------------------------------------------------------

  lemma QuotientOrder(d: real, low: real, high: real)
    requires 0.0 < low <= high && d >= 0.0
    ensures 0.0 <= d / high <= d / low
  {
    var p, q := d / high, d / low;
    assert p * high == d && q * low == d;
    ProductOrder(0.0, p, high);
    assert p * (high - low) >= 0.0;
    assert p * low == d - p * (high - low);
    ProductOrder(p, q, low);
  }

  /** How far the estimated norm can lie above the true one. */
  function Excess(s: real): real {
    (1.0 - s) * (1.0 - s) / 1048576.0
  }

  lemma ProductBetween(s: real, t: real, y: real, z: real)
    requires s > 0.0 && t > 0.0 && s <= y <= s + Excess(s) && t <= z <= t + Excess(t)
    ensures 0.0 < Times(s, t) <= Times(y, z) <= Times(s + Excess(s), t + Excess(t))
  {
    PositiveProduct(s, t);
    ProductMonotone(s, t, y, z);
    ProductMonotone(y, z, s + Excess(s), t + Excess(t));
  }

  lemma CosineByScalars(d: real, s: real, t: real, y: real, z: real)
    requires s > 0.0 && t > 0.0 && s <= y <= s + Excess(s) && t <= z <= t + Excess(t)
    ensures 0.0 < Times(s, t) && 0.0 < Times(y, z) && 0.0 < Times(s + Excess(s), t + Excess(t))
    ensures d >= 0.0 ==> d / Times(s + Excess(s), t + Excess(t)) <= d / Times(y, z) <= d / Times(s, t)
    ensures d <= 0.0 ==> d / Times(s, t) <= d / Times(y, z) <= d / Times(s + Excess(s), t + Excess(t))
  {
    ProductBetween(s, t, y, z);
    var low, mid, high := Times(s, t), Times(y, z), Times(s + Excess(s), t + Excess(t));
    if d >= 0.0 {
      QuotientOrder(d, low, mid);
      QuotientOrder(d, mid, high);
    } else {
      QuotientOrder(-d, low, mid);
      QuotientOrder(-d, mid, high);
      NegativeQuotient(d, low);
      NegativeQuotient(d, mid);
      NegativeQuotient(d, high);
    }
  }

  lemma NegativeQuotient(d: real, m: real)
    requires m > 0.0
    ensures -d / m == -(d / m)
  {
    assert d / m * m == d && -d / m * m == -d;
    assert (-d / m + d / m) * m == 0.0;
  }

  lemma NormIsNear(a: Vector, s: real)
    requires s > 0.0 && Dot(a, a) == Times(s, s)
    ensures s <= Norm(a, ROUNDS) <= s + Excess(s)
  {
    SqrtIsAccurate(Dot(a, a), s);
  }

  /**
   For vectors of true lengths s and t the similarity lies between the true cosine and the quotient by
   lengths that exceed s and t by at most (1 - s)^2 / 2^20 and (1 - t)^2 / 2^20: it has the true sign
   and is never too large in magnitude.
   */
  lemma CosineIsAccurate(a: Vector, b: Vector, s: real, t: real)
    requires |a| == |b| && s > 0.0 && t > 0.0 && Dot(a, a) == Times(s, s) && Dot(b, b) == Times(t, t)
    ensures 0.0 < Times(s, t) && 0.0 < Times(s + Excess(s), t + Excess(t))
    ensures Dot(a, b) >= 0.0 ==>
      Dot(a, b) / Times(s + Excess(s), t + Excess(t)) <= Cosine(a, b) <= Dot(a, b) / Times(s, t)
    ensures Dot(a, b) <= 0.0 ==>
      Dot(a, b) / Times(s, t) <= Cosine(a, b) <= Dot(a, b) / Times(s + Excess(s), t + Excess(t))
  {
    PositiveProduct(s, s);
    PositiveProduct(t, t);
    NormIsNear(a, s);
    NormIsNear(b, t);
    CosineByScalars(Dot(a, b), s, t, Norm(a, ROUNDS), Norm(b, ROUNDS));
  }
}

/** How much the recency of an episode can add to its score, and how little. */
module Recency {
  import opened Numerics
  import opened Retrieval

  lemma NewIsFullyRecent(now: int, updatedAt: int)
    requires now < updatedAt
    ensures RecencyScore(now, updatedAt) == 1.0
  {
    assert (now - updatedAt) as real < 0.0;
  }

  /** So old that the recency adds less than the gap. */
  function OldTime(now: int, gap: real): int
    requires gap > 0.0
  {
    now - 86400 * ((1.5 / gap).Floor + 1)
  }

  lemma DaysOf(now: int, days: int)
    ensures (now - (now - 86400 * days)) as real / 86400.0 == days as real
  {
    assert (86400 * days) as real == 86400.0 * days as real;
  }

  lemma Distribute(x: real, y: real, z: real)
    ensures Times(x + y, z) == Times(x, z) + Times(y, z)
  {
  }

  lemma Reassociate(x: real, y: real, z: real)
    ensures Times(x, Times(y, z)) == Times(Times(x, y), z)
  {
  }

  lemma DaysTimesGap(gap: real, q: real, days: real)
    requires gap > 0.0 && Times(q, gap) == 1.5 && days > q
    ensures Times(days, gap) > 1.5
  {
    Distribute(days - q, q, gap);
    PositiveProduct(days - q, gap);
  }

  lemma MonthsTimesGap(gap: real, days: real)
    requires gap > 0.0 && Times(days, gap) > 1.5
    ensures Times(1.0 + days / 30.0, gap) > 0.05
  {
    Distribute(1.0, days / 30.0, gap);
    Reassociate(1.0 / 30.0, days, gap);
    assert Times(1.0 / 30.0, days) == days / 30.0;
    assert Times(1.0, gap) == gap;
  }

  lemma SmallFraction(y: real, z: real, gap: real)
    requires y > 0.0 && Times(y, gap) > 0.05 && Times(z, y) == 1.0 && z > 0.0
    ensures 0.05 * z < gap
  {
    Reassociate(z, y, gap);
    assert Times(1.0, gap) == gap;
    Distribute(Times(y, gap) - 0.05, 0.05, z);
    PositiveProduct(Times(y, gap) - 0.05, z);
  }

  lemma Reciprocal(y: real)
    requires y > 0.0
    ensures 1.0 / y > 0.0 && Times(1.0 / y, y) == 1.0
  {
  }

  lemma PositiveFactorOf(q: real, gap: real)
    requires gap > 0.0 && Times(q, gap) > 0.0
    ensures q > 0.0
  {
  }

  lemma QuotientTimes(x: real, y: real)
    requires y > 0.0
    ensures Times(x / y, y) == x
  {
  }

  lemma OldAddsLittle(now: int, gap: real)
    requires gap > 0.0
    ensures 0.05 * RecencyScore(now, OldTime(now, gap)) < gap
  {
    var q := 1.5 / gap;
    var days := q.Floor + 1;
    var y := 1.0 + days as real / 30.0;
    QuotientTimes(1.5, gap);
    PositiveFactorOf(q, gap);
    DaysOf(now, days);
    DaysTimesGap(gap, q, days as real);
    MonthsTimesGap(gap, days as real);
    Reciprocal(y);
    SmallFraction(y, 1.0 / y, gap);
    assert RecencyScore(now, OldTime(now, gap)) == 1.0 / y;
  }
}

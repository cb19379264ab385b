/**
 The performance score of a queue entry, `calculate_score`: how long the havoc stage runs on it.
 Comparisons with fractional factors are over the reals; conversions back to integers truncate.
 */
module PerfScore {
  import opened Bytes

  const HAVOC_MAX_MULT := 16

  datatype Averages = Averages(execUs: nat, bitmapSize: nat)

  /** What a u32 keeps of a u64. */
  function Low32(x: nat): nat {
    x % 0x1_0000_0000
  }

  function Speed(execUs: nat, avg: nat): nat {
    var e, a := execUs as real, avg as real;
    if e * 0.1 > a then 10
    else if e * 0.25 > a then 25
    else if e * 0.5 > a then 50
    else if e * 0.75 > a then 75
    else if e * 4.0 < a then 300
    else if e * 3.0 < a then 200
    else if e * 2.0 < a then 150
    else 100
  }

  function BySize(perf: nat, bitmapSize: nat, avg: nat): nat {
    var b, a := bitmapSize as real, avg as real;
    if b * 0.3 > a then perf * 3
    else if b * 0.5 > a then perf * 2
    else if b * 0.75 > a then perf * 3 / 2
    else if b * 3.0 < a then perf / 4
    else if b * 2.0 < a then perf / 2
    else if b * 1.5 < a then perf * 3 / 4
    else perf
  }

  function ByHandicap(perf: nat, handicap: nat): nat {
    if handicap >= 4 then perf * 4 else if handicap > 0 then perf * 2 else perf
  }

  function ByDepth(perf: nat, depth: nat): nat {
    if depth <= 3 then perf
    else if depth <= 7 then perf * 2
    else if depth <= 13 then perf * 3
    else if depth <= 25 then perf * 4
    else perf * 5
  }

  function Score(execUs: nat, bitmapSize: nat, handicap: nat, depth: nat, avg: Averages): nat {
    Min(ByDepth(ByHandicap(BySize(Speed(execUs, avg.execUs), bitmapSize, avg.bitmapSize), handicap), depth),
        HAVOC_MAX_MULT * 100)
  }

  function Count(b: bool): nat {
    if b then 1 else 0
  }

  /** 100 for an average time; less by 25 for more than 4/3, 2 and 4 times the average each, and by 15 for
      more than 10 times; more by 50 for less than 1/2 and 1/3 of it each, and by 100 for less than 1/4. */
  lemma SpeedIs(e: nat, avg: nat)
    ensures Speed(e, avg) == 100
         - 25 * (Count(3 * e > 4 * avg) + Count(e > 2 * avg) + Count(e > 4 * avg)) - 15 * Count(e > 10 * avg)
         + 50 * (Count(2 * e < avg) + Count(3 * e < avg)) + 100 * Count(4 * e < avg)
  {
    var x, a := e as real, avg as real;
    assert x * 0.1 > a <==> e > 10 * avg;
    assert x * 0.25 > a <==> e > 4 * avg;
    assert x * 0.5 > a <==> e > 2 * avg;
    assert x * 0.75 > a <==> 3 * e > 4 * avg;
  }

  /** How many quarters of the score a bitmap leaves: four for an average size; two more above 4/3 and 2
      times the average each, and four more above 10/3 times; one less below 2/3, 1/2 and 1/3 of it each. */
  function Quarters(b: nat, avg: nat): int {
    4 + 2 * (Count(3 * b > 4 * avg) + Count(b > 2 * avg)) + 4 * Count(3 * b > 10 * avg)
      - Count(3 * b < 2 * avg) - Count(2 * b < avg) - Count(3 * b < avg)
  }

  lemma SizeIs(perf: nat, b: nat, avg: nat)
    ensures BySize(perf, b, avg) == perf * Quarters(b, avg) / 4
  {
    var x, a := b as real, avg as real;
    assert x * 0.3 > a <==> 3 * b > 10 * avg;
    assert x * 0.5 > a <==> b > 2 * avg;
    assert x * 0.75 > a <==> 3 * b > 4 * avg;
    assert x * 1.5 < a <==> 3 * b < 2 * avg;
  }

  /** The score, up to its cap: the speed, the quarters for the size, twice or four times for a handicap,
      and once more for each of the depths 4, 8, 14 and 26 that are reached. */
  lemma ScoreFactors(execUs: nat, bitmapSize: nat, handicap: nat, depth: nat, avg: Averages)
    ensures Score(execUs, bitmapSize, handicap, depth, avg)
         == Min(Speed(execUs, avg.execUs) * Quarters(bitmapSize, avg.bitmapSize) / 4
                * (1 + Count(handicap >= 1) + 2 * Count(handicap >= 4))
                * (1 + Count(depth >= 4) + Count(depth >= 8) + Count(depth >= 14) + Count(depth >= 26)), 1600)
  {
    hide Speed, BySize, Quarters;
    SizeIs(Speed(execUs, avg.execUs), bitmapSize, avg.bitmapSize);
  }

  /** The score lies between 2 and 1600... */
  lemma ScoreBounds(execUs: nat, bitmapSize: nat, handicap: nat, depth: nat, avg: Averages)
    ensures 2 <= Score(execUs, bitmapSize, handicap, depth, avg) <= 1600
  {
    assert 10 <= Speed(execUs, avg.execUs) <= 300;
    hide Speed;
    assert 2 <= BySize(Speed(execUs, avg.execUs), bitmapSize, avg.bitmapSize);
  }

  /** ... and takes both values. */
  lemma ScoreBoundsAreTight()
    ensures Score(1000, 1, 0, 0, Averages(10, 100)) == 2
    ensures Score(10, 1000, 4, 26, Averages(1000, 100)) == 1600
  {
    assert Speed(1000, 10) == 10 && BySize(10, 1, 100) == 2;
    assert Speed(10, 1000) == 300 && BySize(300, 1000, 100) == 900;
  }

  lemma SpeedMonotone(e0: nat, e1: nat, avg: nat)
    requires e0 <= e1
    ensures Speed(e0, avg) >= Speed(e1, avg)
  {
  }

  lemma SizeMonotone(p0: nat, p1: nat, b0: nat, b1: nat, avg: nat)
    requires p0 <= p1 && b0 <= b1
    ensures BySize(p0, b0, avg) <= BySize(p1, b1, avg)
  {
    assert b0 as real <= b1 as real;
  }

  /** An entry that is not slower, has no smaller bitmap, was found no earlier and lies no less deep
      than another one does not get a lower score. */
  lemma ScoreMonotone(e0: nat, b0: nat, h0: nat, d0: nat, e1: nat, b1: nat, h1: nat, d1: nat, avg: Averages)
    requires e0 >= e1 && b0 <= b1 && h0 <= h1 && d0 <= d1
    ensures Score(e0, b0, h0, d0, avg) <= Score(e1, b1, h1, d1, avg)
  {
    hide Speed, BySize, ByHandicap, ByDepth;
    SpeedMonotone(e1, e0, avg.execUs);
    var p0, p1 := Speed(e0, avg.execUs), Speed(e1, avg.execUs);
    SizeMonotone(p0, p1, b0, b1, avg.bitmapSize);
    var q0, q1 := BySize(p0, b0, avg.bitmapSize), BySize(p1, b1, avg.bitmapSize);
    HandicapMonotone(q0, q1, h0, h1);
    DepthMonotone(ByHandicap(q0, h0), ByHandicap(q1, h1), d0, d1);
  }

  lemma HandicapMonotone(p0: nat, p1: nat, h0: nat, h1: nat)
    requires p0 <= p1 && h0 <= h1
    ensures ByHandicap(p0, h0) <= ByHandicap(p1, h1)
  {
  }

  lemma DepthMonotone(p0: nat, p1: nat, d0: nat, d1: nat)
    requires p0 <= p1 && d0 <= d1
    ensures ByDepth(p0, d0) <= ByDepth(p1, d1)
  {
  }

  class Entry {
    const execUs: nat
    const bitmapSize: nat
    const depth: nat
    var handicap: nat

    /** `calculate_score`; it uses up some of the handicap. */
    method CalculateScore(totalCalUs: nat, totalCalCycles: nat, totalBitmapSize: nat, totalBitmapEntries: nat)
      returns (perfScore: nat)
      requires totalCalCycles > 0 && totalBitmapEntries > 0
      modifies `handicap
      ensures var avg := Averages(Low32(totalCalUs / totalCalCycles), Low32(totalBitmapSize / totalBitmapEntries));
              perfScore == Score(execUs, bitmapSize, old(handicap), depth, avg)
      ensures 2 <= perfScore <= 1600
      ensures handicap == Max(0, if old(handicap) >= 4 then old(handicap) - 4 else old(handicap) - 1)
    {
      var avg := Averages(Low32(totalCalUs / totalCalCycles), Low32(totalBitmapSize / totalBitmapEntries));
      ScoreBounds(execUs, bitmapSize, handicap, depth, avg);
      perfScore := Speed(execUs, avg.execUs);
      perfScore := BySize(perfScore, bitmapSize, avg.bitmapSize);
      if handicap >= 4 {
        perfScore := perfScore * 4;
        handicap := handicap - 4;
      } else if handicap > 0 {
        perfScore := perfScore * 2;
        handicap := handicap - 1;
      }
      perfScore := ByDepth(perfScore, depth);
      if perfScore > HAVOC_MAX_MULT * 100 {
        perfScore := HAVOC_MAX_MULT * 100;
      }
    }
  }
}

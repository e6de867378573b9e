/** The calculator object: two parallel histories of bedtimes and wake times
    that are appended to and cleared in place, and the cached cycle length that
    a scan over the candidates overwrites. */
module Calculator {
  import opened Clock
  import opened CycleFit

  class SleepCalculator {
    var bedtimes: seq<string>
    var waketimes: seq<string>
    var cycleLength: int

    /** The two histories are always added to and cleared together. */
    ghost predicate Valid()
      reads this
    {
      |bedtimes| == |waketimes|
    }

    /** The histories are equally long and every recorded string is long
        enough for the score to read it. */
    ghost predicate CanScore()
      reads this
    {
      Valid() && CycleFit.Scorable(bedtimes, waketimes)
    }

    constructor ()
      ensures Valid()
      ensures bedtimes == [] && waketimes == [] && cycleLength == 90
    {
      bedtimes := [];
      waketimes := [];
      cycleLength := 90;
    }

    /** Records one night. The strings are stored as given. */
    method AddTimes(bedtime: string, waketime: string)
      requires Valid()
      modifies this
      ensures Valid()
      ensures bedtimes == old(bedtimes) + [bedtime]
      ensures waketimes == old(waketimes) + [waketime]
      ensures cycleLength == old(cycleLength)
    {
      bedtimes := bedtimes + [bedtime];
      waketimes := waketimes + [waketime];
    }

    /** Forgets every night; the cached cycle length is kept. */
    method ClearTimes()
      requires Valid()
      modifies this
      ensures Valid()
      ensures bedtimes == [] && waketimes == []
      ensures cycleLength == old(cycleLength)
    {
      bedtimes := [];
      waketimes := [];
    }

    method GetCycleLength() returns (c: int)
      ensures c == cycleLength
    {
      c := cycleLength;
    }

    /** The mean, over the recorded nights, of how far `sleepLength / cycle`
        is from a whole number; NaN when nothing is recorded. Changes nothing. */
    method AvgDecimalDifference(cycle: int) returns (avg: Double)
      requires CanScore() && cycle > 0
      ensures avg == Score(bedtimes, waketimes, cycle)
    {
      hide SleepLength;
      var decimalSum := 0.0;
      var i := 0;
      while i < |bedtimes|
        invariant 0 <= i <= |bedtimes|
        invariant decimalSum == MismatchSum(Lengths(bedtimes, waketimes), cycle, i)
      {
        var quotient := SleepLength(bedtimes[i], waketimes[i]) as real / cycle as real;
        var decimal := quotient - Truncate(quotient) as real;
        if decimal > 0.5 {
          decimal := 1.0 - decimal;
        }
        decimalSum := decimalSum + decimal;
        i := i + 1;
      }
      if |bedtimes| == 0 {
        avg := NaN;
      } else {
        avg := Finite(decimalSum / |bedtimes| as real);
      }
    }

    /** Tries 90, then 90 + i and 90 - i for i = 1 .. 10, and keeps a candidate
        only when its score is strictly below the best so far. The histories
        are not touched and the previous cycle length plays no part. */
    method UpdateCycleLength()
      requires CanScore()
      modifies this`cycleLength
      ensures cycleLength == BestCycle(bedtimes, waketimes)
      ensures 80 <= cycleLength <= 100
    {
      // The scan compares scores without looking inside them.
      hide Score;
      ghost var scores := Scores(bedtimes, waketimes);
      var mostAccurate := AvgDecimalDifference(90);
      cycleLength := 90;
      ScoresAt(bedtimes, waketimes, 0);
      ghost var k: nat := 0;
      var i := 1;
      while i <= 10
        invariant 1 <= i <= 11
        invariant k == Pick(scores, 2 * i - 1)
        invariant cycleLength == Candidate(k) && mostAccurate == scores[k]
      {
        ScoresAround(bedtimes, waketimes, i);
        var above := AvgDecimalDifference(90 + i);
        if Less(above, mostAccurate) {
          mostAccurate := AvgDecimalDifference(90 + i);
          cycleLength := 90 + i;
          k := 2 * i - 1;
        }
        var below := AvgDecimalDifference(90 - i);
        if Less(below, mostAccurate) {
          mostAccurate := AvgDecimalDifference(90 - i);
          cycleLength := 90 - i;
          k := 2 * i;
        }
        i := i + 1;
      }
    }
  }

  /** With an unchanged history a second recomputation gives the same cycle
      length as the first. */
  method UpdateTwice(calculator: SleepCalculator) returns (first: int, second: int)
    requires calculator.CanScore()
    modifies calculator
    ensures calculator.bedtimes == old(calculator.bedtimes)
    ensures calculator.waketimes == old(calculator.waketimes)
    ensures first == second == BestCycle(calculator.bedtimes, calculator.waketimes)
  {
    calculator.UpdateCycleLength();
    first := calculator.GetCycleLength();
    calculator.UpdateCycleLength();
    second := calculator.GetCycleLength();
  }

  /** A fresh calculator keeps 90 when asked to recompute with no history. */
  method EmptyHistoryKeepsDefault() returns (c: int)
    ensures c == 90
  {
    var calculator := new SleepCalculator();
    calculator.UpdateCycleLength();
    BestCycleEmpty();
    c := calculator.GetCycleLength();
  }
}

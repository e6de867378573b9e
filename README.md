# Sleep-cycle calculator, modelled in Dafny

The calculator keeps a history of nights as two parallel lists of "HH:MM"
strings, one of bedtimes and one of wake times. From that history it fits a
sleep-cycle length. It tries every whole number of minutes from 80 to 100 and
keeps the one whose multiples come closest, on average, to the lengths of the
recorded nights. Given a wake time, a cycle length and a number of hours, it
then recommends two or three bedtimes that lie a whole number of cycles
before the wake time.

The model has three modules:

- `Clock` (`clock.dfy`) covers the static, straight-line parts. Clock strings
  are read as `c - '0'` at positions 0, 1, 3 and 4. It holds the hour-only
  sleep-length rule (`SleepLength`), the zero-padded formatting
  (`FormatMinutes`), counting back with one wrap at midnight
  (`GetTimeBefore`) and the recommendation (`BestTimes`), each with lemmas
  giving its meaning.
- `CycleFit` (`cycle_fit.dfy`) covers the score. A Java double is modelled as
  `Double = NaN | Finite(real)`, and Java's `<` is false whenever a NaN is
  involved. The module defines the per-night term with Java's truncating
  `(int)` cast, the mean over the history, the order in which candidates are
  tried (90, 91, 89, …, 100, 80) and the scan as a function (`Pick`,
  `BestCycle`). Lemmas prove that the scan picks the first minimum, and that
  with no history it keeps 90.
- `Calculator` (`calculator.dfy`) holds the `SleepCalculator` class. Its
  fields `bedtimes`, `waketimes` and `cycleLength` are updated in place.
  `AvgDecimalDifference` and `UpdateCycleLength` are loops, proved against
  `Score` and `BestCycle`.

What the code does, as the model follows it:

- Sleep length compares hours only, since the code treats crossing midnight
  as "the bedtime hour is greater than the wake hour"
  (src/SleepCalculator.java:72-75). Equal bedtime and wake time therefore give
  0 minutes, not a full day.
- For the same reason, a wake time in the same hour but at an earlier minute
  gives a negative length: from 01:30 to 01:10 is -20 (`SleepLengthExamples`).
  That negative length flows into the score unchanged, and the truncating cast
  then leaves a negative term (`MismatchOfNegative`).
- No clock string is validated. The code reads `c - '0'` at positions 0, 1, 3
  and 4 of whatever it is given. The model requires only that those positions
  exist, and computes with any character there.
- An empty history is not a special case. Its score is `0.0 / 0`, a NaN, which
  never compares smaller, so the scan keeps 90 (`BestCycleEmpty`,
  `PickStaysOnNaN`).
- The number of whole cycles in the requested hours is Java's integer
  division, which rounds toward zero (`JavaDiv`). This matters only for a
  negative number of hours, which the code accepts. With negative hours every
  entry lies at or after the wake time, except that the first lies one cycle
  before it when the request is shorter than one cycle: ("07:00", 100, -1)
  gives ["05:20", "07:00"] (`BestTimesExamplesNegativeInexact`).

## Model

| member | source | states |
|---|---|---|
| `Clock.Hour` | src/SleepCalculator.java:70-71 | for two digit characters at positions 0 and 1, the number they spell, in [0, 99] |
| `Clock.MinuteOfHour` | src/SleepCalculator.java:77-78 | for two digit characters at positions 3 and 4, the number they spell, in [0, 99] |
| `Clock.Minutes` | src/SleepCalculator.java:147-148 | for a real time of day, in [0, 1440) and splitting back into its hour and minute |
| `Clock.SleepLength` | src/SleepCalculator.java:69-81 | the length differs from wake minus bed (in minutes since midnight) by a whole number of days |
| `Clock.SleepLengthCases` | src/SleepCalculator.java:70-80 | bed hour > wake hour gives wake + 1440 - bed, in [1, 1439]; otherwise wake - bed, in [-59, 1439]; zero exactly for equal times; negative exactly for the same hour with an earlier wake minute |
| `Clock.SleepLengthIsElapsedTime` | src/SleepCalculator.java:69-81 | whenever the length is not negative it equals (wake - bed) mod 1440 |
| `Clock.SleepLengthExamples` | src/SleepCalculator.java:69-81 | 23:30 to 00:15 is 45; 01:00 to 01:00 is 0; 01:30 to 01:10 is -20 |
| `Clock.DecimalString` | src/SleepCalculator.java:158-163 | the int-to-string step: digits only, a single digit exactly below ten, no leading zero except for 0 itself, and the digits spell the number back |
| `Clock.FormatMinutes` | src/SleepCalculator.java:155-164 | for 0 <= m < 1440 the output is a canonical zero-padded "HH:MM" string that reads back as m |
| `Clock.FormatParseRoundTrip` | src/SleepCalculator.java:147-164 | formatting the minutes a canonical "HH:MM" string stands for gives back that string |
| `Clock.CanonicalUnique` | src/SleepCalculator.java:147-148 | two canonical strings that stand for the same minutes are equal |
| `Clock.GetTimeBefore` | src/SleepCalculator.java:145-167 | whenever time minus the count lies within one day either side of midnight (a negative count counts forward), the result is canonical "HH:MM" and stands for (t - m) mod 1440 |
| `Clock.GetTimeBeforeZero` | src/SleepCalculator.java:145-167 | counting back zero minutes from a canonical time returns it unchanged |
| `Clock.GetTimeBeforeExamples` | src/SleepCalculator.java:145-167 | from "07:00", 90 back is "05:30", 480 back is "23:00", and -60 back is "08:00" |
| `Clock.JavaDiv` | src/SleepCalculator.java:121 | the quotient rounds toward zero: cycle*q is at most a non-negative dividend and at least a negative one, within one cycle |
| `Clock.DivisibleByJavaDiv` | src/SleepCalculator.java:119-121 | the `% cycle == 0` test holds exactly when cycle times the quotient gives the dividend back |
| `Clock.BestTimes` | src/SleepCalculator.java:118-135 | 3 entries exactly when hours*60 is a multiple of the cycle, else 2; with n = hours*60 / cycle rounded toward zero, entry k is canonical and stands for time minus cycle*(n+1-k), mod 1440 |
| `Clock.BestTimesWholeCycles` | src/SleepCalculator.java:118-135 | from each recommended bedtime to the wake time is cycle*(n+1-k) minutes on the clock, a whole number of cycles |
| `Clock.BestTimesBracket` | src/SleepCalculator.java:119-133 | for hours >= 0, cycle*n <= hours*60 < cycle*(n+1), and for hours < 0 the bracket is the other way round; a third entry exists exactly when cycle*n equals hours*60 |
| `Clock.BestTimesDetermined` | src/SleepCalculator.java:118-135 | the stated counts and minutes pin the recommendation down: any list of canonical strings meeting them is the one returned |
| `Clock.BestTimesExamples` | src/SleepCalculator.java:119-125 | ("07:00", 90, 6) gives ["23:30", "01:00", "02:30"] |
| `Clock.BestTimesExamplesInexact` | src/SleepCalculator.java:127-134 | ("07:00", 100, 6) gives ["00:20", "02:00"] |
| `Clock.BestTimesExamplesZeroHours` | src/SleepCalculator.java:119-125 | ("07:00", 90, 0) gives ["05:30", "07:00", "08:30"] |
| `Clock.BestTimesExamplesNegativeHours` | src/SleepCalculator.java:119-125 | ("07:00", 90, -3) gives ["08:30", "10:00", "11:30"] |
| `Clock.BestTimesExamplesNegativeInexact` | src/SleepCalculator.java:127-134 | ("07:00", 100, -1) gives ["05:20", "07:00"] |
| `CycleFit.Truncate` | src/SleepCalculator.java:96 | the `(int)` cast rounds toward zero: floor for non-negative values, ceiling for negative ones |
| `CycleFit.Mismatch` | src/SleepCalculator.java:95-100 | the per-night term, as written with the truncating cast, lies in (-1, 0.5] |
| `CycleFit.MismatchOfNonNegative` | src/SleepCalculator.java:95-100 | for a length >= 0 and r = len mod cycle, the term is min(r, cycle - r) / cycle, in [0, 0.5] |
| `CycleFit.MismatchOfNegative` | src/SleepCalculator.java:95-100 | for a negative length the truncated part stays negative: the term is -((-len) mod cycle)/cycle, in (-1, 0] |
| `CycleFit.Lengths` | src/SleepCalculator.java:94-95 | one sleep length per recorded night, the i-th from the i-th bedtime and wake time |
| `CycleFit.MismatchSum` | src/SleepCalculator.java:92-103 | the running sum over the first n nights lies in [-n, n/2] |
| `CycleFit.MismatchSumBounds` | src/SleepCalculator.java:94-103 | with no negative lengths the running sum over n nights lies in [0, n/2] |
| `CycleFit.Score` | src/SleepCalculator.java:91-106 | NaN (from `0.0 / 0`) exactly on an empty history; otherwise the mean term, in [-1, 0.5] |
| `CycleFit.ScoreBounds` | src/SleepCalculator.java:91-106 | with no negative lengths, a non-empty history scores in [0, 0.5] |
| `CycleFit.Candidate` | src/SleepCalculator.java:48-58 | every candidate tried lies in [80, 100] |
| `CycleFit.Position` | src/SleepCalculator.java:48-58 | every cycle length in [80, 100] is tried, at position Position(c) |
| `CycleFit.PositionOfCandidate` | src/SleepCalculator.java:48-58 | each candidate is tried exactly once (Position undoes Candidate) |
| `CycleFit.Pick` | src/SleepCalculator.java:48-59 | the scan always holds one of the candidates tried so far |
| `CycleFit.PickStaysOnNaN` | src/SleepCalculator.java:48-59 | when the first score is NaN no comparison succeeds and the scan stays on the first candidate |
| `CycleFit.PickIsMinimal` | src/SleepCalculator.java:51-58 | with finite scores the scan ends on a smallest score |
| `CycleFit.PickIsFirst` | src/SleepCalculator.java:51-58 | with finite scores every candidate tried before the chosen one scores strictly more |
| `CycleFit.PickIsFirstMinimum` | src/SleepCalculator.java:48-59 | the first smallest score is exactly what the scan returns |
| `CycleFit.BestCycle` | src/SleepCalculator.java:47-60 | the cycle length chosen lies in [80, 100] |
| `CycleFit.BestCycleEmpty` | src/SleepCalculator.java:47-60 | on an empty history the chosen cycle length is 90 |
| `CycleFit.BestCycleOptimal` | src/SleepCalculator.java:47-60 | on a non-empty history the chosen length scores no more than any length in [80, 100], and strictly less than every candidate tried before it |
| `CycleFit.BestCycleIsFirstMinimum` | src/SleepCalculator.java:47-60 | any length in [80, 100] that is minimal and strictly better than every earlier candidate is the chosen one |
| `CycleFit.BestCycleExample` | src/SleepCalculator.java:47-60 | the history [("23:00", "06:30")] (450 minutes) yields 90 |
| `Calculator.SleepCalculator.constructor` | src/SleepCalculator.java:8-12 | both histories start empty and the cycle length starts at 90 |
| `Calculator.SleepCalculator.AddTimes` | src/SleepCalculator.java:20-23 | appends one entry to each history; earlier entries and the cycle length are unchanged; the histories stay equally long |
| `Calculator.SleepCalculator.ClearTimes` | src/SleepCalculator.java:28-31 | both histories become empty; the cycle length is unchanged |
| `Calculator.SleepCalculator.GetCycleLength` | src/SleepCalculator.java:38-40 | returns the cached cycle length |
| `Calculator.SleepCalculator.AvgDecimalDifference` | src/SleepCalculator.java:91-106 | changes nothing and returns the mean per-night term, NaN on an empty history |
| `Calculator.SleepCalculator.UpdateCycleLength` | src/SleepCalculator.java:47-60 | changes only the cycle length, which becomes the first minimum of the score in the order 90, 91, 89, …, 100, 80, always in [80, 100] and independent of its old value |
| `Calculator.UpdateTwice` | src/SleepCalculator.java:47-60 | two recomputations in a row with an unchanged history give the same cycle length |
| `Calculator.EmptyHistoryKeepsDefault` | src/SleepCalculator.java:8-12 | a fresh calculator recomputing with no history reports 90 |


## Left out

- src/SleepCalculatorGUI.java is not part of this model. It holds the window, buttons, event listeners and text output. It also has the error message for an hours field that does not parse as an integer.
- IEEE-754 rounding in the score is not modelled. Quotients, sums and means are exact rationals, so ties that rounding might break or create are decided exactly. NaN, from `0.0 / 0` on an empty history, is modelled.
- Dafny characters are Unicode scalar values, while Java `char` is a UTF-16 code unit. The two differ only for characters outside the Basic Multilingual Plane, which no clock string contains.
- Every operation requires clock strings of length >= 5, where Java would throw `StringIndexOutOfBoundsException`, and computes `c - '0'` for any character there. The lemmas about sleep length, formatting and the round trip are stated for real times of day (`ValidTime`: digits, an hour of at most 23, a minute of at most 59).
- Clock.GetTimeBefore: requires time minus the count to lie in [-1440, 1440), checked on whatever `Minutes` reads from the string. At 1440 or more the source prints an hour of 24 or more (from "07:00", a count of -1020 gives "24:00"; `getTimeBefore("25:00", 0)` gives "25:00"). Below -1440 it prints a negative minute when the difference is from -1499 to -1441 (from "00:00", a count of 1470 gives "00:0-30"), and a negative hour below that (from "00:00", a count of 1500 gives "0-1:00"). None of these strings is a clock time, and none is modelled.
- Clock.BestTimes: requires a positive cycle, and every count back the source makes to meet the requirement of `GetTimeBefore` above. A cycle of 0 makes Java throw `ArithmeticException`. A negative cycle is also excluded, although Java accepts it (`bestTimes("07:00", -90, 6)` gives ["02:30", "01:00", "23:30"]); every caller passes the calculator's cycle length, which lies in [80, 100], or 90 (src/SleepCalculatorGUI.java:118-121). Zero and negative hours are modelled.
- Calculator.SleepCalculator.AvgDecimalDifference: requires cycle > 0. The source only calls it with 80 to 100.
- Java's 32-bit int overflow is not modelled. Under the preconditions above every intermediate value stays far below 2^31 for the strings and hours the calculator is given; a request of more than about 35 million hours would overflow `hours*60`, and that wrap-around is not captured.

/** Clock-of-day strings "HH:MM" as the sleep calculator reads and writes them,
    the sleep-length rule, counting back from a wake time, and the bedtime
    recommendation. Everything here is static, straight-line logic. */
module Clock {

  /** Java's `c - '0'`, applied to whatever character is there. */
  function Digit(c: char): int {
    c as int - '0' as int
  }

  predicate IsDigit(c: char) {
    '0' <= c <= '9'
  }

  /** The character Java prints for a decimal digit. */
  function DigitChar(d: int): (c: char)
    requires 0 <= d < 10
    ensures IsDigit(c) && Digit(c) == d
  {
    ('0' as int + d) as char
  }

  /** A string the calculator can index at all: it reads positions 0, 1, 3 and 4. */
  predicate Readable(t: string) {
    |t| >= 5
  }

  /** Hour field, read from positions 0 and 1: for two digits, the number
      they spell. */
  function Hour(t: string): (h: int)
    requires Readable(t)
    ensures IsDigit(t[0]) && IsDigit(t[1]) ==>
              0 <= h <= 99 && h / 10 == Digit(t[0]) && h % 10 == Digit(t[1])
  {
    Digit(t[0]) * 10 + Digit(t[1])
  }

  /** Minute field, read from positions 3 and 4 (position 2 is never looked
      at): for two digits, the number they spell. */
  function MinuteOfHour(t: string): (m: int)
    requires Readable(t)
    ensures IsDigit(t[3]) && IsDigit(t[4]) ==>
              0 <= m <= 99 && m / 10 == Digit(t[3]) && m % 10 == Digit(t[4])
  {
    Digit(t[3]) * 10 + Digit(t[4])
  }

  /** Minutes since midnight, as the source computes them. For a real time of
      day they fall within one day and split back into the hour and minute. */
  function Minutes(t: string): (m: int)
    requires Readable(t)
    ensures ValidTime(t) ==> 0 <= m < 1440 && m / 60 == Hour(t) && m % 60 == MinuteOfHour(t)
  {
    Hour(t) * 60 + MinuteOfHour(t)
  }

  /** A real time of day: digits where they are read, hour at most 23, minute at most 59. */
  predicate ValidTime(t: string) {
    Readable(t) && IsDigit(t[0]) && IsDigit(t[1]) && IsDigit(t[3]) && IsDigit(t[4])
    && Hour(t) <= 23 && MinuteOfHour(t) <= 59
  }

  /** The canonical zero-padded "HH:MM" form. */
  predicate Canonical(t: string) {
    |t| == 5 && t[2] == ':' && ValidTime(t)
  }

  // ---------------------------------------------------------------------
  // Sleep length
  // ---------------------------------------------------------------------

  /** Minutes slept from `bedtime` to `waketime`. Midnight is taken to be crossed
      only when the bedtime HOUR is greater than the wake hour; the minutes are
      not compared. The result always differs from the clock difference by a
      whole number of days. */
  function SleepLength(bedtime: string, waketime: string): (r: int)
    requires Readable(bedtime) && Readable(waketime)
    ensures (r - (Minutes(waketime) - Minutes(bedtime))) % 1440 == 0
  {
    var bedtimeHour := Hour(bedtime);
    var waketimeHour := if bedtimeHour > Hour(waketime) then Hour(waketime) + 24 else Hour(waketime);
    var bedtimeMinutes := bedtimeHour * 60 + MinuteOfHour(bedtime);
    var waketimeMinutes := waketimeHour * 60 + MinuteOfHour(waketime);
    waketimeMinutes - bedtimeMinutes
  }

  /** The two branches of the hour-only rule, their ranges, and exactly when the
      length is zero or negative. */
  lemma SleepLengthCases(bedtime: string, waketime: string)
    requires ValidTime(bedtime) && ValidTime(waketime)
    ensures Hour(bedtime) > Hour(waketime) ==>
              SleepLength(bedtime, waketime) == Minutes(waketime) + 1440 - Minutes(bedtime)
              && 1 <= SleepLength(bedtime, waketime) <= 1439
    ensures Hour(bedtime) <= Hour(waketime) ==>
              SleepLength(bedtime, waketime) == Minutes(waketime) - Minutes(bedtime)
              && -59 <= SleepLength(bedtime, waketime) <= 1439
    ensures SleepLength(bedtime, waketime) == 0 <==> Minutes(bedtime) == Minutes(waketime)
    ensures SleepLength(bedtime, waketime) < 0 <==>
              Hour(bedtime) == Hour(waketime) && MinuteOfHour(waketime) < MinuteOfHour(bedtime)
  {
  }

  /** Whenever the length is not negative it is the elapsed clock time, that is
      the wake time minus the bedtime taken modulo one day. */
  lemma SleepLengthIsElapsedTime(bedtime: string, waketime: string)
    requires ValidTime(bedtime) && ValidTime(waketime)
    requires SleepLength(bedtime, waketime) >= 0
    ensures SleepLength(bedtime, waketime) == (Minutes(waketime) - Minutes(bedtime)) % 1440
  {
    SleepLengthCases(bedtime, waketime);
  }

  lemma SleepLengthExamples()
    ensures SleepLength("23:30", "00:15") == 45
    ensures SleepLength("01:00", "01:00") == 0
    ensures SleepLength("01:30", "01:10") == -20
  {
  }

  // ---------------------------------------------------------------------
  // Formatting and counting back
  // ---------------------------------------------------------------------

  /** The number a string of decimal digits spells, most significant first. */
  function DecimalValue(s: string): int {
    if |s| == 0 then 0 else DecimalValue(s[..|s| - 1]) * 10 + Digit(s[|s| - 1])
  }

  /** Java's decimal rendering of a non-negative int: digits only, a single
      one exactly below ten, no leading zero except for zero itself, spelling
      the number back. */
  function DecimalString(n: nat): (s: string)
    ensures |s| >= 1 && (|s| == 1 <==> n < 10)
    ensures s[0] == '0' <==> n == 0
    ensures forall i :: 0 <= i < |s| ==> IsDigit(s[i])
    ensures DecimalValue(s) == n
    decreases n
  {
    if n < 10 then [DigitChar(n)]
    else
      var prefix := DecimalString(n / 10);
      var s := prefix + [DigitChar(n % 10)];
      assert s[..|s| - 1] == prefix;
      s
  }

  lemma DecimalStringSmall(n: nat)
    requires n < 100
    ensures n < 10 ==> DecimalString(n) == [DigitChar(n)]
    ensures n >= 10 ==> DecimalString(n) == [DigitChar(n / 10), DigitChar(n % 10)]
  {
  }

  /** Renders minutes since midnight the way the source does: hour and minute
      concatenated around ':', a '0' inserted before a one-digit minute and
      prepended before a one-digit hour. The result is canonical and reads back
      as the same number of minutes. */
  function FormatMinutes(outputMinutes: int): (r: string)
    requires 0 <= outputMinutes < 1440
    ensures Canonical(r) && Minutes(r) == outputMinutes
  {
    var outputHour := outputMinutes / 60;
    var outputMin := outputMinutes % 60;
    DecimalStringSmall(outputHour);
    DecimalStringSmall(outputMin);
    var output :=
      if outputMin < 10 then DecimalString(outputHour) + ":0" + DecimalString(outputMin)
      else DecimalString(outputHour) + ":" + DecimalString(outputMin);
    if outputHour < 10 then "0" + output else output
  }

  lemma DigitRoundTrip(c: char)
    requires IsDigit(c)
    ensures DigitChar(Digit(c)) == c
  {
  }

  /** Formatting the minutes a canonical string stands for gives back that string. */
  lemma {:induction false} FormatParseRoundTrip(t: string)
    requires Canonical(t)
    ensures FormatMinutes(Minutes(t)) == t
  {
    var h, m := Hour(t), MinuteOfHour(t);
    assert Minutes(t) / 60 == h && Minutes(t) % 60 == m;
    assert h / 10 == Digit(t[0]) && h % 10 == Digit(t[1]);
    assert m / 10 == Digit(t[3]) && m % 10 == Digit(t[4]);
    DigitRoundTrip(t[0]);
    DigitRoundTrip(t[1]);
    DigitRoundTrip(t[3]);
    DigitRoundTrip(t[4]);
    DecimalStringSmall(h);
    DecimalStringSmall(m);
    var r := FormatMinutes(Minutes(t));
    assert r == [t[0], t[1], t[2], t[3], t[4]];
  }

  /** A canonical string is determined by the minutes it stands for. */
  lemma CanonicalUnique(a: string, b: string)
    requires Canonical(a) && Canonical(b) && Minutes(a) == Minutes(b)
    ensures a == b
  {
    FormatParseRoundTrip(a);
    FormatParseRoundTrip(b);
  }

  /** Counting `minutes` back from `time` lands on a clock time. The source
      adds one day to a negative difference and nothing more, so that is the
      case exactly when the difference lies within one day either side of
      midnight. A negative count counts forward. */
  predicate CountsBackToClock(time: string, minutes: int) {
    Readable(time) && -1440 <= Minutes(time) - minutes < 1440
  }

  /** The time `minutes` before `time`, wrapping at most once past midnight. */
  function GetTimeBefore(time: string, minutes: int): (r: string)
    requires CountsBackToClock(time, minutes)
    ensures Canonical(r)
    ensures Minutes(r) == (Minutes(time) - minutes) % 1440
  {
    var outputMinutes := Minutes(time) - minutes;
    FormatMinutes(if outputMinutes < 0 then 24 * 60 + outputMinutes else outputMinutes)
  }

  /** Counting back zero minutes from a canonical time returns it unchanged. */
  lemma GetTimeBeforeZero(t: string)
    requires Canonical(t)
    ensures GetTimeBefore(t, 0) == t
  {
    FormatParseRoundTrip(t);
  }

  lemma GetTimeBeforeExamples()
    ensures GetTimeBefore("07:00", 90) == "05:30"
    ensures GetTimeBefore("07:00", 480) == "23:00"
    ensures GetTimeBefore("07:00", -60) == "08:00"
  {
    CanonicalUnique(GetTimeBefore("07:00", 90), "05:30");
    CanonicalUnique(GetTimeBefore("07:00", 480), "23:00");
    CanonicalUnique(GetTimeBefore("07:00", -60), "08:00");
  }

  // ---------------------------------------------------------------------
  // Bedtime recommendation
  // ---------------------------------------------------------------------

  /** Java's `/` on ints with a positive divisor: the quotient rounded toward
      zero, so the product lies below a non-negative dividend and above a
      negative one, within one divisor. */
  function JavaDiv(a: int, b: int): (q: int)
    requires b > 0
    ensures a >= 0 ==> 0 <= q && b * q <= a < b * (q + 1)
    ensures a < 0 ==> q <= 0 && b * (q - 1) < a <= b * q
  {
    assert b * (a / b + 1) == b * (a / b) + b;
    assert b * (-((-a) / b) - 1) == b * -((-a) / b) - b;
    if a >= 0 then a / b else -((-a) / b)
  }

  /** A dividend is a multiple exactly when the rounded-toward-zero quotient
      gives it back; so Java's `%` is zero exactly when Dafny's is. */
  lemma DivisibleByJavaDiv(a: int, b: int)
    requires b > 0
    ensures a % b == 0 <==> a == b * JavaDiv(a, b)
  {
    var q := JavaDiv(a, b);
    if a >= 0 {
      assert q == a / b;
      assert a == b * q + a % b;
    } else {
      var k, r := (-a) / b, (-a) % b;
      assert q == -k;
      assert a == b * -k - r;
      if r == 0 {
        RemainderUnique(b, -k, 0);
      } else {
        assert a == b * (-k - 1) + (b - r);
        RemainderUnique(b, -k - 1, b - r);
      }
    }
  }

  /** Division with remainder is unique: b * m + r leaves remainder r. */
  lemma RemainderUnique(b: int, m: int, r: int)
    requires b > 0 && 0 <= r < b
    ensures (b * m + r) % b == r
  {
    var a := b * m + r;
    var d := m - a / b;
    assert b * d == a % b - r;
  }

  /** Inputs for which every recommended bedtime is a clock time: a positive
      cycle (Java divides by it) and every count back the source makes within
      one day of midnight. */
  predicate BestTimesDefined(time: string, cycle: int, hours: int) {
    cycle > 0
    && var n := JavaDiv(hours * 60, cycle);
    CountsBackToClock(time, cycle * (n + 1)) && CountsBackToClock(time, cycle * n)
    && (hours * 60 % cycle == 0 ==> CountsBackToClock(time, cycle * (n - 1)))
  }

  /** Bedtimes a whole number of cycles before `time`: one cycle more than fits
      in `hours`, as many as fit, and, only when the cycles fill `hours`
      exactly, one fewer. Java's `%` is zero exactly when Dafny's is, so the
      test is written with Dafny's. */
  function BestTimes(time: string, cycle: int, hours: int): (r: seq<string>)
    requires BestTimesDefined(time, cycle, hours)
    ensures |r| == if hours * 60 % cycle == 0 then 3 else 2
    ensures Canonical(r[0]) && Minutes(r[0]) == (Minutes(time) - cycle * (JavaDiv(hours * 60, cycle) + 1)) % 1440
    ensures Canonical(r[1]) && Minutes(r[1]) == (Minutes(time) - cycle * JavaDiv(hours * 60, cycle)) % 1440
    ensures |r| == 3 ==>
              Canonical(r[2]) && Minutes(r[2]) == (Minutes(time) - cycle * (JavaDiv(hours * 60, cycle) - 1)) % 1440
  {
    var numCycles := JavaDiv(hours * 60, cycle);
    var longer := GetTimeBefore(time, cycle * (numCycles + 1));
    var exact := GetTimeBefore(time, cycle * numCycles);
    if hours * 60 % cycle == 0 then
      [longer, exact, GetTimeBefore(time, cycle * (numCycles - 1))]
    else
      [longer, exact]
  }

  /** What the recommendation means: from bedtime k to the wake time is
      `cycle * (numCycles + 1 - k)` minutes on the clock, a whole number of
      cycles. */
  lemma BestTimesWholeCycles(time: string, cycle: int, hours: int)
    requires BestTimesDefined(time, cycle, hours)
    ensures (Minutes(time) - Minutes(BestTimes(time, cycle, hours)[0])) % 1440
            == cycle * (JavaDiv(hours * 60, cycle) + 1) % 1440
    ensures (Minutes(time) - Minutes(BestTimes(time, cycle, hours)[1])) % 1440
            == cycle * JavaDiv(hours * 60, cycle) % 1440
    ensures |BestTimes(time, cycle, hours)| == 3 ==>
              (Minutes(time) - Minutes(BestTimes(time, cycle, hours)[2])) % 1440
              == cycle * (JavaDiv(hours * 60, cycle) - 1) % 1440
  {
    hide BestTimes, JavaDiv;
    var numCycles := JavaDiv(hours * 60, cycle);
    ModDifference(Minutes(time), cycle * (numCycles + 1));
    ModDifference(Minutes(time), cycle * numCycles);
    ModDifference(Minutes(time), cycle * (numCycles - 1));
  }

  /** For a non-negative request the first recommended amount of sleep is
      more than the requested hours and the second at most them (a negative
      request is bracketed the other way round, since Java rounds toward
      zero); a third entry, one cycle less, is there exactly when the second
      fills the request. */
  lemma BestTimesBracket(time: string, cycle: int, hours: int)
    requires BestTimesDefined(time, cycle, hours)
    ensures hours >= 0 ==>
              cycle * JavaDiv(hours * 60, cycle) <= hours * 60 < cycle * (JavaDiv(hours * 60, cycle) + 1)
    ensures hours < 0 ==>
              cycle * (JavaDiv(hours * 60, cycle) - 1) < hours * 60 <= cycle * JavaDiv(hours * 60, cycle)
    ensures |BestTimes(time, cycle, hours)| == 3 <==> cycle * JavaDiv(hours * 60, cycle) == hours * 60
    ensures hours >= 0 ==>
              (|BestTimes(time, cycle, hours)| == 2 <==> cycle * JavaDiv(hours * 60, cycle) < hours * 60)
  {
    hide BestTimes, JavaDiv, CountsBackToClock;
    DivisibleByJavaDiv(hours * 60, cycle);
  }

  /** If y is x - d reduced modulo one day, then x - y is d modulo one day. */
  lemma ModDifference(x: int, d: int)
    ensures (x - (x - d) % 1440) % 1440 == d % 1440
  {
    var q := (x - d) / 1440;
    assert x - (x - d) % 1440 == d + 1440 * q;
  }

  /** The contract of BestTimes determines its result: any list of canonical
      strings with those counts and those minutes is the recommendation. */
  lemma BestTimesDetermined(time: string, cycle: int, hours: int, s: seq<string>)
    requires BestTimesDefined(time, cycle, hours)
    requires |s| == if hours * 60 % cycle == 0 then 3 else 2
    requires Canonical(s[0]) && Minutes(s[0]) == (Minutes(time) - cycle * (JavaDiv(hours * 60, cycle) + 1)) % 1440
    requires Canonical(s[1]) && Minutes(s[1]) == (Minutes(time) - cycle * JavaDiv(hours * 60, cycle)) % 1440
    requires |s| == 3 ==>
               Canonical(s[2]) && Minutes(s[2]) == (Minutes(time) - cycle * (JavaDiv(hours * 60, cycle) - 1)) % 1440
    ensures BestTimes(time, cycle, hours) == s
  {
    var r := BestTimes(time, cycle, hours);
    CanonicalUnique(r[0], s[0]);
    CanonicalUnique(r[1], s[1]);
    if |s| == 3 {
      CanonicalUnique(r[2], s[2]);
    }
  }

  lemma BestTimesExamples()
    ensures BestTimes("07:00", 90, 6) == ["23:30", "01:00", "02:30"]
  {
    BestTimesDetermined("07:00", 90, 6, ["23:30", "01:00", "02:30"]);
  }

  lemma BestTimesExamplesInexact()
    ensures BestTimes("07:00", 100, 6) == ["00:20", "02:00"]
  {
    BestTimesDetermined("07:00", 100, 6, ["00:20", "02:00"]);
  }

  /** Zero hours count one cycle back, zero, and one cycle forward. */
  lemma BestTimesExamplesZeroHours()
    ensures BestTimes("07:00", 90, 0) == ["05:30", "07:00", "08:30"]
  {
    BestTimesDetermined("07:00", 90, 0, ["05:30", "07:00", "08:30"]);
  }

  /** A negative request counts forward: -3 hours is -2 cycles of 90. */
  lemma BestTimesExamplesNegativeHours()
    ensures BestTimes("07:00", 90, -3) == ["08:30", "10:00", "11:30"]
  {
    BestTimesDetermined("07:00", 90, -3, ["08:30", "10:00", "11:30"]);
  }

  /** -60 minutes is zero whole cycles of 100, rounded toward zero. */
  lemma BestTimesExamplesNegativeInexact()
    ensures BestTimes("07:00", 100, -1) == ["05:20", "07:00"]
  {
    BestTimesDetermined("07:00", 100, -1, ["05:20", "07:00"]);
  }
}

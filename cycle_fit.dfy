/** The fitness score of a candidate cycle length and the scan that picks the
    best candidate. The score is a Java double in the source; here it is an
    exact rational, with IEEE rounding idealised away, and NaN kept as its own
    value because the source reaches it on an empty history. */
module CycleFit {
  import opened Clock

  /** A Java double as the score uses it: NaN, or an exact real. */
  datatype Double = NaN | Finite(value: real)

  /** Java's `<` on doubles: false whenever either side is NaN. */
  predicate Less(a: Double, b: Double) {
    a.Finite? && b.Finite? && a.value < b.value
  }

  /** Java's `(int)` cast of a double: truncation toward zero. */
  function Truncate(q: real): (t: int)
    ensures q >= 0.0 ==> t as real <= q < t as real + 1.0
    ensures q < 0.0 ==> t as real - 1.0 < q <= t as real
  {
    if q >= 0.0 then q.Floor else -((-q).Floor)
  }

  /** One sample's contribution: the part of `len / cycle` after the decimal
      point, replaced by its distance to 1 when it is over one half. For a
      negative length the part is negative and is kept as it is, so the term
      lies in (-1, 0.5]. */
  function Mismatch(len: int, cycle: int): (m: real)
    requires cycle > 0
    ensures -1.0 < m <= 0.5
  {
    var quotient := len as real / cycle as real;
    var decimal := quotient - Truncate(quotient) as real;
    if decimal > 0.5 then 1.0 - decimal else decimal
  }

  /** `len / cycle` in exact arithmetic splits into the integer quotient and
      the remainder over `cycle`. */
  lemma QuotientSplit(len: nat, cycle: int)
    requires cycle > 0
    ensures len as real / cycle as real == (len / cycle) as real + (len % cycle) as real / cycle as real
    ensures 0.0 <= (len % cycle) as real / cycle as real < 1.0
  {
    var k, r := len / cycle, len % cycle;
    assert len == cycle * k + r;
    assert len as real == cycle as real * k as real + r as real;
  }

  /** For a length that is not negative, the term is the distance of `len` to
      the nearest multiple of `cycle`, over `cycle`; it lies in [0, 0.5]. */
  lemma MismatchOfNonNegative(len: int, cycle: int)
    requires len >= 0 && cycle > 0
    ensures var r := len % cycle;
            Mismatch(len, cycle) == (if 2 * r <= cycle then r else cycle - r) as real / cycle as real
    ensures 0.0 <= Mismatch(len, cycle) <= 0.5
  {
    var q := len as real / cycle as real;
    var k, r := len / cycle, len % cycle;
    QuotientSplit(len, cycle);
    assert Truncate(q) == k;
    var f := r as real / cycle as real;
    assert q - Truncate(q) as real == f;
    HalfCompare(r, cycle);
    DivAdd(r as real, (cycle - r) as real, cycle as real);
  }

  lemma DivAdd(a: real, b: real, c: real)
    requires c > 0.0
    ensures (a + b) / c == a / c + b / c
  {
    var q1, q2 := a / c, b / c;
    assert q1 * c == a;
    assert q2 * c == b;
    assert (q1 + q2) * c == a + b;
  }

  lemma DivSign(x: real, c: real)
    requires c > 0.0
    ensures x / c > 0.0 <==> x > 0.0
  {
    var q := x / c;
    assert q * c == x;
  }

  /** A fraction r / c is over one half exactly when 2 r > c. */
  lemma HalfCompare(r: int, c: int)
    requires c > 0
    ensures r as real / c as real > 0.5 <==> 2 * r > c
  {
    DivAdd(r as real, (r - c) as real, c as real);
    DivAdd(c as real, (r - c) as real, c as real);
    DivSign((2 * r - c) as real, c as real);
    assert c as real / c as real == 1.0;
  }

  /** For a negative length Java's truncation leaves a negative part, which is
      never over one half, so the term is negative or zero. */
  lemma MismatchOfNegative(len: int, cycle: int)
    requires len < 0 && cycle > 0
    ensures Mismatch(len, cycle) == -(((-len) % cycle) as real / cycle as real)
    ensures -1.0 < Mismatch(len, cycle) <= 0.0
  {
    var q := len as real / cycle as real;
    var k, r := (-len) / cycle, (-len) % cycle;
    var f := r as real / cycle as real;
    QuotientSplit(-len, cycle);
    assert -q == k as real + f by {
      assert -q == (-len) as real / cycle as real;
    }
    assert Truncate(q) == -k;
    hide Truncate;
    assert q - Truncate(q) as real == -f;
  }

  // ---------------------------------------------------------------------
  // Histories and their score
  // ---------------------------------------------------------------------

  /** Parallel bedtime and wake-time lists the calculator can score: equally
      long, and every entry long enough to be indexed. */
  predicate Scorable(bedtimes: seq<string>, waketimes: seq<string>) {
    |bedtimes| == |waketimes|
    && (forall i :: 0 <= i < |bedtimes| ==> Readable(bedtimes[i]))
    && (forall i :: 0 <= i < |waketimes| ==> Readable(waketimes[i]))
  }

  /** The sleep length of every recorded night, in order. */
  function Lengths(bedtimes: seq<string>, waketimes: seq<string>): (lengths: seq<int>)
    requires Scorable(bedtimes, waketimes)
    ensures |lengths| == |bedtimes|
    ensures forall i :: 0 <= i < |bedtimes| ==> lengths[i] == SleepLength(bedtimes[i], waketimes[i])
  {
    seq(|bedtimes|, i requires 0 <= i < |bedtimes| => SleepLength(bedtimes[i], waketimes[i]))
  }

  /** Sum of the terms of the first `n` lengths; each term lies in (-1, 0.5]. */
  function MismatchSum(lengths: seq<int>, cycle: int, n: nat): (sum: real)
    requires cycle > 0 && n <= |lengths|
    ensures -(n as real) <= sum <= 0.5 * n as real
  {
    if n == 0 then 0.0
    else MismatchSum(lengths, cycle, n - 1) + Mismatch(lengths[n - 1], cycle)
  }

  /** The mean term over the history; `0.0 / 0` is NaN, so the score is NaN
      exactly when the history is empty, and otherwise a mean of terms in
      (-1, 0.5]. */
  function Score(bedtimes: seq<string>, waketimes: seq<string>, cycle: int): (score: Double)
    requires Scorable(bedtimes, waketimes) && cycle > 0
    ensures score.NaN? <==> |bedtimes| == 0
    ensures score.Finite? ==> -1.0 <= score.value <= 0.5
  {
    if |bedtimes| == 0 then NaN
    else
      var n := |bedtimes|;
      var sum := MismatchSum(Lengths(bedtimes, waketimes), cycle, n);
      MeanWithin(sum, n as real, -1.0, 0.5);
      Finite(sum / n as real)
  }

  /** Every sample sleeps a length that is not negative. */
  predicate NoNegativeLengths(bedtimes: seq<string>, waketimes: seq<string>)
    requires Scorable(bedtimes, waketimes)
  {
    forall i :: 0 <= i < |bedtimes| ==> SleepLength(bedtimes[i], waketimes[i]) >= 0
  }

  lemma {:induction false} MismatchSumBounds(lengths: seq<int>, cycle: int, n: nat)
    requires cycle > 0 && n <= |lengths|
    requires forall i :: 0 <= i < |lengths| ==> lengths[i] >= 0
    ensures 0.0 <= MismatchSum(lengths, cycle, n) <= 0.5 * n as real
  {
    if n > 0 {
      MismatchSumBounds(lengths, cycle, n - 1);
      MismatchOfNonNegative(lengths[n - 1], cycle);
    }
  }

  /** When no sample has a negative length, the score of a non-empty history
      is a mean of terms in [0, 0.5] and lies there. */
  lemma ScoreBounds(bedtimes: seq<string>, waketimes: seq<string>, cycle: int)
    requires Scorable(bedtimes, waketimes) && cycle > 0
    requires NoNegativeLengths(bedtimes, waketimes)
    ensures Score(bedtimes, waketimes, cycle).Finite? ==>
              0.0 <= Score(bedtimes, waketimes, cycle).value <= 0.5
  {
    hide Mismatch;
    var n := |bedtimes|;
    if n > 0 {
      var lengths := Lengths(bedtimes, waketimes);
      MismatchSumBounds(lengths, cycle, n);
      MeanWithin(MismatchSum(lengths, cycle, n), n as real, 0.0, 0.5);
    }
  }

  /** A sum of n terms in [lo, hi] divided by n stays in [lo, hi]. */
  lemma MeanWithin(sum: real, n: real, lo: real, hi: real)
    requires n > 0.0 && lo * n <= sum <= hi * n
    ensures lo <= sum / n <= hi
  {
    var q := sum / n;
    assert q * n == sum;
  }

  // ---------------------------------------------------------------------
  // Candidate order and the scan
  // ---------------------------------------------------------------------

  /** The j-th cycle length tried: 90, 91, 89, 92, 88, ..., 100, 80. */
  function Candidate(j: nat): (c: int)
    requires j < 21
    ensures 80 <= c <= 100
  {
    if j == 0 then 90 else if j % 2 == 1 then 90 + (j + 1) / 2 else 90 - j / 2
  }

  /** Where a cycle length in [80, 100] stands in the order of trial. */
  function Position(c: int): (j: nat)
    requires 80 <= c <= 100
    ensures j < 21 && Candidate(j) == c
  {
    if c == 90 then 0 else if c > 90 then 2 * (c - 90) - 1 else 2 * (90 - c)
  }

  /** Round i of the scan tries 90 + i and then 90 - i. */
  lemma CandidatesAround(i: int)
    requires 1 <= i <= 10
    ensures Candidate(2 * i - 1) == 90 + i && Candidate(2 * i) == 90 - i
  {
  }

  /** Each candidate is tried once: Position undoes Candidate. */
  lemma PositionOfCandidate(j: nat)
    requires j < 21
    ensures Position(Candidate(j)) == j
  {
  }

  /** The scores of the candidates in the order of trial. */
  function Scores(bedtimes: seq<string>, waketimes: seq<string>): (s: seq<Double>)
    requires Scorable(bedtimes, waketimes)
  {
    seq(21, j requires 0 <= j < 21 => Score(bedtimes, waketimes, Candidate(j)))
  }

  /** Position of the candidate the scan holds after trying the first `n`:
      it moves only to a strictly smaller score. */
  function Pick(scores: seq<Double>, n: nat): (k: nat)
    requires 1 <= n <= |scores|
    ensures k < n
  {
    if n == 1 then 0
    else
      var k := Pick(scores, n - 1);
      if Less(scores[n - 1], scores[k]) then n - 1 else k
  }

  predicate AllFinite(scores: seq<Double>) {
    forall j :: 0 <= j < |scores| ==> scores[j].Finite?
  }

  /** With a NaN first score nothing compares smaller, so the scan never moves. */
  lemma {:induction false} PickStaysOnNaN(scores: seq<Double>, n: nat)
    requires 1 <= n <= |scores| && scores[0] == NaN
    ensures Pick(scores, n) == 0
  {
    if n > 1 {
      PickStaysOnNaN(scores, n - 1);
    }
  }

  /** With finite scores the scan ends on a smallest one. */
  lemma {:induction false} PickIsMinimal(scores: seq<Double>, n: nat)
    requires 1 <= n <= |scores| && AllFinite(scores)
    ensures forall j :: 0 <= j < n ==> scores[Pick(scores, n)].value <= scores[j].value
  {
    if n > 1 {
      PickIsMinimal(scores, n - 1);
    }
  }

  /** ... and on the first smallest one: every earlier candidate scores strictly more. */
  lemma {:induction false} PickIsFirst(scores: seq<Double>, n: nat)
    requires 1 <= n <= |scores| && AllFinite(scores)
    ensures forall j :: 0 <= j < Pick(scores, n) ==> scores[Pick(scores, n)].value < scores[j].value
  {
    if n > 1 {
      PickIsFirst(scores, n - 1);
      PickIsMinimal(scores, n - 1);
    }
  }

  /** Minimal and first is a complete description of the scan's result. */
  lemma PickIsFirstMinimum(scores: seq<Double>, n: nat, k: nat)
    requires 1 <= n <= |scores| && AllFinite(scores) && k < n
    requires forall j :: 0 <= j < n ==> scores[k].value <= scores[j].value
    requires forall j :: 0 <= j < k ==> scores[k].value < scores[j].value
    ensures Pick(scores, n) == k
  {
    PickIsMinimal(scores, n);
    PickIsFirst(scores, n);
  }

  /** The cycle length the source settles on for a history. */
  function BestCycle(bedtimes: seq<string>, waketimes: seq<string>): (c: int)
    requires Scorable(bedtimes, waketimes)
    ensures 80 <= c <= 100
  {
    Candidate(Pick(Scores(bedtimes, waketimes), 21))
  }

  /** On an empty history every score is NaN and the result is 90. */
  lemma BestCycleEmpty()
    ensures BestCycle([], []) == 90
  {
    PickStaysOnNaN(Scores([], []), 21);
  }

  lemma ScoresAt(bedtimes: seq<string>, waketimes: seq<string>, j: nat)
    requires Scorable(bedtimes, waketimes) && j < 21
    ensures |Scores(bedtimes, waketimes)| == 21
    ensures Scores(bedtimes, waketimes)[j] == Score(bedtimes, waketimes, Candidate(j))
  {
  }

  /** Round i of the scan scores 90 + i and then 90 - i. */
  lemma ScoresAround(bedtimes: seq<string>, waketimes: seq<string>, i: int)
    requires Scorable(bedtimes, waketimes) && 1 <= i <= 10
    ensures |Scores(bedtimes, waketimes)| == 21
    ensures Candidate(2 * i - 1) == 90 + i && Candidate(2 * i) == 90 - i
    ensures Scores(bedtimes, waketimes)[2 * i - 1] == Score(bedtimes, waketimes, 90 + i)
    ensures Scores(bedtimes, waketimes)[2 * i] == Score(bedtimes, waketimes, 90 - i)
  {
    CandidatesAround(i);
    ScoresAt(bedtimes, waketimes, 2 * i - 1);
    ScoresAt(bedtimes, waketimes, 2 * i);
  }

  /** On a non-empty history the result scores no worse than any cycle length
      in [80, 100], and strictly better than every one tried before it. */
  lemma BestCycleOptimal(bedtimes: seq<string>, waketimes: seq<string>)
    requires Scorable(bedtimes, waketimes) && |bedtimes| > 0
    ensures var best := BestCycle(bedtimes, waketimes);
            forall c :: 80 <= c <= 100 ==>
              Score(bedtimes, waketimes, best).value <= Score(bedtimes, waketimes, c).value
    ensures var best := BestCycle(bedtimes, waketimes);
            forall j :: 0 <= j < Position(best) ==>
              Score(bedtimes, waketimes, best).value < Score(bedtimes, waketimes, Candidate(j)).value
  {
    var scores := Scores(bedtimes, waketimes);
    var k := Pick(scores, 21);
    var best := Candidate(k);
    assert AllFinite(scores) by {
      forall j | 0 <= j < |scores| ensures scores[j].Finite? {
        ScoresAt(bedtimes, waketimes, j);
      }
    }
    PickIsMinimal(scores, 21);
    PickIsFirst(scores, 21);
    PositionOfCandidate(k);
    ScoresAt(bedtimes, waketimes, k);
    forall c | 80 <= c <= 100
      ensures Score(bedtimes, waketimes, best).value <= Score(bedtimes, waketimes, c).value
    {
      ScoresAt(bedtimes, waketimes, Position(c));
    }
    forall j | 0 <= j < k
      ensures Score(bedtimes, waketimes, best).value < Score(bedtimes, waketimes, Candidate(j)).value
    {
      ScoresAt(bedtimes, waketimes, j);
    }
  }

  /** Conversely, a cycle length in [80, 100] that scores no worse than any
      other and strictly better than every one tried before it is the one
      chosen. */
  lemma BestCycleIsFirstMinimum(bedtimes: seq<string>, waketimes: seq<string>, c: int)
    requires Scorable(bedtimes, waketimes) && |bedtimes| > 0 && 80 <= c <= 100
    requires forall d :: 80 <= d <= 100 ==>
               Score(bedtimes, waketimes, c).value <= Score(bedtimes, waketimes, d).value
    requires forall j :: 0 <= j < Position(c) ==>
               Score(bedtimes, waketimes, c).value < Score(bedtimes, waketimes, Candidate(j)).value
    ensures BestCycle(bedtimes, waketimes) == c
  {
    var scores := Scores(bedtimes, waketimes);
    var k := Position(c);
    ScoresAt(bedtimes, waketimes, k);
    assert AllFinite(scores) by {
      forall j | 0 <= j < |scores| ensures scores[j].Finite? {
        ScoresAt(bedtimes, waketimes, j);
      }
    }
    forall j | 0 <= j < 21 ensures scores[k].value <= scores[j].value {
      ScoresAt(bedtimes, waketimes, j);
    }
    forall j | 0 <= j < k ensures scores[k].value < scores[j].value {
      ScoresAt(bedtimes, waketimes, j);
    }
    PickIsFirstMinimum(scores, 21, k);
  }

  /** A single night from 23:00 to 06:30 is 450 minutes, exactly five cycles
      of 90, so 90 is kept. */
  lemma BestCycleExample()
    ensures BestCycle(["23:00"], ["06:30"]) == 90
  {
    hide Mismatch;
    var bedtimes, waketimes := ["23:00"], ["06:30"];
    assert Scorable(bedtimes, waketimes);
    var scores := Scores(bedtimes, waketimes);
    assert SleepLength(bedtimes[0], waketimes[0]) == 450;
    var lengths := Lengths(bedtimes, waketimes);
    assert lengths == [450];
    forall j | 0 <= j < 21
      ensures scores[j] == Finite(Mismatch(450, Candidate(j)))
    {
      ScoresAt(bedtimes, waketimes, j);
      assert MismatchSum(lengths, Candidate(j), 0) == 0.0;
      assert MismatchSum(lengths, Candidate(j), 1) == Mismatch(450, Candidate(j));
    }
    MismatchOfNonNegative(450, 90);
    forall j | 0 <= j < 21
      ensures scores[j].Finite? && scores[0].value <= scores[j].value
    {
      MismatchOfNonNegative(450, Candidate(j));
    }
    PickIsFirstMinimum(scores, 21, 0);
  }
}

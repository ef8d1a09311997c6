// Splitting a time span into prime and non-prime seconds (csa/lib/peak_offpeak.c, pop_calc).

module PeakOffpeak {

  const SECSPERDAY: int := 86400

  datatype Day = Day(midnight: int, startPeak: int, startOffpeak: int)

  // The table parse_holiday_file sets up: consecutive days, each with one prime window inside it
  predicate Table(days: seq<Day>) {
    && (forall k :: 0 < k < |days| ==> days[k].midnight == days[k - 1].midnight + SECSPERDAY)
    && (forall k :: 0 <= k < |days| ==>
          days[k].midnight <= days[k].startPeak <= days[k].startOffpeak <= days[k].midnight + SECSPERDAY)
  }

  function Min(a: int, b: int): int {
    if a < b then a else b
  }

  function Max(a: int, b: int): int {
    if a > b then a else b
  }

  // Length of the overlap of [a, b) and [c, d)
  function Overlap(a: int, b: int, c: int, d: int): int {
    Max(0, Min(b, d) - Max(a, c))
  }

  // Seconds of [a, b) inside the prime windows of the first n days
  function PrimeTime(days: seq<Day>, n: nat, a: int, b: int): int
    requires n <= |days|
  {
    if n == 0 then 0
    else PrimeTime(days, n - 1, a, b) + Overlap(a, b, days[n - 1].startPeak, days[n - 1].startOffpeak)
  }

  // Midnights in [a, b), among the first n days, at which a prime window starts
  function PeakMidnights(days: seq<Day>, n: nat, a: int, b: int): int
    requires n <= |days|
  {
    if n == 0 then 0
    else
      var d := days[n - 1];
      PeakMidnights(days, n - 1, a, b) + if a <= d.midnight < b && d.startPeak == d.midnight then 1 else 0
  }

  lemma {:induction false} MidnightAt(days: seq<Day>, i: int, k: int)
    requires Table(days) && 0 <= i <= k < |days|
    ensures days[k].midnight == days[i].midnight + (k - i) * SECSPERDAY
    decreases k - i
  {
    if i < k {
      MidnightAt(days, i, k - 1);
    }
  }

  // A second of day i lies in no other day.
  lemma OnlyDay(days: seq<Day>, i: int, j: int, k: int)
    requires Table(days) && 0 <= i < |days| && 0 <= k < |days| && k != i
    requires days[i].midnight <= j < days[i].midnight + SECSPERDAY
    ensures j < days[k].midnight || j >= days[k].midnight + SECSPERDAY
  {
    if k < i {
      MidnightAt(days, k, i);
    } else {
      MidnightAt(days, i, k);
    }
  }

  // What one more second adds.
  lemma {:induction false} SecondCounts(days: seq<Day>, n: nat, a: int, j: int, i: int)
    requires Table(days) && n <= |days| && 0 <= i < |days| && a <= j
    requires days[i].midnight <= j < days[i].midnight + SECSPERDAY
    ensures PrimeTime(days, n, a, j + 1) == PrimeTime(days, n, a, j) +
            if i < n && days[i].startPeak <= j < days[i].startOffpeak then 1 else 0
    ensures PeakMidnights(days, n, a, j + 1) == PeakMidnights(days, n, a, j) +
            if i < n && j == days[i].midnight == days[i].startPeak then 1 else 0
  {
    if n > 0 {
      SecondCounts(days, n - 1, a, j, i);
      if n - 1 != i {
        OnlyDay(days, i, j, n - 1);
      }
    }
  }

  lemma {:induction false} NothingYet(days: seq<Day>, n: nat, a: int, b: int)
    requires Table(days) && n <= |days| && b <= a
    ensures PrimeTime(days, n, a, b) == 0 && PeakMidnights(days, n, a, b) == 0
  {
    if n > 0 {
      NothingYet(days, n - 1, a, b);
    }
  }

  // pop_calc. Every second inside a prime window counts as prime, and every other second as non-prime; but the second
  // at a midnight at which a prime window starts is counted once more, as non-prime.
  method PopCalc(days: seq<Day>, start: int, duration: int) returns (prime: int, nonprime: int)
    requires Table(days) && |days| > 0
    requires days[0].midnight < start <= days[|days| - 1].midnight
    requires start + duration <= days[|days| - 1].midnight + SECSPERDAY
    ensures prime == PrimeTime(days, |days|, start, start + duration)
    ensures prime + nonprime == Max(0, duration) + PeakMidnights(days, |days|, start, start + duration)
  {
    prime, nonprime := 0, 0;
    var i := 0;
    while days[i].midnight < start
      invariant 0 <= i < |days|
      invariant i > 0 ==> days[i - 1].midnight < start
    {
      i := i + 1;
    }
    i := i - 1;

    var n := |days|;
    NothingYet(days, n, start, start + Min(0, duration));
    NothingYet(days, n, start, start);
    var j := start;
    while j < start + duration
      invariant 0 <= i < n && days[i].midnight < j <= days[i].midnight + SECSPERDAY
      invariant start <= j <= Max(start, start + duration)
      invariant prime == PrimeTime(days, n, start, j)
      invariant prime + nonprime == j - start + PeakMidnights(days, n, start, j)
    {
      if j == days[i].midnight + SECSPERDAY {
        nonprime := nonprime + 1;
        assert i + 1 < n;
        i := i + 1;
      }
      SecondCounts(days, n, start, j, i);
      if j > days[i].midnight && j < days[i].startPeak {
        nonprime := nonprime + 1;
      } else if j >= days[i].startPeak && j < days[i].startOffpeak {
        prime := prime + 1;
      } else if j >= days[i].startOffpeak && j < days[i].midnight + SECSPERDAY {
        nonprime := nonprime + 1;
      }
      j := j + 1;
    }
    if duration < 0 {
      NothingYet(days, n, start, start + duration);
    }
  }

  // Splitting a span anywhere splits both counts.
  lemma {:induction false} Additive(days: seq<Day>, n: nat, a: int, b: int, c: int)
    requires Table(days) && n <= |days| && a <= b <= c
    ensures PrimeTime(days, n, a, c) == PrimeTime(days, n, a, b) + PrimeTime(days, n, b, c)
    ensures PeakMidnights(days, n, a, c) == PeakMidnights(days, n, a, b) + PeakMidnights(days, n, b, c)
  {
    if n > 0 {
      Additive(days, n - 1, a, b, c);
    }
  }

  // A single second is prime exactly when it lies in the prime window of its day, the end of the window excluded.
  lemma PrimeSecond(days: seq<Day>, j: int, i: nat)
    requires Table(days) && i < |days| && days[i].midnight <= j < days[i].midnight + SECSPERDAY
    ensures PrimeTime(days, |days|, j, j + 1) == if days[i].startPeak <= j < days[i].startOffpeak then 1 else 0
    ensures PeakMidnights(days, |days|, j, j + 1) == if j == days[i].midnight && days[i].startPeak == j then 1 else 0
  {
    NothingYet(days, |days|, j, j);
    SecondCounts(days, |days|, j, j, i);
  }

  // The parts add up to the whole span exactly when no prime window starts at a midnight of the span.
  lemma {:induction false} PartsAddUp(days: seq<Day>, n: nat, a: int, b: int)
    requires n <= |days|
    ensures PeakMidnights(days, n, a, b) >= 0
    ensures PeakMidnights(days, n, a, b) == 0 <==>
            forall k :: 0 <= k < n && a <= days[k].midnight < b ==> days[k].startPeak != days[k].midnight
  {
    if n > 0 {
      PartsAddUp(days, n - 1, a, b);
    }
  }

  // A day with the prime time given as `all` starts its window at midnight: one second over midnight counts as two.
  lemma MidnightCountsTwice()
    ensures var days := [Day(0, 0, 86399), Day(86400, 86400, 172799)];
            Table(days) && PrimeTime(days, 2, 86400, 86401) == 1 && PeakMidnights(days, 2, 86400, 86401) == 1
  {
    var days := [Day(0, 0, 86399), Day(86400, 86400, 172799)];
    assert PrimeTime(days, 1, 86400, 86401) == 0 && PeakMidnights(days, 1, 86400, 86401) == 0;
  }
}

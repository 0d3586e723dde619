/** safe_year, cycle_offset and seconds_between_years (time64.c): mapping any year
    to an equivalent one that the system library handles, and the distance between the two. */
module SafeYear {
  import opened Calendar

  const MIN_SAFE_YEAR := 1971
  const MAX_SAFE_YEAR := 2037
  const SOLAR_CYCLE_LENGTH := 28

  const SAFE_YEARS_HIGH: seq<int> := [
    2016, 2017, 2018, 2019, 2020, 2021, 2022, 2023, 2024, 2025, 2026, 2027, 2028, 2029,
    2030, 2031, 2032, 2033, 2034, 2035, 2036, 2037, 2010, 2011, 2012, 2013, 2014, 2015]

  const SAFE_YEARS_LOW: seq<int> := [
    1996, 1997, 1998, 1971, 1972, 1973, 1974, 1975, 1976, 1977, 1978, 1979, 1980, 1981,
    1982, 1983, 1984, 1985, 1986, 1987, 1988, 1989, 1990, 1991, 1992, 1993, 1994, 1995]

  predicate IsExceptionCentury(year: int) {
    CMod(year, 100) == 0 && CMod(year, 400) != 0
  }

  function CycleOffset(year: int): int {
    var diff := if year > 2000 then year - 2000 - 1 else year - 2000;
    (CDiv(diff, 100) - CDiv(diff, 400)) * 16
  }

  /** Position of a year outside the safe range in the 28-year cycle, before reduction. */
  function YearCycle(year: int): int {
    year + CycleOffset(year)
    - (if year < MIN_SAFE_YEAR then 8 else 0)
    + (if IsExceptionCentury(year) then 11 else 0)
    + (if IsExceptionCentury(year - 1) then 17 else 0)
  }

  function SafeYear(year: int): (safe: int)
    ensures MIN_SAFE_YEAR <= safe <= MAX_SAFE_YEAR
  {
    if MIN_SAFE_YEAR <= year <= MAX_SAFE_YEAR then year
    else
      var reduced := CMod(YearCycle(year), SOLAR_CYCLE_LENGTH);
      var cycle := if reduced < 0 then SOLAR_CYCLE_LENGTH + reduced else reduced;
      if year < MIN_SAFE_YEAR then SAFE_YEARS_LOW[cycle] else SAFE_YEARS_HIGH[cycle]
  }

  // ---- why it works ----

  /** The calendar of a year: leap status, weekday of January 1st, leap status of the year before. */
  ghost predicate SameCalendar(year: int, safe: int) {
    && Leap(safe) == Leap(year)
    && Weekday(YearStart(safe)) == Weekday(YearStart(year))
    && Leap(safe - 1) == Leap(year - 1)
  }

  /** Non-leap century years before `year`, up to the count for 2000. */
  function Exceptions(year: int): int {
    (year - 1) / 100 - (year - 1) / 400 - 15
  }

  /** Both branches of cycle_offset count the skipped leap days, despite truncation. */
  lemma CycleOffsetIs(year: int)
    requires year < MIN_SAFE_YEAR || year > MAX_SAFE_YEAR
    ensures CycleOffset(year) == 16 * Exceptions(year)
  {
    if year < MIN_SAFE_YEAR {
      assert (2000 - year) / 100 == 19 - (year - 1) / 100;
      assert (2000 - year) / 400 == 4 - (year - 1) / 400;
    } else {
      assert (year - 2001) / 100 == (year - 1) / 100 - 20;
      assert (year - 2001) / 400 == (year - 1) / 400 - 5;
    }
  }

  /** The year the tables are looked up for, in a calendar without century exceptions. */
  function JulianEquivalent(year: int): int {
    year + Shift(year) + 16 * Exceptions(year)
  }

  /** The correction for a century year without a leap day and for the year after it. */
  function Shift(year: int): int {
    if year % 100 == 0 && year % 400 != 0 then 11
    else if (year - 1) % 100 == 0 && (year - 1) % 400 != 0 then 17
    else 0
  }

  lemma YearCycleIs(year: int)
    requires year < MIN_SAFE_YEAR || year > MAX_SAFE_YEAR
    ensures YearCycle(year) == JulianEquivalent(year) - if year < MIN_SAFE_YEAR then 8 else 0
  {
    CycleOffsetIs(year);
    ShiftIs(year);
  }

  lemma ShiftIs(year: int)
    ensures Shift(year) ==
      (if IsExceptionCentury(year) then 11 else 0) + (if IsExceptionCentury(year - 1) then 17 else 0)
  {
    CenturyTest(year);
    CenturyTest(year - 1);
    assert year % 100 == 0 ==> (year - 1) % 100 == 99;
  }

  lemma TableLookup(year: int)
    requires year < MIN_SAFE_YEAR || year > MAX_SAFE_YEAR
    ensures SafeYear(year) % 28 == JulianEquivalent(year) % 28
  {
    YearCycleIs(year);
    TableEntry(year, YearCycle(year), JulianEquivalent(year));
  }

  lemma TableEntry(year: int, cycle: int, julian: int)
    requires year < MIN_SAFE_YEAR || year > MAX_SAFE_YEAR
    requires cycle == YearCycle(year) == julian - if year < MIN_SAFE_YEAR then 8 else 0
    ensures SafeYear(year) % 28 == julian % 28
  {
    TableIndex(year);
    if year < MIN_SAFE_YEAR {
      LowTable(cycle % 28);
      PlusEight(cycle);
    } else {
      HighTable(cycle % 28);
    }
  }

  lemma TableIndex(year: int)
    requires year < MIN_SAFE_YEAR || year > MAX_SAFE_YEAR
    ensures SafeYear(year) ==
      if year < MIN_SAFE_YEAR then SAFE_YEARS_LOW[YearCycle(year) % 28] else SAFE_YEARS_HIGH[YearCycle(year) % 28]
  {
    CycleIndex(YearCycle(year));
  }

  lemma PlusEight(cycle: int)
    ensures (cycle % 28 + 8) % 28 == (cycle + 8) % 28
  {}

  lemma CenturyTest(year: int)
    ensures IsExceptionCentury(year) <==> year % 100 == 0 && year % 400 != 0
  {
    CModZero(year, 100);
    CModZero(year, 400);
  }

  lemma CycleIndex(cycle: int)
    ensures var reduced := CMod(cycle, 28); (if reduced < 0 then 28 + reduced else reduced) == cycle % 28
  {}

  lemma LowTable(i: nat)
    requires i < 28
    ensures SAFE_YEARS_LOW[i] % 28 == (i + 8) % 28
  {}

  lemma HighTable(i: nat)
    requires i < 28
    ensures SAFE_YEARS_HIGH[i] % 28 == i
  {}

  /** January 1st of a Julian year falls on this day of the week, up to a constant. */
  function JulianStart(julian: int): int {
    julian + (julian - 1) / 4
  }

  /** In the safe range every fourth year is leap. */
  lemma SafeRangeLeap(safe: int)
    requires MIN_SAFE_YEAR - 1 <= safe <= MAX_SAFE_YEAR
    ensures Leap(safe) <==> safe % 4 == 0
  {
    assert safe % 100 == 0 ==> safe == 2000;
  }

  lemma SafeRangeExceptions(safe: int)
    requires MIN_SAFE_YEAR <= safe <= MAX_SAFE_YEAR
    ensures Exceptions(safe) == 0
  {
    assert (safe - 1) / 400 == if safe <= 2000 then 4 else 5;
  }

  lemma WholeSolarCycles(julian: int, k: int)
    ensures (julian + 28 * k) % 4 == julian % 4 && (julian + 28 * k) / 4 == julian / 4 + 7 * k
  {
    assert julian + 28 * k == 4 * (julian / 4 + 7 * k) + julian % 4;
  }

  /** Years 1971 to 2037 that agree modulo 28 with `julian` have its Julian calendar. */
  lemma SafeRangeIsJulian(safe: int, julian: int)
    requires MIN_SAFE_YEAR <= safe <= MAX_SAFE_YEAR && safe % 28 == julian % 28
    ensures Leap(safe) <==> julian % 4 == 0
    ensures Leap(safe - 1) <==> (julian - 1) % 4 == 0
    ensures (YearStart(safe) - JulianStart(julian)) % 7 == 2
  {
    var k := safe / 28 - julian / 28;
    assert safe == julian + 28 * k;
    WholeSolarCycles(julian, k);
    WholeSolarCycles(julian - 1, k);
    SafeRangeLeap(safe);
    SafeRangeLeap(safe - 1);
    SafeRangeExceptions(safe);
    SafeRangeWeekday(safe, julian, k);
  }

  lemma SafeRangeWeekday(safe: int, julian: int, k: int)
    requires safe == julian + 28 * k && Exceptions(safe) == 0 && (safe - 1) / 4 == (julian - 1) / 4 + 7 * k
    ensures (YearStart(safe) - JulianStart(julian)) % 7 == 2
  {
    YearStartFrom(safe, (safe - 1) / 4, 0);
    assert YearStart(safe) - JulianStart(julian) == 7 * (52 * safe + 5 * k - 102792) + 2;
    SevenTimes(52 * safe + 5 * k - 102792);
  }

  lemma ShiftLeap(year: int)
    ensures Leap(year) <==> (year + Shift(year)) % 4 == 0
    ensures Leap(year - 1) <==> (year + Shift(year) - 1) % 4 == 0
  {
    HundredsAreFours(year);
    HundredsAreFours(year - 1);
  }

  lemma Multiples(x: int, e: int)
    ensures (x + 16 * e) % 4 == x % 4
    ensures (x + 16 * e) / 4 == x / 4 + 4 * e
  {
    assert x + 16 * e == 4 * (x / 4 + 4 * e) + x % 4;
  }

  /** The Julian equivalent has the leap days of the Gregorian year, */
  lemma JulianLeap(year: int)
    ensures Leap(year) <==> JulianEquivalent(year) % 4 == 0
    ensures Leap(year - 1) <==> (JulianEquivalent(year) - 1) % 4 == 0
  {
    ShiftLeap(year);
    Multiples(year + Shift(year), Exceptions(year));
    Multiples(year + Shift(year) - 1, Exceptions(year));
  }

  lemma ShiftWeeks(year: int) returns (weeks: int)
    ensures Shift(year) + (year - 1 + Shift(year)) / 4 == (year - 1) / 4 + 7 * weeks
  {
    HundredsAreFours(year);
    HundredsAreFours(year - 1);
    weeks := if Shift(year) == 11 then 2 else if Shift(year) == 17 then 3 else 0;
  }

  lemma SevenTimes(k: int)
    ensures (7 * k + 2) % 7 == 2
  {}

  lemma YearStartFrom(year: int, quarter: int, e: int)
    requires quarter == (year - 1) / 4 && e == Exceptions(year)
    ensures YearStart(year) == 365 * year + quarter - e - 719542
  {}

  /** and it starts on the same day of the week. */
  lemma JulianWeekday(year: int)
    ensures (YearStart(year) - JulianStart(JulianEquivalent(year))) % 7 == 2
  {
    var e, s, quarter := Exceptions(year), Shift(year), (year - 1) / 4;
    var weeks := ShiftWeeks(year);
    Multiples(year - 1 + s, e);
    YearStartFrom(year, quarter, e);
    assert JulianStart(JulianEquivalent(year)) == year + s + 16 * e + (year - 1 + s) / 4 + 4 * e;
    var k := 52 * year - 3 * e - weeks - 102792;
    assert YearStart(year) - JulianStart(JulianEquivalent(year)) == 7 * k + 2;
    SevenTimes(k);
  }

  lemma SameWeekday(a: int, b: int, c: int)
    requires (a - c) % 7 == 2 && (b - c) % 7 == 2
    ensures Weekday(a) == Weekday(b)
  {}

  lemma NextYearStarts(year: int, safe: int)
    requires SameCalendar(year, safe)
    ensures Weekday(YearStart(safe + 1)) == Weekday(YearStart(year + 1))
  {
    YearStartStep(year);
    YearStartStep(safe);
    Later(YearStart(year), YearStart(safe), YearLength(year));
  }

  lemma Later(a: int, b: int, days: int)
    requires Weekday(a) == Weekday(b)
    ensures Weekday(a + days) == Weekday(b + days)
  {}

  /** safe_year preserves the calendar of every year, and so the weekday on which the next year starts. */
  lemma SafeYearIsEquivalent(year: int)
    ensures SameCalendar(year, SafeYear(year))
    ensures Weekday(YearStart(SafeYear(year) + 1)) == Weekday(YearStart(year + 1))
  {
    if year < MIN_SAFE_YEAR || year > MAX_SAFE_YEAR {
      TableLookup(year);
      EquivalentThroughJulian(year, SafeYear(year), JulianEquivalent(year));
    }
    NextYearStarts(year, SafeYear(year));
  }

  lemma EquivalentThroughJulian(year: int, safe: int, julian: int)
    requires MIN_SAFE_YEAR <= safe <= MAX_SAFE_YEAR
    requires julian == JulianEquivalent(year) && safe % 28 == julian % 28
    ensures SameCalendar(year, safe)
  {
    SafeRangeIsJulian(safe, julian);
    JulianLeap(year);
    JulianWeekday(year);
    SameWeekday(YearStart(safe), YearStart(year), JulianStart(julian));
  }

  lemma TableWindow(i: nat)
    requires i < 28
    ensures 1971 <= SAFE_YEARS_LOW[i] <= 1998 && 2010 <= SAFE_YEARS_HIGH[i] <= 2037
  {}

  /** Which of the equivalent years it is: the year itself in the safe range; otherwise one of
      the first 28 safe years for earlier years, and one of the last 28 for later ones. */
  lemma SafeYearWindow(year: int)
    ensures MIN_SAFE_YEAR <= year <= MAX_SAFE_YEAR ==> SafeYear(year) == year
    ensures year < MIN_SAFE_YEAR ==> 1971 <= SafeYear(year) <= 1998
    ensures year > MAX_SAFE_YEAR ==> 2010 <= SafeYear(year) <= 2037
  {
    if year < MIN_SAFE_YEAR || year > MAX_SAFE_YEAR {
      TableIndex(year);
      TableWindow(YearCycle(year) % 28);
    }
  }

  lemma SafeYearOf1900()
    ensures SafeYear(1900) == 1979
  {
    assert YearCycle(1900) == 1887 && 1887 % 28 == 11;
    TableIndex(1900);
    assert SAFE_YEARS_LOW[11] == 1979;
  }

  lemma SafeYearOf1901()
    ensures SafeYear(1901) == 1974
  {
    assert YearCycle(1901) == 1910 && 1910 % 28 == 6;
    TableIndex(1901);
    assert SAFE_YEARS_LOW[6] == 1974;
  }

  lemma SafeYearOf1970()
    ensures SafeYear(1970) == 1998
  {
    assert YearCycle(1970) == 1962 && 1962 % 28 == 2;
    TableIndex(1970);
    assert SAFE_YEARS_LOW[2] == 1998;
  }

  lemma SafeYearOf2038()
    ensures SafeYear(2038) == 2010
  {
    assert YearCycle(2038) == 2038 && 2038 % 28 == 22;
    TableIndex(2038);
    assert SAFE_YEARS_HIGH[22] == 2010;
  }

  lemma SafeYearOf2100()
    ensures SafeYear(2100) == 2027
  {
    assert YearCycle(2100) == 2111 && 2111 % 28 == 11;
    TableIndex(2100);
    assert SAFE_YEARS_HIGH[11] == 2027;
  }

  lemma SafeYearOf2101()
    ensures SafeYear(2101) == 2022
  {
    assert YearCycle(2101) == 2134 && 2134 % 28 == 6;
    TableIndex(2101);
    assert SAFE_YEARS_HIGH[6] == 2022;
  }

  /** The years next to the safe range, and century years with the years after them. */
  lemma KnownSafeYears()
    ensures SafeYear(1900) == 1979 && SafeYear(1901) == 1974
    ensures SafeYear(1970) == 1998 && SafeYear(2038) == 2010
    ensures SafeYear(2100) == 2027 && SafeYear(2101) == 2022
  {
    SafeYearOf1900(); SafeYearOf1901(); SafeYearOf1970(); SafeYearOf2038(); SafeYearOf2100(); SafeYearOf2101();
  }

  // ---- seconds_between_years ----

  const SECONDS_IN_CYCLE := DAYS_IN_CYCLE * SECONDS_PER_DAY

  /** IS_LEAP_ABS: of the years up to 0, only every 400th counts as leap. */
  function IsLeapAbs(n: int): (leap: nat)
    ensures leap == if n % 400 == 0 || (Leap(n) && n > 0) then 1 else 0
  {
    CModZero(n, 4); CModZero(n, 100); CModZero(n, 400); HundredsAreFours(n);
    if CMod(n, 400) == 0 || (CMod(n, 4) == 0 && CMod(n, 100) != 0 && n > 0) then 1 else 0
  }

  /** Seconds from the start of `right` to the start of `left`. */
  function YearDistance(left: int, right: int): int {
    (YearStart(left) - YearStart(right)) * SECONDS_PER_DAY
  }

  /** The leap days that IS_LEAP_ABS misses from `year` to year 0. */
  function Missed(year: int): nat
    decreases 1 - year
  {
    if year > 0 then 0 else Missed(year + 1) + if Leap(year) && year % 400 != 0 then 1 else 0
  }

  /** January 1st of a year in the calendar of IS_LEAP_ABS. */
  function AbsStart(year: int): int {
    YearStart(year) + Missed(year)
  }

  lemma AbsStartStep(year: int)
    ensures AbsStart(year + 1) == AbsStart(year) + LENGTH_OF_YEAR[IsLeapAbs(year)]
  {
    YearStartStep(year);
    HundredsAreFours(year);
  }

  lemma {:induction false} MissedDecreases(low: int, high: int)
    requires low <= high
    ensures Missed(low) >= Missed(high)
    decreases high - low
  {
    if low < high { MissedDecreases(low + 1, high); }
  }

  lemma {:induction false} MissedBound(year: int)
    ensures year <= 1 ==> Missed(year) <= 1 - year
    decreases 1 - year
  {
    if year <= 0 { MissedBound(year + 1); }
  }

  lemma NothingMissedIff(year: int)
    ensures Missed(year) == 0 <==> year > -4
  {
    assert Missed(1) == 0 && Missed(0) == 0 && Missed(-1) == 0 && Missed(-2) == 0 && Missed(-3) == 0;
    assert Missed(-4) == 1;
    if year <= -4 { MissedDecreases(year, -4); } else { MissedDecreases(-3, year); }
  }

  method CountUp(left: int, right0: int) returns (seconds: int)
    requires right0 <= left
    ensures seconds == (AbsStart(left) - AbsStart(right0)) * SECONDS_PER_DAY
  {
    var right := right0;
    seconds := 0;
    while left != right
      invariant right0 <= right <= left
      invariant seconds == (AbsStart(right) - AbsStart(right0)) * SECONDS_PER_DAY
      decreases left - right
    {
      AbsStartStep(right);
      seconds := seconds + LENGTH_OF_YEAR[IsLeapAbs(right)] * 60 * 60 * 24;
      right := right + 1;
    }
  }

  /** Counts the years after `left` up to and including `right0`: the downward loop
      takes the length of the right-hand year where the left-hand one is meant. */
  method CountDown(left: int, right0: int) returns (seconds: int)
    requires left <= right0
    ensures seconds == (AbsStart(left + 1) - AbsStart(right0 + 1)) * SECONDS_PER_DAY
  {
    var right := right0;
    seconds := 0;
    while left != right
      invariant left <= right <= right0
      invariant seconds == (AbsStart(right + 1) - AbsStart(right0 + 1)) * SECONDS_PER_DAY
      decreases right - left
    {
      AbsStartStep(right);
      seconds := seconds - LENGTH_OF_YEAR[IsLeapAbs(right)] * 60 * 60 * 24;
      right := right - 1;
    }
  }

  /** The whole cycles by which a distant left-hand year is moved, */
  function Cycles(left: int): int {
    if left > 2400 then CDiv(left - 2400, 400) else if left < 1600 then CDiv(left - 1600, 400) else 0
  }

  /** and where it ends up. */
  function ReducedYear(left: int): int {
    if left > 2400 then left - Cycles(left) * 400 else left + Cycles(left) * 400
  }

  /** A year above 2400 moves towards it, but a year up to 1200 moves away from 1600. */
  lemma YearReduced(left: int)
    ensures left > 2400 ==> left == ReducedYear(left) + 400 * Cycles(left) && 2400 <= ReducedYear(left) <= left
    ensures 1200 < left <= 2400 ==> ReducedYear(left) == left && Cycles(left) == 0
    ensures left <= 1200 ==> ReducedYear(left) == left + 400 * Cycles(left)
                             && Cycles(left) <= -1 && -400 * Cycles(left) >= 1201 - left
  {}

  /** The loops step towards their goal: always downwards, but upwards only if the
      left-hand year was not moved below the right-hand one. */
  predicate Terminates(left: int, right: int) {
    left <= right || ReducedYear(left) >= right
  }

  /** The right-hand year after `turns` turns of the upward loop. */
  function YearAfter(right: int, turns: nat): (year: int)
    ensures year == right + turns
  {
    if turns == 0 then right else YearAfter(right, turns - 1) + 1
  }

  /** Otherwise, and only then, the upward loop never meets its goal, however far it counts. */
  lemma RunsAwayIff(left: int, right: int)
    ensures !Terminates(left, right) <==>
      left > right && forall turns: nat :: YearAfter(right, turns) != ReducedYear(left)
  {
    if left > right && ReducedYear(left) >= right {
      var turns: nat := ReducedYear(left) - right;
      assert YearAfter(right, turns) == ReducedYear(left);
    }
  }

  /** For instance from 2900 to 3000, which is reduced to 2600. */
  lemma RunsAwayFrom2900()
    ensures !Terminates(3000, 2900) && ReducedYear(3000) == 2600
  {}

  /** The condition under which the result is the true distance. */
  predicate CountsExactly(left: int, right: int) {
    left > 1200 && if left > right then right > -4 else Leap(left) == Leap(right)
  }

  lemma OneYearLater(left: int, right: int)
    ensures YearDistance(left + 1, right + 1) ==
      YearDistance(left, right) + (YearLength(left) - YearLength(right)) * SECONDS_PER_DAY
  {
    YearStartStep(left);
    YearStartStep(right);
  }

  /** What the code returns when it counts up from `right` to the reduced year, */
  function UpSeconds(reduced: int, right: int, cycles: int): int {
    (AbsStart(reduced) - AbsStart(right)) * SECONDS_PER_DAY + cycles * SECONDS_IN_CYCLE
  }

  /** and when it counts down. */
  function DownSeconds(reduced: int, right: int, cycles: int): int {
    (AbsStart(reduced + 1) - AbsStart(right + 1)) * SECONDS_PER_DAY + cycles * SECONDS_IN_CYCLE
  }

  /** Counting up is right but for the leap days missed before year 0. */
  lemma UpFromLate(left: int, right: int, reduced: int, cycles: int)
    requires left == reduced + 400 * cycles && reduced > 0
    ensures UpSeconds(reduced, right, cycles) == YearDistance(left, right) - Missed(right) * SECONDS_PER_DAY
  {
    YearStartCycles(reduced, cycles);
  }

  /** Counting down is off by the difference of the lengths of the two years. */
  lemma DownFromLate(left: int, right: int, reduced: int, cycles: int)
    requires left == reduced + 400 * cycles && reduced > 0 && right > 0
    ensures DownSeconds(reduced, right, cycles) == YearDistance(left + 1, right + 1)
  {
    YearStartCycles(reduced + 1, cycles);
  }

  /** Moving the year the wrong way adds two cycles too many. */
  lemma UpFromEarly(left: int, right: int, reduced: int, cycles: int)
    requires reduced == left + 400 * cycles && cycles <= -1 && right <= reduced
    ensures UpSeconds(reduced, right, cycles) < YearDistance(left, right)
  {
    YearStartCycles(left, cycles);
    MissedDecreases(right, reduced);
  }

  /** Two cycles outweigh the leap days missed, one a year at most. */
  lemma CyclesOutweigh(from: int, to: int, nextFrom: int, nextTo: int, missed: int, missedBefore: nat, cycles: int)
    requires nextFrom <= from + 366 && nextTo >= to + 365 && cycles <= -1 && missed <= -800 * cycles
    ensures (nextFrom + DAYS_IN_CYCLE * cycles + missed - (nextTo + missedBefore)) * SECONDS_PER_DAY
            + cycles * SECONDS_IN_CYCLE < (from - to) * SECONDS_PER_DAY
  {}

  lemma DownFromEarly(left: int, right: int, reduced: int, cycles: int)
    requires reduced == left + 400 * cycles && cycles <= -1 && -400 * cycles >= 1201 - left
    ensures DownSeconds(reduced, right, cycles) < YearDistance(left, right)
  {
    YearStartCycles(left + 1, cycles);
    YearStartStep(left);
    YearStartStep(right);
    MissedBound(reduced + 1);
    CyclesOutweigh(YearStart(left), YearStart(right), YearStart(left + 1), YearStart(right + 1),
                   Missed(reduced + 1), Missed(right + 1), cycles);
  }

  /** seconds_between_years, wherever its loops reach their goal: exact if and only if
      the left-hand year is above 1200 and, counting up, no leap day is missed, or,
      counting down, both years have the same length; from 1200 back it is too small. */
  method SecondsBetweenYears(left0: int, right: int) returns (seconds: int)
    requires Terminates(left0, right)
    ensures left0 > 1200 && left0 > right ==> seconds == YearDistance(left0, right) - Missed(right) * SECONDS_PER_DAY
    ensures 1200 < left0 <= right ==>
      seconds == YearDistance(left0, right) + (YearLength(left0) - YearLength(right)) * SECONDS_PER_DAY
    ensures left0 <= 1200 ==> seconds < YearDistance(left0, right)
    ensures seconds == YearDistance(left0, right) <==> CountsExactly(left0, right)
  {
    var left, cycles := left0, 0;
    if left0 > 2400 {
      cycles := CDiv(left - 2400, 400);
      left := left - cycles * 400;
    } else if left0 < 1600 {
      cycles := CDiv(left - 1600, 400);
      left := left + cycles * 400;
    }
    YearReduced(left0);
    if left0 > right {
      seconds := CountUp(left, right);
      NothingMissedIff(right);
      if left0 > 1200 { UpFromLate(left0, right, left, cycles); } else { UpFromEarly(left0, right, left, cycles); }
    } else {
      seconds := CountDown(left, right);
      OneYearLater(left0, right);
      if left0 > 1200 { DownFromLate(left0, right, left, cycles); } else { DownFromEarly(left0, right, left, cycles); }
    }
    seconds := seconds + cycles * SECONDS_IN_CYCLE;
  }

  /** The distance that mktime64 adds back for a year is right exactly for the years after 1200. */
  method DistanceToSafeYear(year: int) returns (seconds: int)
    ensures seconds == YearDistance(year, SafeYear(year)) <==> year > 1200
  {
    SafeYearIsEquivalent(year);
    YearReduced(year);
    seconds := SecondsBetweenYears(year, SafeYear(year));
  }

  /** For instance, it is wrong for the year 1200. */
  method DistanceFrom1200() returns (seconds: int)
    ensures seconds != YearDistance(1200, SafeYear(1200))
  {
    seconds := DistanceToSafeYear(1200);
  }
}

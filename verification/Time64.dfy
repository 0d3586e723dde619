/** timegm64 and gmtime64_r (time64.c): broken-down UTC time and seconds since the epoch. */
module Time64 {
  import opened Wrappers
  import opened Calendar

  datatype Tm = Tm(sec: int, min: int, hour: int, mday: int, mon: int, year: int, wday: int, yday: int, isdst: int)

  lemma LeapByRemainders(year: int)
    ensures Leap(year) <==> CMod(year, 400) == 0 || (CMod(year, 4) == 0 && CMod(year, 100) != 0)
  {
    CModZero(year, 4);
    CModZero(year, 100);
    CModZero(year, 400);
    HundredsAreFours(year);
  }

  /** IS_LEAP: 1 or 0 for a year counted from 1900, with C remainders. */
  function IsLeap(n: int): (leap: nat)
    ensures leap == if Leap(n + 1900) then 1 else 0
  {
    LeapByRemainders(n + 1900);
    if CMod(n + 1900, 400) == 0 || (CMod(n + 1900, 4) == 0 && CMod(n + 1900, 100) != 0) then 1 else 0
  }

  /** check_tm, without the fields that this configuration does not have. */
  predicate CheckTm(d: Tm) {
    && 0 <= d.sec <= 60 && 0 <= d.min <= 59 && 0 <= d.hour <= 23
    && 0 <= d.mon <= 11 && 1 <= d.mday <= DAYS_IN_MONTH[IsLeap(d.year)][d.mon]
    && 0 <= d.wday <= 6 && 0 <= d.yday <= LENGTH_OF_YEAR[IsLeap(d.year)]
  }

  /** A calendar date and time of day without a leap second. */
  predicate Civil(d: Tm) {
    && 0 <= d.sec <= 59 && 0 <= d.min <= 59 && 0 <= d.hour <= 23
    && 0 <= d.mon <= 11 && 1 <= d.mday <= DAYS_IN_MONTH[IsLeap(d.year)][d.mon]
  }

  function DayOfYear(d: Tm): int
    requires 0 <= d.mon <= 11
  {
    JULIAN_DAYS_BY_MONTH[IsLeap(d.year)][d.mon] + d.mday - 1
  }

  function DayNumber(d: Tm): int
    requires 0 <= d.mon <= 11
  {
    YearStart(d.year + 1900) + DayOfYear(d)
  }

  /** The instant a date denotes, in seconds since the epoch. */
  function Instant(d: Tm): int
    requires 0 <= d.mon <= 11
  {
    DayNumber(d) * SECONDS_PER_DAY + d.hour * 3600 + d.min * 60 + d.sec
  }

  /** The fields that follow from the others. */
  function Completed(d: Tm): Tm
    requires 0 <= d.mon <= 11
  {
    d.(wday := Weekday(DayNumber(d)), yday := DayOfYear(d), isdst := 0)
  }

  predicate Int32(n: int) {
    -0x8000_0000 <= n < 0x8000_0000
  }

  // ---- timegm64 ----

  lemma StepFrom1900(n: int)
    ensures YearStart(n + 1901) == YearStart(n + 1900) + LENGTH_OF_YEAR[IsLeap(n)]
  {
    YearStartStep(n + 1900);
  }

  /** Counts the days of the years between 1970 and `origYear`, in either direction. */
  method WalkYears(origYear: int) returns (days: int)
    ensures days == YearStart(origYear + 1900)
  {
    days := 0;
    if origYear > 70 {
      var year := 70;
      while year < origYear
        invariant 70 <= year <= origYear
        invariant days == YearStart(year + 1900)
      {
        StepFrom1900(year);
        days := days + LENGTH_OF_YEAR[IsLeap(year)];
        year := year + 1;
      }
    } else if origYear < 70 {
      var year := 69;
      var more := true;
      while more
        invariant more ==> year >= origYear
        invariant !more ==> year == origYear - 1
        invariant days == YearStart(year + 1901)
        decreases year - origYear + 1
      {
        StepFrom1900(year);
        days := days - LENGTH_OF_YEAR[IsLeap(year)];
        year := year - 1;
        more := year >= origYear;
      }
    }
  }

  /** timegm64: the year is first moved by whole Gregorian cycles, then walked to 1970. */
  method TimeGm(date: Tm) returns (seconds: int)
    requires 0 <= date.mon <= 11
    ensures seconds == Instant(date)
  {
    var origYear, cycles := date.year, 0;
    if origYear > 100 || origYear < -300 {
      cycles := CDiv(origYear - 100, 400);
      origYear := origYear - cycles * 400;
    }
    YearStartCycles(origYear + 1900, cycles);
    var days := WalkYears(origYear);
    days := days + cycles * DAYS_IN_CYCLE;
    days := days + JULIAN_DAYS_BY_MONTH[IsLeap(origYear)][date.mon];
    days := days + date.mday - 1;
    assert days == DayNumber(date);
    seconds := days * 60 * 60 * 24;
    seconds := seconds + date.hour * 60 * 60;
    seconds := seconds + date.min * 60;
    seconds := seconds + date.sec;
  }

  /** No date that fits `struct tm` leaves the range of a 64-bit time. */
  lemma InstantFits(d: Tm)
    requires CheckTm(d) && Int32(d.year)
    ensures -0x8000_0000_0000_0000 <= Instant(d) < 0x8000_0000_0000_0000
  {
    if d.year >= 70 { YearStartBounds(1970, d.year + 1900); } else { YearStartBounds(d.year + 1900, 1970); }
    DayOfYearInYear(d);
  }

  // ---- order ----

  function CmpInt(a: int, b: int): int {
    if a > b then 1 else if a < b then -1 else 0
  }

  /** cmp_date */
  function CmpDate(a: Tm, b: Tm): int {
    if a.year != b.year then CmpInt(a.year, b.year)
    else if a.mon != b.mon then CmpInt(a.mon, b.mon)
    else if a.mday != b.mday then CmpInt(a.mday, b.mday)
    else if a.hour != b.hour then CmpInt(a.hour, b.hour)
    else if a.min != b.min then CmpInt(a.min, b.min)
    else CmpInt(a.sec, b.sec)
  }

  lemma DayOfYearInYear(d: Tm)
    requires 0 <= d.mon <= 11 && 1 <= d.mday <= DAYS_IN_MONTH[IsLeap(d.year)][d.mon]
    ensures 0 <= DayOfYear(d) < LENGTH_OF_YEAR[IsLeap(d.year)]
  {
    MonthsIncrease(IsLeap(d.year), d.mon, 11);
    TablesAgree(IsLeap(d.year), d.mon);
    TablesAgree(IsLeap(d.year), 11);
  }

  lemma {:induction false} MonthsIncrease(leap: nat, low: nat, high: nat)
    requires leap < 2 && low <= high < 12
    ensures JULIAN_DAYS_BY_MONTH[leap][low] <= JULIAN_DAYS_BY_MONTH[leap][high]
    ensures low < high ==>
      JULIAN_DAYS_BY_MONTH[leap][low] + DAYS_IN_MONTH[leap][low] <= JULIAN_DAYS_BY_MONTH[leap][high]
    decreases high - low
  {
    if low < high {
      TablesAgree(leap, low);
      MonthsIncrease(leap, low + 1, high);
    }
  }

  lemma DayInItsYear(d: Tm)
    requires Civil(d)
    ensures YearStart(d.year + 1900) <= DayNumber(d) < YearStart(d.year + 1901)
  {
    DayOfYearInYear(d);
    StepFrom1900(d.year);
  }

  lemma EarlierYear(a: Tm, b: Tm)
    requires Civil(a) && Civil(b) && a.year < b.year
    ensures DayNumber(a) < DayNumber(b)
  {
    DayInItsYear(a);
    DayInItsYear(b);
    YearStartBounds(a.year + 1901, b.year + 1900);
  }

  lemma EarlierInYear(a: Tm, b: Tm)
    requires Civil(a) && Civil(b) && a.year == b.year && (a.mon < b.mon || (a.mon == b.mon && a.mday < b.mday))
    ensures DayNumber(a) < DayNumber(b)
  {
    MonthsIncrease(IsLeap(a.year), a.mon, b.mon);
  }

  lemma EarlierDay(a: Tm, b: Tm)
    requires Civil(a) && Civil(b)
    requires a.year < b.year || (a.year == b.year && (a.mon < b.mon || (a.mon == b.mon && a.mday < b.mday)))
    ensures DayNumber(a) < DayNumber(b)
  {
    if a.year < b.year { EarlierYear(a, b); } else { EarlierInYear(a, b); }
  }

  /** timegm64 is strictly increasing for cmp_date's order, hence injective on dates without leap seconds. */
  lemma CivilIsMonotone(a: Tm, b: Tm)
    requires Civil(a) && Civil(b)
    ensures CmpDate(a, b) == CmpInt(Instant(a), Instant(b))
  {
    if (a.year, a.mon, a.mday) != (b.year, b.mon, b.mday) {
      if a.year < b.year || (a.year == b.year && (a.mon < b.mon || (a.mon == b.mon && a.mday < b.mday))) {
        EarlierDay(a, b);
      } else {
        EarlierDay(b, a);
      }
    }
  }

  /** A date that may name a leap second, as check_tm accepts it. */
  predicate Clock(d: Tm) {
    Civil(d.(sec := 0)) && 0 <= d.sec <= 60
  }

  function Minute(d: Tm): int
    requires 0 <= d.mon <= 11
  {
    DayNumber(d) * 1440 + d.hour * 60 + d.min
  }

  /** `b` is the first second of the minute that follows the leap second `a`. */
  predicate FollowsLeapSecond(a: Tm, b: Tm)
    requires 0 <= a.mon <= 11 && 0 <= b.mon <= 11
  {
    a.sec == 60 && b.sec == 0 && Minute(b) == Minute(a) + 1
  }

  lemma InstantByMinute(d: Tm)
    requires 0 <= d.mon <= 11
    ensures Instant(d) == 60 * Minute(d) + d.sec && Instant(d.(sec := 0)) == 60 * Minute(d)
  {}

  lemma CmpBySecond(a: Tm, b: Tm)
    ensures var minutes := CmpDate(a.(sec := 0), b.(sec := 0));
      CmpDate(a, b) == if minutes != 0 then minutes else CmpInt(a.sec, b.sec)
  {}

  /** Times as minutes and up to 60 seconds: their order, and that of their sums. */
  lemma OrderBySecond(m: int, s: int, n: int, t: int)
    requires 0 <= s <= 60 && 0 <= t <= 60
    ensures var order := if m != n then CmpInt(m, n) else CmpInt(s, t);
      && (order <= 0 ==> 60 * m + s <= 60 * n + t)
      && (order == CmpInt(60 * m + s, 60 * n + t) <==>
            !(s == 60 && t == 0 && n == m + 1) && !(t == 60 && s == 0 && m == n + 1))
    ensures CmpInt(60 * m, 60 * n) == CmpInt(m, n)
  {}

  /** With leap seconds timegm64 never reverses cmp_date's order, and it agrees with it
      if and only if the two dates are not a leap second and the second that follows it. */
  lemma InstantIsMonotone(a: Tm, b: Tm)
    requires Clock(a) && Clock(b)
    ensures CmpDate(a, b) <= 0 ==> Instant(a) <= Instant(b)
    ensures CmpDate(a, b) == CmpInt(Instant(a), Instant(b)) <==> !FollowsLeapSecond(a, b) && !FollowsLeapSecond(b, a)
  {
    CivilIsMonotone(a.(sec := 0), b.(sec := 0));
    InstantByMinute(a);
    InstantByMinute(b);
    CmpBySecond(a, b);
    OrderBySecond(Minute(a), a.sec, Minute(b), b.sec);
  }

  /** The leap second at the end of 2008 has the instant of the second that follows it. */
  lemma LeapSecondOf2008(a: Tm, b: Tm)
    requires a == Tm(60, 59, 23, 31, 11, 108, 3, 365, 0) && b == Tm(0, 0, 0, 1, 0, 109, 4, 0, 0)
    ensures CheckTm(a) && CheckTm(b) && CmpDate(a, b) == -1 && Instant(a) == Instant(b)
  {
    StepFrom1900(108);
  }

  /** check_tm accepts a date with its right weekday and day of the year exactly if it is a
      date that may name a leap second; the day of the year may be one too large. */
  lemma CheckTmIff(d: Tm)
    requires 0 <= d.mon <= 11
    ensures CheckTm(Completed(d)) <==> Clock(d)
    ensures Clock(d) ==> CheckTm(Completed(d).(yday := LENGTH_OF_YEAR[IsLeap(d.year)]))
  {
    if Clock(d) { DayOfYearInYear(d); }
  }

  lemma InstantFrom(d: Tm, start: int, leap: nat)
    requires 0 <= d.mon <= 11 && YearStart(d.year + 1900) == start && IsLeap(d.year) == leap
    ensures Instant(d) ==
      (start + JULIAN_DAYS_BY_MONTH[leap][d.mon] + d.mday - 1) * 86400 + d.hour * 3600 + d.min * 60 + d.sec
  {}

  lemma KnownYears()
    ensures YearStart(1970) == 0 && YearStart(2000) == 10957 && YearStart(2001) == 11323 && YearStart(2038) == 24837
    ensures IsLeap(70) == 0 && IsLeap(100) == 1 && IsLeap(101) == 0 && IsLeap(138) == 0
  {}

  /** Well-known instants: February 29th of 2000, */
  lemma LeapDayOf2000(d: Tm)
    requires d == Tm(0, 0, 0, 29, 1, 100, 2, 59, 0)
    ensures CheckTm(d) && d == Completed(d) && Instant(d) == 951_782_400
  {
    KnownYears();
    InstantFrom(d, 10957, 1);
  }

  /** one billion seconds, on September 9th of 2001, */
  lemma BillionSeconds(d: Tm)
    requires d == Tm(40, 46, 1, 9, 8, 101, 0, 251, 0)
    ensures CheckTm(d) && d == Completed(d) && Instant(d) == 1_000_000_000
  {
    KnownYears();
    InstantFrom(d, 11323, 0);
  }

  /** and the last second of 32-bit time, on January 19th of 2038. */
  lemma EndOf32BitTime(d: Tm)
    requires d == Tm(7, 14, 3, 19, 0, 138, 2, 18, 0)
    ensures CheckTm(d) && d == Completed(d) && Instant(d) == 0x7FFF_FFFF
  {
    KnownYears();
    InstantFrom(d, 24837, 0);
  }

  // ---- gmtime64_r ----

  const CHEAT_DAYS := 13879
  const CHEAT_YEARS := 108

  /** Splits a time into day number and time of day as the C code does:
      truncating divisions, then borrowing from the next unit when negative. */
  method SplitTime(t: int) returns (sec: int, min: int, hour: int, day: int)
    ensures 0 <= sec < 60 && 0 <= min < 60 && 0 <= hour < 24
    ensures t == day * SECONDS_PER_DAY + hour * 3600 + min * 60 + sec
  {
    var time := t;
    sec := CMod(time, 60);
    time := CDiv(time, 60);
    min := CMod(time, 60);
    time := CDiv(time, 60);
    hour := CMod(time, 24);
    time := CDiv(time, 24);
    day := time;
    if sec < 0 { min := min - 1; sec := sec + 60; }
    if min < 0 { hour := hour - 1; min := min + 60; }
    if hour < 0 { day := day - 1; hour := hour + 24; }
  }

  function WeekdayOf(day: int): (wday: int)
    ensures wday == Weekday(day)
  {
    var w := CMod(day + 4, 7);
    if w < 0 then w + 7 else w
  }

  /** Finds year, month and day of the month (from 0) of a day on or after
      January 1st of `startYear`. */
  method DateForward(m0: int, startYear: int) returns (year: int, mon: int, m: int)
    requires m0 >= 0
    ensures 0 <= mon <= 11 && 0 <= m < DAYS_IN_MONTH[IsLeap(year)][mon]
    ensures YearStart(startYear + 1900) + m0 ==
      YearStart(year + 1900) + JULIAN_DAYS_BY_MONTH[IsLeap(year)][mon] + m
  {
    m, year := m0, startYear;
    var cycles := CDiv(m, DAYS_IN_CYCLE);
    if cycles != 0 {
      m := m - cycles * DAYS_IN_CYCLE;
      year := year + cycles * 400;
    }
    YearStartCycles(startYear + 1900, cycles);
    year, m := YearForward(year, m);
    mon, m := MonthForward(IsLeap(year), m);
  }

  /** Walks forward over whole years. */
  method YearForward(year0: int, m0: int) returns (year: int, m: int)
    requires m0 >= 0
    ensures 0 <= m < LENGTH_OF_YEAR[IsLeap(year)] && YearStart(year0 + 1900) + m0 == YearStart(year + 1900) + m
  {
    year, m := year0, m0;
    var leap := IsLeap(year);
    while m >= LENGTH_OF_YEAR[leap]
      invariant m >= 0 && leap == IsLeap(year) && YearStart(year0 + 1900) + m0 == YearStart(year + 1900) + m
      decreases m
    {
      StepFrom1900(year);
      m := m - LENGTH_OF_YEAR[leap];
      year := year + 1;
      leap := IsLeap(year);
    }
  }

  /** Finds the month of a day of the year, and the day of that month, from January on. */
  method MonthForward(leap: nat, day: int) returns (mon: int, m: int)
    requires leap < 2 && 0 <= day < LENGTH_OF_YEAR[leap]
    ensures 0 <= mon <= 11 && 0 <= m < DAYS_IN_MONTH[leap][mon] && day == JULIAN_DAYS_BY_MONTH[leap][mon] + m
  {
    mon, m := 0, day;
    TablesAgree(leap, 11);
    while m >= DAYS_IN_MONTH[leap][mon]
      invariant 0 <= mon <= 11 && m >= 0 && day == JULIAN_DAYS_BY_MONTH[leap][mon] + m
      decreases 12 - mon
    {
      TablesAgree(leap, mon);
      m := m - DAYS_IN_MONTH[leap][mon];
      mon := mon + 1;
    }
  }

  /** The same for a day before January 1st of `startYear`, walking backwards. */
  method DateBackward(m0: int, startYear: int) returns (year: int, mon: int, m: int)
    requires m0 < 0
    ensures 0 <= mon <= 11 && 0 <= m < DAYS_IN_MONTH[IsLeap(year)][mon]
    ensures YearStart(startYear + 1900) + m0 ==
      YearStart(year + 1900) + JULIAN_DAYS_BY_MONTH[IsLeap(year)][mon] + m
  {
    m, year := m0, startYear - 1;
    var cycles := CDiv(m, DAYS_IN_CYCLE) + 1;
    if cycles != 0 {
      m := m - cycles * DAYS_IN_CYCLE;
      year := year + cycles * 400;
    }
    YearStartCycles(startYear + 1900, cycles);
    year, m := YearBackward(year, m);
    StepFrom1900(year);
    mon, m := MonthBackward(IsLeap(year), m);
  }

  /** Walks backward over whole years; days count from the end of the year. */
  method YearBackward(year0: int, m0: int) returns (year: int, m: int)
    requires m0 < 0
    ensures -LENGTH_OF_YEAR[IsLeap(year)] <= m < 0 && YearStart(year0 + 1901) + m0 == YearStart(year + 1901) + m
  {
    year, m := year0, m0;
    var leap := IsLeap(year);
    while m < -LENGTH_OF_YEAR[leap]
      invariant m < 0 && leap == IsLeap(year) && YearStart(year0 + 1901) + m0 == YearStart(year + 1901) + m
      decreases -m
    {
      StepFrom1900(year);
      m := m + LENGTH_OF_YEAR[leap];
      year := year - 1;
      leap := IsLeap(year);
    }
  }

  /** The same from December back, for a day counted from the end of the year. */
  method MonthBackward(leap: nat, day: int) returns (mon: int, m: int)
    requires leap < 2 && -LENGTH_OF_YEAR[leap] <= day < 0
    ensures 0 <= mon <= 11 && 0 <= m < DAYS_IN_MONTH[leap][mon]
    ensures LENGTH_OF_YEAR[leap] + day == JULIAN_DAYS_BY_MONTH[leap][mon] + m
  {
    mon, m := 11, day;
    TablesAgree(leap, 11);
    while m < -DAYS_IN_MONTH[leap][mon]
      invariant 0 <= mon <= 11 && m < 0
      invariant LENGTH_OF_YEAR[leap] + day == JULIAN_DAYS_BY_MONTH[leap][mon] + DAYS_IN_MONTH[leap][mon] + m
      decreases mon
    {
      TablesAgree(leap, mon - 1);
      m := m + DAYS_IN_MONTH[leap][mon];
      mon := mon - 1;
    }
    m := m + DAYS_IN_MONTH[leap][mon];
  }

  /** The two starting points: January 1st of 1970 and, to save time, of 2008. */
  lemma Epochs()
    ensures YearStart(1970) == 0 && YearStart(1900 + CHEAT_YEARS) == CHEAT_DAYS
  {}

  /** Year, month and day of the month (from 0) of a day number. */
  method DateOfDay(tday: int) returns (year: int, mon: int, m: int)
    ensures 0 <= mon <= 11 && 0 <= m < DAYS_IN_MONTH[IsLeap(year)][mon]
    ensures tday == YearStart(year + 1900) + JULIAN_DAYS_BY_MONTH[IsLeap(year)][mon] + m
  {
    m, year := tday, 70;
    if m >= CHEAT_DAYS {
      year := CHEAT_YEARS;
      m := m - CHEAT_DAYS;
    }
    Epochs();
    if m >= 0 {
      year, mon, m := DateForward(m, year);
    } else {
      year, mon, m := DateBackward(m, year);
    }
  }

  /** The first and last instants whose year fits a 32-bit tm_year. */
  predicate YearFits(t: int) {
    YearStart(1900 - 0x8000_0000) * SECONDS_PER_DAY <= t < YearStart(1900 + 0x8000_0000) * SECONDS_PER_DAY
  }

  lemma YearFitsIff(d: Tm)
    requires Civil(d)
    ensures YearFits(Instant(d)) <==> Int32(d.year)
  {
    DayOfYearInYear(d);
    StepFrom1900(d.year);
    var low, high := 1900 - 0x8000_0000, 1900 + 0x8000_0000;
    if d.year < -0x8000_0000 { YearStartBounds(d.year + 1901, low); } else { YearStartBounds(low, d.year + 1900); }
    if d.year < 0x8000_0000 { YearStartBounds(d.year + 1901, high); } else { YearStartBounds(high, d.year + 1900); }
  }

  /** gmtime64_r: for every time, the one valid date that denotes it, complete
      with weekday and day of the year; no date exactly when the year overflows. */
  method GmTime(t: int) returns (r: Option<Tm>)
    ensures r.Some? <==> YearFits(t)
    ensures r.Some? ==> CheckTm(r.value) && Civil(r.value) && Instant(r.value) == t && r.value == Completed(r.value)
  {
    var sec, min, hour, tday := SplitTime(t);
    var wday := WeekdayOf(tday);
    var year, mon, m := DateOfDay(tday);
    var leap := IsLeap(year);
    var p := Tm(sec, min, hour, m + 1, mon, year, wday, JULIAN_DAYS_BY_MONTH[leap][mon] + m, 0);
    assert DayNumber(p) == tday && Civil(p);
    DayOfYearInYear(p);
    YearFitsIff(p);
    return if Int32(year) then Some(p) else None;
  }

  // ---- round trips ----

  /** timegm64 undoes gmtime64_r. */
  method TimeRoundTrip(t: int) returns (back: Option<int>)
    ensures back == if YearFits(t) then Some(t) else None
  {
    var date := GmTime(t);
    if date.None? {
      return None;
    }
    var seconds := TimeGm(date.value);
    return Some(seconds);
  }

  /** An instant has only one date. */
  lemma DateIsUnique(d: Tm, e: Tm)
    requires Civil(d) && Civil(e) && Instant(d) == Instant(e)
    ensures Completed(d) == Completed(e)
  {
    CivilIsMonotone(d, e);
  }

  /** A leap second denotes the instant of a later date. */
  lemma LeapSecondIsLater(d: Tm, e: Tm)
    requires Civil(d.(sec := 59)) && d.sec == 60 && Civil(e) && Instant(d) == Instant(e)
    ensures CmpDate(d, e) == -1
  {
    SecondEarlier(d);
    CivilIsMonotone(d.(sec := 59), e);
    CmpWithLeapSecond(d, e);
  }

  lemma SecondEarlier(d: Tm)
    requires 0 <= d.mon <= 11 && d.sec == 60
    ensures Instant(d.(sec := 59)) == Instant(d) - 1
  {}

  lemma CmpWithLeapSecond(d: Tm, e: Tm)
    requires d.sec == 60 && e.sec <= 59 && CmpDate(d.(sec := 59), e) == -1
    ensures CmpDate(d, e) == -1
  {}

  /** The leap second after the last second that a 32-bit tm_year can date. */
  predicate EndOfTime(d: Tm) {
    d.sec == 60 && d.min == 59 && d.hour == 23 && d.mday == 31 && d.mon == 11 && d.year == 0x7FFF_FFFF
  }

  lemma LastOfYear(d: Tm)
    requires Civil(d)
    ensures Instant(d) + 1 <= YearStart(d.year + 1901) * SECONDS_PER_DAY
    ensures Instant(d) + 1 == YearStart(d.year + 1901) * SECONDS_PER_DAY <==>
      d.sec == 59 && d.min == 59 && d.hour == 23 && d.mday == 31 && d.mon == 11
  {
    DayInItsYear(d);
    StepFrom1900(d.year);
    LastDayOfYear(d);
  }

  lemma LastDayOfYear(d: Tm)
    requires Civil(d)
    ensures DayOfYear(d) == LENGTH_OF_YEAR[IsLeap(d.year)] - 1 <==> d.mon == 11 && d.mday == 31
  {
    var leap := IsLeap(d.year);
    TablesAgree(leap, d.mon);
    TablesAgree(leap, 11);
    if d.mon < 11 { MonthsIncrease(leap, d.mon, 11); }
  }

  lemma BeforeLastYear(year: int)
    requires Int32(year)
    ensures year < 0x7FFF_FFFF ==> YearStart(year + 1901) < YearStart(1900 + 0x8000_0000)
    ensures year == 0x7FFF_FFFF ==> YearStart(year + 1901) == YearStart(1900 + 0x8000_0000)
  {
    YearStartBounds(year + 1901, 1900 + 0x8000_0000);
  }

  /** The last second of a year is followed by a time that fits, unless the year is the last. */
  lemma NextSecondFits(t: int, yearEnd: int)
    requires YearFits(t) && t + 1 <= yearEnd * SECONDS_PER_DAY && yearEnd <= YearStart(1900 + 0x8000_0000)
    ensures YearFits(t + 1) <==>
      !(t + 1 == yearEnd * SECONDS_PER_DAY && yearEnd == YearStart(1900 + 0x8000_0000))
  {}

  /** A leap second leaves the dates of a 32-bit year only at their very end. */
  lemma LeapSecondFitsIff(d: Tm)
    requires Civil(d.(sec := 59)) && d.sec == 60 && Int32(d.year)
    ensures YearFits(Instant(d)) <==> !EndOfTime(d)
  {
    var e := d.(sec := 59);
    SecondEarlier(d);
    YearFitsIff(e);
    LastOfYear(e);
    BeforeLastYear(d.year);
    NextSecondFits(Instant(e), YearStart(d.year + 1901));
  }

  /** gmtime64_r undoes timegm64 on a valid date exactly when it names no leap second;
      a leap second becomes a later date, or none at the very end of the 32-bit years. */
  method DateRoundTrip(d: Tm) returns (back: Option<Tm>)
    requires CheckTm(d) && Int32(d.year)
    ensures d.sec <= 59 ==> back == Some(Completed(d))
    ensures d.sec == 60 && back.Some? ==> CmpDate(d, back.value) == -1
    ensures back.None? <==> EndOfTime(d)
  {
    var t := TimeGm(d);
    back := GmTime(t);
    if d.sec <= 59 {
      YearFitsIff(d);
      DateIsUnique(d, back.value);
    } else {
      LeapSecondFitsIff(d);
      if back.Some? {
        LeapSecondIsLater(d, back.value);
      }
    }
  }
}

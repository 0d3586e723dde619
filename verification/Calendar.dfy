/** The proleptic Gregorian calendar in closed form, and C integer division. */
module Calendar {

  // ---- C division and remainder (truncation toward zero) ----

  function CDiv(a: int, b: int): int
    requires b > 0
  {
    if a >= 0 then a / b else -((-a) / b)
  }

  function CMod(a: int, b: int): int
    requires b > 0
  {
    a - b * CDiv(a, b)
  }

  /** A C remainder is zero exactly when the division leaves none. */
  lemma CModZero(a: int, b: int)
    requires b > 0
    ensures CMod(a, b) == 0 <==> a % b == 0
  {
    if a >= 0 {
      assert a - b * (a / b) == a % b;
    } else {
      var q, r := (-a) / b, (-a) % b;
      assert -a == b * q + r && CMod(a, b) == -r;
      if r == 0 {
        Remainder(a, b, -q, 0);
      } else {
        assert b * -(q + 1) == -(b * q) - b;
        Remainder(a, b, -(q + 1), b - r);
      }
    }
  }

  lemma Remainder(a: int, b: int, q: int, r: int)
    requires b > 0 && 0 <= r < b && a == b * q + r
    ensures a % b == r
  {
    var d := a / b - q;
    assert b * (a / b) == b * q + b * d;
    assert b * d == r - a % b;
    MultipleIsLarge(b, d);
  }

  lemma MultipleIsLarge(b: int, d: int)
    requires b > 0
    ensures d >= 1 ==> b * d >= b
    ensures d <= -1 ==> b * d <= -b
  {}

  // ---- years: absolute numbering, year 0 exists ----

  const DAYS_IN_CYCLE := 146097
  const SECONDS_PER_DAY := 86400

  predicate Leap(year: int) {
    year % 4 == 0 && (year % 100 != 0 || year % 400 == 0)
  }

  function YearLength(year: int): int {
    if Leap(year) then 366 else 365
  }

  /** Leap days among the years before `year`, up to a constant. */
  function LeapsBefore(year: int): int {
    (year - 1) / 4 - (year - 1) / 100 + (year - 1) / 400
  }

  /** Days from January 1st, 1970 to January 1st of `year`. */
  function YearStart(year: int): int {
    365 * (year - 1970) + LeapsBefore(year) - 477
  }

  /** Day of the week of a day number, Sunday is 0; day 0 was a Thursday. */
  function Weekday(day: int): int {
    (day + 4) % 7
  }

  lemma HundredsAreFours(year: int)
    ensures year % 400 == 0 ==> year % 100 == 0
    ensures year % 100 == 0 ==> year % 4 == 0
  {
    if year % 400 == 0 {
      assert year == 100 * (4 * (year / 400));
      Remainder(year, 100, 4 * (year / 400), 0);
    }
    if year % 100 == 0 {
      assert year == 4 * (25 * (year / 100));
      Remainder(year, 4, 25 * (year / 100), 0);
    }
  }

  lemma YearStartStep(year: int)
    ensures YearStart(year + 1) == YearStart(year) + YearLength(year)
  {
    QuotientSteps(year);
    HundredsAreFours(year);
  }

  lemma QuotientSteps(y: int)
    ensures y / 4 == (y - 1) / 4 + if y % 4 == 0 then 1 else 0
    ensures y / 100 == (y - 1) / 100 + if y % 100 == 0 then 1 else 0
    ensures y / 400 == (y - 1) / 400 + if y % 400 == 0 then 1 else 0
  {}

  lemma YearStartCycles(year: int, cycles: int)
    ensures YearStart(year + 400 * cycles) == YearStart(year) + DAYS_IN_CYCLE * cycles
    ensures Leap(year + 400 * cycles) == Leap(year)
  {
    WholeCycles(year - 1, cycles);
    WholeCycles(year, cycles);
  }

  lemma WholeCycles(y: int, cycles: int)
    ensures (y + 400 * cycles) / 4 == y / 4 + 100 * cycles && (y + 400 * cycles) % 4 == y % 4
    ensures (y + 400 * cycles) / 100 == y / 100 + 4 * cycles && (y + 400 * cycles) % 100 == y % 100
    ensures (y + 400 * cycles) / 400 == y / 400 + cycles && (y + 400 * cycles) % 400 == y % 400
  {
    assert y + 400 * cycles == 4 * (y / 4 + 100 * cycles) + y % 4;
    assert y + 400 * cycles == 100 * (y / 100 + 4 * cycles) + y % 100;
    assert y + 400 * cycles == 400 * (y / 400 + cycles) + y % 400;
  }

  lemma YearStartBounds(low: int, high: int)
    requires low <= high
    ensures 365 * (high - low) <= YearStart(high) - YearStart(low) <= 366 * (high - low)
    decreases high - low
  {
    if low < high {
      YearStartStep(high - 1);
      YearStartBounds(low, high - 1);
    }
  }

  // ---- months ----

  const DAYS_IN_MONTH: seq<seq<int>> := [
    [31, 28, 31, 30, 31, 30, 31, 31, 30, 31, 30, 31],
    [31, 29, 31, 30, 31, 30, 31, 31, 30, 31, 30, 31]]

  const JULIAN_DAYS_BY_MONTH: seq<seq<int>> := [
    [0, 31, 59, 90, 120, 151, 181, 212, 243, 273, 304, 334],
    [0, 31, 60, 91, 121, 152, 182, 213, 244, 274, 305, 335]]

  const LENGTH_OF_YEAR: seq<int> := [365, 366]

  /** The two tables agree: each month starts where the one before it ends. */
  lemma TablesAgree(leap: nat, month: nat)
    requires leap < 2 && month < 12
    ensures JULIAN_DAYS_BY_MONTH[leap][month] + DAYS_IN_MONTH[leap][month] ==
      if month == 11 then LENGTH_OF_YEAR[leap] else JULIAN_DAYS_BY_MONTH[leap][month + 1]
    ensures DAYS_IN_MONTH[leap][month] >= 28
  {}

  /** The months by the usual rule: the odd ones up to July and the even ones from August
      have 31 days, February 28 or 29, the others 30. Months count from 0. */
  lemma MonthRule(leap: nat, month: nat)
    requires leap < 2 && month < 12
    ensures DAYS_IN_MONTH[leap][month] ==
      if month == 1 then 28 + leap
      else if (month <= 6 && month % 2 == 0) || (month >= 7 && month % 2 == 1) then 31 else 30
    ensures JULIAN_DAYS_BY_MONTH[leap][0] == 0 && LENGTH_OF_YEAR[leap] == 365 + leap
  {}

  /** Days whose weekday is known: January 1st of 1970 was a Thursday, of 1900 a Monday and
      of 2000 a Saturday. Sunday is 0. */
  lemma KnownWeekdays()
    ensures Weekday(YearStart(1970)) == 4 && Weekday(YearStart(1900)) == 1 && Weekday(YearStart(2000)) == 6
    ensures forall day :: 0 <= Weekday(day) < 7 && Weekday(day + 1) == (Weekday(day) + 1) % 7
  {}
}

/**
 * Calendar arithmetic on `{ year, month, day }` records with months counted from 1
 * (January is 1, December is 12), and the integer index a day's tasks are stored under.
 */
module Date {
  import opened Wrappers
  import opened Arrays

  datatype Day = Day(year: int, month: int, day: int)

  /**
   * The Gregorian leap rule. JavaScript's `%` truncates towards zero where Dafny's does
   * not, but the two agree on whether the remainder is zero, which is all the rule asks.
   */
  predicate IsLeapYear(year: int)
    ensures IsLeapYear(year) ==> year % 4 == 0
    ensures year % 400 == 0 ==> IsLeapYear(year)
    ensures year % 100 == 0 && year % 400 != 0 ==> !IsLeapYear(year)
  {
    (year % 4 == 0 && year % 100 != 0) || year % 400 == 0
  }

  /** The calendar repeats every 400 years. */
  lemma LeapCycle(year: int)
    ensures IsLeapYear(year + 400) == IsLeapYear(year)
    ensures GetDays(year + 400) == GetDays(year)
  {
    assert (year + 400) % 4 == year % 4;
    assert (year + 400) % 100 == year % 100;
    assert (year + 400) % 400 == year % 400;
  }

  /** The lengths of the twelve months of `year`, January first. */
  function GetDays(year: int): (r: seq<int>)
    ensures |r| == 12
    ensures r[1] == if IsLeapYear(year) then 29 else 28
    ensures forall i :: 0 <= i < 12 ==> 28 <= r[i] <= 31
  {
    [31, if IsLeapYear(year) then 29 else 28, 31, 30, 31, 30, 31, 31, 30, 31, 30, 31]
  }

  function Sum(s: seq<int>): int {
    if s == [] then 0 else Sum(s[..|s| - 1]) + s[|s| - 1]
  }

  /** A leap year has 366 days and every other year 365. */
  lemma YearLength(year: int)
    ensures Sum(GetDays(year)) == if IsLeapYear(year) then 366 else 365
  {
    var r := GetDays(year);
    assert r == r[..12];
    assert Sum(r[..12]) == Sum(r[..11]) + r[11] by { assert r[..12][..11] == r[..11]; }
    assert Sum(r[..11]) == Sum(r[..10]) + r[10] by { assert r[..11][..10] == r[..10]; }
    assert Sum(r[..10]) == Sum(r[..9]) + r[9] by { assert r[..10][..9] == r[..9]; }
    assert Sum(r[..9]) == Sum(r[..8]) + r[8] by { assert r[..9][..8] == r[..8]; }
    assert Sum(r[..8]) == Sum(r[..7]) + r[7] by { assert r[..8][..7] == r[..7]; }
    assert Sum(r[..7]) == Sum(r[..6]) + r[6] by { assert r[..7][..6] == r[..6]; }
    assert Sum(r[..6]) == Sum(r[..5]) + r[5] by { assert r[..6][..5] == r[..5]; }
    assert Sum(r[..5]) == Sum(r[..4]) + r[4] by { assert r[..5][..4] == r[..4]; }
    assert Sum(r[..4]) == Sum(r[..3]) + r[3] by { assert r[..4][..3] == r[..3]; }
    assert Sum(r[..3]) == Sum(r[..2]) + r[2] by { assert r[..3][..2] == r[..2]; }
    assert Sum(r[..2]) == Sum(r[..1]) + r[1] by { assert r[..2][..1] == r[..1]; }
    assert Sum(r[..1]) == Sum(r[..0]) + r[0] by { assert r[..1][..0] == r[..0]; }
  }

  /** A real calendar date: month 1 to 12 and day 1 to the length of that month. */
  predicate Valid(d: Day) {
    1 <= d.month <= 12 && 1 <= d.day <= GetDays(d.year)[d.month - 1]
  }

  /** The last day of the year. */
  predicate IsYearEnd(d: Day) {
    d.month == 12 && d.day == 31
  }

  /**
   * The following day. A month outside 1..12 reads `undefined` from the table,
   * which never equals the day, so such a date only has its day incremented.
   */
  function NextDay(d: Day): (r: Day)
    ensures r.day == 1 || (r.year == d.year && r.month == d.month && r.day == d.day + 1)
    ensures Valid(d) ==> (r.year == d.year + 1 <==> IsYearEnd(d))
  {
    var days := GetDays(d.year);
    if At(days, d.month - 1) == Some(d.day) then
      if d.month == 12 then Day(d.year + 1, 1, 1) else Day(d.year, d.month + 1, 1)
    else
      Day(d.year, d.month, d.day + 1)
  }

  /**
   * The preceding day. On day 1 of a month other than January the length of the
   * previous month is read from the table; `None` is the record whose `day` is
   * `undefined` because that read fell outside the table.
   */
  function PreviousDay(d: Day): (r: Option<Day>)
    ensures r.None? <==> d.day == 1 && (d.month < 1 || d.month > 13)
    ensures r.Some? && r.value.year != d.year ==> d.month == 1 && d.day == 1
  {
    if d.day == 1 then
      if d.month == 1 then Some(Day(d.year - 1, 12, 31))
      else match At(GetDays(d.year), d.month - 2)
        case Some(n) => Some(Day(d.year, d.month - 1, n))
        case None => None
    else
      Some(Day(d.year, d.month, d.day - 1))
  }

  /** The index a day's tasks are kept under, as written: 366 per year and 31 per month. */
  function DayToIndex(d: Day): (r: int)
    ensures Valid(d) ==> (d.year - 2024) * 366 + 32 <= r <= (d.year - 2024) * 366 + 403
  {
    (d.year - 2024) * 366 + d.month * 31 + d.day
  }

  /** Strict calendar order: earlier year, or same year and earlier month, or same month and earlier day. */
  predicate Before(a: Day, b: Day) {
    a.year < b.year || (a.year == b.year && (a.month < b.month || (a.month == b.month && a.day < b.day)))
  }

  lemma NextDayValid(d: Day)
    requires Valid(d)
    ensures Valid(NextDay(d))
    ensures Before(d, NextDay(d))
  {
  }

  /** No valid date lies strictly between a date and the one `NextDay` gives. */
  lemma NextDayIsSuccessor(d: Day, e: Day)
    requires Valid(d) && Valid(e) && Before(d, e)
    ensures !Before(e, NextDay(d))
  {
  }

  lemma PreviousDayValid(d: Day)
    requires Valid(d)
    ensures PreviousDay(d).Some? && Valid(PreviousDay(d).value)
    ensures Before(PreviousDay(d).value, d)
  {
  }

  /** Stepping forward and then back returns to the same date. */
  lemma PreviousOfNext(d: Day)
    requires Valid(d)
    ensures PreviousDay(NextDay(d)) == Some(d)
  {
  }

  /** Stepping back and then forward returns to the same date. */
  lemma NextOfPrevious(d: Day)
    requires Valid(d)
    ensures PreviousDay(d).Some? && NextDay(PreviousDay(d).value) == d
  {
  }

  /** Within one year the index follows calendar order exactly, so it tells the days apart. */
  lemma DayToIndexOrdersYear(a: Day, b: Day)
    requires Valid(a) && Valid(b) && a.year == b.year
    ensures Before(a, b) <==> DayToIndex(a) < DayToIndex(b)
    ensures DayToIndex(a) == DayToIndex(b) <==> a == b
  {
  }

  /** The index grows from each day to the next, except from December 31 to January 1. */
  lemma DayToIndexNextWithinYear(d: Day)
    requires Valid(d) && !IsYearEnd(d)
    ensures DayToIndex(d) < DayToIndex(NextDay(d))
  {
  }

  /** Across years the index collides: December 31, 2024 and January 6, 2025 share 403. */
  lemma DayToIndexCollides()
    ensures Valid(Day(2024, 12, 31)) && Valid(Day(2025, 1, 6))
    ensures DayToIndex(Day(2024, 12, 31)) == DayToIndex(Day(2025, 1, 6)) == 403
  {
  }

  /** At the turn of the year the index goes down: 403 on December 31, 2024, 398 on the next day. */
  lemma DayToIndexFallsAtYearEnd()
    ensures NextDay(Day(2024, 12, 31)) == Day(2025, 1, 1)
    ensures DayToIndex(Day(2024, 12, 31)) == 403 && DayToIndex(Day(2025, 1, 1)) == 398
  {
  }

  /**
   * The index with a year stride of 372 (twelve months of 31 days), wide enough for
   * every `month * 31 + day` of a valid date, which ranges over 32..403.
   */
  function DaySerial(d: Day): int {
    (d.year - 2024) * 372 + d.month * 31 + d.day
  }

  /** On valid dates the corrected index follows calendar order in every year, hence never collides. */
  lemma DaySerialOrders(a: Day, b: Day)
    requires Valid(a) && Valid(b)
    ensures Before(a, b) <==> DaySerial(a) < DaySerial(b)
    ensures DaySerial(a) == DaySerial(b) <==> a == b
  {
    if a.year < b.year {
      assert (b.year - 2024) * 372 >= (a.year - 2024) * 372 + 372;
    } else if b.year < a.year {
      assert (a.year - 2024) * 372 >= (b.year - 2024) * 372 + 372;
    }
  }
}

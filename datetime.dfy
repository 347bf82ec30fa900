/**
 * The second copy of the calendar arithmetic, on records whose months are counted
 * from 0 (January is 0, December is 11), and the `HH:MM` time format.
 *
 * `isLeapYear`, `getDays`, `previousDay` and `dayToIndex` are the same text as in the
 * 1-based copy, so `Date.IsLeapYear`, `Date.GetDays`, `Date.PreviousDay` and
 * `Date.DayToIndex` stand for both; only `nextDay` differs.
 */
module DateTime {
  import opened Wrappers
  import opened Arrays
  import opened Decimal
  import opened Date

  datatype Time = Time(hour: int, minute: int)

  /** A real calendar date under 0-based months: month 0 to 11 and day 1 to the length of that month. */
  predicate Valid0(d: Day) {
    0 <= d.month <= 11 && 1 <= d.day <= GetDays(d.year)[d.month]
  }

  /** The last day of the year under 0-based months. */
  predicate IsYearEnd0(d: Day) {
    d.month == 11 && d.day == 31
  }

  /**
   * The following day, as written: the month length is read at index `month`, but the
   * day after December 31 is given month 1.
   */
  function NextDay0(d: Day): (r: Day)
    ensures r.day == 1 || (r.year == d.year && r.month == d.month && r.day == d.day + 1)
    ensures r.year != d.year ==> r.year == d.year + 1 && r.month == 1
  {
    var days := GetDays(d.year);
    if At(days, d.month) == Some(d.day) then
      if d.month == 11 then Day(d.year + 1, 1, 1) else Day(d.year, d.month + 1, 1)
    else
      Day(d.year, d.month, d.day + 1)
  }

  /** Except on December 31, the following day is valid, later, and nothing valid lies in between. */
  lemma NextDay0Valid(d: Day, e: Day)
    requires Valid0(d) && !IsYearEnd0(d)
    ensures Valid0(NextDay0(d)) && Before(d, NextDay0(d))
    ensures Valid0(e) && Before(d, e) ==> !Before(e, NextDay0(d))
  {
  }

  /** After December 31 of any year comes February 1 of the next: January is skipped. */
  lemma NextDay0SkipsJanuary(year: int)
    ensures NextDay0(Day(year, 11, 31)) == Day(year + 1, 1, 1)
    ensures Valid0(Day(year + 1, 0, 1)) && Before(Day(year + 1, 0, 1), NextDay0(Day(year, 11, 31)))
  {
  }

  /**
   * `previousDay` keeps its 1-based rules: stepping forward from February 29, 2024 (month 1)
   * and back lands on month 1, day 31, not on the starting date.
   */
  lemma PreviousOfNext0Fails()
    ensures Valid0(Day(2024, 1, 29)) && NextDay0(Day(2024, 1, 29)) == Day(2024, 2, 1)
    ensures PreviousDay(NextDay0(Day(2024, 1, 29))) == Some(Day(2024, 1, 31))
  {
  }

  /** On February 1 (month 1) `previousDay` steps to month 12 of the year before, which is no month at all. */
  lemma PreviousDay0LeavesCalendar()
    ensures Valid0(Day(2024, 1, 1)) && PreviousDay(Day(2024, 1, 1)) == Some(Day(2023, 12, 31))
    ensures !Valid0(PreviousDay(Day(2024, 1, 1)).value)
  {
  }

  /** On January 1 (month 0) `previousDay` reads the month table at -2 and yields an undefined day. */
  lemma PreviousDay0UndefinedInJanuary()
    ensures Valid0(Day(2024, 0, 1)) && PreviousDay(Day(2024, 0, 1)) == None
  {
  }

  /** Under 0-based months the index also collides across years: December 26, 2024 and January 1, 2025 share 367. */
  lemma DayToIndexCollides0()
    ensures Valid0(Day(2024, 11, 26)) && Valid0(Day(2025, 0, 1))
    ensures DayToIndex(Day(2024, 11, 26)) == DayToIndex(Day(2025, 0, 1)) == 367
  {
  }

  /** The following day under 0-based months, with December 31 followed by January 1 (month 0). */
  function NextDayFixed(d: Day): Day {
    var days := GetDays(d.year);
    if At(days, d.month) == Some(d.day) then
      if d.month == 11 then Day(d.year + 1, 0, 1) else Day(d.year, d.month + 1, 1)
    else
      Day(d.year, d.month, d.day + 1)
  }

  /** The preceding day under 0-based months: the previous month's length is read at `month - 1`. */
  function PreviousDayFixed(d: Day): Option<Day> {
    if d.day == 1 then
      if d.month == 0 then Some(Day(d.year - 1, 11, 31))
      else match At(GetDays(d.year), d.month - 1)
        case Some(n) => Some(Day(d.year, d.month - 1, n))
        case None => None
    else
      Some(Day(d.year, d.month, d.day - 1))
  }

  /** The corrected `nextDay` differs from the written one only on December 31. */
  lemma NextDayFixedAgrees(d: Day)
    ensures NextDayFixed(d) == NextDay0(d) <==> !IsYearEnd0(d)
  {
  }

  /** The corrected steps stay on valid dates and move to the adjacent day in calendar order. */
  lemma FixedStepsValid(d: Day, e: Day)
    requires Valid0(d)
    ensures Valid0(NextDayFixed(d)) && Before(d, NextDayFixed(d))
    ensures PreviousDayFixed(d).Some? && Valid0(PreviousDayFixed(d).value)
    ensures Before(PreviousDayFixed(d).value, d)
    ensures Valid0(e) && Before(d, e) ==> !Before(e, NextDayFixed(d))
  {
  }

  /** The corrected steps undo each other on every valid date. */
  lemma FixedStepsRoundTrip(d: Day)
    requires Valid0(d)
    ensures PreviousDayFixed(NextDayFixed(d)) == Some(d)
    ensures PreviousDayFixed(d).Some? && NextDayFixed(PreviousDayFixed(d).value) == d
  {
  }

  /**
   * The corrected index under 0-based months, the ones the pages build days with:
   * `month * 31 + day` ranges over 1..372, so the stride 372 still separates the years.
   */
  lemma DaySerialOrders0(a: Day, b: Day)
    requires Valid0(a) && Valid0(b)
    ensures Before(a, b) <==> DaySerial(a) < DaySerial(b)
    ensures DaySerial(a) == DaySerial(b) <==> a == b
  {
    if a.year < b.year {
      assert (b.year - 2024) * 372 >= (a.year - 2024) * 372 + 372;
    } else if b.year < a.year {
      assert (a.year - 2024) * 372 >= (b.year - 2024) * 372 + 372;
    }
  }

  /** `HH:MM`, each part the decimal text of the number padded on the left with zeros to two characters. */
  function FormatTime(t: Time): (r: string)
    ensures |r| >= 5
    ensures t.hour >= 0 && t.minute >= 0 ==> forall i :: 0 <= i < |r| ==> IsDigit(r[i]) || r[i] == ':'
  {
    PadStart(ToString(t.hour), 2, '0') + ":" + PadStart(ToString(t.minute), 2, '0')
  }

  /** For hour and minute in 0..99 the text is five characters, `DD:DD`, and reads back as the time. */
  lemma FormatTimeShape(t: Time)
    requires 0 <= t.hour < 100 && 0 <= t.minute < 100
    ensures var s := FormatTime(t);
      && |s| == 5 && s[2] == ':'
      && IsDigit(s[0]) && IsDigit(s[1]) && IsDigit(s[3]) && IsDigit(s[4])
      && ParseDigits(s[..2]) == t.hour && ParseDigits(s[3..]) == t.minute
  {
    TwoDigits(t.hour);
    TwoDigits(t.minute);
    Joined(PadStart(ToString(t.hour), 2, '0'), PadStart(ToString(t.minute), 2, '0'));
  }

  lemma Joined(h: string, m: string)
    requires |h| == 2 && |m| == 2
    ensures var s := h + ":" + m;
      |s| == 5 && s[2] == ':' && s[..2] == h && s[3..] == m
      && s[0] == h[0] && s[1] == h[1] && s[3] == m[0] && s[4] == m[1]
  {
    var s := h + ":" + m;
    assert s[..2] == h;
    assert s[3..] == m;
  }

  /** Distinct times in 0..99 get distinct texts. */
  lemma FormatTimeInjective(a: Time, b: Time)
    requires 0 <= a.hour < 100 && 0 <= a.minute < 100
    requires 0 <= b.hour < 100 && 0 <= b.minute < 100
    ensures FormatTime(a) == FormatTime(b) ==> a == b
  {
    FormatTimeShape(a);
    FormatTimeShape(b);
  }
}

/**
 * The first version of the date-picker component. It shows the month of `date` (on the 1st
 * when created, on today's day after `setToday`), draws the first row of the month with
 * `emptyDaysBefore` blank cells, and offers a ten-year window around `currentVisibleYear`.
 * Its date-format codec is in module `Codec`.
 */
module Legacy {
  import opened Wrappers
  import opened Calendar
  import opened JsText
  import opened Codec
  import Service
  import Picker

  /**
   * The number of blank cells before the 1st in a row that starts on Monday, computed as the
   * first version does, from the shown date's day `d` and week day `w` as `7 - (d - w) % 7`
   * (7 meaning none), but with a floored remainder.
   */
  function EmptyDays(date: Date): (n: int)
    requires date.Valid()
    ensures 0 <= n < 7
    ensures n == (WeekDay(Date(date.year, date.month, 1)) + 6) % 7
    ensures WeekDay(MakeDate(date.year, date.month, 1 - n)) == 1
  {
    EmptyDaysMonday(date);
    var e := 7 - (date.day - WeekDay(date)) % 7;
    if e == 7 then 0 else e
  }

  lemma EmptyDaysMonday(date: Date)
    requires date.Valid()
    ensures var e := 7 - (date.day - WeekDay(date)) % 7;
            var n := if e == 7 then 0 else e;
            && n == (WeekDay(Date(date.year, date.month, 1)) + 6) % 7
            && WeekDay(MakeDate(date.year, date.month, 1 - n)) == 1
  {
    var y, m, ms := date.year, date.month, MonthStart(date.year, date.month);
    assert WeekDay(date) == (ms + date.day + 3) % 7;
    assert WeekDay(Date(y, m, 1)) == (ms + 4) % 7;
    EmptyDaysArithmetic(ms, date.day, WeekDay(date));
    var e := 7 - (date.day - WeekDay(date)) % 7;
    var n := if e == 7 then 0 else e;
    MakeDateInMonth(y, m, 1 - n);
  }

  /** The modular arithmetic behind `EmptyDaysMonday`, for a month starting on day number `ms`. */
  lemma EmptyDaysArithmetic(ms: int, day: int, w: int)
    requires w == (ms + day + 3) % 7
    ensures var e := 7 - (day - w) % 7;
            var n := if e == 7 then 0 else e;
            && n == ((ms + 4) % 7 + 6) % 7
            && (ms - n + 4) % 7 == 1
  {
    var t := ms + 3;
    var a, b := t / 7, t % 7;
    assert t == 7 * a + b;
    var q := (t + day) / 7;
    assert t + day == 7 * q + w;
    if b == 0 {
      assert day - w == 7 * (q - a);
      assert ms + 4 == 7 * a + 1;
    } else {
      assert day - w == 7 * (q - a - 1) + (7 - b);
      assert ms + 4 == 7 * a + (b + 1);
      assert ms - b + 4 == 7 * a + 1;
    }
  }

  /**
   * The new grid's leading count is the first version's blank cells, except that a month
   * starting on Monday is preceded by a whole week instead of none.
   */
  lemma LeadingCountMatchesEmptyDays(date: Date)
    requires date.Valid()
    ensures Service.LeadingCount(WeekDay(Date(date.year, date.month, 1)))
            == if EmptyDays(date) == 0 then 7 else EmptyDays(date)
  {
  }

  /**
   * What `setMonth(month)` does to a shown date that need not be on the 1st: the same single
   * step into the year before or after as the new component, but the day is kept, so a day
   * past the end of the target month rolls over into the month after it.
   */
  function LegacyMonthStep(d: Date, month: int): (r: Date)
    requires d.Valid()
    ensures r.Valid()
    ensures month < 0 ==> r == Date(d.year - 1, 11, d.day)
    ensures month > 11 ==> r == Date(d.year + 1, 0, d.day)
    ensures 0 <= month <= 11 && d.day <= DaysInMonth(d.year, month) ==> r == Date(d.year, month, d.day)
    ensures 0 <= month <= 11 && d.day > DaysInMonth(d.year, month)
            ==> r == Date(d.year, month + 1, d.day - DaysInMonth(d.year, month))
  {
    if month < 0 then d.SetMonth(11).SetFullYear(d.year - 1)
    else if month > 11 then d.SetMonth(0).SetFullYear(d.year + 1)
    else
      assert d.day > DaysInMonth(d.year, month) ==> month < 11 && d.day - DaysInMonth(d.year, month) <= 3;
      assert d.day > DaysInMonth(d.year, month)
             ==> MakeDate(d.year, month, d.day) == Carry(d.year, month + 1, d.day - DaysInMonth(d.year, month));
      d.SetMonth(month)
  }

  /** On a shown date on the 1st, both versions move the month alike. */
  lemma LegacyMonthStepOnFirst(d: Date, month: int)
    requires Picker.IsMonthCursor(d)
    ensures LegacyMonthStep(d, month) == Picker.MonthStep(d, month)
  {
  }

  /** A run of consecutive numbers from `lo` holds exactly the numbers of its range. */
  lemma ConsecutiveRun(r: seq<int>, lo: int)
    requires forall i :: 0 <= i < |r| ==> r[i] == lo + i
    ensures forall x :: x in r <==> lo <= x < lo + |r|
  {
    forall x | lo <= x < lo + |r|
      ensures x in r
    {
      assert r[x - lo] == x;
    }
  }

  class LegacyDatepicker {
    const format: string
    const today: Date

    /** The shown month; its day is 1 until `setToday` copies today's date into it. */
    var date: Date
    var selectedDate: Option<Date>
    var currentVisibleYear: int

    predicate Valid()
      reads this
    {
      date.Valid() && today.Valid() && (selectedDate.Some? ==> selectedDate.value.Valid())
    }

    /** A new picker shows the month of `today`, on the 1st, with nothing selected. */
    constructor (format: string, today: Date)
      requires today.Valid()
      ensures Valid()
      ensures this.format == format && this.today == today
      ensures date == Date(FullYear(today.year), today.month, 1)
      ensures selectedDate.None? && currentVisibleYear == date.year
    {
      this.format := format;
      this.today := today;
      date := NewDate(today.year, today.month, 1);
      selectedDate := None;
      currentVisibleYear := FullYear(today.year);
    }

    /** `visibleYears`: ten consecutive years, six before `currentVisibleYear` and three after it. */
    function VisibleYears(): (r: seq<int>)
      reads this
      ensures |r| == 10 && r[0] == currentVisibleYear - 6 && r[9] == currentVisibleYear + 3
      ensures forall i :: 0 <= i < 9 ==> r[i + 1] == r[i] + 1
      ensures forall x :: x in r <==> currentVisibleYear - 6 <= x <= currentVisibleYear + 3
    {
      var c := currentVisibleYear;
      var r := seq(10, i => c - 6 + i);
      ConsecutiveRun(r, c - 6);
      r
    }

    /** `daysInMonth`: the length of the shown month. */
    function MonthLength(): (n: int)
      reads this
      requires Valid()
      ensures n == DaysInMonth(FullYear(date.year), date.month)
    {
      LastDayOfMonth(date.year, date.month)
    }

    /**
     * `emptyDaysBefore` as written, with JavaScript's `%`: it agrees with `EmptyDays` unless
     * the shown day is smaller than its week day and the difference is not a multiple of 7;
     * then it is a week too many.
     */
    function EmptyDaysBefore(): (n: int)
      reads this
      requires Valid()
      ensures n == if date.day >= WeekDay(date) || (date.day - WeekDay(date)) % 7 == 0
                   then EmptyDays(date) else EmptyDays(date) + 7
    {
      var e := 7 - Rem7(date.day - WeekDay(date));
      if e == 7 then 0 else e
    }

    /** `isDaySelected(dayIndex)`: whether day `dayIndex` of the shown month is the selection. */
    function IsDaySelected(dayIndex: int): (r: bool)
      reads this
      ensures r <==> selectedDate == Some(Date(date.year, date.month, dayIndex))
    {
      if selectedDate.None? then false
      else
        var s := selectedDate.value;
        date.month == s.month && date.year == s.year && dayIndex == s.day
    }

    /** `isToday(dayIndex)`: whether day `dayIndex` of the shown month is today. */
    function IsToday(dayIndex: int): (r: bool)
      reads this
      ensures r <==> today == Date(date.year, date.month, dayIndex)
    {
      date.month == today.month && date.year == today.year && dayIndex == today.day
    }

    /** `setYear(year)`: the shown date moves to `year`; 29 February becomes 1 March in a common year. */
    method SetYear(year: int)
      requires Valid()
      modifies this
      ensures Valid()
      ensures old(date).day <= DaysInMonth(year, old(date).month) ==> date == Date(year, old(date).month, old(date).day)
      ensures old(date).day > DaysInMonth(year, old(date).month) ==> date == Date(year, 2, 1)
      ensures selectedDate == old(selectedDate) && currentVisibleYear == old(currentVisibleYear)
    {
      if date.day > DaysInMonth(year, date.month) {
        assert date.SetFullYear(year) == Carry(year, 2, 1);
      }
      date := date.SetFullYear(year);
    }

    /** `setMonth(month)`. */
    method SetMonth(month: int)
      requires Valid()
      modifies this
      ensures Valid()
      ensures date == LegacyMonthStep(old(date), month)
      ensures selectedDate == old(selectedDate) && currentVisibleYear == old(currentVisibleYear)
    {
      if month < 0 {
        date := date.SetMonth(11);
        SetYear(date.year - 1);
      } else if month > 11 {
        date := date.SetMonth(0);
        SetYear(date.year + 1);
      } else {
        date := date.SetMonth(month);
      }
    }

    /** `selectDate(day)`: selects day `day` of the shown month and returns the event reporting it. */
    method SelectDate(day: int) returns (ev: Picker.SelectEvent)
      requires Valid()
      modifies this
      ensures Valid()
      ensures selectedDate == Some(NewDate(date.year, date.month, day))
      ensures !(0 <= date.year <= 99) && 1 <= day <= DaysInMonth(date.year, date.month)
              ==> selectedDate == Some(Date(date.year, date.month, day))
      ensures ev == Picker.SelectEvent(selectedDate.value, DateToFormat(selectedDate, format))
      ensures date == old(date) && currentVisibleYear == old(currentVisibleYear)
    {
      selectedDate := Some(NewDate(date.year, date.month, day));
      ev := Picker.SelectEvent(selectedDate.value, DateToFormat(selectedDate, format));
    }

    /** `setToday()`: shows and selects today, keeping today's day in the shown date. */
    method SetToday()
      requires Valid()
      modifies this
      ensures Valid()
      ensures date == today && selectedDate == Some(today)
      ensures currentVisibleYear == old(currentVisibleYear)
    {
      date := today;
      selectedDate := Some(today);
    }

    /** `onScroll(event)`: the month after (scrolling down) or before the shown one. */
    method OnScroll(deltaY: int)
      requires Valid()
      modifies this
      ensures Valid()
      ensures date == LegacyMonthStep(old(date), old(date).month + (if deltaY >= 0 then 1 else -1))
      ensures selectedDate == old(selectedDate) && currentVisibleYear == old(currentVisibleYear)
    {
      if deltaY >= 0 {
        SetMonth(date.month + 1);
      } else {
        SetMonth(date.month - 1);
      }
    }

    /** `onYearScroll(event)`: the year window moves by five years. */
    method OnYearScroll(deltaY: int)
      modifies this
      ensures currentVisibleYear == old(currentVisibleYear) + (if deltaY >= 0 then 5 else -5)
      ensures date == old(date) && selectedDate == old(selectedDate)
    {
      currentVisibleYear := currentVisibleYear + (if deltaY >= 0 then 5 else -5);
    }

    /** `showYearSelect()`: the year window is centred on the shown year. */
    method ShowYearSelect()
      modifies this
      ensures currentVisibleYear == date.year
      ensures date == old(date) && selectedDate == old(selectedDate)
    {
      currentVisibleYear := date.year;
    }

    /** `incrementVisibleYearByValue(value)`. */
    method IncrementVisibleYearByValue(v: int)
      modifies this
      ensures currentVisibleYear == old(currentVisibleYear) + v
      ensures date == old(date) && selectedDate == old(selectedDate)
    {
      currentVisibleYear := currentVisibleYear + v;
    }
  }

  /**
   * The first row of October 2024 (which starts on a Tuesday) is drawn with 8 blank cells
   * instead of 1 while the shown date is 1 October.
   */
  lemma EmptyDaysBeforeOverCounts(p: LegacyDatepicker)
    requires p.Valid() && p.date == Date(2024, 9, 1)
    ensures p.EmptyDaysBefore() == 8
    ensures EmptyDays(p.date) == 1
  {
    OctoberFirst2024();
  }

  lemma OctoberFirst2024()
    ensures WeekDay(Date(2024, 9, 1)) == 2
  {
    assert DayFromYear(2024) == 19723;
    assert DaysBeforeMonth(2024, 9) == 274;
  }

  /**
   * After `setToday` on 31 January 2025, one scroll down shows 3 March: the kept day 31 does
   * not exist in February and rolls over, so February is skipped.
   */
  lemma ScrollAfterSetTodaySkipsMonth(d: Date)
    requires d == Date(2025, 0, 31)
    ensures LegacyMonthStep(d, d.month + 1) == Date(2025, 2, 3)
    ensures Picker.MonthIndex(LegacyMonthStep(d, d.month + 1)) == Picker.MonthIndex(d) + 2
  {
  }
}

/**
 * The date picker's day-grid service: for a displayed month it lists the trailing days of the
 * previous month that pad the first row back to a Monday, the days of the month itself, each
 * flagged as selectable or not by the optional bounds `dateFrom`/`dateTo`, and the leading days
 * of the next month that fill the grid to six weeks.
 */
module Service {
  import opened Wrappers
  import opened Calendar

  /** One cell of the current month: its day number and whether it may be picked. */
  datatype DayCell = DayCell(day: int, active: bool)

  /** `a` comes strictly before `b` in (year, month, day) order. */
  predicate Before(a: Date, b: Date)
  {
    a.year < b.year
    || (a.year == b.year && a.month < b.month)
    || (a.year == b.year && a.month == b.month && a.day < b.day)
  }

  /**
   * `emptyDaysLength` for a month whose first day has week day `w` (0 = Sunday): `w - 1`, except
   * that a Sunday start gives 6 and a Monday start a whole week of 7. It is the number of days
   * to step back from the 1st to reach a Monday, never 0.
   */
  function LeadingCount(w: int): (n: int)
    requires 0 <= w < 7
    ensures 1 <= n <= 7
    ensures (w - n) % 7 == 1
  {
    var n := w - 1;
    var n := if n < 0 then 6 else n;
    if n == 0 then 7 else n
  }

  /** The year and month before month `m` of year `y`. */
  function PrevMonthOf(y: int, m: int): (r: (int, int))
    requires 0 <= m < 12
    ensures 0 <= r.1 < 12
    ensures 12 * r.0 + r.1 == 12 * y + m - 1
  {
    if m == 0 then (y - 1, 11) else (y, m - 1)
  }

  /** The year and month after month `m` of year `y`. */
  function NextMonthOf(y: int, m: int): (r: (int, int))
    requires 0 <= m < 12
    ensures 0 <= r.1 < 12
    ensures 12 * r.0 + r.1 == 12 * y + m + 1
  {
    if m == 11 then (y + 1, 0) else (y, m + 1)
  }

  /** The day grid has `weeksToShow` rows of seven days. */
  const WeeksToShow: int := 6

  class DatepickerService {
    const weeksToShow: int := WeeksToShow
    /** The optional first and last selectable dates. */
    const dateFrom: Option<Date>
    const dateTo: Option<Date>

    constructor (from: Option<Date>, to: Option<Date>)
      ensures dateFrom == from && dateTo == to
    {
      dateFrom := from;
      dateTo := to;
    }

    /** `getDaysInMonth(date)`: day 0 of the next month is the last day of this one. */
    function GetDaysInMonth(date: Date): (n: int)
      requires 0 <= date.month < 12
      ensures n == DaysInMonth(FullYear(date.year), date.month)
      ensures 28 <= n <= 31
    {
      LastDayOfMonth(date.year, date.month)
    }

    /** `normalizeDate(date)`: a copy of `date` moved to the first of its month. */
    function NormalizeDate(date: Date): (r: Date)
      requires date.Valid()
      ensures r.year == date.year && r.month == date.month && r.day == 1
    {
      date.SetDate(1)
    }

    /**
     * `isDayAvailable(date, dayIndex)`: day `dayIndex` of the month of `date` is selectable
     * exactly when it is neither before `dateFrom` nor after `dateTo`; a missing bound never
     * rejects a day.
     */
    function IsDayAvailable(date: Date, dayIndex: int): (r: bool)
      ensures r <==> !(dateFrom.Some? && Before(Date(date.year, date.month, dayIndex), dateFrom.value))
                     && !(dateTo.Some? && Before(dateTo.value, Date(date.year, date.month, dayIndex)))
    {
      if dateFrom.Some? && date.year < dateFrom.value.year then false
      else if dateFrom.Some? && date.year == dateFrom.value.year && date.month < dateFrom.value.month then false
      else if dateFrom.Some? && date.year == dateFrom.value.year && date.month == dateFrom.value.month
              && dayIndex < dateFrom.value.day then false
      else if dateTo.Some? && date.year > dateTo.value.year then false
      else if dateTo.Some? && date.year == dateTo.value.year && date.month > dateTo.value.month then false
      else if dateTo.Some? && date.year == dateTo.value.year && date.month == dateTo.value.month
              && dayIndex > dateTo.value.day then false
      else true
    }

    /** The number of days of the previous month shown before the 1st of the month of `date`. */
    function LeadingDays(date: Date): (n: int)
      requires date.Valid()
      ensures 1 <= n <= 7
    {
      LeadingCount(WeekDay(NormalizeDate(date)))
    }

    /** `days` lists every day of the month of `date`, in order, each with its availability. */
    predicate IsCurrentDays(date: Date, days: seq<DayCell>)
      requires 0 <= date.month < 12
    {
      && |days| == GetDaysInMonth(date)
      && forall k :: 0 <= k < |days| ==> days[k] == DayCell(k + 1, IsDayAvailable(date, k + 1))
    }

    /** `days` lists the last `LeadingDays(date)` days of the previous month, ascending. */
    predicate IsDaysBefore(date: Date, days: seq<int>)
      requires date.Valid()
    {
      var n := LeadingDays(date);
      var p := PrevMonthLength(date.year, date.month);
      && |days| == n
      && forall k :: 0 <= k < |days| ==> days[k] == p - n + 1 + k
    }

    /** `days` counts 1, 2, ... up to the number of cells left in the grid after `total` cells. */
    predicate IsDaysAfter(total: int, days: seq<int>)
    {
      && |days| == (if weeksToShow * 7 - total > 0 then weeksToShow * 7 - total else 0)
      && forall k :: 0 <= k < |days| ==> days[k] == k + 1
    }

    /** `getCurrentDays(date)`. */
    method GetCurrentDays(date: Date) returns (days: seq<DayCell>)
      requires 0 <= date.month < 12
      ensures IsCurrentDays(date, days)
    {
      var daysCount := GetDaysInMonth(date);
      days := [];
      var i := 1;
      while i <= daysCount
        invariant 1 <= i <= daysCount + 1
        invariant |days| == i - 1
        invariant forall k :: 0 <= k < |days| ==> days[k] == DayCell(k + 1, IsDayAvailable(date, k + 1))
      {
        days := days + [DayCell(i, IsDayAvailable(date, i))];
        i := i + 1;
      }
    }

    /** `getDaysBeforeCurrent(date)`. */
    method GetDaysBeforeCurrent(date: Date) returns (days: seq<int>)
      requires date.Valid()
      ensures IsDaysBefore(date, days)
      ensures forall k :: 0 <= k < |days| ==> 1 <= days[k] <= PrevMonthLength(date.year, date.month)
    {
      var nDate := NormalizeDate(date);
      var emptyDaysLength := WeekDay(nDate) - 1;
      if emptyDaysLength < 0 {
        emptyDaysLength := 6;
      }
      if emptyDaysLength == 0 {
        emptyDaysLength := 7;
      }
      assert emptyDaysLength == LeadingDays(date);
      var prevMonthDaysCount := PrevMonthLength(nDate.year, nDate.month);
      days := [];
      var i := prevMonthDaysCount - emptyDaysLength + 1;
      while i <= prevMonthDaysCount
        invariant prevMonthDaysCount - emptyDaysLength + 1 <= i <= prevMonthDaysCount + 1
        invariant |days| == i - (prevMonthDaysCount - emptyDaysLength + 1)
        invariant forall k :: 0 <= k < |days| ==> days[k] == prevMonthDaysCount - emptyDaysLength + 1 + k
      {
        days := days + [i];
        i := i + 1;
      }
    }

    /** `getDaysAfterCurrent(totalCountBefore)`. */
    method GetDaysAfterCurrent(totalCountBefore: int) returns (days: seq<int>)
      ensures IsDaysAfter(totalCountBefore, days)
    {
      var countAfter := weeksToShow * 7 - totalCountBefore;
      days := [];
      var i := 1;
      while i <= countAfter
        invariant 1 <= i <= (if countAfter >= 0 then countAfter + 1 else 1)
        invariant |days| == i - 1
        invariant forall k :: 0 <= k < |days| ==> days[k] == k + 1
      {
        days := days + [i];
        i := i + 1;
      }
    }

    /** The calendar day shown in cell `k` of the grid for the month of `date` (cell 0 is the top left). */
    function GridCell(date: Date, k: int): (r: Date)
      requires date.Valid()
      ensures r.Valid()
    {
      MakeDate(date.year, date.month, k + 1 - LeadingDays(date))
    }

    /** The leading days are the last days of the previous month, and they start the grid. */
    lemma LeadingCellsArePreviousMonth(date: Date, days: seq<int>, k: int)
      requires date.Valid() && !(0 <= date.year <= 99)
      requires IsDaysBefore(date, days) && 0 <= k < |days|
      ensures GridCell(date, k)
              == Date(PrevMonthOf(date.year, date.month).0, PrevMonthOf(date.year, date.month).1, days[k])
    {
      var y, m, n := date.year, date.month, LeadingDays(date);
      assert GridCell(date, k) == Carry(y, m, k + 1 - n);
      if m == 0 {
        assert Carry(y, m, k + 1 - n) == Carry(y - 1, 11, k + 1 - n + 31);
      } else {
        assert Carry(y, m, k + 1 - n) == Carry(y, m - 1, k + 1 - n + DaysInMonth(y, m - 1));
      }
    }

    /** After the leading days come the days of the month itself, day `k + 1` in cell `n + k`. */
    lemma CurrentCellsAreThisMonth(date: Date, days: seq<DayCell>, k: int)
      requires date.Valid() && !(0 <= date.year <= 99)
      requires IsCurrentDays(date, days) && 0 <= k < |days|
      ensures GridCell(date, LeadingDays(date) + k) == Date(date.year, date.month, days[k].day)
    {
    }

    /** The trailing days are the first days of the next month. */
    lemma TrailingCellsAreNextMonth(date: Date, before: seq<int>, current: seq<DayCell>, after: seq<int>, k: int)
      requires date.Valid() && !(0 <= date.year <= 99)
      requires IsDaysBefore(date, before) && IsCurrentDays(date, current)
      requires IsDaysAfter(|current| + |before|, after) && 0 <= k < |after|
      ensures GridCell(date, |before| + |current| + k)
              == Date(NextMonthOf(date.year, date.month).0, NextMonthOf(date.year, date.month).1, after[k])
    {
      var y, m, d := date.year, date.month, |current|;
      assert GridCell(date, |before| + |current| + k) == Carry(y, m, d + k + 1);
      if m == 11 {
        assert Carry(y, m, d + k + 1) == Carry(y + 1, 0, k + 1);
      } else {
        assert Carry(y, m, d + k + 1) == Carry(y, m + 1, k + 1);
      }
    }

    /** The three lists fill exactly six weeks: 42 cells. */
    lemma GridHasSixWeeks(date: Date, before: seq<int>, current: seq<DayCell>, after: seq<int>)
      requires date.Valid()
      requires IsDaysBefore(date, before) && IsCurrentDays(date, current)
      requires IsDaysAfter(|current| + |before|, after)
      ensures |before| + |current| + |after| == 42
      ensures |after| >= 4
    {
    }

    /** The grid starts on a Monday. */
    lemma GridStartsOnMonday(date: Date)
      requires date.Valid()
      ensures WeekDay(GridCell(date, 0)) == 1
    {
      var y, m, n := date.year, date.month, LeadingDays(date);
      MakeDateInMonth(y, m, 1 - n);
      assert DayNumber(GridCell(date, 0)) == MonthStart(y, m) - n;
      assert WeekDay(NormalizeDate(date)) == (MonthStart(y, m) + 4) % 7;
      ShiftMod7(MonthStart(y, m) + 4, n);
    }

    /** Neighbouring cells hold neighbouring days: the grid is an unbroken run of calendar days. */
    lemma GridIsConsecutive(date: Date, k: int)
      requires date.Valid()
      ensures DayNumber(GridCell(date, k + 1)) == DayNumber(GridCell(date, k)) + 1
    {
      var y, m, n := date.year, date.month, LeadingDays(date);
      MakeDateInMonth(y, m, k + 1 - n);
      MakeDateInMonth(y, m, k + 2 - n);
    }
  }
}

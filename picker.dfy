/**
 * The date-picker component: it shows one month (`date`, always on the 1st), remembers the
 * picked day (`selectedDate`) and the centre of the year selector (`currentVisibleYear`), and
 * keeps the three day lists of the grid in step with the shown month. Scrolling and the month
 * and year selectors move the shown month; picking a day reports it with its text form.
 */
module Picker {
  import opened Wrappers
  import opened Calendar
  import opened JsText
  import opened Codec
  import opened Service

  /** The precision of the picker, chosen from the pattern: day, month or year. */
  datatype PickerType = Day | Month | Year

  /** What `onSelect` emits: the picked date and its text in the picker's pattern. */
  datatype SelectEvent = SelectEvent(date: Date, text: string)

  /**
   * The picker type for a pattern: `Day` when it holds "dd", otherwise `Month` when it holds
   * "mm", otherwise `Year`.
   */
  function DetectType(format: string): (t: PickerType)
    ensures t == Day <==> exists j :: 0 <= j <= |format| && OccursAt(format, "dd", j)
    ensures t == Month <==> (forall j :: 0 <= j <= |format| ==> !OccursAt(format, "dd", j))
                            && exists j :: 0 <= j <= |format| && OccursAt(format, "mm", j)
  {
    if IndexOf(format, "dd") >= 0 then Day
    else if IndexOf(format, "mm") >= 0 then Month
    else Year
  }

  /** A parser result as the component uses it: an Invalid Date counts as no date. */
  function AsDate(t: Option<TimeValue>): (r: Option<Date>)
    ensures r.Some? <==> t.Some? && t.value.Finite?
    ensures r.Some? ==> r.value == t.value.date
  {
    if t.Some? && t.value.Finite? then Some(t.value.date) else None
  }

  /** A month shown by the picker: a calendar date on the 1st. */
  predicate IsMonthCursor(d: Date)
  {
    d.Valid() && d.day == 1
  }

  /** The position of the month of `d` on the line of all months. */
  function MonthIndex(d: Date): int
  {
    12 * d.year + d.month
  }

  /**
   * What `setMonth(month)` does to the shown month: a negative month goes to December of the
   * year before, a month past 11 to January of the year after (a single step, however far
   * `month` is out of range), and any other month is shown in the same year.
   */
  function MonthStep(d: Date, month: int): (r: Date)
    requires IsMonthCursor(d)
    ensures IsMonthCursor(r)
    ensures month < 0 ==> r == Date(d.year - 1, 11, 1)
    ensures month > 11 ==> r == Date(d.year + 1, 0, 1)
    ensures 0 <= month <= 11 ==> r == Date(d.year, month, 1)
  {
    if month < 0 then d.SetMonth(11).SetFullYear(d.year - 1)
    else if month > 11 then d.SetMonth(0).SetFullYear(d.year + 1)
    else d.SetMonth(month)
  }

  /** One scroll step: the next month when scrolling down, the previous one otherwise. */
  function ScrollStep(d: Date, forward: bool): (r: Date)
    requires IsMonthCursor(d)
    ensures IsMonthCursor(r)
  {
    MonthStep(d, if forward then d.month + 1 else d.month - 1)
  }

  /** `n` forward scroll steps. */
  function ScrollForward(d: Date, n: nat): (r: Date)
    requires IsMonthCursor(d)
    ensures IsMonthCursor(r)
    decreases n
  {
    if n == 0 then d else ScrollStep(ScrollForward(d, n - 1), true)
  }

  /**
   * A scroll step moves exactly one month, across a year boundary too, and lands where the
   * `Date` rollover of month `m + 1` (or `m - 1`) would.
   */
  lemma ScrollMovesOneMonth(d: Date, forward: bool)
    requires IsMonthCursor(d)
    ensures MonthIndex(ScrollStep(d, forward)) == MonthIndex(d) + (if forward then 1 else -1)
    ensures ScrollStep(d, forward) == MakeDate(d.year, d.month + (if forward then 1 else -1), 1)
  {
    var m := d.month + (if forward then 1 else -1);
    if m == 12 {
      assert MakeDate(d.year, m, 1) == Carry(d.year + 1, 0, 1);
    } else if m == -1 {
      assert MakeDate(d.year, m, 1) == Carry(d.year - 1, 11, 1);
    } else {
      assert MakeDate(d.year, m, 1) == Carry(d.year, m, 1);
    }
  }

  /** `n` forward steps advance the shown month by `n`. */
  lemma {:induction false} ScrollForwardMonths(d: Date, n: nat)
    requires IsMonthCursor(d)
    ensures MonthIndex(ScrollForward(d, n)) == MonthIndex(d) + n
    decreases n
  {
    if n > 0 {
      ScrollForwardMonths(d, n - 1);
      ScrollMovesOneMonth(ScrollForward(d, n - 1), true);
    }
  }

  /** Twelve forward steps show the same month one year later. */
  lemma TwelveStepsIsOneYear(d: Date)
    requires IsMonthCursor(d)
    ensures ScrollForward(d, 12) == Date(d.year + 1, d.month, 1)
  {
    ScrollForwardMonths(d, 12);
    OneYearLater(ScrollForward(d, 12), d);
  }

  /** The month twelve places later on the month line is the same month of the next year. */
  lemma OneYearLater(r: Date, d: Date)
    requires IsMonthCursor(r) && IsMonthCursor(d) && MonthIndex(r) == MonthIndex(d) + 12
    ensures r == Date(d.year + 1, d.month, 1)
  {
    assert 12 * (r.year - d.year - 1) == d.month - r.month;
    assert -12 < d.month - r.month < 12;
  }

  /** Scrolling forward and then back shows the month shown before. */
  lemma ScrollBackUndoesForward(d: Date)
    requires IsMonthCursor(d)
    ensures ScrollStep(ScrollStep(d, true), false) == d
  {
  }

  class DatepickerComponent {
    /** The inputs: the pattern, the bounds as text and the initial value as text. */
    const format: string
    const startAt: Option<string>
    const endWith: Option<string>
    const value: Option<string>
    /** The day the component was created on. */
    const today: Date
    const dateService: DatepickerService

    var pickerType: PickerType
    var dateFrom: Option<Date>
    var dateTo: Option<Date>
    /** The shown month, on its 1st. */
    var date: Date
    var selectedDate: Option<Date>
    var currentVisibleYear: int
    var currentDaysList: seq<DayCell>
    var prevDaysList: seq<int>
    var nextDaysList: seq<int>
    /** The window size handed to the year selector by `ngOnInit`. */
    var yearsToShow: Option<int>

    predicate Valid()
      reads this
    {
      IsMonthCursor(date) && today.Valid()
    }

    /** The three day lists are the service's lists for the shown month. */
    predicate DaysListed()
      reads this
      requires Valid()
    {
      && dateService.IsCurrentDays(date, currentDaysList)
      && dateService.IsDaysBefore(date, prevDaysList)
      && dateService.IsDaysAfter(|currentDaysList| + |prevDaysList|, nextDaysList)
    }

    /** A new picker shows the month of `today`, with nothing selected. */
    constructor (format: string, startAt: Option<string>, endWith: Option<string>, value: Option<string>,
                 today: Date, dateService: DatepickerService)
      requires today.Valid()
      ensures Valid()
      ensures this.format == format && this.startAt == startAt && this.endWith == endWith
      ensures this.value == value && this.today == today && this.dateService == dateService
      ensures date == Date(FullYear(today.year), today.month, 1)
      ensures currentVisibleYear == date.year
      ensures pickerType == Day && selectedDate.None? && dateFrom.None? && dateTo.None? && yearsToShow.None?
      ensures currentDaysList == [] && prevDaysList == [] && nextDaysList == []
    {
      this.format := format;
      this.startAt := startAt;
      this.endWith := endWith;
      this.value := value;
      this.today := today;
      this.dateService := dateService;
      pickerType := Day;
      dateFrom := None;
      dateTo := None;
      date := NewDate(today.year, today.month, 1);
      selectedDate := None;
      currentVisibleYear := FullYear(today.year);
      currentDaysList := [];
      prevDaysList := [];
      nextDaysList := [];
      yearsToShow := None;
    }

    /** `updateDays()`: rebuilds the three day lists for the shown month; together they hold 42 days. */
    method UpdateDays()
      requires Valid()
      modifies this
      ensures Valid() && DaysListed()
      ensures |prevDaysList| + |currentDaysList| + |nextDaysList| == 42
      ensures date == old(date) && selectedDate == old(selectedDate)
      ensures currentVisibleYear == old(currentVisibleYear) && pickerType == old(pickerType)
      ensures dateFrom == old(dateFrom) && dateTo == old(dateTo) && yearsToShow == old(yearsToShow)
    {
      currentDaysList := dateService.GetCurrentDays(date);
      prevDaysList := dateService.GetDaysBeforeCurrent(date);
      nextDaysList := dateService.GetDaysAfterCurrent(|currentDaysList| + |prevDaysList|);
      dateService.GridHasSixWeeks(date, prevDaysList, currentDaysList, nextDaysList);
    }

    /** `setYear(year)`: the shown month moves to `year`. */
    method SetYear(year: int)
      requires Valid()
      modifies this
      ensures Valid() && DaysListed()
      ensures date == Date(year, old(date).month, 1)
      ensures selectedDate == old(selectedDate) && currentVisibleYear == old(currentVisibleYear)
      ensures pickerType == old(pickerType) && dateFrom == old(dateFrom) && dateTo == old(dateTo)
      ensures yearsToShow == old(yearsToShow)
    {
      date := date.SetFullYear(year);
      UpdateDays();
    }

    /** `setMonth(month)`. */
    method SetMonth(month: int)
      requires Valid()
      modifies this
      ensures Valid() && DaysListed()
      ensures date == MonthStep(old(date), month)
      ensures selectedDate == old(selectedDate) && currentVisibleYear == old(currentVisibleYear)
      ensures pickerType == old(pickerType) && dateFrom == old(dateFrom) && dateTo == old(dateTo)
      ensures yearsToShow == old(yearsToShow)
    {
      if month < 0 {
        date := date.SetMonth(11);
        SetYear(date.year - 1);
      } else if month > 11 {
        date := date.SetMonth(0);
        SetYear(date.year + 1);
      } else {
        date := date.SetMonth(month);
        UpdateDays();
      }
    }

    /**
     * `selectDate(day)`: selects day `day` of the shown month (rolled over like `new Date`)
     * and returns the event reporting it with its text.
     */
    method SelectDate(day: int) returns (ev: SelectEvent)
      requires Valid()
      modifies this
      ensures Valid() && DaysListed()
      ensures selectedDate == Some(NewDate(old(date).year, old(date).month, day))
      ensures ev == SelectEvent(selectedDate.value, DateToFormat(selectedDate, format))
      ensures !(0 <= date.year <= 99) && 1 <= day <= DaysInMonth(date.year, date.month)
              ==> selectedDate == Some(Date(date.year, date.month, day))
      ensures date == old(date) && currentVisibleYear == old(currentVisibleYear)
      ensures pickerType == old(pickerType) && dateFrom == old(dateFrom) && dateTo == old(dateTo)
      ensures yearsToShow == old(yearsToShow)
    {
      selectedDate := Some(NewDate(date.year, date.month, day));
      UpdateDays();
      ev := SelectEvent(selectedDate.value, DateToFormat(selectedDate, format));
    }

    /** `selectMonth(monthIndex)`: shows the month and selects its 1st. */
    method SelectMonth(monthIndex: int) returns (ev: SelectEvent)
      requires Valid()
      modifies this
      ensures Valid() && DaysListed()
      ensures date == MonthStep(old(date), monthIndex)
      ensures selectedDate == Some(NewDate(date.year, date.month, 1))
      ensures 0 <= monthIndex <= 11 && !(0 <= old(date).year <= 99)
              ==> selectedDate == Some(Date(old(date).year, monthIndex, 1))
      ensures ev == SelectEvent(selectedDate.value, DateToFormat(selectedDate, format))
      ensures currentVisibleYear == old(currentVisibleYear)
      ensures pickerType == old(pickerType) && dateFrom == old(dateFrom) && dateTo == old(dateTo)
      ensures yearsToShow == old(yearsToShow)
    {
      SetMonth(monthIndex);
      ev := SelectDate(1);
    }

    /** `selectYear(year)`: shows January of `year` and selects 1 January. */
    method SelectYear(year: int) returns (ev: SelectEvent)
      requires Valid()
      modifies this
      ensures Valid() && DaysListed()
      ensures date == Date(year, 0, 1)
      ensures selectedDate == Some(NewDate(year, 0, 1))
      ensures !(0 <= year <= 99) ==> selectedDate == Some(Date(year, 0, 1))
      ensures ev == SelectEvent(selectedDate.value, DateToFormat(selectedDate, format))
      ensures currentVisibleYear == old(currentVisibleYear)
      ensures pickerType == old(pickerType) && dateFrom == old(dateFrom) && dateTo == old(dateTo)
      ensures yearsToShow == old(yearsToShow)
    {
      SetYear(year);
      SetMonth(0);
      ev := SelectDate(1);
    }

    /** `onScroll(event)`: scrolling down shows the next month, scrolling up the previous one. */
    method OnScroll(deltaY: int)
      requires Valid()
      modifies this
      ensures Valid() && DaysListed()
      ensures date == ScrollStep(old(date), deltaY >= 0)
      ensures MonthIndex(date) == MonthIndex(old(date)) + (if deltaY >= 0 then 1 else -1)
      ensures selectedDate == old(selectedDate) && currentVisibleYear == old(currentVisibleYear)
      ensures pickerType == old(pickerType) && dateFrom == old(dateFrom) && dateTo == old(dateTo)
      ensures yearsToShow == old(yearsToShow)
    {
      ScrollMovesOneMonth(date, deltaY >= 0);
      if deltaY >= 0 {
        SetMonth(date.month + 1);
      } else {
        SetMonth(date.month - 1);
      }
    }

    /** `onYearScroll(event)`: the year selector moves by six years. */
    method OnYearScroll(deltaY: int)
      modifies this
      ensures currentVisibleYear == old(currentVisibleYear) + (if deltaY >= 0 then 6 else -6)
      ensures date == old(date) && selectedDate == old(selectedDate)
      ensures currentDaysList == old(currentDaysList) && prevDaysList == old(prevDaysList)
      ensures nextDaysList == old(nextDaysList) && pickerType == old(pickerType)
      ensures dateFrom == old(dateFrom) && dateTo == old(dateTo) && yearsToShow == old(yearsToShow)
    {
      currentVisibleYear := currentVisibleYear + (if deltaY >= 0 then 6 else -6);
    }

    /** `onMonthScroll(event)`: the shown month moves by one year, and the year selector with it. */
    method OnMonthScroll(deltaY: int)
      requires Valid()
      modifies this
      ensures Valid() && DaysListed()
      ensures date == Date(old(date).year + (if deltaY >= 0 then 1 else -1), old(date).month, 1)
      ensures currentVisibleYear == date.year
      ensures selectedDate == old(selectedDate)
      ensures pickerType == old(pickerType) && dateFrom == old(dateFrom) && dateTo == old(dateTo)
      ensures yearsToShow == old(yearsToShow)
    {
      var newYear := date.year + (if deltaY >= 0 then 1 else -1);
      currentVisibleYear := newYear;
      SetYear(newYear);
    }

    /** `showYearSelect()`: the year selector is centred on the shown year. */
    method ShowYearSelect()
      modifies this
      ensures currentVisibleYear == date.year
      ensures date == old(date) && selectedDate == old(selectedDate)
      ensures currentDaysList == old(currentDaysList) && prevDaysList == old(prevDaysList)
      ensures nextDaysList == old(nextDaysList) && pickerType == old(pickerType)
      ensures dateFrom == old(dateFrom) && dateTo == old(dateTo) && yearsToShow == old(yearsToShow)
    {
      currentVisibleYear := date.year;
    }

    /** `incrementVisibleYearByValue(value)`. */
    method IncrementVisibleYearByValue(v: int)
      modifies this
      ensures currentVisibleYear == old(currentVisibleYear) + v
      ensures date == old(date) && selectedDate == old(selectedDate)
      ensures currentDaysList == old(currentDaysList) && prevDaysList == old(prevDaysList)
      ensures nextDaysList == old(nextDaysList) && pickerType == old(pickerType)
      ensures dateFrom == old(dateFrom) && dateTo == old(dateTo) && yearsToShow == old(yearsToShow)
    {
      currentVisibleYear := currentVisibleYear + v;
    }

    /**
     * `updateDateFromValue(value)`: a text that does not give a date changes nothing; otherwise
     * the parsed date is selected, its month is shown and the year selector moves to its year.
     */
    method UpdateDateFromValue(text: Option<string>)
      requires Valid()
      modifies this
      ensures Valid()
      ensures var parsed := AsDate(ParseDate(text, format, today));
              if parsed.None? then
                date == old(date) && selectedDate == old(selectedDate)
                && currentVisibleYear == old(currentVisibleYear)
              else
                selectedDate == parsed && date == Date(parsed.value.year, parsed.value.month, 1)
                && currentVisibleYear == parsed.value.year
      ensures currentDaysList == old(currentDaysList) && prevDaysList == old(prevDaysList)
      ensures nextDaysList == old(nextDaysList) && pickerType == old(pickerType)
      ensures dateFrom == old(dateFrom) && dateTo == old(dateTo) && yearsToShow == old(yearsToShow)
    {
      var parsed := AsDate(ParseDate(text, format, today));
      if parsed.None? {
        return;
      }
      selectedDate := parsed;
      date := parsed.value.SetDate(1);
      currentVisibleYear := parsed.value.year;
    }

    /**
     * `ngOnInit()`: picks the picker type from the pattern, reads the bounds, tells the year
     * selector how many years to show, applies the initial value and builds the day lists.
     */
    method NgOnInit()
      requires Valid()
      modifies this
      ensures Valid() && DaysListed()
      ensures pickerType == DetectType(format)
      ensures yearsToShow == Some(if pickerType == Month then 7 else 9)
      ensures AsDate(ParseDate(startAt, format, today)).Some? ==> dateFrom == AsDate(ParseDate(startAt, format, today))
      ensures AsDate(ParseDate(startAt, format, today)).None? ==> dateFrom == old(dateFrom)
      ensures AsDate(ParseDate(endWith, format, today)).Some? ==> dateTo == AsDate(ParseDate(endWith, format, today))
      ensures AsDate(ParseDate(endWith, format, today)).None? ==> dateTo == old(dateTo)
      ensures var parsed := AsDate(ParseDate(value, format, today));
              if parsed.None? then
                date == old(date) && selectedDate == old(selectedDate)
                && currentVisibleYear == old(currentVisibleYear)
              else
                selectedDate == parsed && date == Date(parsed.value.year, parsed.value.month, 1)
                && currentVisibleYear == parsed.value.year
    {
      pickerType := DetectType(format);
      ReadBounds();
      yearsToShow := Some(if pickerType == Month then 7 else 9);
      UpdateDateFromValue(value);
      UpdateDays();
    }

    /** The bounds of `ngOnInit`: each one that parses replaces the current one. */
    method ReadBounds()
      requires Valid()
      modifies this
      ensures Valid()
      ensures AsDate(ParseDate(startAt, format, today)).Some? ==> dateFrom == AsDate(ParseDate(startAt, format, today))
      ensures AsDate(ParseDate(startAt, format, today)).None? ==> dateFrom == old(dateFrom)
      ensures AsDate(ParseDate(endWith, format, today)).Some? ==> dateTo == AsDate(ParseDate(endWith, format, today))
      ensures AsDate(ParseDate(endWith, format, today)).None? ==> dateTo == old(dateTo)
      ensures date == old(date) && selectedDate == old(selectedDate) && currentVisibleYear == old(currentVisibleYear)
      ensures currentDaysList == old(currentDaysList) && prevDaysList == old(prevDaysList)
      ensures nextDaysList == old(nextDaysList) && pickerType == old(pickerType) && yearsToShow == old(yearsToShow)
    {
      var from := AsDate(ParseDate(startAt, format, today));
      if from.Some? {
        dateFrom := from;
      }
      var to := AsDate(ParseDate(endWith, format, today));
      if to.Some? {
        dateTo := to;
      }
    }

    /** `setToday()`: shows the month of today, selects today and centres the year selector on it. */
    method SetToday() returns (ev: SelectEvent)
      requires Valid()
      modifies this
      ensures Valid() && DaysListed()
      ensures date == Date(today.year, today.month, 1)
      ensures selectedDate == Some(NewDate(today.year, today.month, today.day))
      ensures !(0 <= today.year <= 99) ==> selectedDate == Some(today)
      ensures currentVisibleYear == today.year
      ensures ev == SelectEvent(selectedDate.value, DateToFormat(selectedDate, format))
      ensures pickerType == old(pickerType) && dateFrom == old(dateFrom) && dateTo == old(dateTo)
      ensures yearsToShow == old(yearsToShow)
    {
      date := today.SetDate(1);
      ev := SelectDate(today.day);
      currentVisibleYear := today.year;
    }
  }
}

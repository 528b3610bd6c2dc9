# Date-picker engine of yii2-angular, in Dafny

This project models the calendar engine behind the Angular date picker of the yii2-angular
front end, and proves properties of the model. The engine has three parts:

- The day-grid service `DatepickerService` (module `Service`). For a shown month it lists:
  - the last days of the previous month that pad the first row back to a Monday;
  - the days of the month itself, each flagged selectable or not by the optional bounds;
  - the first days of the next month, filling a grid of six weeks.
- The date-picker component (module `Picker`, class `DatepickerComponent`). Its state is:
  - the shown month (`date`, always on the 1st);
  - the selection (`selectedDate`);
  - the centre of the year selector (`currentVisibleYear`);
  - the three day lists.

  It has commands to move the month, pick a day, month or year, jump to today, scroll, and
  read an initial value.
- The first version of the component (module `Legacy`, class `LegacyDatepicker`). Its
  date-format codec (`dateToFormat`, `stringToDate`) lives in module `Codec`.

Shared modules:
- `Calendar` is the date arithmetic of JavaScript's `Date` (ECMA-262 5.1, section 15.9.1):
  - `setDate`, `setMonth` and `setFullYear` roll over as MakeDay does (section 15.9.1.12);
  - `new Date(y, m, d)` maps years 0..99 to 1900..1999;
  - `getDay()` counts Sunday as 0 (section 15.9.1.6).
- `JsText` holds the string operations the codec uses:
  - `indexOf` (-1 when absent);
  - `substr` with a negative start;
  - `replace` with a string pattern, which replaces only the first match;
  - `'' + n`;
  - unary `+` on digit strings;
  - JavaScript's truncating `%`.

Dates are values (`Calendar.Date`). The source does hand some `Date` objects over without
copying them: the newer component passes `selectedDate` to the service and to the `onSelect`
event, stores a parsed bound in its `dateFrom`/`dateTo` records, and passes `date` to the
service; the first version emits `selectedDate` uncopied too. No receiver in the modelled code
mutates these objects (`normalizeDate` works on a copy), so treating dates as values loses
nothing here. Components whose fields change in place
are classes with `modifies this`. The loops of the service and of `stringToDate` are methods
with invariants, proved against specification predicates and functions:
- `IsCurrentDays`, `IsDaysBefore`, `IsDaysAfter` for the service loops;
- `ParseAsWritten` for `stringToDate`.

Behaviours of the code worth knowing before reading the model:
- `stringToDate` starts from the current date and sets all three fields. A token missing from
  the pattern is read from the end of the text (see Findings). Only the corrected
  `Codec.ParseDate` skips absent tokens. Neither checks the length of the text.
- The component's `setMonth` rolls a month outside 0..11 over by a single year step.
- In the newer service, a month that starts on a Monday gets a full first row of 7 days of the
  previous month. In the first version it gets no blank cells.

## Model

| member | source | states |
|---|---|---|
| Calendar.DaysInMonth | frontend/ang-app/src/app/modules/components/datepicker/datepicker.service.ts:91-93 | A month has 28 to 31 days; February has 29 exactly in leap years (divisible by 4, not by 100 unless by 400) |
| Calendar.Date.SetDate | frontend/ang-app/src/app/modules/components/datepicker/datepicker.service.ts:104 | `setDate(v)` always gives a calendar date; a day within the month is kept as is |
| Calendar.Date.SetMonth | frontend/ang-app/src/app/modules/components/datepicker/datepicker.component.ts:221-227 | `setMonth(v)` always gives a calendar date; an in-range month whose length admits the day keeps year and day |
| Calendar.Date.SetFullYear | frontend/ang-app/src/app/modules/components/datepicker/datepicker.component.ts:237 | `setFullYear(v)` always gives a calendar date; month and day are kept when the day exists in that year |
| Calendar.MakeDate | frontend/ang-app/src/app/modules/components/datepicker/datepicker.component.ts:246 | MakeDay rollover always lands on a calendar date and leaves in-range fields untouched |
| Calendar.NewDate | frontend/ang-app/src/app/modules/components/datepicker/datepicker.component.ts:246 | `new Date(y, m, d)` with years 0..99 read as 1900..1999; in-range fields give that very date |
| Calendar.FullYear | frontend/ang-app/src/app/modules/components/datepicker/datepicker.component.ts:43 | Years 0..99 stand for 1900..1999, other years for themselves |
| Calendar.LastDayOfMonth | frontend/ang-app/src/app/modules/components/datepicker/datepicker.service.ts:92 | `new Date(y, m + 1, 0).getDate()` is the length of month m |
| Calendar.PrevMonthLength | frontend/ang-app/src/app/modules/components/datepicker/datepicker.service.ts:55 | `new Date(y, m, 0).getDate()` is the length of the previous month (31 for December before January) |
| Calendar.DayZeroIsLastDay | frontend/ang-app/src/app/modules/components/datepicker/datepicker.service.ts:92 | Day 0 of the next month is the last day of this month, across the year end too |
| Calendar.WeekDay | frontend/ang-app/src/app/modules/components/datepicker/datepicker.service.ts:46 | `getDay()` lies in 0..6 |
| Calendar.YearLength | frontend/ang-app/src/app/modules/components/datepicker/datepicker.service.ts:92 | The day number of 1 January grows by 366 after a leap year and by 365 otherwise |
| Calendar.CarryDayNumber | frontend/ang-app/src/app/modules/components/datepicker/datepicker.service.ts:55 | Rollover of day d lands d - 1 days after the 1st of the month on the day-number line |
| Calendar.MakeDateDayNumber | frontend/ang-app/src/app/modules/components/datepicker/datepicker.component.ts:246 | `new Date(y, m, d)` lies d - 1 days after the 1st of month m (rolled into its year) |
| Calendar.SetMonthThenDate | frontend/ang-app/src/app/components/datepicker/datepicker.component.ts:309-310 | Lines 309-310 in the corrected order: on a date on the 1st, `setMonth(v)` then `setDate(d)` equals MakeDay(y, v, d), without the 0..99 remap |
| Service.LeadingCount | frontend/ang-app/src/app/modules/components/datepicker/datepicker.service.ts:46-53 | The leading count is 1..7, never 0, and stepping back that many days from the 1st reaches a Monday |
| Service.DatepickerService.constructor | frontend/ang-app/src/app/modules/components/datepicker/datepicker.service.ts:6-13 | The bounds are the given ones; the grid's `weeksToShow` is fixed at six |
| Service.DatepickerService.GetDaysInMonth | frontend/ang-app/src/app/modules/components/datepicker/datepicker.service.ts:91-93 | The result is the Gregorian length (28..31) of the month of `date`, in the 1900-remapped year for years 0..99 |
| Service.DatepickerService.NormalizeDate | frontend/ang-app/src/app/modules/components/datepicker/datepicker.service.ts:102-106 | Same year and month as the argument, day 1 |
| Service.DatepickerService.IsDayAvailable | frontend/ang-app/src/app/modules/components/datepicker/datepicker.service.ts:115-145 | True iff (year, month, day) is neither strictly before `dateFrom` nor strictly after `dateTo` in lexicographic order; an absent bound never rejects |
| Service.DatepickerService.LeadingDays | frontend/ang-app/src/app/modules/components/datepicker/datepicker.service.ts:36-53 | The number of previous-month days is in 1..7 |
| Service.DatepickerService.GetCurrentDays | frontend/ang-app/src/app/modules/components/datepicker/datepicker.service.ts:15-28 | Exactly `getDaysInMonth(date)` cells; cell k holds day k + 1 and its availability |
| Service.DatepickerService.GetDaysBeforeCurrent | frontend/ang-app/src/app/modules/components/datepicker/datepicker.service.ts:35-67 | The ascending run P - N + 1 .. P (P the previous month's length, N the leading count); every entry in 1..P |
| Service.DatepickerService.GetDaysAfterCurrent | frontend/ang-app/src/app/modules/components/datepicker/datepicker.service.ts:74-84 | 1 .. 42 - n, empty when n >= 42 |
| Service.DatepickerService.LeadingCellsArePreviousMonth | frontend/ang-app/src/app/modules/components/datepicker/datepicker.service.ts:55-64 | The leading entries are the calendar days of the previous month that start the grid |
| Service.DatepickerService.CurrentCellsAreThisMonth | frontend/ang-app/src/app/modules/components/datepicker/datepicker.service.ts:15-28 | After the leading days, cell N + k shows day k + 1 of the shown month |
| Service.DatepickerService.TrailingCellsAreNextMonth | frontend/ang-app/src/app/modules/components/datepicker/datepicker.service.ts:74-84 | The trailing entries are the first days of the next month, in their grid cells |
| Service.DatepickerService.GridHasSixWeeks | frontend/ang-app/src/app/modules/components/datepicker/datepicker.service.ts:75 | The three lists hold 42 cells together, and at least 4 of them are trailing days |
| Service.DatepickerService.GridStartsOnMonday | frontend/ang-app/src/app/modules/components/datepicker/datepicker.service.ts:46-53 | The top-left cell of the grid is a Monday |
| Service.DatepickerService.GridIsConsecutive | frontend/ang-app/src/app/modules/components/datepicker/datepicker.service.ts:55-84 | Neighbouring cells hold consecutive calendar days |
| Picker.DetectType | frontend/ang-app/src/app/modules/components/datepicker/datepicker.component.ts:93-99 | Day iff the pattern contains "dd"; Month iff it has no "dd" but contains "mm"; Year otherwise |
| Picker.AsDate | frontend/ang-app/src/app/modules/components/datepicker/datepicker.component.ts:283-284 | A parse gives a date exactly when it is present and not an Invalid Date |
| Picker.MonthStep | frontend/ang-app/src/app/modules/components/datepicker/datepicker.component.ts:219-230 | m < 0 gives (year - 1, 11), m > 11 gives (year + 1, 0), a single step; otherwise (year, m); the result is on day 1 |
| Picker.ScrollMovesOneMonth | frontend/ang-app/src/app/modules/components/datepicker/datepicker.component.ts:272-280 | A scroll step moves the shown month by exactly one, also across a year end, as the `Date` rollover of month m ± 1 does |
| Picker.ScrollForwardMonths | frontend/ang-app/src/app/modules/components/datepicker/datepicker.component.ts:272-280 | n forward scroll steps advance the shown month by n |
| Picker.TwelveStepsIsOneYear | frontend/ang-app/src/app/modules/components/datepicker/datepicker.component.ts:272-280 | Twelve forward steps from (y, m) show (y + 1, m) |
| Picker.ScrollBackUndoesForward | frontend/ang-app/src/app/modules/components/datepicker/datepicker.component.ts:272-280 | Scrolling down then up returns to the month shown before |
| Picker.DatepickerComponent.constructor | frontend/ang-app/src/app/modules/components/datepicker/datepicker.component.ts:29-67 | Day type, no selection, no bounds; the month of today on the 1st; the year selector on its year; empty day lists |
| Picker.DatepickerComponent.UpdateDays | frontend/ang-app/src/app/modules/components/datepicker/datepicker.component.ts:150-155 | The day lists are the service's lists for the shown month and hold 42 entries together; nothing else changes |
| Picker.DatepickerComponent.SetYear | frontend/ang-app/src/app/modules/components/datepicker/datepicker.component.ts:236-239 | The shown month moves to the given year on day 1; the day lists are rebuilt; the selection is untouched |
| Picker.DatepickerComponent.SetMonth | frontend/ang-app/src/app/modules/components/datepicker/datepicker.component.ts:219-230 | The shown month becomes `MonthStep(date, month)` (so it stays on day 1); the lists are rebuilt; the selection is untouched |
| Picker.DatepickerComponent.SelectDate | frontend/ang-app/src/app/modules/components/datepicker/datepicker.component.ts:245-255 | The selection becomes `new Date(year, month, day)`, i.e. (year, month, day) for a day of the month and a year outside 0..99, otherwise `new Date`'s 19yy; the shown month is unchanged; the emitted event carries the date and its text |
| Picker.DatepickerComponent.SelectMonth | frontend/ang-app/src/app/modules/components/datepicker/datepicker.component.ts:257-260 | For 0 <= m <= 11 that month is shown and the selection is (year, m, 1) for years outside 0..99, otherwise `new Date`'s 19yy; the event carries the selection and its text; type, bounds, year selector and window size are unchanged |
| Picker.DatepickerComponent.SelectYear | frontend/ang-app/src/app/modules/components/datepicker/datepicker.component.ts:262-266 | The display is (y, 0) on day 1 and the selection (y, 0, 1) for years outside 0..99, otherwise `new Date`'s 19yy; the event carries the selection and its text; type, bounds, year selector and window size are unchanged |
| Picker.DatepickerComponent.OnScroll | frontend/ang-app/src/app/modules/components/datepicker/datepicker.component.ts:272-280 | The shown month moves one month forward for deltaY >= 0 and one back otherwise; selection, type, bounds, year selector and window size are unchanged |
| Picker.DatepickerComponent.OnYearScroll | frontend/ang-app/src/app/modules/components/datepicker/datepicker.component.ts:190-194 | The year selector moves by +6 or -6; nothing else changes |
| Picker.DatepickerComponent.OnMonthScroll | frontend/ang-app/src/app/modules/components/datepicker/datepicker.component.ts:200-205 | The shown month moves by one year and the year selector follows it; selection, type, bounds and window size are unchanged |
| Picker.DatepickerComponent.ShowYearSelect | frontend/ang-app/src/app/modules/components/datepicker/datepicker.component.ts:175-179 | The year selector is centred on the shown year; nothing else changes |
| Picker.DatepickerComponent.IncrementVisibleYearByValue | frontend/ang-app/src/app/modules/components/datepicker/datepicker.component.ts:211-213 | The year selector moves by the given value; nothing else changes |
| Picker.DatepickerComponent.UpdateDateFromValue | frontend/ang-app/src/app/modules/components/datepicker/datepicker.component.ts:282-289 | An unparsable value changes nothing; otherwise the parsed date is selected, its month is shown on day 1 and the year selector moves to its year |
| Picker.DatepickerComponent.ReadBounds | frontend/ang-app/src/app/modules/components/datepicker/datepicker.component.ts:101-119 | Each bound that parses is stored; one that does not leaves the old bound |
| Picker.DatepickerComponent.NgOnInit | frontend/ang-app/src/app/modules/components/datepicker/datepicker.component.ts:89-128 | The type comes from the pattern; years-to-show is 7 for Month and 9 otherwise; bounds and initial value are applied; the day lists match the shown month |
| Picker.DatepickerComponent.SetToday | frontend/ang-app/src/app/modules/components/datepicker/datepicker.component.ts:302-307 | Today's month is shown on day 1, today is selected, and the year selector moves to today's year; the event carries the selection and its text; type, bounds and window size are unchanged |
| JsText.IndexOf | frontend/ang-app/src/app/components/datepicker/datepicker.component.ts:304 | -1 exactly when the pattern does not occur; otherwise the first position where it occurs |
| JsText.IndexOfAfterPrefix | frontend/ang-app/src/app/components/datepicker/datepicker.component.ts:304 | A prefix without the token's first character shifts the found position by its length |
| JsText.Substr | frontend/ang-app/src/app/components/datepicker/datepicker.component.ts:307 | `substr(start, length)` is the slice from `start` of that length when it fits; a negative start counts from the end of the string; a length running past the end stops at the end; the result is never longer than the string |
| JsText.ReplaceFirst | frontend/ang-app/src/app/components/datepicker/datepicker.component.ts:286 | With the pattern absent the string is unchanged |
| JsText.ReplaceAfterPrefix | frontend/ang-app/src/app/components/datepicker/datepicker.component.ts:286 | Only the first match is replaced: a prefix free of the pattern is kept in front of the replaced rest |
| JsText.ReplaceAtStart | frontend/ang-app/src/app/components/datepicker/datepicker.component.ts:286 | A pattern at the start is replaced and the rest kept |
| JsText.NatToStringRoundTrip | frontend/ang-app/src/app/components/datepicker/datepicker.component.ts:284 | Unary `+` reads `'' + n` back as n |
| JsText.NatToStringFourDigits | frontend/ang-app/src/app/components/datepicker/datepicker.component.ts:284 | A year 1000..9999 is written with four digits |
| JsText.NatToStringAtMostFourDigits | frontend/ang-app/src/app/components/datepicker/datepicker.component.ts:284 | A year 0..9999 is written with at most four digits |
| JsText.ToNumber | frontend/ang-app/src/app/components/datepicker/datepicker.component.ts:307 | Unary `+` gives a number exactly for digit strings; the empty string gives 0 |
| JsText.Rem7 | frontend/ang-app/src/app/components/datepicker/datepicker.component.ts:221 | JavaScript's `% 7`: the floored remainder for a non-negative left side; for a negative one, that remainder less 7 unless it is 0 |
| Codec.SetDateOf | frontend/ang-app/src/app/components/datepicker/datepicker.component.ts:309 | `setDate` on an Invalid Date, or with a NaN argument, gives an Invalid Date; otherwise the date's `setDate` rollover |
| Codec.SetMonthOf | frontend/ang-app/src/app/components/datepicker/datepicker.component.ts:310 | `setMonth` on an Invalid Date, or with a NaN argument, gives an Invalid Date; otherwise the date's `setMonth` rollover |
| Codec.SetFullYearOf | frontend/ang-app/src/app/components/datepicker/datepicker.component.ts:311 | `setFullYear` gives an Invalid Date exactly for a NaN argument; on an Invalid Date it starts from 1 January 1970, so the result is 1 January of the year; on a valid date it is the date's `setFullYear` |
| Codec.TwoDigitsRoundTrip | frontend/ang-app/src/app/components/datepicker/datepicker.component.ts:274-282 | A day or month number 1..99 is written with two digits that read back as the number |
| Codec.DateToFormat | frontend/ang-app/src/app/components/datepicker/datepicker.component.ts:269-287 | An absent date gives ""; a pattern without any token is returned unchanged |
| Codec.FormatDefaultLayout | frontend/ang-app/src/app/components/datepicker/datepicker.component.ts:274-286 | With "dd.mm.yyyy" the text is two-digit day, dot, two-digit month + 1, dot, unpadded year |
| Codec.FormatExample | frontend/ang-app/src/app/components/datepicker/datepicker.component.ts:274-286 | (2024, 1, 15) is written "15.02.2024" |
| Codec.ParseAsWritten | frontend/ang-app/src/app/components/datepicker/datepicker.component.ts:295-318 | null exactly for an absent or empty text; otherwise a valid time value |
| Codec.StringToDate | frontend/ang-app/src/app/components/datepicker/datepicker.component.ts:295-318 | The loop over "dd", "mm", "yyyy" computes `ParseAsWritten` |
| Codec.ApplyPartsInOrder | frontend/ang-app/src/app/components/datepicker/datepicker.component.ts:303-312 | The loop applies the day, then month - 1, then the year |
| Codec.DefaultSlices | frontend/ang-app/src/app/components/datepicker/datepicker.component.ts:304-307 | With "dd.mm.yyyy" the tokens are read at offsets 0, 3 and 6; a year of one to four characters is read whole |
| Codec.ParseDefaultAsWritten | frontend/ang-app/src/app/components/datepicker/datepicker.component.ts:300-312 | On a default-layout text the result is today's date after `setDate(day)`, `setMonth(month - 1)`, `setFullYear(year)` |
| Codec.RoundTripAsWritten | frontend/ang-app/src/app/components/datepicker/datepicker.component.ts:300-312 | With "dd.mm.yyyy", a year 0..9999 and day <= 28, reading back a written date gives the date, whatever today is |
| Codec.ParseRollsOver | frontend/ang-app/src/app/components/datepicker/datepicker.component.ts:91-93 | "55.22.2018" read on 15 October 2026 rolls over to 24 October 2018 instead of failing |
| Codec.ParseAsWrittenLosesLateDay | frontend/ang-app/src/app/components/datepicker/datepicker.component.ts:300-312 | 31 January 2024 is written "31.01.2024" and read back on 10 February 2023 as 3 January 2024 |
| Codec.MonthFormatAsWritten | frontend/ang-app/src/app/components/datepicker/datepicker.component.ts:304-307 | With "mm.yyyy" the day is read from the last character of the text |
| Codec.ParseAsWrittenReadsMissingDay | frontend/ang-app/src/app/components/datepicker/datepicker.component.ts:304-307 | "05.2020" with "mm.yyyy" read on 15 October 2026 gives 30 May 2020 |
| Codec.ParseDate | frontend/ang-app/src/app/components/datepicker/datepicker.component.ts:295-318 | Corrected parser: null exactly for an absent or empty text; otherwise a valid time value |
| Codec.ParseDateFields | frontend/ang-app/src/app/components/datepicker/datepicker.component.ts:303-312 | Corrected parser: with all three tokens read as y, m, d, the result is MakeDay(y, m - 1, d), without the 0..99 remap |
| Codec.RoundTrip | frontend/ang-app/src/app/components/datepicker/datepicker.component.ts:274-312 | Corrected parser: every date with a year 0..9999 reads back from its "dd.mm.yyyy" text, whatever today is |
| Codec.MonthFormatLayout | frontend/ang-app/src/app/components/datepicker/datepicker.component.ts:279-286 | With "mm.yyyy" the text is the two-digit month + 1, a dot and the year |
| Codec.ParseDateMonthFormat | frontend/ang-app/src/app/components/datepicker/datepicker.component.ts:303-312 | Corrected parser with "mm.yyyy": the result is day 1 of the month and year written |
| Codec.RoundTripMonthFormat | frontend/ang-app/src/app/components/datepicker/datepicker.component.ts:274-312 | Corrected parser with "mm.yyyy": a written date with a year 0..9999 reads back as day 1 of its month and year |
| Legacy.EmptyDays | frontend/ang-app/src/app/components/datepicker/datepicker.component.ts:220-223 | Corrected blank-cell count: 0..6, equal to (weekday of the 1st + 6) mod 7, and stepping back that many days from the 1st reaches a Monday |
| Legacy.LeadingCountMatchesEmptyDays | frontend/ang-app/src/app/components/datepicker/datepicker.component.ts:220-223 | The newer leading count equals the blank-cell count, except that it is 7 where that count is 0 |
| Legacy.LegacyDatepicker.EmptyDaysBefore | frontend/ang-app/src/app/components/datepicker/datepicker.component.ts:220-223 | As written with truncating `%`: equal to the corrected count unless the day is below its weekday and their difference is not a multiple of 7, where it is a week more |
| Legacy.EmptyDaysBeforeOverCounts | frontend/ang-app/src/app/components/datepicker/datepicker.component.ts:220-223 | For 1 October 2024 (a Tuesday) the formula gives 8 blank cells; the corrected count is 1 |
| Legacy.LegacyMonthStep | frontend/ang-app/src/app/components/datepicker/datepicker.component.ts:144-154 | Single-step year rollover as in the newer picker, but the day is kept and a day past the target month's end rolls into the month after |
| Legacy.LegacyMonthStepOnFirst | frontend/ang-app/src/app/components/datepicker/datepicker.component.ts:144-154 | On day 1 both versions of `setMonth` agree |
| Legacy.LegacyDatepicker.constructor | frontend/ang-app/src/app/components/datepicker/datepicker.component.ts:27-67 | The month of today on day 1, no selection, the year window on its year |
| Legacy.LegacyDatepicker.VisibleYears | frontend/ang-app/src/app/components/datepicker/datepicker.component.ts:136-138 | Ten ascending consecutive years from currentVisibleYear - 6 to currentVisibleYear + 3, and no others |
| Legacy.LegacyDatepicker.MonthLength | frontend/ang-app/src/app/components/datepicker/datepicker.component.ts:203-209 | The Gregorian length of the shown month, in the 1900-remapped year for years 0..99 |
| Legacy.LegacyDatepicker.IsDaySelected | frontend/ang-app/src/app/components/datepicker/datepicker.component.ts:238-249 | False with no selection; otherwise true iff (shown year, shown month, day) is the selection |
| Legacy.LegacyDatepicker.IsToday | frontend/ang-app/src/app/components/datepicker/datepicker.component.ts:256-262 | True iff (shown year, shown month, day) is today |
| Legacy.LegacyDatepicker.SetYear | frontend/ang-app/src/app/components/datepicker/datepicker.component.ts:160-162 | Month and day are kept when the day exists in that year; 29 February becomes 1 March otherwise |
| Legacy.LegacyDatepicker.SetMonth | frontend/ang-app/src/app/components/datepicker/datepicker.component.ts:144-154 | The shown date becomes `LegacyMonthStep(date, month)` |
| Legacy.LegacyDatepicker.SelectDate | frontend/ang-app/src/app/components/datepicker/datepicker.component.ts:168-175 | The selection becomes `new Date(year, month, day)`; the event carries it and its text; the shown date is unchanged |
| Legacy.LegacyDatepicker.SetToday | frontend/ang-app/src/app/components/datepicker/datepicker.component.ts:228-231 | The shown date and the selection both become today, day included |
| Legacy.LegacyDatepicker.OnScroll | frontend/ang-app/src/app/components/datepicker/datepicker.component.ts:181-189 | The shown date makes one `setMonth` step forward or back, keeping its day |
| Legacy.LegacyDatepicker.OnYearScroll | frontend/ang-app/src/app/components/datepicker/datepicker.component.ts:118-121 | The year window moves by +5 or -5 |
| Legacy.LegacyDatepicker.ShowYearSelect | frontend/ang-app/src/app/components/datepicker/datepicker.component.ts:104-107 | The year window is centred on the shown year |
| Legacy.LegacyDatepicker.IncrementVisibleYearByValue | frontend/ang-app/src/app/components/datepicker/datepicker.component.ts:127-129 | The year window moves by the given value |
| Legacy.ScrollAfterSetTodaySkipsMonth | frontend/ang-app/src/app/components/datepicker/datepicker.component.ts:228-231 | After `setToday` on 31 January 2025, one scroll down shows 3 March: February is skipped |

## Left out

- Time of day, time zones and the clock are not modelled. "Today" is a parameter, and dates are
  year, month and day only.
- The range limit of JavaScript dates is not modelled. TimeClip (ECMA-262 5.1, section 15.9.1.14)
  turns a time value beyond 8.64e15 ms either side of 1970 (about years -271821..275760) into an
  Invalid Date. The model's `Calendar.MakeDate`, `Picker.DatepickerComponent.SetYear` and
  `SelectYear`, and `Legacy.LegacyDatepicker.SetYear` give a calendar date for every integer year,
  and `currentVisibleYear` is an unbounded integer, not a double.
- Picker.AsDate: the model treats a parse that gives an Invalid Date (NaN time value) like no
  date, so `UpdateDateFromValue` and `ReadBounds` leave the state unchanged for it. The source
  tests only for null (`if (!date)`, `if (dateFrom)`, `if (dateTo)`), and an Invalid Date object
  passes that test. The component then stores it: `selectedDate`, `date` or the bound become
  Invalid and `currentVisibleYear` becomes NaN. Outside the codec, Invalid Dates are not modelled.
- Strings are modelled as sequences of Unicode characters. JavaScript's `indexOf` and `substr`
  count UTF-16 code units, so offsets differ for text with characters outside the Basic
  Multilingual Plane.
- JsText.ToNumber: unary `+` is modelled only for digit strings; the empty string gives 0. Whitespace, signs,
  decimals, exponents and hexadecimal give NaN in the model, where JavaScript would accept some
  of them.
- The service methods `setYearsToShow`, `getCurrentMonths`, `getCurrentYears` and
  `setSelectedDate` are called by the newer component, but their definitions are not part of this
  model. The component records the window size it would hand to `setYearsToShow` (`yearsToShow`),
  and the month and year grids are not built.
- The newer component's `dateToFormat` and `stringToDate` call service methods whose
  definitions are not part of this model. The model uses the first version's `dateToFormat` and
  the corrected parser `Codec.ParseDate`.
- `updateMonths` and `updateYears` (and their calls inside `updateDate`) build the month and year
  grids, which are not modelled. Only `updateDays` is.
- DOM and UI plumbing are not modelled:
  - the `document` click listener and the `@ViewChild` references;
  - the show/hide flags of the month and year selectors;
  - `preventDefault`;
  - `console.log`, including the three log lines of the first version's `ngOnInit`.
- The `onSelect` event emitter is modelled as the `SelectEvent` that the select methods return.
- The empty `try`/`catch` around the parser loop is left out: the setters never throw.
- The first version's `days` getter returns an empty array of the month's length. Its length is
  `Legacy.LegacyDatepicker.MonthLength`.
- The newer component's `dateFrom`/`dateTo` records are never handed to the service, so the grid
  does not see them.
- The service's own bounds are never assigned in the source. They are fixed when the service is
  built (`Service.DatepickerService.constructor`).
- Scroll events are modelled by their `deltaY` alone, as an integer.
- Service.DatepickerService.LeadingCellsArePreviousMonth: stated only for years outside 0..99,
  where `new Date` does not remap the year.
- Service.DatepickerService.CurrentCellsAreThisMonth: stated only for years outside 0..99.
- Service.DatepickerService.TrailingCellsAreNextMonth: stated only for years outside 0..99.
- Codec.RoundTrip: stated only for years 0..9999, and so are `Codec.RoundTripAsWritten` and
  `Codec.RoundTripMonthFormat`. A year of five or more digits is cut by `substr(…, 4)`, and a
  negative year is written with a "-" that the modelled unary `+` rejects.
- JsText.ReplaceFirst: its own contract covers only the absent pattern. Replacement of the first
  match is stated by `JsText.ReplaceAtStart` and `JsText.ReplaceAfterPrefix`, for the splits the
  codec uses.

## Findings

| source | as written | input that shows it | evidently intended | confidence | as-written member | corrected member |
|---|---|---|---|---|---|---|
| frontend/ang-app/src/app/components/datepicker/datepicker.component.ts:220-223 | `7 - (date - weekday) % 7` with JavaScript's truncating `%` | Shown date 1 October 2024 (a Tuesday): 7 - (-1) = 8 blank cells | 1 blank cell: (weekday + 6) mod 7 with a floored remainder | high, not executed | Legacy.EmptyDaysBeforeOverCounts | Legacy.EmptyDays |
| frontend/ang-app/src/app/components/datepicker/datepicker.component.ts:300-312 | The parser starts from today and sets the day first, in today's month | "31.01.2024" read on 10 February 2023 gives 3 January 2024 | 31 January 2024 | high, not executed | Codec.ParseAsWrittenLosesLateDay | Codec.RoundTrip |
| frontend/ang-app/src/app/components/datepicker/datepicker.component.ts:304-307 | A token missing from the pattern gives `indexOf` -1, and `substr(-1, n)` reads the last character | "05.2020" with "mm.yyyy" read on 15 October 2026 gives 30 May 2020 | 1 May 2020 | high, not executed | Codec.ParseAsWrittenReadsMissingDay | Codec.RoundTripMonthFormat |
| frontend/ang-app/src/app/components/datepicker/datepicker.component.ts:228-231 | `setToday` keeps today's day in the shown date, and `setMonth` then rolls over | After `setToday` on 31 January 2025, scrolling down shows March | February 2025 | medium, not executed | Legacy.ScrollAfterSetTodaySkipsMonth | Picker.ScrollMovesOneMonth |

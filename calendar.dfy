/**
 * Calendar arithmetic as a JavaScript `Date` performs it (ECMA-262 5.1, section 15.9.1):
 * proleptic Gregorian dates, month and day rollover in the setters (MakeDay, section 15.9.1.12),
 * day numbers counted from 1 January 1970 (DayFromYear, section 15.9.1.3) and week days with
 * Sunday as 0 (WeekDay, section 15.9.1.6). Time of day and time zones are not modelled.
 */
module Calendar {
  /** What `getFullYear()`, `getMonth()` and `getDate()` report: month 0..11, day 1..31. */
  datatype Date = Date(year: int, month: int, day: int)
  {
    /** Every finite JavaScript Date denotes an existing calendar day. */
    predicate Valid()
    {
      0 <= month < 12 && 1 <= day <= DaysInMonth(year, month)
    }

    /** `setDate(v)`: day `v` of this month, rolled over into a neighbouring month if out of range. */
    function SetDate(v: int): (r: Date)
      requires 0 <= month < 12
      ensures r.Valid()
      ensures 1 <= v <= DaysInMonth(year, month) ==> r == Date(year, month, v)
    {
      MakeDate(year, month, v)
    }

    /** `setMonth(v)`: keeps the day of the month, so day 31 in a 30-day month rolls over. */
    function SetMonth(v: int): (r: Date)
      ensures r.Valid()
      ensures 0 <= v < 12 && 1 <= day <= DaysInMonth(year, v) ==> r == Date(year, v, day)
    {
      MakeDate(year, v, day)
    }

    /** `setFullYear(v)`: keeps month and day, so 29 February rolls over in a common year. */
    function SetFullYear(v: int): (r: Date)
      requires 0 <= month < 12
      ensures r.Valid()
      ensures 1 <= day <= DaysInMonth(v, month) ==> r == Date(v, month, day)
    {
      MakeDate(v, month, day)
    }
  }

  /** Gregorian leap years: divisible by 4, and not by 100 unless by 400. */
  predicate IsLeapYear(y: int)
  {
    y % 4 == 0 && (y % 100 != 0 || y % 400 == 0)
  }

  /** The length of month `m` (0 = January) of year `y`. */
  function DaysInMonth(y: int, m: int): (n: int)
    requires 0 <= m < 12
    ensures 28 <= n <= 31
  {
    if m == 1 then (if IsLeapYear(y) then 29 else 28)
    else if m == 3 || m == 5 || m == 8 || m == 10 then 30
    else 31
  }

  /**
   * Day `d` of month `m` of year `y`, where day 0 is the last day of the previous month,
   * day -1 the one before it, and a day past the month's end continues into the next month.
   */
  function Carry(y: int, m: int, d: int): (r: Date)
    requires 0 <= m < 12
    ensures r.Valid()
    decreases if d < 1 then 1 - d else 0, if d < 1 then 0 else d
  {
    if d < 1 then
      if m == 0 then Carry(y - 1, 11, d + 31)
      else Carry(y, m - 1, d + DaysInMonth(y, m - 1))
    else if d > DaysInMonth(y, m) then
      if m == 11 then Carry(y + 1, 0, d - 31)
      else Carry(y, m + 1, d - DaysInMonth(y, m))
    else
      Date(y, m, d)
  }

  /**
   * MakeDay followed by reading the date back: the month carries into the year
   * (floor division), then the day carries into the months.
   */
  function MakeDate(y: int, m: int, d: int): (r: Date)
    ensures r.Valid()
    ensures 0 <= m < 12 && 1 <= d <= DaysInMonth(y, m) ==> r == Date(y, m, d)
  {
    Carry(y + m / 12, m % 12, d)
  }

  /** The year the `Date(y, m, d)` constructor uses: years 0..99 stand for 1900..1999. */
  function FullYear(y: int): (r: int)
    ensures 0 <= y <= 99 ==> r == 1900 + y
    ensures !(0 <= y <= 99) ==> r == y
  {
    if 0 <= y <= 99 then 1900 + y else y
  }

  /** `new Date(y, m, d)`. */
  function NewDate(y: int, m: int, d: int): (r: Date)
    ensures r.Valid()
    ensures !(0 <= y <= 99) && 0 <= m < 12 && 1 <= d <= DaysInMonth(y, m) ==> r == Date(y, m, d)
    ensures 0 <= y <= 99 && 0 <= m < 12 && 1 <= d <= DaysInMonth(1900 + y, m) ==> r == Date(1900 + y, m, d)
  {
    MakeDate(FullYear(y), m, d)
  }

  /** `new Date(y, m + 1, 0).getDate()`: day 0 of the next month is the last day of this one. */
  function LastDayOfMonth(y: int, m: int): (n: int)
    requires 0 <= m < 12
    ensures n == DaysInMonth(FullYear(y), m)
  {
    DayZeroIsLastDay(FullYear(y), m);
    NewDate(y, m + 1, 0).day
  }

  /** `new Date(y, m, 0).getDate()`: the length of the month before month `m`. */
  function PrevMonthLength(y: int, m: int): (n: int)
    requires 0 <= m < 12
    ensures m == 0 ==> n == 31
    ensures m > 0 ==> n == DaysInMonth(FullYear(y), m - 1)
  {
    if m == 0 then
      DayZeroIsLastDay(FullYear(y) - 1, 11);
      NewDate(y, m, 0).day
    else
      DayZeroIsLastDay(FullYear(y), m - 1);
      NewDate(y, m, 0).day
  }

  /** Day 0 of the month after month `m` is the last day of month `m`. */
  lemma DayZeroIsLastDay(y: int, m: int)
    requires 0 <= m < 12
    ensures MakeDate(y, m + 1, 0) == Date(y, m, DaysInMonth(y, m))
  {
    if m == 11 {
      assert MakeDate(y, m + 1, 0) == Carry(y + 1, 0, 0);
    } else {
      assert MakeDate(y, m + 1, 0) == Carry(y, m + 1, 0);
    }
  }

  // ---------------------------------------------------------------------------------------
  // Day numbers and week days

  /** DayFromYear: the day number of 1 January of year `y`, 1970 being day 0. */
  function DayFromYear(y: int): int
  {
    365 * (y - 1970) + (y - 1969) / 4 - (y - 1901) / 100 + (y - 1601) / 400
  }

  /** The number of days of year `y` before month `m`. */
  function DaysBeforeMonth(y: int, m: int): int
    requires 0 <= m <= 12
  {
    if m == 0 then 0 else DaysBeforeMonth(y, m - 1) + DaysInMonth(y, m - 1)
  }

  /** The day number of the first day of month `m` of year `y`. */
  function MonthStart(y: int, m: int): int
    requires 0 <= m < 12
  {
    DayFromYear(y) + DaysBeforeMonth(y, m)
  }

  /** Day(t) for the date `d`: days since 1 January 1970. */
  function DayNumber(d: Date): int
    requires 0 <= d.month < 12
  {
    MonthStart(d.year, d.month) + d.day - 1
  }

  /** `getDay()`: 0 is Sunday, 1 is Monday, ..., 6 is Saturday. */
  function WeekDay(d: Date): (w: int)
    requires 0 <= d.month < 12
    ensures 0 <= w < 7
  {
    (DayNumber(d) + 4) % 7
  }

  /** A year has 366 days exactly when it is a leap year. */
  lemma YearLength(y: int)
    ensures DayFromYear(y + 1) - DayFromYear(y) == if IsLeapYear(y) then 366 else 365
  {
    var a, b, c := (y - 1969) / 4, (y - 1901) / 100, (y - 1601) / 400;
    var a', b', c' := (y - 1968) / 4, (y - 1900) / 100, (y - 1600) / 400;
    assert DayFromYear(y) == 365 * (y - 1970) + a - b + c;
    assert DayFromYear(y + 1) == 365 * (y - 1970) + 365 + a' - b' + c';
    LeapStep4(y);
    LeapStep100(y);
    LeapStep400(y);
    var i4, i100, i400 := if y % 4 == 0 then 1 else 0, if y % 100 == 0 then 1 else 0, if y % 400 == 0 then 1 else 0;
    assert DayFromYear(y + 1) - DayFromYear(y) == 365 + i4 - i100 + i400;
    DivisorChain(y);
  }

  /** A multiple of 400 is a multiple of 100, and a multiple of 100 a multiple of 4. */
  lemma DivisorChain(y: int)
    ensures y % 400 == 0 ==> y % 100 == 0
    ensures y % 100 == 0 ==> y % 4 == 0
  {
    if y % 400 == 0 {
      Multiple100(y, 4 * (y / 400));
    }
    if y % 100 == 0 {
      Multiple4(y, 25 * (y / 100));
    }
  }

  lemma Multiple100(y: int, j: int)
    requires y == 100 * j
    ensures y % 100 == 0
  {
  }

  lemma Multiple4(y: int, j: int)
    requires y == 4 * j
    ensures y % 4 == 0
  {
  }

  // One floor-division term of DayFromYear at a time: each grows by one exactly at a multiple.

  lemma LeapStep4(y: int)
    ensures (y - 1968) / 4 - (y - 1969) / 4 == if y % 4 == 0 then 1 else 0
  {
    var q, r := (y - 1969) / 4, (y - 1969) % 4;
    assert y - 1969 == 4 * q + r;
    assert y == 4 * (q + 492) + r + 1;
    if r == 3 {
      assert y - 1968 == 4 * (q + 1);
      assert y % 4 == 0;
    } else {
      assert (y - 1968) / 4 == q;
    }
  }

  lemma LeapStep100(y: int)
    ensures (y - 1900) / 100 - (y - 1901) / 100 == if y % 100 == 0 then 1 else 0
  {
    var q, r := (y - 1901) / 100, (y - 1901) % 100;
    assert y - 1901 == 100 * q + r;
    assert y == 100 * (q + 19) + r + 1;
    if r == 99 {
      assert y - 1900 == 100 * (q + 1);
      assert y % 100 == 0;
    } else {
      assert (y - 1900) / 100 == q;
    }
  }

  lemma LeapStep400(y: int)
    ensures (y - 1600) / 400 - (y - 1601) / 400 == if y % 400 == 0 then 1 else 0
  {
    var q, r := (y - 1601) / 400, (y - 1601) % 400;
    assert y - 1601 == 400 * q + r;
    assert y == 400 * (q + 4) + r + 1;
    if r == 399 {
      assert y - 1600 == 400 * (q + 1);
      assert y % 400 == 0;
    } else {
      assert (y - 1600) / 400 == q;
    }
  }

  lemma DaysBeforeDecember(y: int)
    ensures DaysBeforeMonth(y, 12) == if IsLeapYear(y) then 366 else 365
  {
    var f := DaysInMonth(y, 1);
    assert DaysBeforeMonth(y, 1) == 31;
    assert DaysBeforeMonth(y, 2) == 31 + f;
    assert DaysBeforeMonth(y, 3) == 62 + f;
    assert DaysBeforeMonth(y, 4) == 92 + f;
    assert DaysBeforeMonth(y, 5) == 123 + f;
    assert DaysBeforeMonth(y, 6) == 153 + f;
    assert DaysBeforeMonth(y, 7) == 184 + f;
    assert DaysBeforeMonth(y, 8) == 215 + f;
    assert DaysBeforeMonth(y, 9) == 245 + f;
    assert DaysBeforeMonth(y, 10) == 276 + f;
    assert DaysBeforeMonth(y, 11) == 306 + f;
  }

  /** Consecutive months are adjacent on the day-number line, also across a year boundary. */
  lemma {:induction false} MonthStartNext(y: int, m: int)
    requires 0 <= m < 12
    ensures m < 11 ==> MonthStart(y, m + 1) == MonthStart(y, m) + DaysInMonth(y, m)
    ensures m == 11 ==> MonthStart(y + 1, 0) == MonthStart(y, 11) + 31
  {
    if m == 11 {
      YearLength(y);
      DaysBeforeDecember(y);
    }
  }

  /** The rollover of `Carry` agrees with MakeDay: day `d` is `d - 1` days after the 1st. */
  lemma CarryDayNumber(y: int, m: int, d: int)
    requires 0 <= m < 12
    ensures DayNumber(Carry(y, m, d)) == MonthStart(y, m) + d - 1
  {
    if d < 1 {
      CarryBackDayNumber(y, m, d);
    } else {
      CarryForwardDayNumber(y, m, d);
    }
  }

  /** `CarryDayNumber` for a day up to the month's length: rollover into earlier months. */
  lemma {:induction false} CarryBackDayNumber(y: int, m: int, d: int)
    requires 0 <= m < 12 && d <= DaysInMonth(y, m)
    ensures DayNumber(Carry(y, m, d)) == MonthStart(y, m) + d - 1
    decreases 1 - d
  {
    if d >= 1 {
      assert Carry(y, m, d) == Date(y, m, d);
    } else if m == 0 {
      assert Carry(y, m, d) == Carry(y - 1, 11, d + 31);
      CarryBackDayNumber(y - 1, 11, d + 31);
      MonthStartNext(y - 1, 11);
    } else {
      var len := DaysInMonth(y, m - 1);
      assert Carry(y, m, d) == Carry(y, m - 1, d + len);
      CarryBackDayNumber(y, m - 1, d + len);
      MonthStartNext(y, m - 1);
    }
  }

  /** `CarryDayNumber` for a day from 1 on: rollover into later months. */
  lemma {:induction false} CarryForwardDayNumber(y: int, m: int, d: int)
    requires 0 <= m < 12 && 1 <= d
    ensures DayNumber(Carry(y, m, d)) == MonthStart(y, m) + d - 1
    decreases d
  {
    var len := DaysInMonth(y, m);
    if d <= len {
      assert Carry(y, m, d) == Date(y, m, d);
    } else if m == 11 {
      MonthStartNext(y, m);
      assert Carry(y, m, d) == Carry(y + 1, 0, d - 31);
      CarryForwardDayNumber(y + 1, 0, d - 31);
    } else {
      MonthStartNext(y, m);
      assert Carry(y, m, d) == Carry(y, m + 1, d - len);
      CarryForwardDayNumber(y, m + 1, d - len);
    }
  }

  /**
   * `MakeDate` is ECMA-262's MakeDay: the result lies `d - 1` days after the first day of
   * month `m % 12` of year `y + m / 12`, so moving the day by one moves the result by one day.
   */
  lemma MakeDateDayNumber(y: int, m: int, d: int)
    ensures DayNumber(MakeDate(y, m, d)) == MonthStart(y + m / 12, m % 12) + d - 1
  {
    CarryDayNumber(y + m / 12, m % 12, d);
  }

  /**
   * Moving day 1 of a month to month `v` and then to day `d` gives MakeDay(y, v, d), without
   * `new Date`'s 0..99 remap: the intermediate day 1 never rolls over.
   */
  lemma SetMonthThenDate(y: int, m: int, v: int, d: int)
    requires 0 <= m < 12
    ensures Date(y, m, 1).SetMonth(v).SetDate(d) == MakeDate(y, v, d)
  {
    var q, r := v / 12, v % 12;
    assert Date(y, m, 1).SetMonth(v) == Date(y + q, r, 1);
    assert r / 12 == 0 && r % 12 == r;
  }

  /** With the month in range, day `d` of the rollover lies `d - 1` days after the 1st. */
  lemma MakeDateInMonth(y: int, m: int, d: int)
    requires 0 <= m < 12
    ensures DayNumber(MakeDate(y, m, d)) == MonthStart(y, m) + d - 1
  {
    assert m / 12 == 0 && m % 12 == m;
    CarryDayNumber(y, m, d);
  }

  /** Subtracting `n` commutes with reducing modulo 7. */
  lemma ShiftMod7(x: int, n: int)
    ensures (x - n) % 7 == (x % 7 - n) % 7
  {
    assert x == 7 * (x / 7) + x % 7;
    assert x - n == 7 * (x / 7) + (x % 7 - n);
  }
}

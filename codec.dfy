/**
 * The date-format codec of the date picker: `dateToFormat` writes a date into a pattern
 * holding the tokens `dd`, `mm` and `yyyy`; `stringToDate` reads the tokens back at the
 * offsets where the pattern holds them and applies them to a Date, one setter per token.
 */
module Codec {
  import opened Wrappers
  import opened Calendar
  import opened JsText

  /** A Date object's time value: a calendar day, or NaN (an "Invalid Date"). */
  datatype TimeValue = Finite(date: Date) | NaN
  {
    predicate Valid()
    {
      Finite? ==> date.Valid()
    }
  }

  /** `t.setDate(v)`: NaN stays NaN, and a NaN argument makes the date NaN. */
  function SetDateOf(t: TimeValue, v: Option<int>): (r: TimeValue)
    requires t.Valid()
    ensures r.Valid()
    ensures r.Finite? <==> t.Finite? && v.Some?
    ensures r.Finite? ==> r.date == t.date.SetDate(v.value)
  {
    if t.NaN? || v.None? then NaN else Finite(t.date.SetDate(v.value))
  }

  /** `t.setMonth(v)`. */
  function SetMonthOf(t: TimeValue, v: Option<int>): (r: TimeValue)
    requires t.Valid()
    ensures r.Valid()
    ensures r.Finite? <==> t.Finite? && v.Some?
    ensures r.Finite? ==> r.date == t.date.SetMonth(v.value)
  {
    if t.NaN? || v.None? then NaN else Finite(t.date.SetMonth(v.value))
  }

  /** `t.setFullYear(v)`: on an Invalid Date it starts again from 1 January 1970. */
  function SetFullYearOf(t: TimeValue, v: Option<int>): (r: TimeValue)
    requires t.Valid()
    ensures r.Valid()
    ensures r.Finite? <==> v.Some?
    ensures t.NaN? && v.Some? ==> r == Finite(Date(v.value, 0, 1))
    ensures t.Finite? && v.Some? ==> r == Finite(t.date.SetFullYear(v.value))
  {
    if v.None? then NaN
    else if t.NaN? then Finite(Date(1970, 0, 1).SetFullYear(v.value))
    else Finite(t.date.SetFullYear(v.value))
  }

  /** `'' + n`, with a `'0'` put in front when that gives a single character. */
  function TwoDigits(n: nat): string
  {
    var s := NatToString(n);
    if |s| == 1 then "0" + s else s
  }

  /** A day or month number is written with two digits that read back as the number. */
  lemma TwoDigitsRoundTrip(n: nat)
    requires 1 <= n <= 99
    ensures |TwoDigits(n)| == 2 && AllDigits(TwoDigits(n)) && ToNumber(TwoDigits(n)) == Some(n)
  {
    var s := NatToString(n);
    NatToStringRoundTrip(n);
    if n < 10 {
      assert s == [DigitChar(n)];
      LeadingZero(s[0]);
    } else {
      NatToStringTwoDigits(n);
    }
  }

  /**
   * `dateToFormat(date)`: the empty string for no date; otherwise the pattern with its first
   * `dd` replaced by the zero-padded day, then its first `mm` by the zero-padded month
   * (counted from 1), then its first `yyyy` by the year, written without padding.
   */
  function DateToFormat(date: Option<Date>, format: string): (r: string)
    ensures date.None? ==> r == ""
    ensures (date.Some? && IndexOf(format, "dd") == -1 && IndexOf(format, "mm") == -1
             && IndexOf(format, "yyyy") == -1) ==> r == format
  {
    if date.None? then ""
    else
      var day := TwoDigits(if date.value.day < 0 then 0 else date.value.day);
      var month := TwoDigits(if date.value.month + 1 < 0 then 0 else date.value.month + 1);
      var year := IntToString(date.value.year);
      ReplaceFirst(ReplaceFirst(ReplaceFirst(format, "dd", day), "mm", month), "yyyy", year)
  }

  /** For a valid date of a non-negative year, the three replacements use the plain field numbers. */
  lemma FormatPieces(x: Date, format: string)
    requires x.Valid() && x.year >= 0
    ensures DateToFormat(Some(x), format)
            == ReplaceFirst(ReplaceFirst(ReplaceFirst(format, "dd", TwoDigits(x.day)), "mm",
                 TwoDigits(x.month + 1)), "yyyy", NatToString(x.year))
  {
  }

  /** The picker's default pattern. */
  const DefaultFormat: string := "dd.mm.yyyy"

  /** A pattern for month pickers: month and year only. */
  const MonthFormat: string := "mm.yyyy"

  // The three replacements on the default pattern, one at a time.

  lemma FillDay(d: string)
    ensures ReplaceFirst(DefaultFormat, "dd", d) == d + ".mm.yyyy"
  {
    assert DefaultFormat == "dd" + ".mm.yyyy";
    ReplaceAtStart("dd", ".mm.yyyy", d);
  }
  lemma FillMonth(d: string, m: string)
    requires AllDigits(d)
    ensures ReplaceFirst(d + ".mm.yyyy", "mm", m) == d + "." + m + ".yyyy"
  {
    ReplaceAfterPrefix(d, ".mm.yyyy", "mm", m);
    FillMonthTail(m);
  }
  lemma FillMonthTail(m: string)
    ensures ReplaceFirst(".mm.yyyy", "mm", m) == "." + m + ".yyyy"
  {
    assert ".mm.yyyy" == "." + ("mm" + ".yyyy");
    ReplaceAfterPrefix(".", "mm" + ".yyyy", "mm", m);
    ReplaceAtStart("mm", ".yyyy", m);
  }
  lemma FillYear(p: string, y: string)
    requires forall i :: 0 <= i < |p| ==> p[i] != 'y'
    ensures ReplaceFirst(p + "yyyy", "yyyy", y) == p + y
  {
    assert p + "yyyy" == p + ("yyyy" + "");
    ReplaceAfterPrefix(p, "yyyy" + "", "yyyy", y);
    ReplaceAtStart("yyyy", "", y);
    assert y + "" == y;
  }
  lemma FillDefault(d: string, m: string, y: string)
    requires AllDigits(d) && AllDigits(m)
    ensures ReplaceFirst(ReplaceFirst(ReplaceFirst(DefaultFormat, "dd", d), "mm", m), "yyyy", y)
            == d + "." + m + "." + y
  {
    FillDay(d);
    FillMonth(d, m);
    var p := d + "." + m + ".";
    assert d + "." + m + ".yyyy" == p + "yyyy";
    forall i | 0 <= i < |p| ensures p[i] != 'y' {
      if i < |d| { assert p[i] == d[i]; }
      else if i == |d| { }
      else if i < |d| + 1 + |m| { assert p[i] == m[i - |d| - 1]; }
    }
    FillYear(p, y);
  }

  /** With the default pattern, a date is written as day, month and year separated by dots. */
  lemma FormatDefaultLayout(x: Date)
    requires x.Valid() && x.year >= 0
    ensures DateToFormat(Some(x), DefaultFormat)
            == TwoDigits(x.day) + "." + TwoDigits(x.month + 1) + "." + NatToString(x.year)
  {
    var d, m, y := TwoDigits(x.day), TwoDigits(x.month + 1), NatToString(x.year);
    FormatPieces(x, DefaultFormat);
    TwoDigitsRoundTrip(x.day);
    TwoDigitsRoundTrip(x.month + 1);
    FillDefault(d, m, y);
  }

  /** The worked example: 15 February 2024 (month 1) is written "15.02.2024". */
  lemma FormatExample()
    ensures DateToFormat(Some(Date(2024, 1, 15)), DefaultFormat) == "15.02.2024"
  {
    FormatDefaultLayout(Date(2024, 1, 15));
    ExampleDigits();
  }

  lemma ExampleDigits()
    ensures TwoDigits(15) + "." + TwoDigits(2) + "." + NatToString(2024) == "15.02.2024"
  {
    assert TwoDigits(15) == "15" && TwoDigits(2) == "02" && NatToString(2024) == "2024";
  }

  // ---------------------------------------------------------------------------------------
  // Parsing, as the source does it

  /** The tokens in the order the parser visits them. */
  const Parts: seq<string> := ["dd", "mm", "yyyy"]

  /** `value - 1`, where NaN stays NaN. */
  function MinusOne(v: Option<int>): Option<int>
  {
    if v.None? then None else Some(v.value - 1)
  }

  /** `+text.substr(format.indexOf(part), part.length)`: the number written where `part` stands. */
  function PartValue(text: string, format: string, part: string): Option<int>
  {
    ToNumber(Substr(text, IndexOf(format, part), |part|))
  }

  /** One pass of the parser's loop body: the setter that belongs to `part`, with its value. */
  function ApplyPart(t: TimeValue, part: string, text: string, format: string): (r: TimeValue)
    requires t.Valid()
    ensures r.Valid()
  {
    var value := PartValue(text, format, part);
    if part == "dd" then SetDateOf(t, value)
    else if part == "mm" then SetMonthOf(t, MinusOne(value))
    else if part == "yyyy" then SetFullYearOf(t, value)
    else t
  }

  /** The parser's loop body applied to each of `parts` in turn, starting from `t`. */
  function ApplyParts(t: TimeValue, parts: seq<string>, text: string, format: string): (r: TimeValue)
    requires t.Valid()
    ensures r.Valid()
    decreases |parts|
  {
    if parts == [] then t
    else ApplyPart(ApplyParts(t, parts[..|parts| - 1], text, format), parts[|parts| - 1], text, format)
  }

  /**
   * What `stringToDate(text)` returns: null for a missing or empty text; otherwise today's
   * date with the day, then the month, then the year set from the text, each with rollover.
   */
  function ParseAsWritten(text: Option<string>, format: string, today: Date): (r: Option<TimeValue>)
    requires today.Valid()
    ensures r.None? <==> text.None? || text.value == ""
    ensures r.Some? ==> r.value.Valid()
  {
    if text.None? || text.value == "" then None
    else Some(ApplyParts(Finite(today), Parts, text.value, format))
  }

  /** `stringToDate(text)`, reading "now" as `today`. */
  method StringToDate(text: Option<string>, format: string, today: Date) returns (r: Option<TimeValue>)
    requires today.Valid()
    ensures r == ParseAsWritten(text, format, today)
  {
    if text.None? || text.value == "" {
      return None;
    }
    var newDate := Finite(today);
    var parts := Parts;
    for i := 0 to |parts|
      invariant newDate.Valid()
      invariant newDate == ApplyParts(Finite(today), parts[..i], text.value, format)
    {
      var part := parts[i];
      var index := IndexOf(format, part);
      var value := ToNumber(Substr(text.value, index, |part|));
      if part == "dd" {
        newDate := SetDateOf(newDate, value);
      }
      if part == "mm" {
        newDate := SetMonthOf(newDate, MinusOne(value));
      }
      if part == "yyyy" {
        newDate := SetFullYearOf(newDate, value);
      }
      assert parts[..i + 1][..i] == parts[..i];
    }
    assert parts[..|parts|] == Parts;
    r := Some(newDate);
  }

  /** Where the default pattern holds its three tokens. */
  lemma DefaultFormatOffsets()
    ensures IndexOf(DefaultFormat, "dd") == 0
    ensures IndexOf(DefaultFormat, "mm") == 3
    ensures IndexOf(DefaultFormat, "yyyy") == 6
  {
    IndexOfIs(DefaultFormat, "dd", 0);
    DefaultMonthOffset();
    DefaultYearOffset();
  }

  lemma DefaultMonthOffset()
    ensures IndexOf(DefaultFormat, "mm") == 3
  {
    assert DefaultFormat == "dd." + "mm.yyyy";
    IndexOfIs("mm.yyyy", "mm", 0);
    IndexOfAfterPrefix("dd.", "mm.yyyy", "mm");
  }

  lemma DefaultYearOffset()
    ensures IndexOf(DefaultFormat, "yyyy") == 6
  {
    assert DefaultFormat == "dd.mm." + "yyyy";
    IndexOfIs("yyyy", "yyyy", 0);
    IndexOfAfterPrefix("dd.mm.", "yyyy", "yyyy");
  }

  /** The parser's loop visits the day, then the month, then the year. */
  lemma ApplyPartsInOrder(t: TimeValue, text: string, format: string)
    requires t.Valid()
    ensures ApplyParts(t, Parts, text, format)
            == ApplyPart(ApplyPart(ApplyPart(t, "dd", text, format), "mm", text, format), "yyyy", text, format)
  {
    assert Parts[..2] == ["dd", "mm"] && Parts[..2][..1] == ["dd"] && ["dd"][..0] == [];
  }

  /**
   * With the default pattern, the three tokens are read from offsets 0, 3 and 6. The year is
   * the last token, so a year of one to four characters is read whole.
   */
  lemma DefaultSlices(text: string, d: string, m: string, y: string)
    requires text == d + "." + m + "." + y && |d| == 2 && |m| == 2 && 1 <= |y| <= 4
    ensures PartValue(text, DefaultFormat, "dd") == ToNumber(d)
    ensures PartValue(text, DefaultFormat, "mm") == ToNumber(m)
    ensures PartValue(text, DefaultFormat, "yyyy") == ToNumber(y)
  {
    DefaultFormatOffsets();
    assert text[0..2] == d;
    assert text[3..5] == m;
    assert text[6..] == y;
  }

  /**
   * `stringToDate` on a text laid out like the default pattern: today's date, then `setDate`
   * with the day, `setMonth` with the month less one, `setFullYear` with the year.
   */
  lemma ParseDefaultAsWritten(text: string, d: string, m: string, y: string, today: Date)
    requires today.Valid()
    requires text == d + "." + m + "." + y && |d| == 2 && |m| == 2 && 1 <= |y| <= 4
    ensures ParseAsWritten(Some(text), DefaultFormat, today)
            == Some(SetFullYearOf(SetMonthOf(SetDateOf(Finite(today), ToNumber(d)),
                                             MinusOne(ToNumber(m))), ToNumber(y)))
  {
    DefaultSlices(text, d, m, y);
    ApplyPartsInOrder(Finite(today), text, DefaultFormat);
  }

  /** The pieces of a date written with the default pattern, and what they read back as. */
  lemma {:induction false} FormattedPieces(x: Date)
    requires x.Valid() && 0 <= x.year <= 9999
    ensures DateToFormat(Some(x), DefaultFormat)
            == TwoDigits(x.day) + "." + TwoDigits(x.month + 1) + "." + NatToString(x.year)
    ensures |TwoDigits(x.day)| == 2 && ToNumber(TwoDigits(x.day)) == Some(x.day)
    ensures |TwoDigits(x.month + 1)| == 2 && ToNumber(TwoDigits(x.month + 1)) == Some(x.month + 1)
    ensures 1 <= |NatToString(x.year)| <= 4 && ToNumber(NatToString(x.year)) == Some(x.year)
  {
    FormatDefaultLayout(x);
    TwoDigitsRoundTrip(x.day);
    TwoDigitsRoundTrip(x.month + 1);
    NatToStringAtMostFourDigits(x.year);
    NatToStringRoundTrip(x.year);
  }

  /**
   * With the default pattern and a year of at most four digits, reading back a written date
   * gives the date itself when its day is at most 28, whatever day today is.
   */
  lemma {:induction false} RoundTripAsWritten(x: Date, today: Date)
    requires x.Valid() && today.Valid() && 0 <= x.year <= 9999 && x.day <= 28
    ensures ParseAsWritten(Some(DateToFormat(Some(x), DefaultFormat)), DefaultFormat, today)
            == Some(Finite(x))
  {
    FormattedPieces(x);
    var d, m, y := TwoDigits(x.day), TwoDigits(x.month + 1), NatToString(x.year);
    ParseDefaultAsWritten(d + "." + m + "." + y, d, m, y, today);
    var t1 := today.SetDate(x.day);
    assert t1 == Date(today.year, today.month, x.day);
    var t2 := t1.SetMonth(x.month);
    assert t2 == Date(today.year, x.month, x.day);
    assert t2.SetFullYear(x.year) == x;
  }

  /** Out-of-range fields roll over rather than fail: "55.22.2018" read on 15 October 2026. */
  lemma ParseRollsOver()
    ensures ParseAsWritten(Some("55.22.2018"), DefaultFormat, Date(2026, 9, 15))
            == Some(Finite(Date(2018, 9, 24)))
  {
    ParseDefaultAsWritten("55.22.2018", "55", "22", "2018", Date(2026, 9, 15));
    RollOverNumbers();
    RollOverDates();
  }

  lemma RollOverNumbers()
    ensures ToNumber("55") == Some(55) && ToNumber("22") == Some(22) && ToNumber("2018") == Some(2018)
  {
    NatToStringRoundTrip(55);
    NatToStringRoundTrip(22);
    NatToStringRoundTrip(2018);
    assert NatToString(55) == "55" && NatToString(22) == "22" && NatToString(2018) == "2018";
  }

  lemma RollOverDates()
    ensures Date(2026, 9, 15).SetDate(55).SetMonth(21).SetFullYear(2018) == Date(2018, 9, 24)
  {
    assert Carry(2026, 9, 55) == Date(2026, 10, 24);
    assert MakeDate(2026, 21, 24) == Date(2027, 9, 24);
  }

  /**
   * A day past 28 can be lost: read on 10 February 2023, the text "31.01.2024" written for
   * 31 January 2024 first becomes 31 February 2023, that is 3 March, and keeps day 3 through
   * the later setters.
   */
  lemma ParseAsWrittenLosesLateDay(x: Date, today: Date)
    requires x == Date(2024, 0, 31) && today == Date(2023, 1, 10)
    ensures x.Valid() && today.Valid()
    ensures DateToFormat(Some(x), DefaultFormat) == "31.01.2024"
    ensures ParseAsWritten(Some(DateToFormat(Some(x), DefaultFormat)), DefaultFormat, today)
            == Some(Finite(Date(2024, 0, 3)))
  {
    FormatLateDay(x);
    ParseLateDay(today);
  }
  lemma ParseLateDay(today: Date)
    requires today == Date(2023, 1, 10)
    ensures ParseAsWritten(Some("31.01.2024"), DefaultFormat, today) == Some(Finite(Date(2024, 0, 3)))
  {
    ParseDefaultAsWritten("31.01.2024", "31", "01", "2024", today);
    LateDayNumbers();
    SetterChain(today, 31, 1, 2024);
    LateDayDates();
  }

  /** The parser's three setters on a finite date with numbers read for all three fields. */
  lemma SetterChain(today: Date, d: int, m: int, y: int)
    requires today.Valid()
    ensures SetFullYearOf(SetMonthOf(SetDateOf(Finite(today), Some(d)), MinusOne(Some(m))), Some(y))
            == Finite(today.SetDate(d).SetMonth(m - 1).SetFullYear(y))
  {
  }

  lemma FormatLateDay(x: Date)
    requires x == Date(2024, 0, 31)
    ensures DateToFormat(Some(x), DefaultFormat) == "31.01.2024"
  {
    FormatDefaultLayout(x);
    LateDayDigits(x);
  }

  lemma LateDayDigits(x: Date)
    requires x == Date(2024, 0, 31)
    ensures TwoDigits(x.day) + "." + TwoDigits(x.month + 1) + "." + NatToString(x.year) == "31.01.2024"
  {
    assert TwoDigits(31) == "31" && TwoDigits(1) == "01" && NatToString(2024) == "2024";
  }

  lemma LateDayNumbers()
    ensures ToNumber("31") == Some(31) && ToNumber("01") == Some(1) && ToNumber("2024") == Some(2024)
  {
    NatToStringRoundTrip(31);
    NatToStringRoundTrip(2024);
    assert NatToString(31) == "31" && NatToString(2024) == "2024";
    LeadingZero('1');
  }

  lemma LateDayDates()
    ensures Date(2023, 1, 10).SetDate(31).SetMonth(0).SetFullYear(2024) == Date(2024, 0, 3)
  {
    assert Carry(2023, 1, 31) == Date(2023, 2, 3);
  }

  /** The month-and-year pattern: no `dd`, `mm` at offset 0, `yyyy` at offset 3. */
  lemma MonthFormatOffsets()
    ensures IndexOf(MonthFormat, "dd") == -1
    ensures IndexOf(MonthFormat, "mm") == 0
    ensures IndexOf(MonthFormat, "yyyy") == 3
  {
    IndexOfAbsent(MonthFormat, "dd");
    IndexOfIs(MonthFormat, "mm", 0);
    assert MonthFormat == "mm." + "yyyy";
    IndexOfIs("yyyy", "yyyy", 0);
    IndexOfAfterPrefix("mm.", "yyyy", "yyyy");
  }

  /**
   * `stringToDate` with the pattern "mm.yyyy": `indexOf('dd')` is -1, so the day is read from
   * the last character of the text, which is the last digit of the year.
   */
  lemma MonthFormatAsWritten(text: string, m: string, y: string, today: Date)
    requires today.Valid()
    requires text == m + "." + y && |m| == 2 && |y| == 4
    ensures ParseAsWritten(Some(text), MonthFormat, today)
            == Some(SetFullYearOf(SetMonthOf(SetDateOf(Finite(today), ToNumber([y[3]])),
                                             MinusOne(ToNumber(m))), ToNumber(y)))
  {
    MonthFormatOffsets();
    assert text[6..7] == [y[3]];
    assert text[0..2] == m;
    assert text[3..7] == y;
    ApplyPartsInOrder(Finite(today), text, MonthFormat);
  }

  /**
   * A token missing from the pattern is read at offset -1, which `substr` takes from the end:
   * "05.2020" with "mm.yyyy" read on 15 October 2026 sets day 0 (the last digit of 2020),
   * that is 30 September, and ends as 30 May 2020 instead of a date in May with day 1.
   */
  lemma ParseAsWrittenReadsMissingDay()
    ensures ParseAsWritten(Some("05.2020"), MonthFormat, Date(2026, 9, 15))
            == Some(Finite(Date(2020, 4, 30)))
  {
    MonthFormatAsWritten("05.2020", "05", "2020", Date(2026, 9, 15));
    MissingDayNumbers();
    MissingDayDates();
  }

  lemma MissingDayNumbers()
    ensures ToNumber(['0']) == Some(0) && ToNumber("05") == Some(5) && ToNumber("2020") == Some(2020)
  {
    NatToStringRoundTrip(0);
    NatToStringRoundTrip(2020);
    assert NatToString(0) == "0" && NatToString(2020) == "2020";
    LeadingZero('5');
  }

  lemma MissingDayDates()
    ensures Date(2026, 9, 15).SetDate(0).SetMonth(4).SetFullYear(2020) == Date(2020, 4, 30)
  {
    assert Carry(2026, 9, 0) == Date(2026, 8, 30);
  }

  // ---------------------------------------------------------------------------------------
  // Parsing, corrected

  /** The setter of `part`, applied only when the pattern holds `part`. */
  function ApplyIfPresent(t: TimeValue, part: string, text: string, format: string): (r: TimeValue)
    requires t.Valid()
    ensures r.Valid()
    ensures IndexOf(format, part) == -1 ==> r == t
  {
    if IndexOf(format, part) < 0 then t else ApplyPart(t, part, text, format)
  }

  /**
   * The parser as evidently intended: the same slices, but tokens absent from the pattern are
   * not read, and the fields are applied to day 1 of today's month in the order year, month,
   * day, so that no intermediate date rolls over.
   */
  function ParseDate(text: Option<string>, format: string, today: Date): (r: Option<TimeValue>)
    requires today.Valid()
    ensures r.None? <==> text.None? || text.value == ""
    ensures r.Some? ==> r.value.Valid()
  {
    if text.None? || text.value == "" then None
    else
      var t := Finite(today.SetDate(1));
      var t := ApplyIfPresent(t, "yyyy", text.value, format);
      var t := ApplyIfPresent(t, "mm", text.value, format);
      Some(ApplyIfPresent(t, "dd", text.value, format))
  }

  /**
   * When the pattern holds all three tokens and they read as numbers, the corrected parser
   * gives `new Date(year, month - 1, day)` without the two-digit-year mapping: out-of-range
   * fields roll over, and in-range fields are kept as they are.
   */
  lemma {:induction false} ParseDateFields(text: string, format: string, today: Date, y: int, m: int, d: int)
    requires today.Valid() && text != ""
    requires IndexOf(format, "dd") >= 0 && IndexOf(format, "mm") >= 0 && IndexOf(format, "yyyy") >= 0
    requires PartValue(text, format, "yyyy") == Some(y)
    requires PartValue(text, format, "mm") == Some(m)
    requires PartValue(text, format, "dd") == Some(d)
    ensures ParseDate(Some(text), format, today) == Some(Finite(MakeDate(y, m - 1, d)))
  {
    var b := today.SetDate(1);
    assert b == Date(today.year, today.month, 1);
    var t1 := ApplyIfPresent(Finite(b), "yyyy", text, format);
    assert t1 == Finite(Date(y, today.month, 1));
    var t2 := ApplyIfPresent(t1, "mm", text, format);
    assert t2 == Finite(Date(y, today.month, 1).SetMonth(m - 1));
    assert ApplyIfPresent(t2, "dd", text, format) == Finite(Date(y, today.month, 1).SetMonth(m - 1).SetDate(d));
    SetMonthThenDate(y, today.month, m - 1, d);
  }

  /**
   * Corrected round trip: with the default pattern every date whose year is written with at
   * most four digits reads back.
   */
  lemma {:induction false} RoundTrip(x: Date, today: Date)
    requires x.Valid() && today.Valid() && 0 <= x.year <= 9999
    ensures ParseDate(Some(DateToFormat(Some(x), DefaultFormat)), DefaultFormat, today) == Some(Finite(x))
  {
    FormattedPieces(x);
    var d, m, y := TwoDigits(x.day), TwoDigits(x.month + 1), NatToString(x.year);
    DefaultSlices(d + "." + m + "." + y, d, m, y);
    DefaultFormatOffsets();
    ParseDateFields(d + "." + m + "." + y, DefaultFormat, today, x.year, x.month + 1, x.day);
  }

  /** "mm" then "yyyy" replaced in the month-and-year pattern. */
  lemma FillMonthFormat(m: string, y: string)
    requires AllDigits(m)
    ensures ReplaceFirst(ReplaceFirst(MonthFormat, "mm", m), "yyyy", y) == m + "." + y
  {
    assert MonthFormat == "mm" + ".yyyy";
    ReplaceAtStart("mm", ".yyyy", m);
    var p := m + ".";
    assert m + ".yyyy" == p + "yyyy";
    forall i | 0 <= i < |p| ensures p[i] != 'y' {
      if i < |m| { assert p[i] == m[i]; }
    }
    FillYear(p, y);
  }

  /** With the month-and-year pattern, a date is written as its month and year separated by a dot. */
  lemma MonthFormatLayout(x: Date)
    requires x.Valid() && x.year >= 0
    ensures DateToFormat(Some(x), MonthFormat) == TwoDigits(x.month + 1) + "." + NatToString(x.year)
  {
    var m, y := TwoDigits(x.month + 1), NatToString(x.year);
    FormatPieces(x, MonthFormat);
    MonthFormatOffsets();
    TwoDigitsRoundTrip(x.month + 1);
    FillMonthFormat(m, y);
  }

  /**
   * The corrected parser with the month-and-year pattern: the day is not read, so the result is
   * day 1 of the month and year written in the text, rolled over like `new Date(y, m - 1, 1)`.
   */
  lemma ParseDateMonthFormat(text: string, m: string, y: string, today: Date, mv: int, yv: int)
    requires today.Valid()
    requires text == m + "." + y && |m| == 2 && 1 <= |y| <= 4
    requires ToNumber(m) == Some(mv) && ToNumber(y) == Some(yv)
    ensures ParseDate(Some(text), MonthFormat, today) == Some(Finite(MakeDate(yv, mv - 1, 1)))
  {
    MonthFormatOffsets();
    assert text[0..2] == m;
    assert text[3..] == y;
    var b := today.SetDate(1);
    assert b == Date(today.year, today.month, 1);
    assert b.SetFullYear(yv) == Date(yv, today.month, 1);
  }

  /** The corrected parser on the month-and-year pattern: the month and year read back, with day 1. */
  lemma {:induction false} RoundTripMonthFormat(x: Date, today: Date)
    requires x.Valid() && today.Valid() && 0 <= x.year <= 9999
    ensures ParseDate(Some(DateToFormat(Some(x), MonthFormat)), MonthFormat, today)
            == Some(Finite(Date(x.year, x.month, 1)))
  {
    var m, y := TwoDigits(x.month + 1), NatToString(x.year);
    TwoDigitsRoundTrip(x.month + 1);
    NatToStringAtMostFourDigits(x.year);
    NatToStringRoundTrip(x.year);
    MonthFormatLayout(x);
    ParseDateMonthFormat(m + "." + y, m, y, today, x.month + 1, x.year);
  }
}

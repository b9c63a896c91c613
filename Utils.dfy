/** The date helpers of `src/utils.js`: `toLocalInputValue`, `parseDateInput`,
    `toDateOnlyString` and `startOfDay`. General `new Date(string)` parsing is the
    parameter `parse`. */
module Utils {
  import opened Wrappers
  import opened Calendar
  import opened DateText

  /** The values these helpers are called with: nothing (`undefined`), a string,
      or a `Date` object, which is either valid or an Invalid Date (`None`). */
  datatype DateInput = Absent | Text(s: string) | Instant(t: Option<DateTime>)

  /** JavaScript truthiness: `undefined` and the empty string are falsy; every
      `Date` object, valid or not, is truthy. */
  predicate Truthy(v: DateInput) {
    !(v.Absent? || v == Text(""))
  }

  /** `new Date(value)`. */
  function ToDate(v: DateInput, parse: string -> Option<DateTime>): Option<DateTime> {
    match v
    case Absent => None
    case Text(s) => parse(s)
    case Instant(t) => t
  }

  /** `new Date(year, month - 1, day)` built from a date-only string's fields. */
  function LocalDateOf(s: string): DateTime
    requires IsDateOnly(s)
  {
    var (y, mo, d) := DateOnlyFields(s);
    JsDate(y, mo - 1, d)
  }

  /** `toLocalInputValue(date)`: the local date-time text of `new Date(date)`;
      an Invalid Date prints `NaN` in every field. */
  function ToLocalInputValue(v: DateInput, parse: string -> Option<DateTime>): (r: string)
    ensures ToDate(v, parse).None? ==> r == "NaN-NaN-NaNTNaN:NaN"
  {
    match ToDate(v, parse)
    case None => "NaN-NaN-NaNTNaN:NaN"
    case Some(t) => FormatLocalDateTime(t)
  }

  /** For a valid date with a four-digit year, `toLocalInputValue` writes the
      `YYYY-MM-DDTHH:MM` form, whose fields read back as the date's own date,
      hour and minute. */
  lemma ToLocalInputValueFormat(v: DateInput, parse: string -> Option<DateTime>)
    requires ToDate(v, parse).Some? && 1000 <= ToDate(v, parse).value.date.year <= 9999
    ensures IsLocalDateTime(ToLocalInputValue(v, parse))
    ensures ReadLocalDateTime(ToLocalInputValue(v, parse)) == Some(ToDate(v, parse).value.(second := 0))
  {
    FormatLocalDateTimeRoundTrip(ToDate(v, parse).value);
  }

  /** `parseDateInput(value)`. */
  function ParseDateInput(v: DateInput, parse: string -> Option<DateTime>): (r: Option<DateTime>)
    ensures !Truthy(v) ==> r.None?
    ensures v.Instant? ==> r == v.t
    ensures v.Text? && IsDateOnly(v.s) ==> r.Some? && r.value.hour == 0 && r.value.minute == 0 && r.value.second == 0
    ensures v.Text? && v.s != "" && !IsDateOnly(v.s) ==> r == parse(v.s)
  {
    match v
    case Absent => None
    case Text(s) =>
      if s == "" then None
      else if IsDateOnly(s) then Some(LocalDateOf(s))
      else parse(s)
    case Instant(t) => t
  }

  /** `toDateOnlyString(value)`. */
  function ToDateOnlyString(v: DateInput, parse: string -> Option<DateTime>): (r: string)
    ensures !Truthy(v) ==> r == ""
    ensures v.Text? && IsDateOnly(v.s) ==> r == v.s
    ensures v.Text? && HasDateTimePrefix(v.s) ==> r == v.s[..10]
    ensures Truthy(v) && !(v.Text? && (IsDateOnly(v.s) || HasDateTimePrefix(v.s)))
      ==> (r == "" <==> ToDate(v, parse).None?)
  {
    if !Truthy(v) then ""
    else if v.Text? && IsDateOnly(v.s) then v.s
    else if v.Text? && HasDateTimePrefix(v.s) then v.s[..10]
    else
      match ToDate(v, parse)
      case None => ""
      case Some(t) => FormatDateOnly(t.date)
  }

  /** Past the empty value and the two string shortcuts, `toDateOnlyString`
      writes the parsed date: the year as `String` gives it, then the 1-based
      month and the day in two digits each; with a four-digit year the text is
      `YYYY-MM-DD` and its fields are the date's own. */
  lemma ToDateOnlyStringFallback(v: DateInput, parse: string -> Option<DateTime>)
    requires Truthy(v) && !(v.Text? && (IsDateOnly(v.s) || HasDateTimePrefix(v.s)))
    requires ToDate(v, parse).Some?
    ensures var r, d := ToDateOnlyString(v, parse), ToDate(v, parse).value.date;
      && |r| == |Decimal.IntToString(d.year)| + 6 && r[..|r| - 6] == Decimal.IntToString(d.year)
      && r[|r| - 6] == '-' && r[|r| - 3] == '-'
      && TwoDigitsAt(r, |r| - 5, d.month + 1) && TwoDigitsAt(r, |r| - 2, d.day)
    ensures var r, d := ToDateOnlyString(v, parse), ToDate(v, parse).value.date;
      1000 <= d.year <= 9999 ==> IsDateOnly(r) && DateOnlyFields(r) == (d.year, d.month + 1, d.day)
  {
    var d := ToDate(v, parse).value.date;
    FormatDateOnlyFields(d);
    if 1000 <= d.year <= 9999 {
      FormatDateOnlyShape(d);
    }
  }

  /** `startOfDay(dateValue)`: midnight of the day, built with
      `new Date(year, month, day)` from the date-only string's fields or from
      the parsed date's fields. */
  function StartOfDay(v: DateInput, parse: string -> Option<DateTime>): (r: Option<DateTime>)
    ensures r.Some? ==> r.value.hour == 0 && r.value.minute == 0 && r.value.second == 0
    ensures ToDate(v, parse).None? && !(v.Text? && IsDateOnly(v.s)) ==> r.None?
  {
    if v.Text? && IsDateOnly(v.s) then Some(LocalDateOf(v.s))
    else
      match ToDate(v, parse)
      case None => None
      case Some(t) => Some(JsDate(t.date.year, t.date.month, t.date.day))
  }

  /** On a date-only string naming a real day of a year from 100 on,
      `parseDateInput` gives midnight of exactly that day. */
  lemma ParseDateInputDateOnly(s: string, parse: string -> Option<DateTime>)
    requires IsDateOnly(s)
    requires var (y, mo, d) := DateOnlyFields(s); 100 <= y && 1 <= mo <= 12 && d <= DaysInMonth(y, mo - 1) && 1 <= d
    ensures var (y, mo, d) := DateOnlyFields(s); ParseDateInput(Text(s), parse) == Some(Midnight(Day(y, mo - 1, d)))
  {
    var (y, mo, d) := DateOnlyFields(s);
    JsDateExact(y, mo - 1, d);
  }

  /** A date-only string whose year is below 100 names a day of the twentieth
      century: `0026-01-01` becomes 1 January 1926. */
  lemma ParseDateInputTwoDigitYear(s: string, parse: string -> Option<DateTime>)
    requires IsDateOnly(s)
    requires var (y, mo, d) := DateOnlyFields(s); y <= 99 && 1 <= mo <= 12 && 1 <= d <= DaysInMonth(1900 + y, mo - 1)
    ensures var (y, mo, d) := DateOnlyFields(s); ParseDateInput(Text(s), parse) == Some(Midnight(Day(1900 + y, mo - 1, d)))
  {
    var (y, mo, d) := DateOnlyFields(s);
    assert ParseDateInput(Text(s), parse) == Some(JsDate(y, mo - 1, d));
    JsDateTwoDigitYear(y, mo - 1, d);
  }

  /** A date-only string naming a day past the end of its month is not rejected:
      it rolls over into the next month, so `2026-02-30` becomes 2 March 2026. */
  lemma ParseDateInputDayOverflow(s: string, parse: string -> Option<DateTime>)
    requires IsDateOnly(s)
    requires var (y, mo, d) := DateOnlyFields(s);
      100 <= y && 1 <= mo <= 11 && DaysInMonth(y, mo - 1) < d <= DaysInMonth(y, mo - 1) + DaysInMonth(y, mo)
    ensures var (y, mo, d) := DateOnlyFields(s);
      ParseDateInput(Text(s), parse) == Some(Midnight(Day(y, mo, d - DaysInMonth(y, mo - 1))))
  {
    var (y, mo, d) := DateOnlyFields(s);
    assert ParseDateInput(Text(s), parse) == Some(JsDate(y, mo - 1, d));
    JsDateDayOverflow(y, mo - 1, d);
  }

  /** `startOfDay` and `parseDateInput` build the same date from a date-only string. */
  lemma StartOfDayAgreesOnDateOnly(s: string, parse: string -> Option<DateTime>)
    requires IsDateOnly(s)
    ensures StartOfDay(Text(s), parse) == ParseDateInput(Text(s), parse)
  {
  }

  /** `toDateOnlyString` gives either the empty string or a `YYYY-MM-DD` string
      when the date it formats has a four-digit year, and is then idempotent. */
  lemma ToDateOnlyStringIdempotent(v: DateInput, parse: string -> Option<DateTime>)
    requires ToDate(v, parse).Some? ==> 1000 <= ToDate(v, parse).value.date.year <= 9999
    ensures var r := ToDateOnlyString(v, parse);
      (r == "" || IsDateOnly(r)) && ToDateOnlyString(Text(r), parse) == r
  {
    var r := ToDateOnlyString(v, parse);
    if Truthy(v) && !(v.Text? && IsDateOnly(v.s)) && !(v.Text? && HasDateTimePrefix(v.s)) && ToDate(v, parse).Some? {
      FormatDateOnlyShape(ToDate(v, parse).value.date);
    }
  }

  /** Writing a valid date with a four-digit year as `YYYY-MM-DD` and parsing the
      text back with `parseDateInput` gives the date's `startOfDay`. */
  lemma DateOnlyRoundTrip(t: DateTime, parse: string -> Option<DateTime>)
    requires 1000 <= t.date.year <= 9999
    ensures ParseDateInput(Text(ToDateOnlyString(Instant(Some(t)), parse)), parse) == Some(Midnight(t.date))
    ensures StartOfDay(Instant(Some(t)), parse) == Some(Midnight(t.date))
  {
    FormatDateOnlyShape(t.date);
    ParseDateInputDateOnly(FormatDateOnly(t.date), parse);
    JsDateExact(t.date.year, t.date.month, t.date.day);
  }
}

/** The two text forms the tracker writes and recognises: the date-only form
    `YYYY-MM-DD` (the regular expression `^\d{4}-\d{2}-\d{2}$`) and the local
    date-time form `YYYY-MM-DDTHH:MM` that `toLocalDateTimeString` and
    `toLocalInputValue` both produce. */
module DateText {
  import opened Wrappers
  import opened Decimal
  import opened Calendar

  /** `/^\d{4}-\d{2}-\d{2}$/.test(s)`. */
  predicate IsDateOnly(s: string) {
    |s| == 10 && AllDigits(s[0..4]) && s[4] == '-' && AllDigits(s[5..7]) && s[7] == '-' && AllDigits(s[8..10])
  }

  /** `/^(\d{4}-\d{2}-\d{2})T/` matches `s`. */
  predicate HasDateTimePrefix(s: string) {
    |s| >= 11 && IsDateOnly(s[..10]) && s[10] == 'T'
  }

  /** The shape `\d{4}-\d{2}-\d{2}T\d{2}:\d{2}`. */
  predicate IsLocalDateTime(s: string) {
    |s| == 16 && HasDateTimePrefix(s) && AllDigits(s[11..13]) && s[13] == ':' && AllDigits(s[14..16])
  }

  /** `${year}-${month}-${day}` with the month and the day padded to two digits;
      the year is printed as `String(year)` and is not padded. */
  function FormatDateOnly(d: Date): string {
    IntToString(d.year) + "-" + Pad2(d.month + 1) + "-" + Pad2(d.day)
  }

  /** `${year}-${month}-${day}T${hour}:${minute}`: the format of both
      `toLocalDateTimeString` and `toLocalInputValue`; seconds are dropped. */
  function FormatLocalDateTime(t: DateTime): string {
    FormatDateOnly(t.date) + "T" + Pad2(t.hour) + ":" + Pad2(t.minute)
  }

  /** The two characters of `s` at `i` are digits that read as `v`. */
  predicate TwoDigitsAt(s: string, i: int, v: nat) {
    0 <= i && i + 2 <= |s| && IsDigit(s[i]) && IsDigit(s[i + 1])
    && 10 * DigitValue(s[i]) + DigitValue(s[i + 1]) == v
  }

  /** Whatever the year, the date-only text is the year as `String` gives it,
      then two two-digit fields, each after a dash, that read back as the
      1-based month and the day. */
  lemma FormatDateOnlyFields(d: Date)
    ensures |FormatDateOnly(d)| == |IntToString(d.year)| + 6
    ensures FormatDateOnly(d)[..|IntToString(d.year)|] == IntToString(d.year)
    ensures FormatDateOnly(d)[|IntToString(d.year)|] == '-'
    ensures FormatDateOnly(d)[|IntToString(d.year)| + 3] == '-'
    ensures TwoDigitsAt(FormatDateOnly(d), |IntToString(d.year)| + 1, d.month + 1)
    ensures TwoDigitsAt(FormatDateOnly(d), |IntToString(d.year)| + 4, d.day)
  {
    Pad2Exact(d.month + 1);
    Pad2Exact(d.day);
    JoinedFields(IntToString(d.year), '-', Pad2(d.month + 1), '-', Pad2(d.day));
  }

  /** Whatever the year, the local date-time text is the date-only text, then
      `T`, the hour, `:` and the minute, each in two digits that read back as
      its value. */
  lemma FormatLocalDateTimeFields(t: DateTime)
    ensures |FormatLocalDateTime(t)| == |FormatDateOnly(t.date)| + 6
    ensures FormatLocalDateTime(t)[..|FormatDateOnly(t.date)|] == FormatDateOnly(t.date)
    ensures FormatLocalDateTime(t)[|FormatDateOnly(t.date)|] == 'T'
    ensures FormatLocalDateTime(t)[|FormatDateOnly(t.date)| + 3] == ':'
    ensures TwoDigitsAt(FormatLocalDateTime(t), |FormatDateOnly(t.date)| + 1, t.hour)
    ensures TwoDigitsAt(FormatLocalDateTime(t), |FormatDateOnly(t.date)| + 4, t.minute)
  {
    TimeFields(FormatDateOnly(t.date), t.hour, t.minute);
  }

  lemma TimeFields(date: string, h: nat, m: nat)
    requires h < 100 && m < 100
    ensures var s := date + "T" + Pad2(h) + ":" + Pad2(m);
      && |s| == |date| + 6 && s[..|date|] == date && s[|date|] == 'T' && s[|date| + 3] == ':'
      && TwoDigitsAt(s, |date| + 1, h) && TwoDigitsAt(s, |date| + 4, m)
  {
    Pad2Exact(h);
    Pad2Exact(m);
    JoinedFields(date, 'T', Pad2(h), ':', Pad2(m));
  }

  /** Where the parts of `a`, a separator, two digits, a separator and two
      digits sit in the joined text. */
  lemma JoinedFields(a: string, x: char, b: string, y: char, c: string)
    requires |b| == 2 && |c| == 2 && AllDigits(b) && AllDigits(c)
    ensures var s := a + [x] + b + [y] + c;
      && |s| == |a| + 6 && s[..|a|] == a && s[|a|] == x && s[|a| + 3] == y
      && TwoDigitsAt(s, |a| + 1, DigitsValue(b)) && TwoDigitsAt(s, |a| + 4, DigitsValue(c))
  {
    var s := a + [x] + b + [y] + c;
    assert s[..|a|] == a;
    TwoDigitsValue(b);
    TwoDigitsValue(c);
  }

  lemma TwoDigitsValue(b: string)
    requires |b| == 2 && AllDigits(b)
    ensures DigitsValue(b) == 10 * DigitValue(b[0]) + DigitValue(b[1])
  {
    var h := b[..|b| - 1];
    assert h[..|h| - 1] == [] && h[0] == b[0];
    assert DigitsValue(h) == DigitValue(b[0]);
  }

  /** The numbers `value.split('-').map(Number)` gives for a date-only string. */
  function DateOnlyFields(s: string): (int, int, int)
    requires IsDateOnly(s)
  {
    (DigitsValue(s[0..4]), DigitsValue(s[5..7]), DigitsValue(s[8..10]))
  }

  /** An independent reading of the local date-time form back into a time at
      second 0: `None` unless the text has the shape and the numbers name a real
      day and time. */
  function ReadLocalDateTime(s: string): Option<DateTime> {
    if !IsLocalDateTime(s) then None
    else
      var (y, mo, d) := DateOnlyFields(s[..10]);
      var h, mi := DigitsValue(s[11..13]), DigitsValue(s[14..16]);
      if 1 <= mo <= 12 && 1 <= d <= DaysInMonth(y, mo - 1) && h < 24 && mi < 60
      then Some(Stamp(Day(y, mo - 1, d), h, mi, 0))
      else None
  }

  /** A four-digit and two two-digit fields joined by dashes have the date-only
      shape, and read back as their values. */
  lemma DateOnlyParts(a: string, b: string, c: string)
    requires |a| == 4 && |b| == 2 && |c| == 2 && AllDigits(a) && AllDigits(b) && AllDigits(c)
    ensures IsDateOnly(a + "-" + b + "-" + c)
    ensures DateOnlyFields(a + "-" + b + "-" + c) == (DigitsValue(a), DigitsValue(b), DigitsValue(c))
  {
    var s := a + "-" + b + "-" + c;
    assert |s| == 10 && s[4] == '-' && s[7] == '-';
    assert s[0..4] == a;
    assert s[5..7] == b;
    assert s[8..10] == c;
  }

  /** For a four-digit year the date-only text has the `YYYY-MM-DD` shape and its
      fields are the year, the 1-based month and the day. */
  lemma FormatDateOnlyShape(d: Date)
    requires 1000 <= d.year <= 9999
    ensures IsDateOnly(FormatDateOnly(d))
    ensures DateOnlyFields(FormatDateOnly(d)) == (d.year, d.month + 1, d.day)
  {
    FourDigits(d.year);
    Pad2Exact(d.month + 1);
    Pad2Exact(d.day);
    DateOnlyParts(IntToString(d.year), Pad2(d.month + 1), Pad2(d.day));
  }

  /** A date-only text, `T`, two digits, `:` and two digits have the local
      date-time shape, and read back as those parts. */
  lemma LocalDateTimeParts(date: string, h: string, m: string)
    requires IsDateOnly(date) && |h| == 2 && |m| == 2 && AllDigits(h) && AllDigits(m)
    ensures IsLocalDateTime(date + "T" + h + ":" + m)
    ensures var s := date + "T" + h + ":" + m; s[..10] == date && s[11..13] == h && s[14..16] == m
  {
    var s := date + "T" + h + ":" + m;
    assert |s| == 16 && s[10] == 'T' && s[13] == ':';
    assert s[..10] == date;
    assert s[11..13] == h;
    assert s[14..16] == m;
  }

  /** For a four-digit year the local date-time text has the
      `YYYY-MM-DDTHH:MM` shape, and reading it back gives the same time with the
      seconds dropped. */
  lemma FormatLocalDateTimeRoundTrip(t: DateTime)
    requires 1000 <= t.date.year <= 9999
    ensures IsLocalDateTime(FormatLocalDateTime(t))
    ensures ReadLocalDateTime(FormatLocalDateTime(t)) == Some(t.(second := 0))
  {
    FormatDateOnlyShape(t.date);
    Pad2Exact(t.hour);
    Pad2Exact(t.minute);
    LocalDateTimeParts(FormatDateOnly(t.date), Pad2(t.hour), Pad2(t.minute));
  }

  /** Two times that differ in their date, hour or minute never print the same. */
  lemma FormatLocalDateTimeInjective(t: DateTime, u: DateTime)
    requires 1000 <= t.date.year <= 9999 && 1000 <= u.date.year <= 9999
    requires FormatLocalDateTime(t) == FormatLocalDateTime(u)
    ensures t.date == u.date && t.hour == u.hour && t.minute == u.minute
  {
    FormatLocalDateTimeRoundTrip(t);
    FormatLocalDateTimeRoundTrip(u);
  }
}

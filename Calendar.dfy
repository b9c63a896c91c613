/** A timezone-free proleptic Gregorian calendar: the local date and time a
    JavaScript `Date` reports through `getFullYear`, `getMonth` (0-based),
    `getDate`, `getHours`, `getMinutes` and `getSeconds`, and the two ways the
    tracker moves through it: `setMinutes(getMinutes() + n)` and the
    `new Date(year, monthIndex, day)` constructor. */
module Calendar {

  predicate IsLeapYear(y: int) {
    (y % 4 == 0 && y % 100 != 0) || y % 400 == 0
  }

  function DaysInMonth(y: int, m: int): (n: int)
    requires 0 <= m < 12
    ensures 28 <= n <= 31
  {
    if m == 1 then (if IsLeapYear(y) then 29 else 28)
    else if m == 3 || m == 5 || m == 8 || m == 10 then 30
    else 31
  }

  /** A calendar day; `month` is 0-based as in `Date.prototype.getMonth`. */
  datatype Day = Day(year: int, month: int, day: int) {
    predicate Valid() {
      0 <= month < 12 && 1 <= day <= DaysInMonth(year, month)
    }
  }

  type Date = d: Day | d.Valid() witness Day(1970, 0, 1)

  /** A calendar day with a time of day, to the second. */
  datatype Stamp = Stamp(date: Date, hour: int, minute: int, second: int) {
    predicate Valid() {
      0 <= hour < 24 && 0 <= minute < 60 && 0 <= second < 60
    }
  }

  type DateTime = t: Stamp | t.Valid() witness Stamp(Day(1970, 0, 1), 0, 0, 0)

  function NextDay(d: Date): Date {
    if d.day < DaysInMonth(d.year, d.month) then d.(day := d.day + 1)
    else if d.month < 11 then Day(d.year, d.month + 1, 1)
    else Day(d.year + 1, 0, 1)
  }

  function PrevDay(d: Date): Date {
    if d.day > 1 then d.(day := d.day - 1)
    else if d.month > 0 then Day(d.year, d.month - 1, DaysInMonth(d.year, d.month - 1))
    else Day(d.year - 1, 11, 31)
  }

  lemma PrevNextInverse(d: Date)
    ensures PrevDay(NextDay(d)) == d
    ensures NextDay(PrevDay(d)) == d
  {
  }

  /** The day `k` days after `d` (before it when `k` is negative). */
  function AddDays(d: Date, k: int): Date
    decreases if k < 0 then -k else k
  {
    if k == 0 then d
    else if k > 0 then AddDays(NextDay(d), k - 1)
    else AddDays(PrevDay(d), k + 1)
  }

  lemma {:induction false} AddDaysAfterNext(d: Date, c: int)
    ensures AddDays(NextDay(d), c) == AddDays(d, c + 1)
  {
    if c < 0 {
      PrevNextInverse(d);
    }
  }

  lemma {:induction false} AddDaysAfterPrev(d: Date, c: int)
    ensures AddDays(PrevDay(d), c) == AddDays(d, c - 1)
  {
    if c > 0 {
      PrevNextInverse(d);
    }
  }

  /** Moving by `a` days and then by `b` days is moving by `a + b` days. */
  lemma {:induction false} AddDaysAdd(d: Date, a: int, b: int)
    ensures AddDays(AddDays(d, a), b) == AddDays(d, a + b)
    decreases if a < 0 then -a else a
  {
    if a > 0 {
      AddDaysAdd(NextDay(d), a - 1, b);
      AddDaysAfterNext(d, a - 1 + b);
    } else if a < 0 {
      AddDaysAdd(PrevDay(d), a + 1, b);
      AddDaysAfterPrev(d, a + 1 + b);
    }
  }

  /** Inside one month, counting `day - 1` days on from the first of the month
      lands on `day`. */
  lemma {:induction false} AddDaysFromFirst(y: int, m: int, day: int)
    requires 0 <= m < 12 && 1 <= day <= DaysInMonth(y, m)
    ensures AddDays(Day(y, m, 1), day - 1) == Day(y, m, day)
  {
    if day > 1 {
      AddDaysFromFirst(y, m, day - 1);
      AddDaysAdd(Day(y, m, 1), day - 2, 1);
    }
  }

  // ------------------------------------------------------------ day numbers

  /** Days from 1 January of year 0 to 1 January of year `y` (negative before year 0). */
  function DaysBeforeYear(y: int): int {
    365 * y + (y + 3) / 4 - (y + 99) / 100 + (y + 399) / 400
  }

  lemma Step4(y: int)
    ensures (y + 4) / 4 == (y + 3) / 4 + (if y % 4 == 0 then 1 else 0)
  {
  }

  lemma Step100(y: int)
    ensures (y + 100) / 100 == (y + 99) / 100 + (if y % 100 == 0 then 1 else 0)
  {
  }

  lemma Step400(y: int)
    ensures (y + 400) / 400 == (y + 399) / 400 + (if y % 400 == 0 then 1 else 0)
  {
  }

  lemma Divides(y: int)
    ensures y % 100 == 0 ==> y % 4 == 0
    ensures y % 400 == 0 ==> y % 100 == 0
  {
    if y % 100 == 0 {
      var q := y / 100;
      assert y == 4 * (25 * q);
    }
    if y % 400 == 0 {
      var q := y / 400;
      assert y == 100 * (4 * q);
    }
  }

  lemma DaysBeforeYearStep(y: int)
    ensures DaysBeforeYear(y + 1) == DaysBeforeYear(y) + (if IsLeapYear(y) then 366 else 365)
  {
    Step4(y);
    Step100(y);
    Step400(y);
    Divides(y);
    var a, b, c := (y + 4) / 4 - (y + 3) / 4, (y + 100) / 100 - (y + 99) / 100, (y + 400) / 400 - (y + 399) / 400;
    assert DaysBeforeYear(y + 1) == DaysBeforeYear(y) + 365 + a - b + c;
    assert a - b + c == if IsLeapYear(y) then 1 else 0;
  }

  /** Days from 1 January of year `y` to the first of month `m`. */
  function DaysBeforeMonth(y: int, m: int): int
    requires 0 <= m <= 12
  {
    if m == 0 then 0 else DaysBeforeMonth(y, m - 1) + DaysInMonth(y, m - 1)
  }

  lemma DaysInYear(y: int)
    ensures DaysBeforeMonth(y, 12) == if IsLeapYear(y) then 366 else 365
  {
    assert DaysBeforeMonth(y, 1) == 31;
    assert DaysBeforeMonth(y, 2) == 31 + DaysInMonth(y, 1);
    assert DaysBeforeMonth(y, 3) == 62 + DaysInMonth(y, 1);
    assert DaysBeforeMonth(y, 4) == 92 + DaysInMonth(y, 1);
    assert DaysBeforeMonth(y, 5) == 123 + DaysInMonth(y, 1);
    assert DaysBeforeMonth(y, 6) == 153 + DaysInMonth(y, 1);
    assert DaysBeforeMonth(y, 7) == 184 + DaysInMonth(y, 1);
    assert DaysBeforeMonth(y, 8) == 215 + DaysInMonth(y, 1);
    assert DaysBeforeMonth(y, 9) == 245 + DaysInMonth(y, 1);
    assert DaysBeforeMonth(y, 10) == 276 + DaysInMonth(y, 1);
    assert DaysBeforeMonth(y, 11) == 306 + DaysInMonth(y, 1);
  }

  /** The number of a day counted from 1 January of year 0. */
  function DayNumber(d: Date): int {
    DaysBeforeYear(d.year) + DaysBeforeMonth(d.year, d.month) + d.day - 1
  }

  lemma NextDayNumber(d: Date)
    ensures DayNumber(NextDay(d)) == DayNumber(d) + 1
  {
    if d.day == DaysInMonth(d.year, d.month) && d.month == 11 {
      DaysInYear(d.year);
      DaysBeforeYearStep(d.year);
    }
  }

  lemma {:induction false} AddDaysNumber(d: Date, k: int)
    ensures DayNumber(AddDays(d, k)) == DayNumber(d) + k
    decreases if k < 0 then -k else k
  {
    if k > 0 {
      AddDaysNumber(NextDay(d), k - 1);
      NextDayNumber(d);
    } else if k < 0 {
      AddDaysNumber(PrevDay(d), k + 1);
      PrevNextInverse(d);
      NextDayNumber(PrevDay(d));
    }
  }

  lemma {:induction false} DaysBeforeYearMonotone(y: int, z: int)
    requires y <= z
    ensures DaysBeforeYear(y) <= DaysBeforeYear(z)
    decreases z - y
  {
    if y < z {
      DaysBeforeYearStep(y);
      DaysBeforeYearMonotone(y + 1, z);
    }
  }

  lemma {:induction false} DaysBeforeMonthMonotone(y: int, m: int, n: int)
    requires 0 <= m <= n <= 12
    ensures DaysBeforeMonth(y, m) + (n - m) * 28 <= DaysBeforeMonth(y, n)
    decreases n - m
  {
    if m < n {
      DaysBeforeMonthMonotone(y, m, n - 1);
    }
  }

  /** A day's number lies within its year and its month. */
  lemma DayNumberBounds(d: Date)
    ensures DaysBeforeYear(d.year) + DaysBeforeMonth(d.year, d.month) <= DayNumber(d)
    ensures DayNumber(d) < DaysBeforeYear(d.year) + DaysBeforeMonth(d.year, d.month + 1)
    ensures DaysBeforeYear(d.year) <= DayNumber(d) < DaysBeforeYear(d.year + 1)
  {
    DaysBeforeMonthMonotone(d.year, 0, d.month);
    DaysBeforeMonthMonotone(d.year, d.month + 1, 12);
    DaysInYear(d.year);
    DaysBeforeYearStep(d.year);
  }

  lemma SameYear(a: Date, b: Date)
    requires DayNumber(a) == DayNumber(b)
    ensures a.year == b.year
  {
    DayNumberBounds(a);
    DayNumberBounds(b);
    if a.year < b.year {
      DaysBeforeYearMonotone(a.year + 1, b.year);
    } else if b.year < a.year {
      DaysBeforeYearMonotone(b.year + 1, a.year);
    }
  }

  /** Distinct days have distinct numbers. */
  lemma DayNumberInjective(a: Date, b: Date)
    requires DayNumber(a) == DayNumber(b)
    ensures a == b
  {
    SameYear(a, b);
    DayNumberBounds(a);
    DayNumberBounds(b);
    if a.month < b.month {
      DaysBeforeMonthMonotone(a.year, a.month + 1, b.month);
    } else if b.month < a.month {
      DaysBeforeMonthMonotone(a.year, b.month + 1, a.month);
    }
  }
  // ---------------------------------------------------------------- minutes

  function MinuteOfDay(t: DateTime): int {
    t.hour * 60 + t.minute
  }

  /** The minutes from midnight of day number 0 to `t`, seconds left aside. */
  function AbsoluteMinute(t: DateTime): int {
    DayNumber(t.date) * 1440 + MinuteOfDay(t)
  }

  /** Two times at the same absolute minute agree in day, hour and minute. */
  lemma AbsoluteMinuteInjective(t: DateTime, u: DateTime)
    requires AbsoluteMinute(t) == AbsoluteMinute(u)
    ensures t.date == u.date && t.hour == u.hour && t.minute == u.minute
  {
    DivModUnique(AbsoluteMinute(t), DayNumber(t.date), MinuteOfDay(t));
    DivModUnique(AbsoluteMinute(u), DayNumber(u.date), MinuteOfDay(u));
    DayNumberInjective(t.date, u.date);
  }

  /** `setMinutes(getMinutes() + n)`: the time exactly `n` minutes later
      (earlier when `n` is negative), carries rolling over into hours, days,
      months and years; the seconds stay as they were. */
  function AddMinutes(t: DateTime, n: int): (r: DateTime)
    ensures AbsoluteMinute(r) == AbsoluteMinute(t) + n
    ensures r.second == t.second
  {
    var total := MinuteOfDay(t) + n;
    var rest := total % 1440;
    AddDaysNumber(t.date, total / 1440);
    Stamp(AddDays(t.date, total / 1440), rest / 60, rest % 60, t.second)
  }

  lemma DivModUnique(n: int, q: int, r: int)
    requires n == 1440 * q + r && 0 <= r < 1440
    ensures n / 1440 == q && n % 1440 == r
  {
  }

  /** Adding `a` minutes and then `b` minutes is adding `a + b` minutes. */
  lemma AddMinutesAdd(t: DateTime, a: int, b: int)
    ensures AddMinutes(AddMinutes(t, a), b) == AddMinutes(t, a + b)
  {
    AbsoluteMinuteInjective(AddMinutes(AddMinutes(t, a), b), AddMinutes(t, a + b));
  }

  /** Going `n` minutes forward and `n` back returns to the same time. */
  lemma AddMinutesInverse(t: DateTime, n: int)
    ensures AddMinutes(AddMinutes(t, n), -n) == t
  {
    AbsoluteMinuteInjective(AddMinutes(AddMinutes(t, n), -n), t);
  }

  function Midnight(d: Date): DateTime {
    Stamp(d, 0, 0, 0)
  }

  /** `new Date(year, monthIndex, day)` in local time: a year from 0 to 99 means
      1900 plus that year, a month index outside 0..11 moves into an earlier or
      later year, and a day outside the month moves into an earlier or later
      month; the time is midnight. */
  function JsDate(year: int, monthIndex: int, day: int): (r: DateTime)
    ensures r.hour == 0 && r.minute == 0 && r.second == 0
    ensures var y := (if 0 <= year <= 99 then 1900 + year else year) + monthIndex / 12;
      DayNumber(r.date) == DaysBeforeYear(y) + DaysBeforeMonth(y, monthIndex % 12) + day - 1
  {
    var y := (if 0 <= year <= 99 then 1900 + year else year) + monthIndex / 12;
    var first: Date := Day(y, monthIndex % 12, 1);
    AddDaysNumber(first, day - 1);
    Midnight(AddDays(first, day - 1))
  }

  /** For an in-range year, month and day the constructor builds exactly that day. */
  lemma JsDateExact(year: int, monthIndex: int, day: int)
    requires !(0 <= year <= 99)
    requires 0 <= monthIndex < 12 && 1 <= day <= DaysInMonth(year, monthIndex)
    ensures JsDate(year, monthIndex, day) == Midnight(Day(year, monthIndex, day))
  {
    assert monthIndex / 12 == 0 && monthIndex % 12 == monthIndex;
    AddDaysFromFirst(year, monthIndex, day);
  }

  /** A year from 0 to 99 is taken as 1900 plus that year. */
  lemma JsDateTwoDigitYear(year: int, monthIndex: int, day: int)
    requires 0 <= year <= 99
    requires 0 <= monthIndex < 12 && 1 <= day <= DaysInMonth(1900 + year, monthIndex)
    ensures JsDate(year, monthIndex, day) == Midnight(Day(1900 + year, monthIndex, day))
  {
    assert monthIndex / 12 == 0 && monthIndex % 12 == monthIndex;
    AddDaysFromFirst(1900 + year, monthIndex, day);
  }

  /** A day past the end of its month rolls over into the next month. */
  lemma JsDateDayOverflow(year: int, monthIndex: int, day: int)
    requires !(0 <= year <= 99) && 0 <= monthIndex < 11
    requires DaysInMonth(year, monthIndex) < day <= DaysInMonth(year, monthIndex) + DaysInMonth(year, monthIndex + 1)
    ensures JsDate(year, monthIndex, day) == Midnight(Day(year, monthIndex + 1, day - DaysInMonth(year, monthIndex)))
  {
    DayNumberInjective(JsDate(year, monthIndex, day).date, Day(year, monthIndex + 1, day - DaysInMonth(year, monthIndex)));
  }
}

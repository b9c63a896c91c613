/** The pure part of the time-off store in `src/composables/usePtoStore.js`: its
    constants, the event normalizer, fiscal years, what `ensureBalanceForYear`
    makes of a year's balance, what `usageStats` sums, and the list operations
    behind the event mutations. The state itself, and the loops, are in module
    `Store`. */
module PtoModel {
  import opened Wrappers
  import opened Decimal
  import opened Calendar
  import opened DateText

  // ---------------------------------------------------------------- constants

  /** The allocatable buckets, in display order. */
  const BucketKeys: seq<string> := ["vpp", "vacation", "sick", "personal"]

  /** The event types usage is counted for: every bucket and `holiday`. */
  const EventTypes: seq<string> := ["vpp", "vacation", "sick", "personal", "holiday"]

  const ThemeModes: seq<string> := ["system", "light", "dark"]

  const DefaultEventColor: string := "#1a73e8"

  /** The default allocation of hours per fiscal year. */
  const DefaultBalances: map<string, real> :=
    map["vacation" := 112.5, "vpp" := 37.5, "sick" := 75.0, "personal" := 15.0]

  /** `PTO_COLORS[kind]`. */
  function PtoColor(kind: string): (c: Option<string>)
    ensures c.Some? <==> kind in EventTypes
    ensures c.Some? ==> c.value != ""
  {
    if kind == "vacation" then Some("#2980B9")
    else if kind == "vpp" then Some("#8E44AD")
    else if kind == "sick" then Some("#C0392B")
    else if kind == "personal" then Some("#27AE60")
    else if kind == "holiday" then Some("#F9AB00")
    else None
  }

  /** A string-valued property that JavaScript treats as true: present and not empty. */
  predicate Truthy(o: Option<string>) {
    o.Some? && o.value != ""
  }

  // ------------------------------------------------------------------- events

  /** `extendedProps`: the event type, the hours (`None` when not a number), and
      every other property, kept as it is. */
  datatype Props = Props(kind: Option<string>, hours: Option<real>, others: map<string, string>)

  /** A calendar event. `start` and `end` are the strings the calendar stores;
      `allDay` is the truthiness of the `allDay` property. */
  datatype Event = Event(
    id: Option<string>,
    title: Option<string>,
    start: Option<string>,
    end: Option<string>,
    allDay: bool,
    color: Option<string>,
    props: Option<Props>)

  /** The shape every event in the store has after normalization. */
  predicate IsNormalized(e: Event) {
    && Truthy(e.id)
    && Truthy(e.color)
    && e.props.Some?
    && Truthy(e.props.value.kind)
    && e.props.value.hours.Some?
  }

  /** `eventItem.extendedProps?.type || 'vacation'`. */
  function EventKind(e: Event): string {
    if e.props.Some? && Truthy(e.props.value.kind) then e.props.value.kind.value else "vacation"
  }

  /** The numeric `hours`, or else a full day (7.5) for an all-day event and one
      hour for a timed one. */
  function EventHours(e: Event): real {
    if e.props.Some? && e.props.value.hours.Some? then e.props.value.hours.value
    else if e.allDay then 7.5 else 1.0
  }

  /** `Math.round(x)`: the nearest integer, halves rounded up. */
  function RoundHalfUp(x: real): (n: int)
    ensures x - 0.5 < n as real <= x + 0.5
  {
    (x + 0.5).Floor
  }

  /** The normalized `end`: for a timed event whose `start` parses, `start` plus
      the event's hours in whole minutes, in local date-time form; otherwise the
      `end` as given. */
  function NormalizedEnd(e: Event, hours: real, parse: string -> Option<DateTime>): Option<string> {
    if !e.allDay && Truthy(e.start) && parse(e.start.value).Some? then
      Some(FormatLocalDateTime(EndTime(parse(e.start.value).value, hours)))
    else e.end
  }

  /** `normalizeEvent(eventItem, index)`: fills in the defaults; the title, start,
      all-day flag and every other extended property are kept. */
  function NormalizeEvent(e: Event, index: nat, parse: string -> Option<DateTime>): (r: Event)
    ensures IsNormalized(r)
    ensures r.title == e.title && r.start == e.start && r.allDay == e.allDay
    ensures r.props.value.others == if e.props.Some? then e.props.value.others else map[]
  {
    var kind := EventKind(e);
    var hours := EventHours(e);
    Event(
      id := if Truthy(e.id) then e.id else Some(NatToString(index + 1)),
      title := e.title,
      start := e.start,
      end := NormalizedEnd(e, hours, parse),
      allDay := e.allDay,
      color := if Truthy(e.color) then e.color
               else if PtoColor(kind).Some? then PtoColor(kind)
               else Some(DefaultEventColor),
      props := Some(Props(Some(kind), Some(hours), if e.props.Some? then e.props.value.others else map[])))
  }

  /** The defaults the normalizer fills in, field by field. */
  lemma NormalizeEventDefaults(e: Event, index: nat, parse: string -> Option<DateTime>)
    ensures var r := NormalizeEvent(e, index, parse);
      && r.props.value.kind == Some(if e.props.Some? && Truthy(e.props.value.kind) then e.props.value.kind.value else "vacation")
      && r.props.value.hours == Some(if e.props.Some? && e.props.value.hours.Some? then e.props.value.hours.value
                                     else if e.allDay then 7.5 else 1.0)
      && r.id == (if Truthy(e.id) then e.id else Some(NatToString(index + 1)))
      && (Truthy(e.color) ==> r.color == e.color)
      && (!Truthy(e.color) && r.props.value.kind.value in EventTypes ==> r.color == PtoColor(r.props.value.kind.value))
      && (!Truthy(e.color) && r.props.value.kind.value !in EventTypes ==> r.color == Some(DefaultEventColor))
  {
  }

  /** A timed event whose start parses ends exactly its hours, rounded to whole
      minutes, after its start, whatever `end` it came with; every other event
      keeps its `end`. */
  lemma NormalizeEventEnd(e: Event, index: nat, parse: string -> Option<DateTime>)
    ensures var r := NormalizeEvent(e, index, parse);
      if !e.allDay && Truthy(e.start) && parse(e.start.value).Some? then
        r.end == Some(FormatLocalDateTime(EndTime(parse(e.start.value).value, r.props.value.hours.value)))
      else r.end == e.end
  {
  }

  /** The moment a timed event of `hours` hours starting at `t` ends. */
  function EndTime(t: DateTime, hours: real): (r: DateTime)
    ensures AbsoluteMinute(r) == AbsoluteMinute(t) + RoundHalfUp(hours * 60.0)
    ensures r.second == t.second
  {
    AddMinutes(t, RoundHalfUp(hours * 60.0))
  }

  /** The end text of a timed event reads back as its end time (for a four-digit
      year), and going back by the event's minutes from there gives its start. */
  lemma EndTimeReadsBack(t: DateTime, hours: real)
    ensures var u := EndTime(t, hours);
      && (1000 <= u.date.year <= 9999 ==>
            IsLocalDateTime(FormatLocalDateTime(u)) && ReadLocalDateTime(FormatLocalDateTime(u)) == Some(u.(second := 0)))
      && AddMinutes(u, -RoundHalfUp(hours * 60.0)) == t
  {
    var u := EndTime(t, hours);
    if 1000 <= u.date.year <= 9999 {
      FormatLocalDateTimeRoundTrip(u);
    }
    AddMinutesInverse(t, RoundHalfUp(hours * 60.0));
  }

  /** Normalizing an already normalized event changes nothing, so events survive
      every reload and re-normalization unchanged. */
  lemma NormalizeEventIdempotent(e: Event, i: nat, j: nat, parse: string -> Option<DateTime>)
    ensures NormalizeEvent(NormalizeEvent(e, i, parse), j, parse) == NormalizeEvent(e, i, parse)
  {
  }

  /** `events.map(normalizeEvent)`: each event normalized with its position as
      the fallback index. */
  function NormalizeAll(raw: seq<Event>, parse: string -> Option<DateTime>): (r: seq<Event>)
    ensures |r| == |raw|
    ensures forall i :: 0 <= i < |r| ==> IsNormalized(r[i]) && r[i].title == raw[i].title && r[i].start == raw[i].start
    ensures forall i :: 0 <= i < |r| && !Truthy(raw[i].id) ==> r[i].id == Some(NatToString(i + 1))
  {
    seq(|raw|, i requires 0 <= i < |raw| => NormalizeEvent(raw[i], i, parse))
  }

  /** Appending an event with `addEvent` gives the list `setEvents` would
      make of the raw events with that event appended. */
  lemma NormalizeAllAppend(raw: seq<Event>, e: Event, parse: string -> Option<DateTime>)
    ensures NormalizeAll(raw, parse) + [NormalizeEvent(e, |raw|, parse)] == NormalizeAll(raw + [e], parse)
  {
    var left := NormalizeAll(raw, parse) + [NormalizeEvent(e, |raw|, parse)];
    var right := NormalizeAll(raw + [e], parse);
    assert |left| == |right|;
    forall i | 0 <= i < |left|
      ensures left[i] == right[i]
    {
      if i < |raw| {
        assert (raw + [e])[i] == raw[i];
      }
    }
  }

  // ------------------------------------------------------------- fiscal year

  /** `getFiscalYear(date)`: the calendar year, less one before the start month.
      The start month is whatever number the settings hold. */
  function FiscalYear(startMonth: real, t: DateTime): (y: int)
    ensures y == t.date.year || y == t.date.year - 1
    ensures y == t.date.year <==> startMonth <= t.date.month as real
  {
    if (t.date.month as real) < startMonth then t.date.year - 1 else t.date.year
  }

  /** Fiscal year `y` runs from the start month of calendar year `y` up to the
      month before it in year `y + 1`; the start month itself opens the new year. */
  lemma FiscalYearSpan(startMonth: real, t: DateTime, y: int)
    ensures FiscalYear(startMonth, t) == y <==>
      (t.date.year == y && startMonth <= t.date.month as real) ||
      (t.date.year == y + 1 && (t.date.month as real) < startMonth)
  {
  }

  /** A later month never belongs to an earlier fiscal year. */
  lemma FiscalYearMonotone(startMonth: real, t: DateTime, u: DateTime)
    requires t.date.year < u.date.year || (t.date.year == u.date.year && t.date.month <= u.date.month)
    ensures FiscalYear(startMonth, t) <= FiscalYear(startMonth, u)
  {
  }

  /** `currentFy`: the current fiscal year as a string. */
  function CurrentFy(startMonth: real, now: DateTime): (s: string)
    ensures FiscalYear(startMonth, now) >= 0 ==> AllDigits(s) && DigitsValue(s) == FiscalYear(startMonth, now)
    ensures FiscalYear(startMonth, now) < 0 ==> |s| > 0 && s[0] == '-'
  {
    var fy := FiscalYear(startMonth, now);
    if fy >= 0 then NatToStringRoundTrip(fy); IntToString(fy)
    else IntToString(fy)
  }

  // ---------------------------------------------------------------- settings

  datatype Settings = Settings(
    hoursPerDay: real,
    fiscalYearStartMonth: real,
    showHolidayInTracker: bool,
    themeMode: string,
    bucketSizes: map<string, real>)

  const DefaultSettings: Settings := Settings(7.5, 3.0, true, "system", DefaultBalances)

  /** The defaults already are what the setters would store: each number within
      its setter's bounds, a known theme, and a size for exactly the four
      bucket keys. */
  lemma DefaultSettingsInRange()
    ensures ClampHoursPerDay(Some(DefaultSettings.hoursPerDay)) == DefaultSettings.hoursPerDay
    ensures ClampStartMonth(Some(DefaultSettings.fiscalYearStartMonth)) == DefaultSettings.fiscalYearStartMonth
    ensures NormalizeThemeMode(DefaultSettings.themeMode) == DefaultSettings.themeMode
    ensures DefaultSettings.bucketSizes.Keys == set k | k in BucketKeys
    ensures forall k :: k in DefaultSettings.bucketSizes ==> ClampBucketHours(Some(DefaultSettings.bucketSizes[k])) == DefaultSettings.bucketSizes[k]
  {
  }

  /** The fields a partial settings object passes to `updateSettings`; `None`
      for a field it does not have. */
  datatype SettingsPatch = SettingsPatch(
    hoursPerDay: Option<real>,
    fiscalYearStartMonth: Option<real>,
    showHolidayInTracker: Option<bool>,
    themeMode: Option<string>,
    bucketSizes: Option<map<string, real>>)

  /** `{...settings, ...next, bucketSizes: {...settings.bucketSizes, ...next.bucketSizes}}`:
      top-level fields are overwritten as given, without validation; bucket sizes
      are merged key by key. */
  function MergeSettings(s: Settings, p: SettingsPatch): (r: Settings)
    ensures r.bucketSizes.Keys == s.bucketSizes.Keys + p.bucketSizes.GetOr(map[]).Keys
    ensures forall k :: k in p.bucketSizes.GetOr(map[]) ==> r.bucketSizes[k] == p.bucketSizes.value[k]
    ensures forall k :: k in s.bucketSizes && k !in p.bucketSizes.GetOr(map[]) ==> r.bucketSizes[k] == s.bucketSizes[k]
    ensures r.hoursPerDay == if p.hoursPerDay.Some? then p.hoursPerDay.value else s.hoursPerDay
    ensures r.fiscalYearStartMonth == if p.fiscalYearStartMonth.Some? then p.fiscalYearStartMonth.value else s.fiscalYearStartMonth
    ensures r.showHolidayInTracker == if p.showHolidayInTracker.Some? then p.showHolidayInTracker.value else s.showHolidayInTracker
    ensures r.themeMode == if p.themeMode.Some? then p.themeMode.value else s.themeMode
  {
    Settings(
      p.hoursPerDay.GetOr(s.hoursPerDay),
      p.fiscalYearStartMonth.GetOr(s.fiscalYearStartMonth),
      p.showHolidayInTracker.GetOr(s.showHolidayInTracker),
      p.themeMode.GetOr(s.themeMode),
      s.bucketSizes + p.bucketSizes.GetOr(map[]))
  }

  /** Applying the same partial settings twice is applying them once. */
  lemma MergeSettingsIdempotent(s: Settings, p: SettingsPatch)
    ensures MergeSettings(MergeSettings(s, p), p) == MergeSettings(s, p)
  {
  }

  /** `Number(month)` clamped to 0..11; a non-finite value gives 0. */
  function ClampStartMonth(month: Option<real>): (r: real)
    ensures 0.0 <= r <= 11.0
    ensures month.Some? && 0.0 <= month.value <= 11.0 ==> r == month.value
    ensures month.Some? && month.value > 11.0 ==> r == 11.0
    ensures month.None? || month.value < 0.0 ==> r == 0.0
  {
    match month
    case None => 0.0
    case Some(m) => if m < 0.0 then 0.0 else if m > 11.0 then 11.0 else m
  }

  /** `Math.max(Number(hours), 0)`; a non-finite value gives 0. */
  function ClampBucketHours(hours: Option<real>): (r: real)
    ensures r >= 0.0
    ensures hours.Some? && hours.value >= 0.0 ==> r == hours.value
    ensures hours.None? || hours.value < 0.0 ==> r == 0.0
  {
    match hours
    case None => 0.0
    case Some(h) => if h < 0.0 then 0.0 else h
  }

  /** `Math.max(Number(hours), 0.25)`; a non-finite value gives 7.5. */
  function ClampHoursPerDay(hours: Option<real>): (r: real)
    ensures r >= 0.25
    ensures hours.Some? && hours.value >= 0.25 ==> r == hours.value
    ensures hours.Some? && hours.value < 0.25 ==> r == 0.25
    ensures hours.None? ==> r == 7.5
  {
    match hours
    case None => 7.5
    case Some(h) => if h < 0.25 then 0.25 else h
  }

  /** A theme mode other than `system`, `light` and `dark` becomes `system`. */
  function NormalizeThemeMode(mode: string): (r: string)
    ensures r in ThemeModes
    ensures mode in ThemeModes ==> r == mode
    ensures mode !in ThemeModes ==> r == "system"
  {
    if mode in ThemeModes then mode else "system"
  }

  // ----------------------------------------------------------------- balances

  /** One year's balance: bucket key to hours; `None` for a stored value that is
      not a number (a string or `null` read back from storage). */
  type Balance = map<string, Option<real>>

  /** `yearlyBalances`: the fiscal year's decimal text to its balance. */
  type YearlyBalances = map<string, Balance>

  function YearKey(fy: int): string {
    IntToString(fy)
  }

  /** `Number(bucketSizes[k] || 0)`. */
  function SizeOr0(sizes: map<string, real>, k: string): real {
    if k in sizes then sizes[k] else 0.0
  }

  /** `{ ...bucketSizes }`: a new year's balance before it is completed. */
  function CloneSizes(sizes: map<string, real>): (b: Balance)
    ensures b.Keys == sizes.Keys
    ensures forall k :: k in sizes ==> b[k] == Some(sizes[k])
  {
    map k | k in sizes :: Some(sizes[k])
  }

  /** `typeof balance[k] === 'number'`. */
  predicate IsNumeric(b: Balance, k: string) {
    k in b && b[k].Some?
  }

  /** The balance after the `forEach` has visited `keys`: each of them that was
      not a number gets its default size or 0; every other entry is as it was. */
  function FillBuckets(b: Balance, sizes: map<string, real>, keys: seq<string>): (r: Balance)
    ensures r.Keys == b.Keys + set k | k in keys
  {
    map k | k in b.Keys + (set x | x in keys) ::
      if k in keys && !IsNumeric(b, k) then Some(SizeOr0(sizes, k)) else b[k]
  }

  /** Before the `forEach` nothing is filled in. */
  lemma FillBucketsNone(b: Balance, sizes: map<string, real>)
    ensures FillBuckets(b, sizes, []) == b
  {
  }

  /** One more turn of the `forEach`, on a key not visited before: it is given
      its size, or 0, when it is not yet a number. */
  lemma FillBucketsStep(b: Balance, sizes: map<string, real>, keys: seq<string>, k: string)
    requires k !in keys
    ensures var current := FillBuckets(b, sizes, keys);
      FillBuckets(b, sizes, keys + [k]) == if IsNumeric(current, k) then current else current[k := Some(SizeOr0(sizes, k))]
  {
    var current := FillBuckets(b, sizes, keys);
    var next := FillBuckets(b, sizes, keys + [k]);
    var expected := if IsNumeric(current, k) then current else current[k := Some(SizeOr0(sizes, k))];
    assert IsNumeric(current, k) == IsNumeric(b, k);
    assert next.Keys == expected.Keys;
    forall x | x in next
      ensures next[x] == expected[x]
    {
      assert x in keys + [k] <==> x in keys || x == k;
    }
  }

  /** The bucket keys are distinct, so the `forEach` never visits one twice. */
  lemma BucketKeysDistinct(i: nat)
    requires i < |BucketKeys|
    ensures BucketKeys[i] !in BucketKeys[..i]
    ensures BucketKeys[..i + 1] == BucketKeys[..i] + [BucketKeys[i]]
  {
  }

  /** What `ensureBalanceForYear` makes of a year's stored balance (`None` when
      the year has none): a copy of the bucket sizes for a new year, then every
      bucket key completed. */
  function ReconciledYear(existing: Option<Balance>, sizes: map<string, real>): (b: Balance)
    ensures b.Keys == existing.GetOr(CloneSizes(sizes)).Keys + set k | k in BucketKeys
    ensures forall k :: k in BucketKeys ==> IsNumeric(b, k)
  {
    FillBuckets(existing.GetOr(CloneSizes(sizes)), sizes, BucketKeys)
  }

  function Lookup(yb: YearlyBalances, key: string): Option<Balance> {
    if key in yb then Some(yb[key]) else None
  }

  /** The yearly balances after `ensureBalanceForYear(fy)`. */
  function EnsuredBalances(yb: YearlyBalances, fy: int, sizes: map<string, real>): (r: YearlyBalances)
    ensures r.Keys == yb.Keys + {YearKey(fy)}
    ensures forall k :: k in BucketKeys ==> IsNumeric(r[YearKey(fy)], k)
  {
    yb[YearKey(fy) := ReconciledYear(Lookup(yb, YearKey(fy)), sizes)]
  }

  /** Afterwards the year holds a number for every bucket key; numbers already
      there and entries that are not bucket keys are untouched; a bucket key that
      was missing or not a number gets its default size, or 0. */
  lemma EnsureBalanceCompletes(yb: YearlyBalances, fy: int, sizes: map<string, real>)
    ensures var b := EnsuredBalances(yb, fy, sizes)[YearKey(fy)];
      && (forall k :: k in BucketKeys ==> IsNumeric(b, k))
      && (YearKey(fy) in yb ==> forall k :: IsNumeric(yb[YearKey(fy)], k) ==> b[k] == yb[YearKey(fy)][k])
      && (YearKey(fy) in yb ==> forall k :: k in yb[YearKey(fy)] && k !in BucketKeys ==> b[k] == yb[YearKey(fy)][k])
      && (YearKey(fy) in yb ==> forall k :: k in BucketKeys && !IsNumeric(yb[YearKey(fy)], k) ==> b[k] == Some(SizeOr0(sizes, k)))
      && (YearKey(fy) in yb ==> b.Keys == yb[YearKey(fy)].Keys + set k | k in BucketKeys)
  {
  }

  /** A year seen for the first time starts as a copy of the bucket sizes, each
      bucket key missing from them at 0. */
  lemma EnsureBalanceNewYear(yb: YearlyBalances, fy: int, sizes: map<string, real>)
    requires YearKey(fy) !in yb
    ensures var b := EnsuredBalances(yb, fy, sizes)[YearKey(fy)];
      && b.Keys == sizes.Keys + (set k | k in BucketKeys)
      && (forall k :: k in sizes ==> b[k] == Some(sizes[k]))
      && (forall k :: k in BucketKeys && k !in sizes ==> b[k] == Some(0.0))
  {
  }

  /** Only the requested year changes: every other fiscal year keeps its balance,
      or keeps having none. */
  lemma EnsureBalanceOtherYears(yb: YearlyBalances, fy: int, sizes: map<string, real>, other: int)
    requires other != fy
    ensures var r := EnsuredBalances(yb, fy, sizes);
      (YearKey(other) in r <==> YearKey(other) in yb) &&
      (YearKey(other) in yb ==> r[YearKey(other)] == yb[YearKey(other)])
  {
    IntToStringInjective(other, fy);
  }

  /** Ensuring the same year twice is ensuring it once. */
  lemma EnsureBalanceIdempotent(yb: YearlyBalances, fy: int, sizes: map<string, real>)
    ensures EnsuredBalances(EnsuredBalances(yb, fy, sizes), fy, sizes) == EnsuredBalances(yb, fy, sizes)
  {
    var key := YearKey(fy);
    var b := EnsuredBalances(yb, fy, sizes)[key];
    assert ReconciledYear(Some(b), sizes) == b;
  }

  /** The yearly balances after `updateBucketSize(bucket, v)` with the new sizes
      `sizes`: the year is ensured, then its entry for `bucket` is set to `v`. */
  function WithBucketSize(yb: YearlyBalances, fy: int, sizes: map<string, real>, bucket: string, v: real): (r: YearlyBalances)
    ensures r.Keys == yb.Keys + {YearKey(fy)}
    ensures YearKey(fy) in r && bucket in r[YearKey(fy)] && r[YearKey(fy)][bucket] == Some(v)
    ensures forall k :: k in BucketKeys ==> IsNumeric(r[YearKey(fy)], k)
  {
    var ensured := EnsuredBalances(yb, fy, sizes);
    ensured[YearKey(fy) := ensured[YearKey(fy)][bucket := Some(v)]]
  }

  /** Changing a bucket's size resets that bucket in the current fiscal year
      only: the other buckets of the year are as ensuring left them, and every
      other year keeps its balance. */
  lemma BucketSizeEffect(yb: YearlyBalances, fy: int, sizes: map<string, real>, bucket: string, v: real, other: int)
    requires bucket in BucketKeys && other != fy
    ensures var r := WithBucketSize(yb, fy, sizes, bucket, v);
      var ensured := EnsuredBalances(yb, fy, sizes)[YearKey(fy)];
      && r[YearKey(fy)][bucket] == Some(v)
      && (forall k :: k in ensured && k != bucket ==> r[YearKey(fy)][k] == ensured[k])
      && r[YearKey(fy)].Keys == ensured.Keys
      && (YearKey(other) in r <==> YearKey(other) in yb)
      && (YearKey(other) in yb ==> r[YearKey(other)] == yb[YearKey(other)])
  {
    IntToStringInjective(other, fy);
    EnsureBalanceCompletes(yb, fy, sizes);
  }

  // -------------------------------------------------------------------- usage

  /** `Number(extendedProps?.hours || 0)`. */
  function HoursOrZero(e: Event): real {
    if e.props.Some? && e.props.value.hours.Some? then e.props.value.hours.value else 0.0
  }

  /** What one event adds to the usage of `kind` in fiscal year `fy`: its hours
      when it has a start that parses into that fiscal year and its type is
      `kind`, one of the event types; nothing otherwise. */
  function Contribution(e: Event, kind: string, startMonth: real, fy: int, parse: string -> Option<DateTime>): real {
    if && Truthy(e.start)
       && parse(e.start.value).Some?
       && FiscalYear(startMonth, parse(e.start.value).value) == fy
       && e.props.Some?
       && e.props.value.kind == Some(kind)
       && kind in EventTypes
    then HoursOrZero(e)
    else 0.0
  }

  /** The hours of type `kind` used in fiscal year `fy`. */
  function TypeTotal(events: seq<Event>, kind: string, startMonth: real, fy: int, parse: string -> Option<DateTime>): (r: real)
    ensures kind !in EventTypes ==> r == 0.0
    ensures (forall i :: 0 <= i < |events| ==> HoursOrZero(events[i]) >= 0.0) ==> r >= 0.0
  {
    if events == [] then 0.0
    else TypeTotal(events[..|events| - 1], kind, startMonth, fy, parse)
         + Contribution(events[|events| - 1], kind, startMonth, fy, parse)
  }

  /** `usageStats`: for each event type, the hours used in the fiscal year of `now`. */
  function UsageSpec(events: seq<Event>, startMonth: real, now: DateTime, parse: string -> Option<DateTime>): (r: map<string, real>)
    ensures r.Keys == set k | k in EventTypes
    ensures events == [] ==> forall k :: k in r ==> r[k] == 0.0
  {
    UsageIn(events, startMonth, FiscalYear(startMonth, now), parse)
  }

  /** For each event type, the hours used in fiscal year `fy`. */
  function UsageIn(events: seq<Event>, startMonth: real, fy: int, parse: string -> Option<DateTime>): map<string, real> {
    map k | k in EventTypes :: TypeTotal(events, k, startMonth, fy, parse)
  }

  /** One more event adds its hours to its own type, when it counts at all,
      and leaves every other total as it was. */
  lemma UsageInStep(events: seq<Event>, e: Event, startMonth: real, fy: int, parse: string -> Option<DateTime>)
    ensures var u := UsageIn(events, startMonth, fy, parse);
      UsageIn(events + [e], startMonth, fy, parse)
      == if && Truthy(e.start) && parse(e.start.value).Some?
            && FiscalYear(startMonth, parse(e.start.value).value) == fy
            && e.props.Some? && e.props.value.kind.Some? && e.props.value.kind.value in u
         then u[e.props.value.kind.value := u[e.props.value.kind.value] + HoursOrZero(e)]
         else u
  {
    assert (events + [e])[..|events|] == events;
  }

  /** Usage of a list is the usage of its parts. */
  lemma {:induction false} TypeTotalAppend(a: seq<Event>, b: seq<Event>, kind: string, startMonth: real, fy: int, parse: string -> Option<DateTime>)
    ensures TypeTotal(a + b, kind, startMonth, fy, parse)
         == TypeTotal(a, kind, startMonth, fy, parse) + TypeTotal(b, kind, startMonth, fy, parse)
    decreases |b|
  {
    if b == [] {
      assert a + b == a;
    } else {
      var b' := b[..|b| - 1];
      assert (a + b)[..|a + b| - 1] == a + b';
      TypeTotalAppend(a, b', kind, startMonth, fy, parse);
    }
  }

  /** An event without a start, whose start does not parse, from another fiscal
      year, or of another or unknown type adds nothing, wherever it stands. */
  lemma TypeTotalSkips(a: seq<Event>, e: Event, b: seq<Event>, kind: string, startMonth: real, fy: int, parse: string -> Option<DateTime>)
    requires || !Truthy(e.start)
             || parse(e.start.value).None?
             || FiscalYear(startMonth, parse(e.start.value).value) != fy
             || e.props.None? || e.props.value.kind != Some(kind)
             || kind !in EventTypes
    ensures TypeTotal(a + [e] + b, kind, startMonth, fy, parse) == TypeTotal(a + b, kind, startMonth, fy, parse)
  {
    TypeTotalAppend(a + [e], b, kind, startMonth, fy, parse);
    TypeTotalAppend(a, [e], kind, startMonth, fy, parse);
    TypeTotalAppend(a, b, kind, startMonth, fy, parse);
    assert TypeTotal([e], kind, startMonth, fy, parse) == 0.0 by {
      assert [e][..0] == [];
    }
  }

  // -------------------------------------------------------------- event lists

  /** `findIndex((entry) => entry.id === id)`: the first position holding that
      id, or -1. */
  function IndexOfId(events: seq<Event>, id: Option<string>): (r: int)
    ensures -1 <= r < |events|
    ensures r >= 0 ==> events[r].id == id && forall j :: 0 <= j < r ==> events[j].id != id
    ensures r == -1 <==> forall j :: 0 <= j < |events| ==> events[j].id != id
  {
    if events == [] then -1
    else if events[0].id == id then 0
    else
      var r := IndexOfId(events[1..], id);
      if r < 0 then -1 else r + 1
  }

  /** The list after `upsertEvent` of the already normalized event `n`: it
      replaces the first event with its id, or is appended. */
  function Upserted(events: seq<Event>, n: Event): (r: seq<Event>)
    ensures var i := IndexOfId(events, n.id);
      if i >= 0 then |r| == |events| && r[i] == n && forall j :: 0 <= j < |r| && j != i ==> r[j] == events[j]
      else r == events + [n]
  {
    var i := IndexOfId(events, n.id);
    if i >= 0 then events[i := n] else events + [n]
  }

  /** Upserting the same event twice is upserting it once. */
  lemma UpsertedIdempotent(events: seq<Event>, n: Event)
    ensures Upserted(Upserted(events, n), n) == Upserted(events, n)
  {
    var once := Upserted(events, n);
    var i := IndexOfId(events, n.id);
    if i < 0 {
      assert once[|events|] == n;
    }
    var j := IndexOfId(once, n.id);
    assert j >= 0;
    assert j == if i >= 0 then i else |events|;
  }

  /** `filter((entry) => entry.id !== id)`. */
  function WithoutId(events: seq<Event>, id: string): (r: seq<Event>)
    ensures forall j :: 0 <= j < |r| ==> r[j].id != Some(id)
  {
    if events == [] then []
    else if events[0].id == Some(id) then WithoutId(events[1..], id)
    else [events[0]] + WithoutId(events[1..], id)
  }

  /** An event survives the filter exactly when it is in the list and has
      another id. */
  lemma {:induction false} WithoutIdMembers(events: seq<Event>, id: string)
    ensures forall e :: e in WithoutId(events, id) <==> e in events && e.id != Some(id)
    decreases |events|
  {
    if events != [] {
      WithoutIdMembers(events[1..], id);
      assert forall e :: e in events <==> e == events[0] || e in events[1..];
    }
  }

  /** Filtering keeps order: filtering a concatenation filters each part. */
  lemma {:induction false} WithoutIdAppend(a: seq<Event>, b: seq<Event>, id: string)
    ensures WithoutId(a + b, id) == WithoutId(a, id) + WithoutId(b, id)
    decreases |a|
  {
    if a != [] {
      assert (a + b)[0] == a[0];
      assert (a + b)[1..] == a[1..] + b;
      WithoutIdAppend(a[1..], b, id);
      if a[0].id == Some(id) {
        assert WithoutId(a + b, id) == WithoutId(a[1..] + b, id);
      } else {
        assert WithoutId(a + b, id) == [a[0]] + WithoutId(a[1..] + b, id);
      }
    } else {
      assert a + b == b;
    }
  }

  /** Deleting an id no event has leaves the list as it was. */
  lemma {:induction false} WithoutIdAbsent(events: seq<Event>, id: string)
    requires forall j :: 0 <= j < |events| ==> events[j].id != Some(id)
    ensures WithoutId(events, id) == events
    decreases |events|
  {
    if events != [] {
      WithoutIdAbsent(events[1..], id);
      assert [events[0]] + events[1..] == events;
    }
  }

  /** Deleting the same id twice is deleting it once. */
  lemma WithoutIdIdempotent(events: seq<Event>, id: string)
    ensures WithoutId(WithoutId(events, id), id) == WithoutId(events, id)
  {
    WithoutIdAbsent(WithoutId(events, id), id);
  }

  /** An event without an id gets `String(length + 1)`, which may already be the
      id of an event in the list: after `deleteEvent('1')` on events `'2'` and
      `'3'`, upserting an event without an id replaces event `'3'` instead of
      adding a new one. */
  lemma UpsertWithoutIdCanReplace(a: Event, b: Event, e: Event, parse: string -> Option<DateTime>)
    requires a.id == Some("2") && b.id == Some("3") && e.id == None
    ensures Upserted([a, b], NormalizeEvent(e, 2, parse)) == [a, NormalizeEvent(e, 2, parse)]
  {
    var n := NormalizeEvent(e, 2, parse);
    assert NatToString(3) == [DigitChar(3)] == "3";
    assert n.id == Some("3");
    assert a.id != n.id;
    assert IndexOfId([a, b], n.id) == 1 by {
      assert [a, b][1..] == [b];
    }
  }
}
